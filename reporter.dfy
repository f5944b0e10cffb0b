/**
 * The report `run` prints once the file is read: the keys in sorted order,
 * each as `name padded : length right-aligned to 5`, optionally only the
 * one requested field.
 */
module Reporter {
  import opened Wrappers
  import opened Accumulator

  /** Python's `a < b` on `str`: code point by code point, a proper prefix first. */
  predicate Below(a: string, b: string)
    ensures Below(a, b) ==> a != b
    ensures a < b ==> Below(a, b)
    decreases |a|
  {
    if |a| == 0 then |b| > 0
    else if |b| == 0 then false
    else if a[0] != b[0] then a[0] < b[0]
    else Below(a[1..], b[1..])
  }

  lemma {:induction false} BelowIrreflexive(a: string)
    ensures !Below(a, a)
    decreases |a|
  {
    if |a| > 0 {
      BelowIrreflexive(a[1..]);
    }
  }

  lemma {:induction false} BelowAsymmetric(a: string, b: string)
    requires Below(a, b)
    ensures !Below(b, a)
    decreases |a|
  {
    if |a| > 0 && a[0] == b[0] {
      BelowAsymmetric(a[1..], b[1..]);
    }
  }

  lemma {:induction false} BelowTransitive(a: string, b: string, c: string)
    requires Below(a, b) && Below(b, c)
    ensures Below(a, c)
    decreases |a|
  {
    if |a| > 0 && a[0] == b[0] && b[0] == c[0] {
      BelowTransitive(a[1..], b[1..], c[1..]);
    }
  }

  lemma {:induction false} BelowTotal(a: string, b: string)
    requires a != b
    ensures Below(a, b) || Below(b, a)
    decreases |a|
  {
    if |a| > 0 && |b| > 0 && a[0] == b[0] {
      assert a == [a[0]] + a[1..] && b == [b[0]] + b[1..];
      BelowTotal(a[1..], b[1..]);
    }
  }

  lemma BelowAsymmetricAll()
    ensures forall a, b :: Below(a, b) ==> !Below(b, a)
  {
    forall a, b | Below(a, b) ensures !Below(b, a) {
      BelowAsymmetric(a, b);
    }
  }

  /** `k` comes before every other member of `S`. */
  predicate Least(k: string, S: set<string>) {
    forall j :: j in S && j != k ==> Below(k, j)
  }

  predicate Ascending(ks: seq<string>) {
    forall i, j :: 0 <= i < j < |ks| ==> Below(ks[i], ks[j])
  }

  /** Every finite non-empty set of strings has a least member. */
  lemma {:induction false} LeastExists(S: set<string>)
    requires S != {}
    ensures exists k :: k in S && Least(k, S)
    decreases |S|
  {
    var x :| x in S;
    if S != {x} {
      LeastExists(S - {x});
      var y :| y in S - {x} && Least(y, S - {x});
      BelowTotal(x, y);
      if Below(x, y) {
        forall j | j in S && j != x ensures Below(x, j) {
          if j != y {
            BelowTransitive(x, y, j);
          }
        }
        assert Least(x, S);
      } else {
        assert Least(y, S);
      }
    }
  }

  /** Putting the least member in front of an ascending listing of the rest lists the whole set in ascending order. */
  lemma ConsAscending(k: string, S: set<string>, rest: seq<string>)
    requires k in S && Least(k, S)
    requires |rest| == |S - {k}| && (forall j :: j in rest <==> j in S - {k}) && Ascending(rest)
    ensures |[k] + rest| == |S| && (forall j :: j in [k] + rest <==> j in S) && Ascending([k] + rest)
  {
    var ks := [k] + rest;
    forall i, j | 0 <= i < j < |ks| ensures Below(ks[i], ks[j]) {
      if i == 0 {
        assert ks[j] == rest[j - 1] && ks[j] in rest;
      } else {
        assert ks[i] == rest[i - 1] && ks[j] == rest[j - 1];
      }
    }
  }

  /** `sorted(lengths.keys())`: the keys in ascending order, each once. */
  function SortedKeys(S: set<string>): (ks: seq<string>)
    ensures |ks| == |S| && (forall k :: k in ks <==> k in S) && Ascending(ks)
    decreases |S|
  {
    if S == {} then []
    else
      LeastExists(S);
      BelowAsymmetricAll();
      var k :| k in S && Least(k, S);
      var rest := SortedKeys(S - {k});
      ConsAscending(k, S, rest);
      [k] + rest
  }

  /** There is one ascending sequence of a set's members: the order the keys were inserted in cannot show. */
  lemma {:induction false} AscendingUnique(a: seq<string>, b: seq<string>)
    requires Ascending(a) && Ascending(b)
    requires forall k :: k in a <==> k in b
    ensures a == b
    decreases |a| + |b|, if |a| == 0 then 1 else 0
  {
    if |a| > 0 {
      assert a[0] in a;
      assert b[0] in b;
      var i :| 0 <= i < |a| && a[i] == b[0];
      var j :| 0 <= j < |b| && b[j] == a[0];
      if a[0] != b[0] {
        assert Below(a[0], b[0]) && Below(b[0], a[0]);
        BelowAsymmetric(a[0], b[0]);
      } else {
        BelowIrreflexive(a[0]);
        forall k ensures k in a[1..] <==> k in b[1..] {
          if k in a[1..] {
            var x :| 1 <= x < |a| && a[x] == k;
            assert Below(a[0], k) && k in a;
            var y :| 0 <= y < |b| && b[y] == k;
            assert y != 0 && b[1..][y - 1] == k;
          }
          if k in b[1..] {
            var y :| 1 <= y < |b| && b[y] == k;
            assert Below(b[0], k) && k in b;
            var x :| 0 <= x < |a| && a[x] == k;
            assert x != 0 && a[1..][x - 1] == k;
          }
        }
        AscendingUnique(a[1..], b[1..]);
        assert a == [a[0]] + a[1..] && b == [b[0]] + b[1..];
      }
    } else if |b| > 0 {
      AscendingUnique(b, a);
    }
  }

  /** `max(len(col) for col in lengths.keys())`. */
  function NameWidth(ks: seq<string>): (w: nat)
    requires |ks| > 0
    ensures forall k :: k in ks ==> |k| <= w
    ensures exists k :: k in ks && |k| == w
  {
    if |ks| == 1 then |ks[0]|
    else
      var rest := NameWidth(ks[1..]);
      assert forall k :: k in ks ==> k == ks[0] || k in ks[1..];
      Max(|ks[0]|, rest)
  }

  const Digits := "0123456789"

  /** `str(n)` for a non-negative integer. */
  function Decimal(n: nat): (s: string)
    ensures |s| > 0 && forall i :: 0 <= i < |s| ==> s[i] in Digits
    ensures s[0] == '0' ==> n == 0
  {
    if n < 10 then [Digits[n]] else Decimal(n / 10) + [Digits[n % 10]]
  }

  /** `int(s)` for a string of decimal digits. */
  function ValueOf(s: string): nat {
    if s == [] then 0
    else
      var c := s[|s| - 1];
      var d := (c as int) - ('0' as int);
      ValueOf(s[..|s| - 1]) * 10 + (if 0 <= d < 10 then d else 0)
  }

  lemma {:induction false} DecimalRoundTrip(n: nat)
    ensures ValueOf(Decimal(n)) == n
  {
    var d := n % 10;
    assert (Digits[d] as int) - ('0' as int) == d by {
      assert Digits[0] == '0' && Digits[1] == '1' && Digits[2] == '2' && Digits[3] == '3' && Digits[4] == '4';
      assert Digits[5] == '5' && Digits[6] == '6' && Digits[7] == '7' && Digits[8] == '8' && Digits[9] == '9';
    }
    if n >= 10 {
      DecimalRoundTrip(n / 10);
      var s := Decimal(n);
      assert s[..|s| - 1] == Decimal(n / 10);
    }
  }

  function Spaces(n: nat): (s: string) {
    seq(n, _ => ' ')
  }

  /** `f"{s:<{w}}"`: `s` followed by spaces up to width `w`, never cut. */
  function PadRight(s: string, w: nat): (p: string)
    ensures |p| == Max(|s|, w) && p[..|s|] == s && forall i :: |s| <= i < |p| ==> p[i] == ' '
  {
    if |s| >= w then s else s + Spaces(w - |s|)
  }

  /** `f"{s:>{w}}"`: spaces up to width `w` followed by `s`, never cut. */
  function PadLeft(s: string, w: nat): (p: string)
    ensures |p| == Max(|s|, w) && p[|p| - |s|..] == s && forall i :: 0 <= i < |p| - |s| ==> p[i] == ' '
  {
    if |s| >= w then s else Spaces(w - |s|) + s
  }

  /** Line 117: `f"{col:<{max_column_length}} : {lengths[col]:>5}"`. */
  function FormatRow(name: string, len: nat, w: nat): (row: string)
    ensures |row| == Max(|name|, w) + 3 + Max(5, |Decimal(len)|)
  {
    PadRight(name, w) + " : " + PadLeft(Decimal(len), 5)
  }

  /** Line 115: with a field requested, only its line is printed. */
  predicate Selected(field: Option<string>, name: string)
  {
    field.None? || field.value == name
  }

  /** Lines 114-117: one line per selected key, in the order given. */
  function Rows(ks: seq<string>, m: Lengths, field: Option<string>, w: nat): (rows: seq<string>)
    requires forall k :: k in ks ==> k in m
  {
    if ks == [] then []
    else
      var last := ks[|ks| - 1];
      Rows(ks[..|ks| - 1], m, field, w) + (if Selected(field, last) then [FormatRow(last, m[last], w)] else [])
  }

  /** The key at position `j` adds its row after those of the keys before it, when it is selected. */
  lemma RowsStep(ks: seq<string>, j: nat, m: Lengths, field: Option<string>, w: nat)
    requires j < |ks| && forall k :: k in ks ==> k in m
    ensures Rows(ks[..j + 1], m, field, w)
      == Rows(ks[..j], m, field, w) + (if Selected(field, ks[j]) then [FormatRow(ks[j], m[ks[j]], w)] else [])
  {
    assert ks[..j + 1][..j] == ks[..j];
  }

  /** Lines 109-117: the printed lines, or ValueError from `max` when no line matched. */
  function Report(m: Lengths, field: Option<string>): (r: Result<seq<string>, Error>)
    ensures r.Failure? <==> m == map[]
    ensures r.Failure? ==> r.error == ValueError
  {
    if m == map[] then Failure(ValueError)
    else
      var ks := SortedKeys(m.Keys);
      assert ks != [] by {
        var k :| k in m;
        assert k in ks;
      }
      Success(Rows(ks, m, field, NameWidth(ks)))
  }

  lemma Joined(row: string, p: string, q: string, name: string, d: string, w: nat)
    requires row == p + " : " + q
    requires |name| <= w && |p| == w && p[..|name|] == name && (forall i :: |name| <= i < w ==> p[i] == ' ')
    requires |d| <= |q| && q[|q| - |d|..] == d && (forall i :: 0 <= i < |q| - |d| ==> q[i] == ' ')
    ensures |row| == w + 3 + |q|
    ensures row[..|name|] == name
    ensures forall i :: |name| <= i < w ==> row[i] == ' '
    ensures row[w..w + 3] == " : "
    ensures forall i :: w + 3 <= i < |row| - |d| ==> row[i] == ' '
    ensures row[|row| - |d|..] == d
  {
    assert row[..|name|] == p[..|name|];
    assert row[|row| - |d|..] == q[|q| - |d|..];
    forall i | w + 3 <= i < |row| - |d| ensures row[i] == ' ' {
      assert row[i] == q[i - w - 3];
    }
  }

  /**
   * A row is the name, spaces up to the widest name, ` : `, spaces up to
   * five columns and the decimal length.
   */
  lemma RowLayout(name: string, len: nat, w: nat)
    requires |name| <= w
    ensures var row, d := FormatRow(name, len, w), Decimal(len);
      && |row| == w + 3 + Max(5, |d|)
      && row[..|name|] == name
      && (forall i :: |name| <= i < w ==> row[i] == ' ')
      && row[w..w + 3] == " : "
      && (forall i :: w + 3 <= i < |row| - |d| ==> row[i] == ' ')
      && row[|row| - |d|..] == d
  {
    var d := Decimal(len);
    var p, q := PadRight(name, w), PadLeft(d, 5);
    Joined(FormatRow(name, len, w), p, q, name, d, w);
  }

  /** The number at the end of a row reads back as the recorded length. */
  lemma RowReadsBack(name: string, len: nat, w: nat)
    requires |name| <= w
    ensures var row := FormatRow(name, len, w);
      |row| >= |Decimal(len)| && ValueOf(row[|row| - |Decimal(len)|..]) == len
  {
    RowLayout(name, len, w);
    DecimalRoundTrip(len);
  }

  /** Without a requested field, one row per key, in ascending key order. */
  lemma {:induction false} RowsAll(ks: seq<string>, m: Lengths, w: nat)
    requires forall k :: k in ks ==> k in m
    ensures |Rows(ks, m, None, w)| == |ks|
    ensures forall i :: 0 <= i < |ks| ==> Rows(ks, m, None, w)[i] == FormatRow(ks[i], m[ks[i]], w)
  {
    if ks != [] {
      var init, last := ks[..|ks| - 1], ks[|ks| - 1];
      RowsAll(init, m, w);
      var r := Rows(init, m, None, w);
      var all := Rows(ks, m, None, w);
      assert all == r + [FormatRow(last, m[last], w)];
      forall i | 0 <= i < |ks| ensures all[i] == FormatRow(ks[i], m[ks[i]], w) {
        if i < |init| {
          assert ks[i] == init[i] && all[i] == r[i];
        } else {
          assert i == |r| && ks[i] == last;
        }
      }
    }
  }

  /** With a requested field, the row of that key if it is one of `ks`, else nothing. */
  lemma {:induction false} RowsOne(ks: seq<string>, m: Lengths, f: string, w: nat)
    requires forall k :: k in ks ==> k in m
    requires forall i, j :: 0 <= i < j < |ks| ==> ks[i] != ks[j]
    ensures Rows(ks, m, Some(f), w) == if f in ks then [FormatRow(f, m[f], w)] else []
  {
    if ks != [] {
      var init := ks[..|ks| - 1];
      RowsOne(init, m, f, w);
      if ks[|ks| - 1] == f {
        assert f !in init;
      }
      assert forall k :: k in ks <==> k in init || k == ks[|ks| - 1];
    }
  }

  /** `parse FILE`: every key once, ascending, each formatted with the widest key's width. */
  lemma ReportAll(m: Lengths)
    requires m != map[]
    ensures var ks := SortedKeys(m.Keys); var out := Report(m, None);
      && out.Success?
      && |out.value| == |m|
      && (forall i :: 0 <= i < |ks| ==> out.value[i] == FormatRow(ks[i], m[ks[i]], NameWidth(ks)))
  {
    RowsAll(SortedKeys(m.Keys), m, NameWidth(SortedKeys(m.Keys)));
  }

  /** `parse -f F FILE`: the single row of `F`, or nothing when `F` is no key. */
  lemma ReportOne(m: Lengths, f: string)
    requires m != map[]
    ensures var ks := SortedKeys(m.Keys);
      Report(m, Some(f)) == Success(if f in m then [FormatRow(f, m[f], NameWidth(ks))] else [])
  {
    var ks := SortedKeys(m.Keys);
    forall i, j | 0 <= i < j < |ks| ensures ks[i] != ks[j] {
      BelowIrreflexive(ks[i]);
    }
    RowsOne(ks, m, f, NameWidth(ks));
  }
}
