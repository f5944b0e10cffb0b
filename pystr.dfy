/**
 * The Python `str` methods the scanner relies on, for a non-empty search
 * string: `replace` and `split` scan from left to right and never let two
 * occurrences overlap; `join` glues parts with a separator.
 */
module PyStr {
  import opened Wrappers

  /** `pat` occurs in `s` starting at index `k`. */
  predicate At(s: string, pat: string, k: int) {
    0 <= k && k + |pat| <= |s| && s[k..k + |pat|] == pat
  }

  /** `pat` occurs nowhere in `s`. */
  ghost predicate Free(s: string, pat: string) {
    forall k :: !At(s, pat, k)
  }

  /** The first occurrence of `pat` in `s` at or after `from`. */
  function Find(s: string, pat: string, from: nat): (r: Option<nat>)
    requires |pat| > 0
    ensures r.Some? ==> from <= r.value && At(s, pat, r.value)
    ensures forall k :: from <= k && (r.None? || k < r.value) ==> !At(s, pat, k)
    decreases |s| - from
  {
    if from + |pat| > |s| then None
    else if s[from..from + |pat|] == pat then Some(from)
    else Find(s, pat, from + 1)
  }

  /** `s.replace(target, repl)`. */
  function Replace(s: string, target: string, repl: string): (r: string)
    requires |target| > 0
    ensures |repl| <= |target| ==> |r| <= |s|
    ensures |repl| >= |target| ==> |r| >= |s|
    decreases |s|
  {
    if |s| < |target| then s
    else if s[..|target|] == target then repl + Replace(s[|target|..], target, repl)
    else [s[0]] + Replace(s[1..], target, repl)
  }

  /** `s.count(pat)`: the number of non-overlapping occurrences, counted from the left. */
  function Count(s: string, pat: string): (n: nat)
    requires |pat| > 0
    ensures n * |pat| <= |s|
    decreases |s|
  {
    if |s| < |pat| then 0
    else if s[..|pat|] == pat then 1 + Count(s[|pat|..], pat)
    else Count(s[1..], pat)
  }

  /** `s.split(sep)`. */
  function Split(s: string, sep: string): (parts: seq<string>)
    requires |sep| > 0
    ensures |parts| > 0 && |parts| <= |s| + 1
    ensures s == "" ==> parts == [""]
    decreases |s|
  {
    match Find(s, sep, 0)
    case None => [s]
    case Some(k) => [s[..k]] + Split(s[k + |sep|..], sep)
  }

  /** `sep.join(parts)`. */
  function Join(parts: seq<string>, sep: string): (s: string)
    ensures |parts| > 0 ==> parts[0] <= s
  {
    if |parts| == 0 then ""
    else if |parts| == 1 then parts[0]
    else parts[0] + sep + Join(parts[1..], sep)
  }

  /** `sep` first occurs in `p + sep` where the appended copy starts. */
  predicate Leading(p: string, sep: string) {
    forall k :: 0 <= k < |p| ==> !At(p + sep, sep, k)
  }

  lemma AtShift(s: string, pat: string, k: int)
    requires |s| > 0 && 0 <= k
    ensures At(s[1..], pat, k) <==> At(s, pat, k + 1)
  {
    if k + 1 + |pat| <= |s| {
      assert s[1..][k..k + |pat|] == s[k + 1..k + 1 + |pat|];
    }
  }

  /** An occurrence past the first part of a concatenation is an occurrence in the second part. */
  lemma AtAfter(a: string, b: string, pat: string, k: int)
    requires k >= |a|
    ensures At(a + b, pat, k) <==> At(b, pat, k - |a|)
  {
    if k + |pat| <= |a + b| {
      assert (a + b)[k..k + |pat|] == b[k - |a|..k - |a| + |pat|];
    }
  }

  /** One mismatching character rules out an occurrence. */
  lemma NotAt(s: string, pat: string, k: int, i: nat)
    requires i < |pat| && (0 <= k + i < |s| ==> s[k + i] != pat[i])
    ensures !At(s, pat, k)
  {
  }

  /** A character of `pat` that `s` lacks keeps `pat` out of `s`. */
  lemma FreeByChar(s: string, pat: string, i: nat)
    requires i < |pat| && pat[i] !in s
    ensures Free(s, pat)
  {
  }

  /** A slice holds no occurrence when the whole string has none starting inside it. */
  lemma FreeSlice(s: string, pat: string, a: nat, b: nat)
    requires |pat| > 0 && a <= b <= |s|
    requires forall k :: a <= k < b ==> !At(s, pat, k)
    ensures Free(s[a..b], pat)
  {
    forall k | 0 <= k && k + |pat| <= b - a ensures !At(s[a..b], pat, k) {
      assert !At(s, pat, a + k);
      var x, y := s[a..b][k..k + |pat|], s[a + k..a + k + |pat|];
      assert |x| == |y|;
      forall t | 0 <= t < |x| ensures x[t] == y[t] {
        assert x[t] == s[a..b][k + t] == s[a + k + t];
      }
      assert x == y;
    }
  }

  /** Where no occurrence starts at the front, replacing keeps the first character. */
  lemma ReplaceCons(s: string, target: string, repl: string)
    requires |target| > 0 && |s| >= |target| && !At(s, target, 0)
    ensures Replace(s, target, repl) == [s[0]] + Replace(s[1..], target, repl)
  {
  }

  lemma ConsSplit(s: string, j: nat, rest: string)
    requires 0 < j <= |s|
    ensures s[1..][j - 1..] == s[j..] && [s[0]] + (s[1..][..j - 1] + rest) == s[..j] + rest
  {
    assert [s[0]] + s[1..][..j - 1] == s[..j];
  }

  /** Where an occurrence starts at the front, replacing puts `repl` there. */
  lemma ReplaceFront(s: string, target: string, repl: string)
    requires |target| > 0 && At(s, target, 0)
    ensures Replace(s, target, repl) == repl + Replace(s[|target|..], target, repl)
  {
  }

  /** Where an occurrence starts at the front, counting counts it. */
  lemma CountFront(s: string, pat: string)
    requires |pat| > 0 && At(s, pat, 0)
    ensures Count(s, pat) == 1 + Count(s[|pat|..], pat)
  {
  }

  /** Joining a part in front of at least one more puts the separator after it. */
  lemma JoinCons(p: string, parts: seq<string>, sep: string)
    requires |parts| > 0
    ensures Join([p] + parts, sep) == p + sep + Join(parts, sep)
  {
    assert ([p] + parts)[1..] == parts;
  }

  /** Replacing scans past a prefix free of occurrences unchanged. */
  lemma {:induction false} ReplaceSkips(s: string, target: string, repl: string, j: nat)
    requires |target| > 0 && j <= |s|
    requires forall k :: 0 <= k < j ==> !At(s, target, k)
    ensures Replace(s, target, repl) == s[..j] + Replace(s[j..], target, repl)
    decreases j
  {
    if j > 0 {
      if |s| < |target| {
        assert Replace(s[j..], target, repl) == s[j..];
        assert s == s[..j] + s[j..];
      } else {
        forall k | 0 <= k < j - 1 ensures !At(s[1..], target, k) {
          AtShift(s, target, k);
        }
        ReplaceSkips(s[1..], target, repl, j - 1);
        ReplaceCons(s, target, repl);
        ConsSplit(s, j, Replace(s[j..], target, repl));
      }
    }
  }

  /** Counting scans past a prefix free of occurrences without counting. */
  lemma {:induction false} CountSkips(s: string, pat: string, j: nat)
    requires |pat| > 0 && j <= |s|
    requires forall k :: 0 <= k < j ==> !At(s, pat, k)
    ensures Count(s, pat) == Count(s[j..], pat)
    decreases j
  {
    if j > 0 && |s| >= |pat| {
      assert !At(s, pat, 0);
      forall k | 0 <= k < j - 1 ensures !At(s[1..], pat, k) {
        AtShift(s, pat, k);
      }
      CountSkips(s[1..], pat, j - 1);
      assert s[1..][j - 1..] == s[j..];
    }
  }

  /** Split then join with the same separator gives back the string. */
  lemma {:induction false} JoinSplit(s: string, sep: string)
    requires |sep| > 0
    ensures Join(Split(s, sep), sep) == s
    decreases |s|
  {
    match Find(s, sep, 0)
    case None =>
    case Some(k) =>
      var rest := s[k + |sep|..];
      JoinSplit(rest, sep);
      assert s == s[..k] + sep + rest;
  }

  /** No part of a split contains the separator. */
  lemma {:induction false} SplitPartsFree(s: string, sep: string)
    requires |sep| > 0
    ensures forall i :: 0 <= i < |Split(s, sep)| ==> Free(Split(s, sep)[i], sep)
    decreases |s|
  {
    match Find(s, sep, 0)
    case None =>
    case Some(k) =>
      var rest := s[k + |sep|..];
      SplitPartsFree(rest, sep);
      forall j | At(s[..k], sep, j) ensures false {
        assert s[..k][j..j + |sep|] == s[j..j + |sep|];
        assert At(s, sep, j) && j < k;
      }
  }

  /** A split yields one part more than there are separators. */
  lemma {:induction false} SplitCount(s: string, sep: string)
    requires |sep| > 0
    ensures |Split(s, sep)| == Count(s, sep) + 1
    decreases |s|
  {
    match Find(s, sep, 0)
    case None =>
      assert Count(s, sep) == 0 by {
        CountSkips(s, sep, |s|);
        assert s[|s|..] == "";
      }
    case Some(k) =>
      var rest := s[k + |sep|..];
      assert Count(s, sep) == 1 + Count(rest, sep) by {
        CountSkips(s, sep, k);
        CountFront(s[k..], sep);
        assert s[k..][|sep|..] == rest;
      }
      assert |Split(s, sep)| == 1 + |Split(rest, sep)|;
      SplitCount(rest, sep);
  }

  /** When `p` is `Leading`, the first separator in `p + sep + rest` is the one after `p`. */
  lemma FindAfter(p: string, sep: string, rest: string)
    requires |sep| > 0 && Leading(p, sep)
    ensures Find(p + sep + rest, sep, 0) == Some(|p|)
  {
    var s := p + sep + rest;
    assert s[|p|..|p| + |sep|] == sep;
    forall k | 0 <= k < |p| ensures !At(s, sep, k) {
      assert !At(p + sep, sep, k);
      assert s[..|p + sep|] == p + sep;
    }
    assert At(s, sep, |p|);
  }

  /** Joining parts that each hold the separator only where the join puts it, then splitting, gives the parts back. */
  lemma {:induction false} SplitJoin(parts: seq<string>, sep: string)
    requires |sep| > 0 && |parts| > 0
    requires forall i :: 0 <= i < |parts| - 1 ==> Leading(parts[i], sep)
    requires Free(parts[|parts| - 1], sep)
    ensures Split(Join(parts, sep), sep) == parts
    decreases |parts|
  {
    if |parts| == 1 {
      assert Find(parts[0], sep, 0).None?;
    } else {
      var p, rest := parts[0], Join(parts[1..], sep);
      assert Join(parts, sep) == p + sep + rest;
      FindAfter(p, sep, rest);
      assert (p + sep + rest)[|p| + |sep|..] == rest;
      assert (p + sep + rest)[..|p|] == p;
      SplitJoin(parts[1..], sep);
      assert parts == [p] + parts[1..];
    }
  }

  /** `s.replace(target, repl)` is `repl.join(s.split(target))`. */
  lemma {:induction false} ReplaceIsJoinSplit(s: string, target: string, repl: string)
    requires |target| > 0
    ensures Replace(s, target, repl) == Join(Split(s, target), repl)
    decreases |s|
  {
    match Find(s, target, 0)
    case None =>
      ReplaceSkips(s, target, repl, |s|);
      assert s[|s|..] == "" && s[..|s|] == s;
    case Some(k) =>
      var rest := s[k + |target|..];
      ReplaceSkips(s, target, repl, k);
      ReplaceFront(s[k..], target, repl);
      assert s[k..][|target|..] == rest;
      ReplaceIsJoinSplit(rest, target, repl);
      JoinCons(s[..k], Split(rest, target), repl);
  }

  /** Replacing a string that does not occur changes nothing. */
  lemma ReplaceAbsent(s: string, target: string, repl: string)
    requires |target| > 0
    ensures Free(s, target) ==> Replace(s, target, repl) == s
  {
    ReplaceIsJoinSplit(s, target, repl);
    if Free(s, target) {
      assert Find(s, target, 0).None?;
    }
  }

  /** Every character of a replacement's result comes from the input or from `repl`. */
  lemma {:induction false} ReplaceChars(s: string, target: string, repl: string)
    requires |target| > 0
    ensures forall c :: c in Replace(s, target, repl) ==> c in s || c in repl
    decreases |s|
  {
    if |s| >= |target| {
      if s[..|target|] == target {
        ReplaceChars(s[|target|..], target, repl);
        assert forall c :: c in s[|target|..] ==> c in s;
      } else {
        ReplaceChars(s[1..], target, repl);
        assert forall c :: c in s[1..] ==> c in s;
      }
    }
  }

  /** The result of a replacement starts with the input's first character or with `repl`'s. */
  lemma ReplaceHead(s: string, target: string, repl: string)
    requires |target| > 0 && |s| > 0 && |repl| > 0
    ensures |Replace(s, target, repl)| > 0
    ensures Replace(s, target, repl)[0] in {s[0], repl[0]}
  {
  }
}
