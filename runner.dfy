/**
 * `run(file, field)` on the lines of one file: process every line into a
 * fresh length table, then produce the report lines.
 */
module Runner {
  import opened Wrappers
  import opened Accumulator
  import opened Reporter

  /** What `run` yields for these lines: the report, or the exception that ends it. */
  function RunResult(lines: seq<string>, field: Option<string>): (r: Result<seq<string>, Error>)
    ensures r == Failure(IndexError) <==> exists l :: l in lines && RaisesIndexError(l)
  {
    match Fold(map[], lines)
    case Failure(e) => Failure(e)
    case Success(m) => Report(m, field)
  }

  /** Lines 101-104: the lines of the file through a fresh `LengthTable`, then the report. */
  method Run(lines: seq<string>, field: Option<string>) returns (r: Result<seq<string>, Error>)
    ensures r == RunResult(lines, field)
  {
    var table := new LengthTable();
    var i := 0;
    while i < |lines|
      invariant 0 <= i <= |lines|
      invariant Fold(map[], lines) == Fold(table.lengths, lines[i..])
    {
      assert lines[i..][1..] == lines[i + 1..];
      var ok := table.ProcessLine(lines[i]);
      if !ok {
        return Failure(IndexError);
      }
      i := i + 1;
    }
    assert lines[i..] == [];
    r := PrintReport(table.lengths, field);
  }

  /** Lines 109-117: the width of the widest key, then one line per selected key in sorted order. */
  method PrintReport(m: Lengths, field: Option<string>) returns (r: Result<seq<string>, Error>)
    ensures r == Report(m, field)
  {
    if m == map[] {
      return Failure(ValueError);
    }
    var keys := SortedKeys(m.Keys);
    assert keys != [] by {
      var k :| k in m;
      assert k in keys;
    }
    var w := NameWidth(keys);
    var out := PrintRows(keys, m, field, w);
    return Success(out);
  }

  /** Lines 114-117: the loop over the sorted keys, skipping those the field filter leaves out. */
  method PrintRows(keys: seq<string>, m: Lengths, field: Option<string>, w: nat) returns (out: seq<string>)
    requires forall k :: k in keys ==> k in m
    ensures out == Rows(keys, m, field, w)
  {
    out := [];
    for j := 0 to |keys|
      invariant out == Rows(keys[..j], m, field, w)
    {
      var col := keys[j];
      RowsStep(keys, j, m, field, w);
      if Selected(field, col) {
        out := out + [FormatRow(col, m[col], w)];
      }
    }
    assert keys[..|keys|] == keys;
  }

  /** A fold that succeeds from the empty table ends empty exactly when no line recorded a pair. */
  lemma FoldEmpty(lines: seq<string>)
    requires Fold(map[], lines).Success?
    ensures Fold(map[], lines).value == map[] <==> ObservedIn(lines) == {}
  {
    FoldMaxima(lines);
    EmptyObserved(Fold(map[], lines).value, ObservedIn(lines));
  }

  /** A table that holds, per name, the largest of a set of observations is empty exactly when the set is. */
  lemma EmptyObserved(m: Lengths, E: set<(string, nat)>)
    requires forall k :: k in m ==> (k, m[k]) in E
    requires forall k, n :: (k, n) in E ==> k in m
    ensures m == map[] <==> E == {}
  {
    if m != map[] {
      var k :| k in m;
      assert (k, m[k]) in E;
    }
    if E != {} {
      var e :| e in E;
      assert e.0 in m;
    }
  }

  /** `run` ends in ValueError exactly when no line raised and none recorded a single pair. */
  lemma RunValueError(lines: seq<string>, field: Option<string>)
    ensures RunResult(lines, field) == Failure(ValueError) <==>
      (forall l :: l in lines ==> !RaisesIndexError(l)) && ObservedIn(lines) == {}
  {
    if Fold(map[], lines).Success? {
      FoldEmpty(lines);
    }
  }

  /**
   * Without a field, `run` prints one row per name any matched line
   * recorded, in ascending order, each with the largest length seen.
   */
  lemma RunAll(lines: seq<string>)
    requires RunResult(lines, None).Success?
    ensures var m := Fold(map[], lines).value; var ks := SortedKeys(m.Keys); var out := RunResult(lines, None).value;
      && |out| == |ks|
      && (forall i :: 0 <= i < |ks| ==> out[i] == FormatRow(ks[i], m[ks[i]], NameWidth(ks)))
      && (forall i :: 0 <= i < |ks| ==> (ks[i], m[ks[i]]) in ObservedIn(lines))
      && (forall k, n :: (k, n) in ObservedIn(lines) ==> k in ks && n <= m[k])
  {
    var m := Fold(map[], lines).value;
    FoldMaxima(lines);
    ReportAll(m);
    KeysObserved(m, ObservedIn(lines));
  }

  /** The sorted keys of a table that holds, per name, the largest length of a set of observations. */
  lemma KeysObserved(m: Lengths, E: set<(string, nat)>)
    requires forall k :: k in m ==> (k, m[k]) in E
    requires forall k, n :: (k, n) in E ==> k in m && n <= m[k]
    ensures var ks := SortedKeys(m.Keys);
      && (forall i :: 0 <= i < |ks| ==> ks[i] in m && (ks[i], m[ks[i]]) in E)
      && (forall k, n :: (k, n) in E ==> k in ks && n <= m[k])
  {
  }

}
