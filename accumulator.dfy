/**
 * The length accumulator: the `lengths` dictionary that `process_line`
 * updates in place, and the fold of `process_line` over the lines of a file
 * that `run` performs.
 */
module Accumulator {
  import opened Wrappers
  import opened Extractor

  /** The `lengths` dictionary: field name to the largest value-token length seen. */
  type Lengths = map<string, nat>

  function Max(a: nat, b: nat): nat {
    if a >= b then a else b
  }

  /** Lines 140-143 at one position: a new name stores the length, a known one the larger of both. */
  function Record(m: Lengths, name: string, len: nat): (r: Lengths)
    ensures name in r && len <= r[name] && (name in m ==> m[name] <= r[name])
    ensures r[name] == len || (name in m && r[name] == m[name])
  {
    if name in m then m[name := Max(m[name], len)] else m[name := len]
  }

  /** Positions `0..n` of a statement recorded one after another. */
  function RecordUpTo(m: Lengths, fields: seq<string>, values: seq<string>, n: nat): (r: Lengths)
    requires n <= |fields| && n <= |values|
    ensures forall k :: k in m ==> k in r && m[k] <= r[k]
  {
    if n == 0 then m
    else Record(RecordUpTo(m, fields, values, n - 1), fields[n - 1], |values[n - 1]|)
  }

  /** How many positions the loop of line 139 records before it ends or fails. */
  function Paired(st: Statement): nat {
    if |st.values| <= |st.fields| then |st.values| else |st.fields|
  }

  /** Line 140 reads `fields[len(fields)]`: the line matched with more value tokens than field names. */
  predicate RaisesIndexError(line: string)
    ensures RaisesIndexError(line) ==> exists g :: Matches(line, g)
  {
    match Parse(line)
    case None => false
    case Some(st) => |st.values| > |st.fields|
  }

  /** The dictionary once `process_line(line, lengths)` has returned or raised. */
  function AfterLine(m: Lengths, line: string): (r: Lengths)
    ensures forall k :: k in m ==> k in r && m[k] <= r[k]
  {
    match Parse(line)
    case None => m
    case Some(st) => RecordUpTo(m, st.fields, st.values, Paired(st))
  }

  /** The (name, token length) pairs at positions `0..n`. */
  function Pairs(fields: seq<string>, values: seq<string>, n: nat): set<(string, nat)>
    requires n <= |fields| && n <= |values|
  {
    if n == 0 then {} else Pairs(fields, values, n - 1) + {(fields[n - 1], |values[n - 1]|)}
  }

  /** The (name, token length) pairs one line records. */
  function Observations(line: string): set<(string, nat)> {
    match Parse(line)
    case None => {}
    case Some(st) => Pairs(st.fields, st.values, Paired(st))
  }

  /** The pairs recorded by all the lines of a file. */
  ghost function ObservedIn(lines: seq<string>): set<(string, nat)> {
    set l, e | l in lines && e in Observations(l) :: e
  }

  ghost function Names(E: set<(string, nat)>): set<string> {
    set e | e in E :: e.0
  }

  /**
   * `r` is `m` with the pairs `E` folded in by maximum: its names are those
   * of `m` and `E`, every stored length and every pair's length is at most
   * what `r` holds, and what `r` holds is either the old entry or a pair's.
   */
  ghost predicate MaxMerge(m: Lengths, E: set<(string, nat)>, r: Lengths) {
    && r.Keys == m.Keys + Names(E)
    && (forall k :: k in m ==> m[k] <= r[k])
    && (forall e :: e in E ==> e.1 <= r[e.0])
    && (forall k :: k in r ==> (k in m && r[k] == m[k]) || (k, r[k]) in E)
  }

  /** The object whose `lengths` dictionary `run` creates empty and `process_line` mutates. */
  class LengthTable {
    var lengths: Lengths

    constructor ()
      ensures lengths == map[]
    {
      lengths := map[];
    }

    /** `process_line(line, lengths)`: `ok` is false where the source raises IndexError, with the updates made so far kept. */
    method ProcessLine(line: string) returns (ok: bool)
      modifies this
      ensures ok == !RaisesIndexError(line)
      ensures lengths == AfterLine(old(lengths), line)
    {
      var st := Parse(line);
      if st.None? {
        return true;
      }
      ok := RecordStatement(st.value);
    }

    /** Lines 139-143: the loop over the value tokens, which fails on reading a field name past the end. */
    method RecordStatement(st: Statement) returns (ok: bool)
      modifies this
      ensures ok == (|st.values| <= |st.fields|)
      ensures lengths == RecordUpTo(old(lengths), st.fields, st.values, Paired(st))
    {
      var fields, values := st.fields, st.values;
      var i := 0;
      while i < |values|
        invariant i <= |values| && i <= |fields|
        invariant lengths == RecordUpTo(old(lengths), fields, values, i)
      {
        if i == |fields| {
          return false;
        }
        var name := fields[i];
        assert RecordUpTo(old(lengths), fields, values, i + 1) == Record(lengths, name, |values[i]|);
        if name in lengths {
          lengths := lengths[name := Max(lengths[name], |values[i]|)];
        } else {
          lengths := lengths[name := |values[i]|];
        }
        i := i + 1;
      }
      return true;
    }
  }

  /** Lines 101-104: `process_line` over every line in turn; an IndexError ends the run. */
  function Fold(m: Lengths, lines: seq<string>): (r: Result<Lengths, Error>)
    ensures r.Success? <==> forall l :: l in lines ==> !RaisesIndexError(l)
    ensures r.Failure? ==> r.error == IndexError
    decreases |lines|
  {
    if lines == [] then Success(m)
    else if RaisesIndexError(lines[0]) then Failure(IndexError)
    else Fold(AfterLine(m, lines[0]), lines[1..])
  }

  lemma RecordMerges(m: Lengths, name: string, len: nat)
    ensures MaxMerge(m, {(name, len)}, Record(m, name, len))
  {
    assert Names({(name, len)}) == {name};
  }

  /** Folding in `E1` and then `E2` is folding in both at once. */
  lemma MaxMergeCompose(m: Lengths, E1: set<(string, nat)>, r1: Lengths, E2: set<(string, nat)>, r2: Lengths)
    requires MaxMerge(m, E1, r1) && MaxMerge(r1, E2, r2)
    ensures MaxMerge(m, E1 + E2, r2)
  {
    assert Names(E1 + E2) == Names(E1) + Names(E2);
    forall e | e in E1 ensures e.1 <= r2[e.0] {
      assert e.0 in Names(E1);
    }
  }

  /** The merged dictionary is determined by the old one and the set of pairs. */
  lemma MaxMergeUnique(m: Lengths, E: set<(string, nat)>, r1: Lengths, r2: Lengths)
    requires MaxMerge(m, E, r1) && MaxMerge(m, E, r2)
    ensures r1 == r2
  {
    forall k | k in r1 ensures r1[k] == r2[k] {
      assert r1[k] <= r2[k];
      assert r2[k] <= r1[k];
    }
  }

  lemma {:induction false} RecordUpToMerges(m: Lengths, fields: seq<string>, values: seq<string>, n: nat)
    requires n <= |fields| && n <= |values|
    ensures MaxMerge(m, Pairs(fields, values, n), RecordUpTo(m, fields, values, n))
  {
    if n == 0 {
      NothingMerged(m);
      assert Pairs(fields, values, 0) == {};
    } else {
      var r := RecordUpTo(m, fields, values, n - 1);
      var name, len := fields[n - 1], |values[n - 1]|;
      RecordUpToMerges(m, fields, values, n - 1);
      RecordMerges(r, name, len);
      MaxMergeCompose(m, Pairs(fields, values, n - 1), r, {(name, len)}, Record(r, name, len));
    }
  }

  lemma NothingMerged(m: Lengths)
    ensures MaxMerge(m, {}, m)
  {
    assert Names({}) == {};
  }

  /** The pairs at positions `0..n` are exactly the (name, length) of each position. */
  lemma {:induction false} PairsAt(fields: seq<string>, values: seq<string>, n: nat)
    requires n <= |fields| && n <= |values|
    ensures forall e :: e in Pairs(fields, values, n) <==> exists i :: 0 <= i < n && e == (fields[i], |values[i]|)
  {
    if n > 0 {
      PairsAt(fields, values, n - 1);
    }
  }

  /** `process_line` folds the line's pairs into the dictionary by maximum, even when it raises. */
  lemma AfterLineMerges(m: Lengths, line: string)
    ensures MaxMerge(m, Observations(line), AfterLine(m, line))
  {
    match Parse(line)
    case None =>
      assert Names({}) == {};
    case Some(st) =>
      RecordUpToMerges(m, st.fields, st.values, Paired(st));
  }

  /**
   * Positions `0..n` recorded: each name is a key holding at least its
   * token's length; no key is lost and no length shrinks; keys not among
   * those names keep their value; every value is the old one or the length
   * of one of the name's tokens.
   */
  lemma RecordUpToBounds(m: Lengths, fields: seq<string>, values: seq<string>, n: nat)
    requires n <= |fields| && n <= |values|
    ensures var r := RecordUpTo(m, fields, values, n);
      && (forall i :: 0 <= i < n ==> fields[i] in r && |values[i]| <= r[fields[i]])
      && (forall k :: k in m ==> k in r && m[k] <= r[k])
      && (forall k :: k in r && k !in fields[..n] ==> k in m && r[k] == m[k])
      && (forall k :: k in r ==> (k in m && r[k] == m[k]) || exists i :: 0 <= i < n && fields[i] == k && r[k] == |values[i]|)
  {
    var r := RecordUpTo(m, fields, values, n);
    var E := Pairs(fields, values, n);
    RecordUpToMerges(m, fields, values, n);
    PairsAt(fields, values, n);
    forall i | 0 <= i < n ensures fields[i] in r && |values[i]| <= r[fields[i]] {
      assert (fields[i], |values[i]|) in E;
      assert fields[i] in Names(E);
    }
    forall k | k in r && k !in fields[..n] ensures k in m && r[k] == m[k] {
      forall i | 0 <= i < n ensures fields[i] != k {
        assert fields[..n][i] == fields[i];
      }
      assert (k, r[k]) !in E;
    }
  }

  /**
   * One matched line, whether `process_line` returns (all value positions)
   * or raises (the positions before `len(fields)`): the bounds of
   * `RecordUpToBounds` with the line's names and tokens.
   */
  lemma LineUpdate(m: Lengths, line: string)
    requires Parse(line).Some?
    ensures var st := Parse(line).value; var n := Paired(st); var r := AfterLine(m, line);
      && n == (if RaisesIndexError(line) then |st.fields| else |st.values|)
      && (forall i :: 0 <= i < n ==> st.fields[i] in r && |st.values[i]| <= r[st.fields[i]])
      && (forall k :: k in m ==> k in r && m[k] <= r[k])
      && (forall k :: k in r && k !in st.fields[..n] ==> k in m && r[k] == m[k])
      && (forall k :: k in r ==> (k in m && r[k] == m[k]) || exists i :: 0 <= i < n && st.fields[i] == k && r[k] == |st.values[i]|)
  {
    var st := Parse(line).value;
    RecordUpToBounds(m, st.fields, st.values, Paired(st));
  }

  /** A line the pattern cannot match leaves the dictionary exactly as it was and raises nothing. */
  lemma UnmatchedLine(m: Lengths, line: string)
    requires forall g :: !Matches(line, g)
    ensures AfterLine(m, line) == m && !RaisesIndexError(line)
  {
    ExtractNone(line);
  }

  /** Processing the same line a second time changes nothing. */
  lemma ProcessTwice(m: Lengths, line: string)
    ensures AfterLine(AfterLine(m, line), line) == AfterLine(m, line)
  {
    var r1 := AfterLine(m, line);
    var E := Observations(line);
    AfterLineMerges(m, line);
    AfterLineMerges(r1, line);
    MaxMergeCompose(m, E, r1, E, AfterLine(r1, line));
    assert E + E == E;
    MaxMergeUnique(m, E, r1, AfterLine(r1, line));
  }

  /** A file that raises nothing folds all its lines' pairs into the dictionary by maximum. */
  lemma {:induction false} FoldMerges(m: Lengths, lines: seq<string>)
    requires Fold(m, lines).Success?
    ensures MaxMerge(m, ObservedIn(lines), Fold(m, lines).value)
    decreases |lines|
  {
    if lines == [] {
      assert ObservedIn(lines) == {};
      assert Names({}) == {};
    } else {
      var l, rest := lines[0], lines[1..];
      var r1 := AfterLine(m, l);
      AfterLineMerges(m, l);
      FoldMerges(r1, rest);
      MaxMergeCompose(m, Observations(l), r1, ObservedIn(rest), Fold(r1, rest).value);
      assert lines == [l] + rest;
      assert ObservedIn(lines) == Observations(l) + ObservedIn(rest);
    }
  }

  /** The order of the lines does not matter, nor does how often each occurs. */
  lemma FoldOrderIndependent(m: Lengths, a: seq<string>, b: seq<string>)
    requires forall l :: l in a <==> l in b
    ensures Fold(m, a) == Fold(m, b)
  {
    if Fold(m, a).Success? {
      FoldMerges(m, a);
      FoldMerges(m, b);
      assert ObservedIn(a) == ObservedIn(b);
      MaxMergeUnique(m, ObservedIn(a), Fold(m, a).value, Fold(m, b).value);
    }
  }

  /** Appending a line the file already holds changes nothing. */
  lemma FoldRepeat(m: Lengths, lines: seq<string>, l: string)
    requires l in lines
    ensures Fold(m, lines + [l]) == Fold(m, lines)
  {
    FoldOrderIndependent(m, lines + [l], lines);
  }

  /**
   * Over one file starting from the empty dictionary: the keys are the
   * names that received a token, and each maps to the largest length of
   * the tokens it received.
   */
  lemma FoldMaxima(lines: seq<string>)
    requires Fold(map[], lines).Success?
    ensures var r := Fold(map[], lines).value;
      && (forall k :: k in r <==> exists n :: (k, n) in ObservedIn(lines))
      && (forall k, n :: (k, n) in ObservedIn(lines) ==> n <= r[k])
      && (forall k :: k in r ==> (k, r[k]) in ObservedIn(lines))
  {
    var r := Fold(map[], lines).value;
    FoldMerges(map[], lines);
    forall k | k in r ensures exists n :: (k, n) in ObservedIn(lines) {
      assert (k, r[k]) in ObservedIn(lines);
    }
    forall k, n | (k, n) in ObservedIn(lines) ensures k in r {
      assert k in Names(ObservedIn(lines));
    }
  }
}
