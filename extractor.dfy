/**
 * The line extractor of `process_line`: the anchored pattern
 * `^insert into (.*?) \((.*?)\) values \((.*?)\);$` and the literal
 * substitutions and splits that turn its groups into field names and
 * value tokens.
 */
module Extractor {
  import opened Wrappers
  import opened PyStr

  const Prefix := "insert into "
  const Open := " ("
  const Middle := ") values ("
  const Suffix := ");"

  /** The three groups of a match: table name, raw field list, raw value list. */
  datatype Groups = Groups(table: string, fields: string, values: string)

  /** One matched insert statement, after splitting its two lists. */
  datatype Statement = Statement(table: string, fields: seq<string>, values: seq<string>)

  /** The statement text the pattern reads around three groups. */
  function Assemble(g: Groups): string {
    Prefix + g.table + Open + g.fields + Middle + g.values + Suffix
  }

  /**
   * The pattern matches `line` with groups `g`: `.` never matches a newline,
   * and `$` matches at the very end or just before one final newline.
   */
  ghost predicate Matches(line: string, g: Groups) {
    && '\n' !in g.table && '\n' !in g.fields && '\n' !in g.values
    && (line == Assemble(g) || line == Assemble(g) + "\n")
  }

  /**
   * The lazy groups `(.*?)` take the shortest table name and then the
   * shortest field list that still let the rest match.
   */
  ghost predicate Lazy(g: Groups) {
    Free(g.table, Open) && Free(g.fields, Middle)
  }

  /** The line without the one trailing newline that `$` may stand before. */
  function Chomp(line: string): string {
    if |line| > 0 && line[|line| - 1] == '\n' then line[..|line| - 1] else line
  }

  /** The text between the literal prefix and suffix: table, `" ("`, fields, `") values ("`, values. */
  function Inner(g: Groups): string {
    g.table + Open + g.fields + Middle + g.values
  }

  /** The lazy groups read off the text between prefix and suffix. */
  function Divide(body: string): (r: Option<Groups>)
    ensures r.Some? ==> body == Inner(r.value) && Lazy(r.value)
  {
    match Find(body, Open, 0)
    case None => None
    case Some(i) =>
      match Find(body, Middle, i + |Open|)
      case None => None
      case Some(j) =>
        var g := Groups(body[..i], body[i + |Open|..j], body[j + |Middle|..]);
        Pieces(body, i, j);
        FreeSlice(body, Open, 0, i);
        FreeSlice(body, Middle, i + |Open|, j);
        assert body[0..i] == body[..i];
        Some(g)
  }

  lemma Pieces(body: string, i: nat, j: nat)
    requires At(body, Open, i) && At(body, Middle, j) && i + |Open| <= j
    ensures body == body[..i] + Open + body[i + |Open|..j] + Middle + body[j + |Middle|..]
  {
    assert body == body[..i] + body[i..i + |Open|] + body[i + |Open|..j] + body[j..j + |Middle|] + body[j + |Middle|..];
  }

  /** `re.search` of the pattern on one line: the groups, or no match. */
  function Extract(line: string): (r: Option<Groups>)
    ensures r.Some? ==> Matches(line, r.value) && Lazy(r.value)
  {
    var s := Chomp(line);
    if '\n' in s || |s| < |Prefix| + |Suffix| || s[..|Prefix|] != Prefix || s[|s| - |Suffix|..] != Suffix then None
    else
      var body := s[|Prefix|..|s| - |Suffix|];
      var r := Divide(body);
      if r.Some? then
        assert s == s[..|Prefix|] + body + s[|s| - |Suffix|..];
        Reassemble(line, r.value);
        r
      else
        None
  }

  /** A newline-free chomped line that reads as prefix, groups and suffix is matched by them. */
  lemma Reassemble(line: string, g: Groups)
    requires '\n' !in Chomp(line)
    requires Chomp(line) == Prefix + Inner(g) + Suffix
    ensures Matches(line, g)
  {
    var s := Chomp(line);
    assert s == Assemble(g);
    var a := |Prefix| + |g.table|;
    var b := a + |Open| + |g.fields|;
    var c := b + |Middle|;
    assert s[|Prefix|..a] == g.table;
    assert s[a + |Open|..b] == g.fields;
    assert s[c..c + |g.values|] == g.values;
  }

  /** A matched line chomps to its statement text, and extraction then only has to divide the inner text. */
  lemma MatchedShape(line: string, h: Groups)
    requires Matches(line, h)
    ensures Chomp(line) == Assemble(h)
    ensures Extract(line) == Divide(Inner(h))
  {
    var s := Assemble(h);
    assert s == Prefix + Inner(h) + Suffix;
    assert s[|s| - 1] == ';';
    assert Chomp(line) == s;
    assert '\n' !in s by {
      assert forall c :: c in Inner(h) ==> c in h.table || c in Open || c in h.fields || c in Middle || c in h.values;
    }
    assert s[..|Prefix|] == Prefix && s[|s| - |Suffix|..] == Suffix;
    assert s[|Prefix|..|s| - |Suffix|] == Inner(h);
  }

  /** On any matching division of the inner text, the search finds one no later in either group. */
  lemma DivideFinds(h: Groups)
    ensures Divide(Inner(h)).Some?
    ensures |Divide(Inner(h)).value.table| <= |h.table|
    ensures |Divide(Inner(h)).value.table| == |h.table| ==> |Divide(Inner(h)).value.fields| <= |h.fields|
  {
    var body := Inner(h);
    var i, j := |h.table|, |h.table| + |Open| + |h.fields|;
    assert body[i..i + |Open|] == Open;
    assert At(body, Open, i);
    assert body[j..j + |Middle|] == Middle;
    assert At(body, Middle, j);
  }

  /** With no `" ("` in the table name, the first `" ("` is the one after it. */
  lemma FirstOpen(h: Groups)
    requires Free(h.table, Open)
    ensures Find(Inner(h), Open, 0) == Some(|h.table|)
  {
    var body, i := Inner(h), |h.table|;
    assert body[i..i + |Open|] == Open;
    assert At(body, Open, i);
    forall k | 0 <= k < i ensures !At(body, Open, k) {
      if k + |Open| <= i {
        assert body[k..k + |Open|] == h.table[k..k + |Open|];
        assert !At(h.table, Open, k);
      } else {
        assert body[k + 1] == ' ';
        NotAt(body, Open, k, 1);
      }
    }
  }

  /** With no `") values ("` in the field list, the first one after `" ("` is the one after the fields. */
  lemma FirstMiddle(h: Groups)
    requires Free(h.fields, Middle)
    ensures Find(Inner(h), Middle, |h.table| + |Open|) == Some(|h.table| + |Open| + |h.fields|)
  {
    var body := Inner(h);
    var i, j := |h.table|, |h.table| + |Open| + |h.fields|;
    assert body[j..j + |Middle|] == Middle;
    assert At(body, Middle, j);
    forall k | i + |Open| <= k < j ensures !At(body, Middle, k) {
      if k + |Middle| <= j {
        assert body[i + |Open|..j] == h.fields;
        assert body[k..k + |Middle|] == h.fields[k - i - |Open|..k - i - |Open| + |Middle|];
        assert !At(h.fields, Middle, k - i - |Open|);
      } else {
        assert body[j] == ')' && Middle[j - k] != ')';
      }
    }
  }

  /** The lazy division of the inner text is the one the search finds. */
  lemma DivideLazy(h: Groups)
    requires Lazy(h)
    ensures Divide(Inner(h)) == Some(h)
  {
    var body := Inner(h);
    var i, j := |h.table|, |h.table| + |Open| + |h.fields|;
    FirstOpen(h);
    FirstMiddle(h);
    InnerSlices(h);
    assert Groups(body[..i], body[i + |Open|..j], body[j + |Middle|..]) == h;
  }

  /** The groups read back from the inner text at their own positions. */
  lemma InnerSlices(h: Groups)
    ensures var body, i, j := Inner(h), |h.table|, |h.table| + |Open| + |h.fields|;
      && body[..i] == h.table
      && body[i + |Open|..j] == h.fields
      && body[j + |Middle|..] == h.values
  {
  }

  /** The pattern matches with the groups `re.search` reports exactly when those groups match lazily. */
  lemma ExtractIff(line: string, g: Groups)
    ensures Extract(line) == Some(g) <==> Matches(line, g) && Lazy(g)
  {
    if Matches(line, g) && Lazy(g) {
      MatchedShape(line, g);
      DivideLazy(g);
    }
  }

  /** `re.search` finds nothing exactly when no choice of groups matches the line. */
  lemma ExtractNone(line: string)
    ensures Extract(line).None? <==> forall g :: !Matches(line, g)
  {
    forall g | Matches(line, g) ensures Extract(line).Some? {
      MatchedShape(line, g);
      DivideFinds(g);
    }
  }

  /** Of all ways to match, the reported one has the shortest table name, then the shortest field list. */
  lemma ExtractShortest(line: string, g: Groups, h: Groups)
    requires Extract(line) == Some(g) && Matches(line, h)
    ensures |g.table| <= |h.table|
    ensures |g.table| == |h.table| ==> |g.fields| <= |h.fields|
  {
    MatchedShape(line, h);
    DivideFinds(h);
  }

  /** The private placeholder that marks value-separating commas. */
  const Delimiter := "@a@"

  /** Lines 127-128: `','` and then `,'` become the placeholder. */
  function Marked(values: string): (r: string)
    ensures Free(r, ",'")
  {
    var u := Replace(values, "','", Delimiter);
    CommaQuoteCleared(u);
    Replace(u, ",'", Delimiter)
  }

  /**
   * Lines 129-132, literal replacements: `\@a\@'` becomes the placeholder,
   * `^'` and `'$` are dropped, `\@a\@` becomes `','`.
   */
  function Cleanup(v: string): (r: string)
    ensures Free(v, "\\@a\\@'") && Free(v, "^'") && Free(v, "'$") && Free(v, "\\@a\\@") ==> r == v
  {
    var v3 := Replace(v, "\\@a\\@'", Delimiter);
    var v4 := Replace(v3, "^'", "");
    var v5 := Replace(v4, "'$", "");
    ReplaceAbsent(v, "\\@a\\@'", Delimiter);
    ReplaceAbsent(v3, "^'", "");
    ReplaceAbsent(v4, "'$", "");
    ReplaceAbsent(v5, "\\@a\\@", "','");
    Replace(v5, "\\@a\\@", "','")
  }

  /** Lines 127-134: the raw value list cut into value tokens. */
  function ValueTokens(values: string): (ts: seq<string>)
    ensures forall i :: 0 <= i < |ts| ==> Free(ts[i], Delimiter)
  {
    var v := Cleanup(Marked(values));
    SplitPartsFree(v, Delimiter);
    Split(v, Delimiter)
  }

  /** Line 133: the raw field list cut at every comma. */
  function FieldNames(fields: string): (names: seq<string>)
    ensures forall i :: 0 <= i < |names| ==> ',' !in names[i]
  {
    var parts := Split(fields, ",");
    SplitPartsFree(fields, ",");
    assert forall i :: 0 <= i < |parts| ==> ',' !in parts[i] by {
      forall i | 0 <= i < |parts| ensures ',' !in parts[i] {
        CommaFree(parts[i]);
      }
    }
    parts
  }

  /** Lines 121-134: the statement a line holds, or none when the pattern does not match. */
  function Parse(line: string): (r: Option<Statement>)
    ensures r.None? <==> forall g :: !Matches(line, g)
    ensures r.Some? ==> |r.value.fields| > 0 && |r.value.values| > 0
  {
    ExtractNone(line);
    match Extract(line)
    case None => None
    case Some(g) => Some(Statement(g.table, FieldNames(g.fields), ValueTokens(g.values)))
  }

  /** Replacing `,'` by the placeholder leaves no `,'` behind. */
  lemma {:induction false} CommaQuoteCleared(u: string)
    ensures Free(Replace(u, ",'", Delimiter), ",'")
    decreases |u|
  {
    var r := Replace(u, ",'", Delimiter);
    if |u| >= 2 {
      if u[..2] == ",'" {
        var rest := Replace(u[2..], ",'", Delimiter);
        CommaQuoteCleared(u[2..]);
        assert r == Delimiter + rest;
        forall k | 0 <= k ensures !At(r, ",'", k) {
          if k >= 3 {
            AtAfter(Delimiter, rest, ",'", k);
          } else {
            assert r[k] == Delimiter[k];
          }
        }
      } else {
        var rest := Replace(u[1..], ",'", Delimiter);
        CommaQuoteCleared(u[1..]);
        ReplaceHead(u[1..], ",'", Delimiter);
        assert r == [u[0]] + rest;
        forall k | 0 <= k ensures !At(r, ",'", k) {
          if k >= 1 {
            AtAfter([u[0]], rest, ",'", k);
          } else if u[0] == ',' {
            assert u[1] != '\'' by {
              assert u[..2] == [u[0], u[1]];
            }
            assert r[1] == rest[0];
            NotAt(r, ",'", 0, 1);
          } else {
            NotAt(r, ",'", 0, 0);
          }
        }
      }
    }
  }

  /** On a value list without backslash, caret or dollar, lines 129-132 change nothing. */
  lemma CleanupInert(values: string)
    requires '\\' !in values && '^' !in values && '$' !in values
    ensures Cleanup(Marked(values)) == Marked(values)
  {
    var v1 := Replace(values, "','", Delimiter);
    ReplaceChars(values, "','", Delimiter);
    ReplaceChars(v1, ",'", Delimiter);
    var v := Marked(values);
    assert '\\' !in v && '^' !in v && '$' !in v;
    FreeByChar(v, "\\@a\\@'", 0);
    FreeByChar(v, "^'", 0);
    FreeByChar(v, "'$", 1);
    FreeByChar(v, "\\@a\\@", 0);
  }

  /** Line 134 round trip: the tokens rejoin to the substituted list and number one more than its placeholders. */
  lemma ValueTokensRoundTrip(values: string)
    ensures Join(ValueTokens(values), Delimiter) == Cleanup(Marked(values))
    ensures |ValueTokens(values)| == Count(Cleanup(Marked(values)), Delimiter) + 1
  {
    var v := Cleanup(Marked(values));
    JoinSplit(v, Delimiter);
    SplitCount(v, Delimiter);
  }

  /** Line 133 round trip: the names rejoin with commas to the raw list and number one more than its commas. */
  lemma FieldNamesRoundTrip(fields: string)
    ensures Join(FieldNames(fields), ",") == fields
    ensures |FieldNames(fields)| == Count(fields, ",") + 1
  {
    JoinSplit(fields, ",");
    SplitCount(fields, ",");
  }

  /** A string in which `","` never occurs holds no comma. */
  lemma CommaFree(p: string)
    requires Free(p, ",")
    ensures ',' !in p
  {
    forall k | 0 <= k < |p| ensures p[k] != ',' {
      assert !At(p, ",", k);
      assert p[k..k + 1] == [p[k]];
    }
  }

  /** Names without commas are exactly what splitting their comma-join gives back. */
  lemma FieldNamesOfJoin(names: seq<string>)
    requires |names| > 0 && forall i :: 0 <= i < |names| ==> ',' !in names[i]
    ensures FieldNames(Join(names, ",")) == names
  {
    forall i | 0 <= i < |names| ensures Leading(names[i], ",") && Free(names[i], ",") {
      FreeByChar(names[i], ",", 0);
      forall k | 0 <= k < |names[i]| ensures !At(names[i] + ",", ",", k) {
        assert (names[i] + ",")[k] == names[i][k];
      }
    }
    SplitJoin(names, ",");
  }
}
