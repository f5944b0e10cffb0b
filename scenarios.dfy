/**
 * How the value splitting behaves on the common shapes of a value list,
 * and whole runs over small files, worked out from the definitions.
 */
module Scenarios {
  import opened Wrappers
  import opened PyStr
  import opened Extractor
  import opened Accumulator
  import opened Reporter
  import opened Runner

  /** None of the characters the substitutions and the split react to. */
  predicate Plain(s: string) {
    '\'' !in s && '@' !in s && '\\' !in s && '^' !in s && '$' !in s
  }

  lemma LeadingByChar(p: string, sep: string)
    requires |sep| > 0 && sep[0] !in p
    ensures Leading(p, sep)
  {
    forall k | 0 <= k < |p| ensures !At(p + sep, sep, k) {
      assert (p + sep)[k] == p[k];
      NotAt(p + sep, sep, k, 0);
    }
  }

  /** Replacing in `p + t + rest`, where `t` first occurs after `p` and `rest` is free of it. */
  lemma ReplaceOnce(p: string, t: string, r: string, rest: string)
    requires |t| > 0
    requires forall k :: 0 <= k < |p| ==> !At(p + t + rest, t, k)
    requires Free(rest, t)
    ensures Replace(p + t + rest, t, r) == p + r + rest
  {
    var v := p + t + rest;
    ReplaceSkips(v, t, r, |p|);
    assert v[..|p|] == p;
    assert v[|p|..] == t + rest;
    assert (t + rest)[..|t|] == t && (t + rest)[|t|..] == rest;
    ReplaceAbsent(rest, t, r);
  }

  /** In `a,'b'` there is no `','`: its one comma is followed by a quote and then by `b`. */
  lemma UnquotedThenQuotedMarked(a: string, b: string)
    requires Plain(a) && Plain(b) && ',' !in a && ',' !in b
    ensures Marked(a + ",'" + b + "'") == a + Delimiter + b + "'"
  {
    var v := a + ",'" + b + "'";
    var tail := b + "'";
    assert v == a + ",'" + tail;
    forall k | 0 <= k && k + 3 <= |v| ensures !At(v, "','", k) {
      if k <= |a| {
        NotAt(v, "','", k, 0);
      } else {
        assert v[k + 1] == tail[k + 1 - |a| - 2];
        NotAt(v, "','", k, 1);
      }
    }
    ReplaceAbsent(v, "','", Delimiter);
    forall k | 0 <= k < |a| ensures !At(v, ",'", k) {
      assert v[k] == a[k];
      NotAt(v, ",'", k, 0);
    }
    FreeByChar(tail, ",'", 0);
    ReplaceOnce(a, ",'", Delimiter, tail);
    assert a + Delimiter + tail == a + Delimiter + b + "'";
  }

  /**
   * An unquoted value followed by a quoted one, `a,'b'`, gives the tokens
   * `a` and `b'`: the closing quote stays on the last token.
   */
  lemma UnquotedThenQuoted(a: string, b: string)
    requires Plain(a) && Plain(b) && ',' !in a && ',' !in b
    ensures ValueTokens(a + ",'" + b + "'") == [a, b + "'"]
  {
    var v := a + ",'" + b + "'";
    var tail := b + "'";
    UnquotedThenQuotedMarked(a, b);
    assert Marked(v) == a + Delimiter + tail;
    CleanupInert(v);
    LeadingByChar(a, Delimiter);
    FreeByChar(tail, Delimiter, 0);
    SplitJoin([a, tail], Delimiter);
    assert Join([a, tail], Delimiter) == a + Delimiter + tail;
  }

  /** In `'a','b'` the first `','` is the separator, and it is the only one. */
  lemma QuotedPairMarked(a: string, b: string)
    requires Plain(a) && Plain(b) && ',' !in b && (|a| == 0 || a[0] != ',')
    ensures Replace("'" + a + "','" + b + "'", "','", Delimiter) == "'" + a + Delimiter + b + "'"
  {
    var head, tail := "'" + a, b + "'";
    var v := head + "','" + tail;
    assert "'" + a + "','" + b + "'" == v;
    forall k | 0 <= k < |head| ensures !At(v, "','", k) {
      if k == 0 {
        NotAt(v, "','", k, 1);
      } else {
        assert v[k] == a[k - 1];
        NotAt(v, "','", k, 0);
      }
    }
    FreeByChar(tail, "','", 1);
    ReplaceOnce(head, "','", Delimiter, tail);
    assert "'" + a + Delimiter + b + "'" == head + Delimiter + tail;
  }

  /** Quotes stand only at both ends of `'a@a@b'`, so no `,'` is left to replace. */
  lemma QuotedPairNoCommaQuote(a: string, b: string)
    requires Plain(a) && Plain(b) && ',' !in b
    ensures Free("'" + a + Delimiter + b + "'", ",'")
  {
    var head := "'" + a;
    var r1 := "'" + a + Delimiter + b + "'";
    forall k | 0 <= k && k + 2 <= |r1| ensures !At(r1, ",'", k) {
      if k + 1 == |r1| - 1 {
        assert r1[k] == (Delimiter + b)[|Delimiter + b| - 1];
        NotAt(r1, ",'", k, 0);
      } else if k + 1 < |head| {
        assert r1[k + 1] == a[k];
        NotAt(r1, ",'", k, 1);
      } else if k + 1 < |head| + |Delimiter| {
        assert r1[k + 1] == Delimiter[k + 1 - |head|];
        NotAt(r1, ",'", k, 1);
      } else {
        assert r1[k + 1] == b[k + 1 - |head| - |Delimiter|];
        NotAt(r1, ",'", k, 1);
      }
    }
  }

  lemma QuotedPairFullyMarked(a: string, b: string)
    requires Plain(a) && Plain(b) && ',' !in b && (|a| == 0 || a[0] != ',')
    ensures Marked("'" + a + "','" + b + "'") == "'" + a + Delimiter + b + "'"
  {
    var r1 := "'" + a + Delimiter + b + "'";
    QuotedPairMarked(a, b);
    QuotedPairNoCommaQuote(a, b);
    ReplaceAbsent(r1, ",'", Delimiter);
  }

  /**
   * Two quoted values, `'a','b'`, give the tokens `'a` and `b'`: the
   * opening quote stays on the first token, the closing on the last, and
   * commas inside the first value are kept.
   */
  lemma QuotedPair(a: string, b: string)
    requires Plain(a) && Plain(b) && ',' !in b && (|a| == 0 || a[0] != ',')
    ensures ValueTokens("'" + a + "','" + b + "'") == ["'" + a, b + "'"]
  {
    var v := "'" + a + "','" + b + "'";
    var head, tail := "'" + a, b + "'";
    var r1 := "'" + a + Delimiter + b + "'";
    QuotedPairFullyMarked(a, b);
    CleanupInert(v);
    LeadingByChar(head, Delimiter);
    FreeByChar(tail, Delimiter, 0);
    SplitJoin([head, tail], Delimiter);
    assert Join([head, tail], Delimiter) == r1;
  }

  /** Values without quotes are never cut: `1,2` is one token. */
  lemma UnquotedList(v: string)
    requires Plain(v)
    ensures ValueTokens(v) == [v]
  {
    FreeByChar(v, "','", 0);
    ReplaceAbsent(v, "','", Delimiter);
    FreeByChar(v, ",'", 1);
    ReplaceAbsent(v, ",'", Delimiter);
    CleanupInert(v);
    FreeByChar(v, Delimiter, 0);
    SplitJoin([v], Delimiter);
  }

  /** An insert into `users` with the unquoted id `id` and the quoted name `name`. */
  function UsersLine(id: string, name: string): string {
    "insert into users (id,name) values (" + id + ",'" + name + "');"
  }

  /** A line that is the statement text around newline-free lazy groups is matched with exactly those groups. */
  lemma ExtractGroups(line: string, g: Groups)
    requires line == Assemble(g)
    requires '\n' !in g.table && '\n' !in g.fields && '\n' !in g.values
    requires Free(g.table, Open) && Free(g.fields, Middle)
    ensures Extract(line) == Some(g)
  {
    ExtractIff(line, g);
  }

  lemma NoNewline(p: string, q: string, r: string)
    requires '\n' !in p && '\n' !in q && '\n' !in r
    ensures '\n' !in p + q + r
  {
    forall i | 0 <= i < |p + q + r| ensures (p + q + r)[i] != '\n' {
      if i < |p| {
        assert (p + q + r)[i] == p[i];
      } else if i < |p| + |q| {
        assert (p + q + r)[i] == q[i - |p|];
      } else {
        assert (p + q + r)[i] == r[i - |p| - |q|];
      }
    }
  }

  lemma UsersHead()
    ensures Prefix + "users" + Open + "id,name" + Middle == "insert into users (id,name) values ("
  {
  }

  lemma UsersAssembled(id: string, name: string)
    ensures UsersLine(id, name) == Assemble(Groups("users", "id,name", id + ",'" + name + "'"))
  {
    var head := "insert into users (id,name) values (";
    UsersHead();
    var values := id + ",'" + name + "'";
    assert values + Suffix == id + ",'" + name + "');";
    assert Assemble(Groups("users", "id,name", values)) == head + (values + Suffix);
  }

  /** `UsersLine(id, name)` is matched with table `users`, fields `id,name` and values `id,'name'`. */
  lemma ExtractUsers(id: string, name: string)
    requires '\n' !in id && '\n' !in name
    ensures Extract(UsersLine(id, name)) == Some(Groups("users", "id,name", id + ",'" + name + "'"))
  {
    var values := id + ",'" + name + "'";
    var g := Groups("users", "id,name", values);
    UsersAssembled(id, name);
    NoNewline(id, ",'", name + "'");
    assert id + ",'" + (name + "'") == values;
    FreeByChar("users", Open, 0);
    FreeByChar("id,name", Middle, 0);
    ExtractGroups(UsersLine(id, name), g);
  }

  lemma UsersFields()
    ensures FieldNames("id,name") == ["id", "name"]
  {
    FieldNamesOfJoin(["id", "name"]);
    assert Join(["id", "name"], ",") == "id,name";
  }

  /** Plain ids and names contain none of the characters the pattern or the substitutions react to. */
  predicate PlainValue(s: string) {
    Plain(s) && ',' !in s && '\n' !in s
  }

  lemma ParseUsers(id: string, name: string)
    requires PlainValue(id) && PlainValue(name)
    ensures Parse(UsersLine(id, name)) == Some(Statement("users", ["id", "name"], [id, name + "'"]))
  {
    ExtractUsers(id, name);
    UsersFields();
    UnquotedThenQuoted(id, name);
  }

  /** One such line records the id's length and the name's length plus its closing quote. */
  lemma UsersLineRecords(m: Lengths, id: string, name: string)
    requires PlainValue(id) && PlainValue(name)
    ensures AfterLine(m, UsersLine(id, name)) == Record(Record(m, "id", |id|), "name", |name| + 1)
    ensures !RaisesIndexError(UsersLine(id, name))
  {
    var fields, values := ["id", "name"], [id, name + "'"];
    assert Parse(UsersLine(id, name)) == Some(Statement("users", fields, values)) by {
      ParseUsers(id, name);
    }
    assert Paired(Statement("users", fields, values)) == 2;
    RecordTwo(m, "id", "name", id, name + "'");
  }

  /** A two-field statement records its first pair, then its second. */
  lemma RecordTwo(m: Lengths, a: string, b: string, x: string, y: string)
    ensures RecordUpTo(m, [a, b], [x, y], 2) == Record(Record(m, a, |x|), b, |y|)
  {
    assert RecordUpTo(m, [a, b], [x, y], 1) == Record(m, a, |x|);
  }

  lemma RecordUsers(x1: nat, y1: nat, x2: nat, y2: nat)
    ensures Record(Record(map["id" := x1, "name" := y1], "id", x2), "name", y2)
      == map["id" := Max(x1, x2), "name" := Max(y1, y2)]
  {
    assert "id"[0] != "name"[0];
    var m := map["id" := x1, "name" := y1];
    assert "id" in m && "name" in m;
    var r1 := m["id" := Max(x1, x2)];
    assert Record(m, "id", x2) == r1;
    assert "name" in r1 && r1["name"] == y1;
    assert Record(r1, "name", y2) == r1["name" := Max(y1, y2)];
  }

  lemma RecordFirstUser(x: nat, y: nat)
    ensures Record(Record(map[], "id", x), "name", y) == map["id" := x, "name" := y]
  {
    assert "id" != "name";
    assert Record(map[], "id", x) == map["id" := x];
  }

  /** Two lines that raise nothing are processed one after the other. */
  lemma FoldTwo(m: Lengths, l1: string, l2: string)
    requires !RaisesIndexError(l1) && !RaisesIndexError(l2)
    ensures Fold(m, [l1, l2]) == Success(AfterLine(AfterLine(m, l1), l2))
  {
    var m1 := AfterLine(m, l1);
    assert [l2][0] == l2 && [l2][1..] == [];
    assert Fold(m1, [l2]) == Fold(AfterLine(m1, l2), []);
    assert [l1, l2][0] == l1 && [l1, l2][1..] == [l2];
    assert Fold(m, [l1, l2]) == Fold(m1, [l2]);
  }

  /** The first users line, into the empty dictionary. */
  lemma FirstUser(id: string, name: string)
    requires PlainValue(id) && PlainValue(name)
    ensures !RaisesIndexError(UsersLine(id, name))
    ensures AfterLine(map[], UsersLine(id, name)) == map["id" := |id|, "name" := |name| + 1]
  {
    UsersLineRecords(map[], id, name);
    RecordFirstUser(|id|, |name| + 1);
  }

  /** A second users line, into the dictionary the first one left. */
  lemma SecondUser(x: nat, y: nat, id: string, name: string)
    requires PlainValue(id) && PlainValue(name)
    ensures !RaisesIndexError(UsersLine(id, name))
    ensures AfterLine(map["id" := x, "name" := y], UsersLine(id, name))
      == map["id" := Max(x, |id|), "name" := Max(y, |name| + 1)]
  {
    var m := map["id" := x, "name" := y];
    var r := Record(Record(m, "id", |id|), "name", |name| + 1);
    assert !RaisesIndexError(UsersLine(id, name)) && AfterLine(m, UsersLine(id, name)) == r by {
      UsersLineRecords(m, id, name);
    }
    assert r == map["id" := Max(x, |id|), "name" := Max(y, |name| + 1)] by {
      RecordUsers(x, y, |id|, |name| + 1);
    }
  }

  /** Two lines: each field keeps the longer of its two tokens. */
  lemma TwoUsers(id1: string, name1: string, id2: string, name2: string)
    requires PlainValue(id1) && PlainValue(name1) && PlainValue(id2) && PlainValue(name2)
    ensures Fold(map[], [UsersLine(id1, name1), UsersLine(id2, name2)])
      == Success(map["id" := Max(|id1|, |id2|), "name" := Max(|name1|, |name2|) + 1])
  {
    FirstUser(id1, name1);
    SecondUser(|id1|, |name1| + 1, id2, name2);
    assert Max(|name1| + 1, |name2| + 1) == Max(|name1|, |name2|) + 1;
    FoldTwo(map[], UsersLine(id1, name1), UsersLine(id2, name2));
  }

  lemma UsersWidth(ks: seq<string>)
    requires |ks| > 0 && forall k :: k in ks <==> k in {"id", "name"}
    ensures NameWidth(ks) == 4
  {
    assert "name" in ks;
  }

  /** With `-f name` the report of an `id`/`name` table is the single `name` row, padded to width 4. */
  lemma UsersReportName(m: Lengths)
    requires m.Keys == {"id", "name"}
    ensures Report(m, Some("name")) == Success([FormatRow("name", m["name"], 4)])
  {
    UsersKeys(m.Keys);
    RowsOne(["id", "name"], m, "name", 4);
  }

  /** `sorted` puts `id` before `name`, and the wider of the two has 4 characters. */
  lemma UsersKeys(S: set<string>)
    requires S == {"id", "name"}
    ensures SortedKeys(S) == ["id", "name"] && NameWidth(SortedKeys(S)) == 4
  {
    var ks := SortedKeys(S);
    assert Below("id", "name");
    AscendingUnique(ks, ["id", "name"]);
    UsersWidth(ks);
  }

  /** Without a field the `id` row comes first, both padded to the width of `name`. */
  lemma UsersReportAll(m: Lengths)
    requires m.Keys == {"id", "name"}
    ensures Report(m, None) == Success([FormatRow("id", m["id"], 4), FormatRow("name", m["name"], 4)])
  {
    assert "id" in m;
    ReportAll(m);
    UsersKeys(m.Keys);
    var out := Report(m, None).value;
    assert |m| == |m.Keys| == 2;
    assert out == [out[0], out[1]];
  }

  lemma IdRow()
    ensures FormatRow("id", 2, 4) == "id   :     2"
  {
    assert Decimal(2) == "2";
    assert PadRight("id", 4) == "id  ";
    assert PadLeft("2", 5) == "    2";
  }

  lemma NameRow()
    ensures FormatRow("name", 10, 4) == "name :    10"
  {
    assert Decimal(10) == "10";
    assert PadRight("name", 4) == "name";
    assert PadLeft("10", 5) == "   10";
  }

  /** `1,'Bob'` and `22,'Alexandra'`: `id` keeps 2 and `name` 10, the closing quote counted. */
  lemma BobAndAlexandra()
    ensures Fold(map[], [UsersLine("1", "Bob"), UsersLine("22", "Alexandra")]) == Success(map["id" := 2, "name" := 10])
  {
    SamplesPlain();
    TwoUsers("1", "Bob", "22", "Alexandra");
  }

  lemma SamplesPlain()
    ensures PlainValue("1") && PlainValue("Bob") && PlainValue("22") && PlainValue("Alexandra")
  {
    PlainByIndex("Bob");
    PlainByIndex("Alexandra");
  }

  lemma PlainByIndex(s: string)
    requires forall i :: 0 <= i < |s| ==> 'A' <= s[i] <= 'z' && s[i] != '\\' && s[i] != '^'
    ensures PlainValue(s)
  {
  }

  /** With `-f name` the two lines print `name :    10`. */
  lemma BobAndAlexandraName()
    ensures RunResult([UsersLine("1", "Bob"), UsersLine("22", "Alexandra")], Some("name")) == Success(["name :    10"])
  {
    BobAndAlexandra();
    UsersReportName(map["id" := 2, "name" := 10]);
    NameRow();
  }

  /** Without a field the two lines print the `id` row and then the `name` row. */
  lemma BobAndAlexandraAll()
    ensures RunResult([UsersLine("1", "Bob"), UsersLine("22", "Alexandra")], None) == Success(["id   :     2", "name :    10"])
  {
    BobAndAlexandra();
    UsersReportAll(map["id" := 2, "name" := 10]);
    IdRow();
    NameRow();
  }

  /** An insert into `t` with one field `a` and two quoted values. */
  function OneFieldLine(x: string, y: string): string {
    "insert into t (a) values ('" + x + "','" + y + "');"
  }

  lemma OneFieldAssembled(x: string, y: string)
    ensures OneFieldLine(x, y) == Assemble(Groups("t", "a", "'" + x + "','" + y + "'"))
  {
    var head := "insert into t (a) values (";
    assert Prefix + "t" + Open + "a" + Middle == head;
    var values := "'" + x + "','" + y + "'";
    assert values + Suffix == "'" + x + "','" + y + "');";
    assert Assemble(Groups("t", "a", values)) == head + (values + Suffix);
  }

  /** The line reads as one field name and two value tokens. */
  lemma OneFieldParse(x: string, y: string)
    requires PlainValue(x) && PlainValue(y)
    ensures Parse(OneFieldLine(x, y)) == Some(Statement("t", ["a"], ["'" + x, y + "'"]))
  {
    var values := "'" + x + "','" + y + "'";
    var g := Groups("t", "a", values);
    OneFieldAssembled(x, y);
    NoNewline("'" + x, "','", y + "'");
    assert "'" + x + "','" + (y + "'") == values;
    FreeByChar("t", Open, 0);
    FreeByChar("a", Middle, 0);
    ExtractGroups(OneFieldLine(x, y), g);
    QuotedPair(x, y);
    FieldNamesOfJoin(["a"]);
    assert Join(["a"], ",") == "a";
  }

  /** Two quoted values for one field: the second token has no field name, and the run ends in IndexError. */
  lemma TooManyTokens(x: string, y: string)
    requires PlainValue(x) && PlainValue(y)
    ensures RaisesIndexError(OneFieldLine(x, y))
    ensures RunResult([OneFieldLine(x, y)], None) == Failure(IndexError)
  {
    OneFieldParse(x, y);
    assert [OneFieldLine(x, y)][0] == OneFieldLine(x, y);
  }

  /** A file in which no line is an insert statement ends in ValueError, with or without a field. */
  lemma NothingMatched(lines: seq<string>, field: Option<string>)
    requires forall l :: l in lines ==> forall g :: !Matches(l, g)
    ensures RunResult(lines, field) == Failure(ValueError)
  {
    forall l | l in lines ensures !RaisesIndexError(l) && Observations(l) == {} {
      UnmatchedLine(map[], l);
    }
    assert ObservedIn(lines) == {};
    RunValueError(lines, field);
  }

  /** A comment line is no insert statement, so a file holding only it ends in ValueError. */
  lemma CommentOnly()
    ensures RunResult(["-- no data"], None) == Failure(ValueError)
  {
    var line := "-- no data";
    forall g ensures !Matches(line, g) {
      assert |Assemble(g)| >= |Prefix| + |Suffix|;
    }
    NothingMatched([line], None);
  }
}
