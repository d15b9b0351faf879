/** Where the linter's `case` ends too early: behind a one-line branch, and at a nested case. */
module CaseEnds {
  import opened CaseLint
  import opened CaseMembers
  import opened Numerals
  import opened Options
  import opened Seqs
  import opened Text

  // ---------------------------------------------------------------- what a case really covers

  /** What a branch line covers: a wildcard all members, an `in` branch those of the type it names, any
      other line the strings it quotes. */
  ghost function CoveredBy(types: seq<FiniteType>, t: FiniteType, line: Line): set<string> {
    if Wildcard(line.clean) then Elements(t.members)
    else if "in " <= line.clean then
      var m := Membership(types, line.clean); if m.None? then {} else Elements(m.value.members)
    else Elements(Literals(line.raw))
  }

  /** What the branch lines among `lines` cover, from `depth` on and up to the line that brings the
      depth back to that of the case: there the case really ends. */
  ghost function CoveredBehind(types: seq<FiniteType>, t: FiniteType, brace: nat, depth: nat,
    lines: seq<Line>): set<string>
    decreases |lines|
  {
    if lines == [] || depth <= brace then {}
    else
      var c := lines[0].clean;
      (if Counted(brace, depth, c) then CoveredBy(types, t, lines[0]) else {})
      + CoveredBehind(types, t, brace, if c == [] then depth else NextDepth(depth, c), lines[1..])
  }

  lemma {:induction false} UnnamedAgree(members: seq<string>, a: set<string>, b: set<string>)
    requires forall m | m in members :: m in a <==> m in b
    ensures Unnamed(members, a) == Unnamed(members, b)
  {
    if members != [] {
      var front, last := members[..|members| - 1], members[|members| - 1];
      assert members == front + [last];
      UnnamedAgree(front, a, b);
    }
  }

  /** Members covered further on change the list exactly when one of them was not covered before. */
  lemma LostExact(members: seq<string>, named: set<string>, lost: set<string>)
    ensures Unnamed(members, named) == Unnamed(members, named + lost)
      <==> forall m | m in members && m in lost :: m in named
  {
    UnnamedIn(members, named);
    UnnamedIn(members, named + lost);
    if forall m | m in members && m in lost :: m in named {
      UnnamedAgree(members, named, named + lost);
    }
  }

  lemma NoneUnnamed(members: seq<string>, named: set<string>)
    ensures Unnamed(members, named) == [] <==> forall m | m in members :: m in named
  {
    UnnamedIn(members, named);
    var ms := Unnamed(members, named);
    assert ms != [] ==> ms[0] in ms;
  }

  predicate NoHeader(lines: seq<Line>) {
    forall l | l in lines :: !Header(l.clean)
  }

  /** The lines of the case, then the rest. */
  function Whole(k: CaseLines, rest: seq<Line>): seq<Line> {
    [k.header] + k.body + [k.last] + rest
  }

  lemma CaseThenRest(types: seq<FiniteType>, codes: map<string, string>, s: Scan, ln: nat, k: CaseLines,
      rest: seq<Line>)
    requires AfterCase(types, codes, s, ln, k).open == None && NoHeader(rest)
    ensures Run(types, codes, s, ln, Whole(k, rest)).log == AfterCase(types, codes, s, ln, k).log
  {
    var done := AfterCase(types, codes, s, ln, k);
    CaseRun(types, codes, s, ln, k, rest);
    NothingAfterTheEnd(types, codes, done, ln + 2 + |k.body|, rest);
  }

  /** The log with the case's own report and no other. */
  ghost function OwnLog(codes: map<string, string>, s: Scan, ln: nat, k: CaseLines): seq<string>
    requires k.header.subject.Some?
  {
    var t := k.header.subject.value;
    Reported(codes, s.log, ln, t, Unnamed(t.members, QuotedIn(s.depth, k)))
  }

  /** After a regular case, whatever was open before it, nothing but its own report is added. */
  lemma OnlyOwnReport(types: seq<FiniteType>, codes: map<string, string>, s: Scan, ln: nat, k: CaseLines,
      rest: seq<Line>)
    requires Regular(s.depth, k) && NoHeader(rest)
    ensures Run(types, codes, s, ln, Whole(k, rest)).log == OwnLog(codes, s, ln, k)
  {
    MissingReportExact(types, codes, s, ln, k);
    CaseThenRest(types, codes, s, ln, k, rest);
  }

  // ---------------------------------------------------------------- one-line branches

  /** What the branch lines cover behind the line at which the linter ends the case. */
  ghost function LostBehind(types: seq<FiniteType>, depth: nat, k: CaseLines, rest: seq<Line>): set<string>
    requires k.header.subject.Some?
  {
    CoveredBehind(types, k.header.subject.value, depth, NextDepth(EndDepth(depth, k), k.last.clean), rest)
  }

  /** A branch line with a closing brace, such as a one-line `{ ... }`, ends the case.  The report is
      then the true one, over all branch lines up to the real end of the case, if and only if every
      member that a later branch line covers is quoted up to that line as well. */
  lemma OneLineBranchEndsCase(types: seq<FiniteType>, codes: map<string, string>, s: Scan, ln: nat, k: CaseLines,
      rest: seq<Line>)
    requires Regular(s.depth, k) && Counted(s.depth, EndDepth(s.depth, k), k.last.clean) && NoHeader(rest)
    ensures var t, named, lost := k.header.subject.value, QuotedIn(s.depth, k), LostBehind(types, s.depth, k, rest);
      && Run(types, codes, s, ln, Whole(k, rest)).log == OwnLog(codes, s, ln, k)
      && OwnLog(codes, s, ln, k) == Reported(codes, s.log, ln, t, Unnamed(t.members, named))
      && (Unnamed(t.members, named) == Unnamed(t.members, named + lost)
        <==> forall m | m in t.members && m in lost :: m in named)
  {
    OnlyOwnReport(types, codes, s, ln, k, rest);
    LostExact(k.header.subject.value.members, QuotedIn(s.depth, k), LostBehind(types, s.depth, k, rest));
  }

  // ---------------------------------------------------------------- nested cases

  /** A case in a branch of an open case takes its place: the outer case never reports, whatever it
      misses.  As long as the log has room, it is the right one, with the report of the outer case behind
      that of the inner, if and only if every member of the outer type is covered by a branch line of the
      outer case, before or behind the inner one. */
  lemma NestedCaseSilences(types: seq<FiniteType>, codes: map<string, string>, s: Scan, ln: nat, k: CaseLines,
      rest: seq<Line>, brace: nat, start: nat, t: FiniteType, named: set<string>)
    requires Covering(s, brace, start, t, named) && Regular(s.depth, k) && NoHeader(rest)
    requires |OwnLog(codes, s, ln, k)| < MAX_WARN
    ensures var lost := CoveredBehind(types, t, brace, s.depth, Whole(k, rest));
      var log := Run(types, codes, s, ln, Whole(k, rest)).log;
      && log == OwnLog(codes, s, ln, k)
      && (log == Reported(codes, OwnLog(codes, s, ln, k), start, t, Unnamed(t.members, named + lost))
        <==> forall m | m in t.members :: m in named || m in lost)
  {
    OnlyOwnReport(types, codes, s, ln, k, rest);
    NoneUnnamed(t.members, named + CoveredBehind(types, t, brace, s.depth, Whole(k, rest)));
  }

  // ---------------------------------------------------------------- a false warning

  lemma {:induction false} CountNone(s: string, c: char)
    requires c !in s
    ensures Count(s, c) == 0
  {
    if s != [] { CountNone(s[..|s| - 1], c); }
  }

  lemma CountLast(s: string, c: char)
    requires c !in s
    ensures Count(s + [c], c) == 1
  {
    CountNone(s, c);
    Parts(s, [c]);
  }

  lemma {:induction false} NoLiterals(s: string)
    requires forall c | c in s :: !Quote(c)
    ensures Literals(s) == []
  {
    if s != [] {
      assert s[0] in s && forall c | c in s[1..] :: c in s;
      NoLiterals(s[1..]);
    }
  }

  /** A quoted name, then text without quotes. */
  lemma OneLiteral(name: string, more: string)
    requires name != [] && '"' !in name && forall c | c in more :: !Quote(c)
    ensures Literals("\"" + (name + ("\"" + more))) == [name]
  {
    var body := name + ("\"" + more);
    var s := "\"" + body;
    assert s[0] == '"' && s[1..] == body;
    Parts(name, "\"" + more);
    FindIs(body, '"', |name|);
    assert Behind(body, |name|, '"') == more;
    NoLiterals(more);
    Unit([name]);
  }

  const AB := FiniteType("AB", ["a", "b"])

  /** A case over `"a"` and `"b"` that names both; the first branch is written on one line. */
  const SHORT := CaseLines(
    Line("case x {", "case x {", Some(AB)), [], Line(":{}", "\"" + ("a" + ("\"" + ":{}")), None))

  const LOST := [Line(":g", "\"" + ("b" + ("\"" + ":g")), None), Line("}", "}", None)]

  lemma ShortHeader()
    ensures Opens(SHORT.header) && NextDepth(0, SHORT.header.clean) == 1
  {
    var t := SHORT.header.clean;
    assert t == "case x " + ['{'] && "case " <= t && t[7] == '{';
    assert t[5..] == "x {";
    CountLast("case x ", '{');
    CountNone(t, '}');
  }

  lemma ShortLast()
    ensures Ends(0, 1, SHORT.last) && Counted(0, 1, SHORT.last.clean) && NextDepth(1, SHORT.last.clean) == 1
    ensures Literals(SHORT.last.raw) == ["a"]
  {
    var t := SHORT.last.clean;
    assert t == ":{" + ['}'];
    CountLast(":{", '}');
    CountLast(":", '{');
    assert t[..2] == ":" + ['{'];
    assert Count(t, '{') == 1;
    OneLiteral("a", ":{}");
  }

  lemma LostIsB()
    ensures NoHeader(LOST) && "b" in CoveredBehind([AB], AB, 0, 1, LOST)
  {
    OneLiteral("b", ":g");
    assert LOST[0].clean == ":g" && Counted(0, 1, LOST[0].clean) && !Wildcard(":g");
    assert "b" in Elements(Literals(LOST[0].raw));
  }

  lemma ShortReadable()
    ensures Readable(0, 1, [SHORT.last]) && Here(0, 1, SHORT.last) == {"a"}
  {
    ShortLast();
    assert Elements(["a"]) == {"a"};
    var lines := [SHORT.last];
    assert lines[1..] == [] && |["a"]| == 1;
  }

  lemma ShortRegular()
    ensures Regular(0, SHORT) && QuotedIn(0, SHORT) == {"a"} && "b" in LostBehind([AB], 0, SHORT, LOST)
  {
    ShortHeader();
    ShortLast();
    ShortReadable();
    LostIsB();
    assert {} + Here(0, 1, SHORT.last) == {"a"};
    assert EndDepth(0, SHORT) == 1;
  }

  lemma ShortFits()
    ensures Counted(0, EndDepth(0, SHORT), SHORT.last.clean) && NoHeader(LOST)
  {
    ShortHeader();
    ShortLast();
    LostIsB();
  }

  /** Both members are quoted on branch lines, and the report says that `b` is missing. */
  lemma FalseWarning()
    ensures var s := Scan(0, None, []);
      && Run([AB], map[], s, 1, Whole(SHORT, LOST)).log == Note([], 1, Report(map[], AB, ["b"]))
      && Unnamed(AB.members, QuotedIn(0, SHORT) + LostBehind([AB], 0, SHORT, LOST)) == []
  {
    ShortRegular();
    ShortFits();
    OneLineBranchEndsCase([AB], map[], Scan(0, None, []), 1, SHORT, LOST);
    UnnamedOfTwo("a", "b", QuotedIn(0, SHORT), LostBehind([AB], 0, SHORT, LOST));
  }

  lemma UnnamedOfTwo(x: string, y: string, named: set<string>, lost: set<string>)
    requires x != y && named == {x} && y in lost
    ensures Unnamed([x, y], named) == [y] && Unnamed([x, y], named + lost) == []
  {
    var ms, one := [x, y], [x];
    assert ms[..1] == one && one[..0] == [] && x in named + lost;
    assert Unnamed(one, named) == [];
    assert Unnamed(one, named + lost) == [];
  }

  /** The text of that warning, in its parts. */
  lemma FalseWarningText()
    ensures Run([AB], map[], Scan(0, None, []), 1, Whole(SHORT, LOST)).log
      == ["[lint] line " + "1" + " [WARN] " + ("finite case type '" + "AB" + "' is missing members: " + "b")]
  {
    FalseWarning();
    ListingOfOne("b");
    assert Decimal(1) == "1";
    ReportInFull(map[], [], 1, AB, ["b"]);
    Unit([WholeReport(map[], 1, AB, ["b"])]);
  }

  lemma ListingOfOne(m: string)
    requires |m| <= 127
    ensures Listing(map[], [m]) == m
  {
    var ms := [m];
    assert ms[..0] == [];
    assert Listing(map[], ms[..0]) == [];
  }

  // ---------------------------------------------------------------- a wildcard, a named type

  /** Lines inside a case: none opens or ends one. */
  predicate Inside(brace: nat, depth: nat, lines: seq<Line>)
    decreases |lines|
  {
    lines != [] ==>
      var t := lines[0].clean;
      && !Header(t) && (t == [] || !Closes(brace, depth, t))
      && Inside(brace, if t == [] then depth else NextDepth(depth, t), lines[1..])
  }

  lemma {:induction false} WildcardStays(types: seq<FiniteType>, codes: map<string, string>, s: Scan, ln: nat,
      body: seq<Line>)
    requires s.open.Some? && s.open.value.wildcard && Inside(s.open.value.brace, s.depth, body)
    ensures var r := Run(types, codes, s, ln, body);
      r.open.Some? && r.open.value.wildcard && r.open.value.brace == s.open.value.brace
        && r.depth == DepthAfter(s.depth, body)
    decreases |body|
  {
    if body != [] { WildcardStays(types, codes, Step(types, codes, s, ln, body[0]), ln + 1, body[1..]); }
  }

  /** The line that ends a case with a `_:` or `else:` branch adds nothing of its own: it logs exactly
      what it would log as a branch. */
  lemma WildcardReportsNothing(types: seq<FiniteType>, codes: map<string, string>, s: Scan, ln: nat,
      wild: Line, body: seq<Line>, last: Line)
    requires s.open.Some? && s.depth == s.open.value.brace + 1 && wild.clean != [] && wild.clean[0] != '}'
    requires ("_:" <= wild.clean || "else:" <= wild.clean) && Inside(s.open.value.brace, s.depth, [wild] + body)
    requires var depth := DepthAfter(s.depth, [wild] + body);
      last.clean != [] && !Header(last.clean) && Closes(s.open.value.brace, depth, last.clean)
    ensures var inside := Run(types, codes, s, ln, [wild] + body);
      var r := Step(types, codes, inside, ln + 1 + |body|, last);
      r.open == None && r.log == Enter(types, inside, ln + 1 + |body|, last).log
  {
    var lines := [wild] + body;
    assert lines[0] == wild && lines[1..] == body;
    var next := Step(types, codes, s, ln, wild);
    assert next.open.Some? && next.open.value.wildcard;
    WildcardStays(types, codes, next, ln + 1, body);
  }

  /** The type an `in T:` branch finds is the first registered with that name. */
  lemma {:induction false} FindTypeExact(types: seq<FiniteType>, name: string, k: nat)
    requires k <= |types| && forall i | 0 <= i < k :: types[i].name != name
    requires k < |types| ==> types[k].name == name
    ensures FindType(types, name) == if k < |types| then Some(types[k]) else None
  {
    if k > 0 {
      assert forall i | 0 <= i < k - 1 :: types[1..][i] == types[i + 1];
      FindTypeExact(types[1..], name, k - 1);
    }
  }

  // ---------------------------------------------------------------- a missing warning

  const C := FiniteType("C", ["c"])

  /** The outer case up to its first branch, which opens a block. */
  const OUTER := [Line("case x {", "case x {", Some(AB)), Line(":{", "\"" + ("a" + ("\"" + ":{")), None)]

  /** The inner case in that block names its only member. */
  const INNER := CaseLines(
    Line("case y {", "case y {", Some(C)), [], Line(":g}", "\"" + ("c" + ("\"" + ":g}")), None))

  const BRACE := Line("}", "}", None)

  const ENDS := [BRACE, BRACE]

  lemma OuterCovers()
    ensures var s := Run([AB, C], map[], Scan(0, None, []), 1, OUTER);
      Covering(s, 0, 1, AB, {"a"}) && s.log == [] && s.depth == 2
  {
    var s0, branch := Scan(0, None, []), OUTER[1];
    ShortHeader();
    HeaderOpens([AB, C], map[], s0, 1, OUTER[0]);
    var s1 := Step([AB, C], map[], s0, 1, OUTER[0]);
    BlockBranch();
    LineCovers([AB, C], map[], s1, 2, branch, 0, 1, AB, {});
    HeaderAndBody([AB, C], map[], s0, 1, OUTER[0], [branch]);
    RunOne([AB, C], map[], s1, 2, branch);
    assert OUTER == [OUTER[0]] + [branch] && {} + {"a"} == {"a"};
  }

  lemma BlockBranch()
    ensures var branch := OUTER[1];
      Quiet(0, 1, [branch]) && Readable(0, 1, [branch]) && Here(0, 1, branch) == {"a"}
        && NextDepth(1, branch.clean) == 2
  {
    var t, lines := OUTER[1].clean, [OUTER[1]];
    assert t == ":" + ['{'] && lines[1..] == [];
    CountLast(":", '{');
    CountNone(t, '}');
    OneLiteral("a", ":{");
    assert Elements(["a"]) == {"a"} && |["a"]| == 1;
  }

  lemma InnerHeader()
    ensures Opens(INNER.header) && NextDepth(2, INNER.header.clean) == 3
  {
    var t := INNER.header.clean;
    assert t == "case y " + ['{'] && "case " <= t && t[7] == '{';
    assert t[5..] == "y {";
    CountLast("case y ", '{');
    CountNone(t, '}');
  }

  lemma InnerLast()
    ensures Ends(2, 3, INNER.last) && Readable(2, 3, [INNER.last]) && Here(2, 3, INNER.last) == {"c"}
    ensures NextDepth(3, INNER.last.clean) == 2
  {
    var t, lines := INNER.last.clean, [INNER.last];
    assert t == ":g" + ['}'] && lines[1..] == [];
    CountLast(":g", '}');
    CountNone(t, '{');
    OneLiteral("c", ":g}");
    assert Elements(["c"]) == {"c"} && |["c"]| == 1;
  }

  lemma InnerRegular()
    ensures Regular(2, INNER) && QuotedIn(2, INNER) == {"c"} && Unnamed(C.members, {"c"}) == []
  {
    InnerHeader();
    InnerLast();
    assert {} + Here(2, 3, INNER.last) == {"c"};
    assert EndDepth(2, INNER) == 3;
    NoneUnnamed(C.members, {"c"});
  }

  lemma SkipLine(types: seq<FiniteType>, t: FiniteType, brace: nat, depth: nat, line: Line, rest: seq<Line>)
    requires line.clean != [] && !Counted(brace, depth, line.clean)
    requires CoveredBehind(types, t, brace, NextDepth(depth, line.clean), rest) == {}
    ensures CoveredBehind(types, t, brace, depth, [line] + rest) == {}
  {
    Parts([line], rest);
  }

  lemma BraceDepth(depth: nat)
    ensures NextDepth(depth, "}") == if depth == 0 then 0 else depth - 1
  {
    assert "}" == [] + ['}'];
    CountLast([], '}');
    CountNone("}", '{');
  }

  lemma BracesBehind()
    ensures CoveredBehind([AB, C], AB, 0, 2, [BRACE] + ([BRACE] + [])) == {}
  {
    BraceDepth(2);
    BraceDepth(1);
    SkipLine([AB, C], AB, 0, 1, BRACE, []);
    SkipLine([AB, C], AB, 0, 2, BRACE, [BRACE] + []);
  }

  lemma InnerApart()
    ensures NoHeader(ENDS)
    ensures Whole(INNER, ENDS) == [INNER.header] + ([INNER.last] + ([BRACE] + ([BRACE] + [])))
  {
  }

  /** No line behind is a branch of the outer case. */
  lemma NothingBehind()
    ensures CoveredBehind([AB, C], AB, 0, 2, Whole(INNER, ENDS)) == {} && NoHeader(ENDS)
  {
    var ends := [BRACE] + ([BRACE] + []);
    InnerApart();
    BracesBehind();
    InnerLast();
    SkipLine([AB, C], AB, 0, 3, INNER.last, ends);
    InnerHeader();
    SkipLine([AB, C], AB, 0, 2, INNER.header, [INNER.last] + ends);
  }

  /** A case that quotes only one member of its type, with a nested case behind it: nothing is logged. */
  lemma MissingWarning()
    ensures Run([AB, C], map[], Scan(0, None, []), 1, OUTER + Whole(INNER, ENDS)).log == []
    ensures Unnamed(AB.members, {"a"} + CoveredBehind([AB, C], AB, 0, 2, Whole(INNER, ENDS))) == ["b"]
  {
    var s := Run([AB, C], map[], Scan(0, None, []), 1, OUTER);
    OuterCovers();
    InnerRegular();
    NothingBehind();
    NestedCaseSilences([AB, C], map[], s, 3, INNER, ENDS, 0, 1, AB, {"a"});
    RunAppend([AB, C], map[], Scan(0, None, []), 1, OUTER, Whole(INNER, ENDS));
    UnnamedOfTwo("a", "b", {"a"}, {"b"});
    assert {"a"} + {} == {"a"};
  }
}
