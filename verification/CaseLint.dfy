/** The linter's `case` coverage: a state machine over the cleaned lines of a file. */
module CaseLint {
  import opened CaseMembers
  import opened Numerals
  import opened Options
  import opened Seqs
  import opened Text

  /** A finite string type: at most 32 members, none of them empty. */
  datatype FiniteType = FiniteType(name: string, members: seq<string>)

  /** A line: trimmed and without strings and comments, as it was read, and the finite type its
      subject is declared with if it opens a `case`. */
  datatype Line = Line(clean: string, raw: string, subject: Option<FiniteType>)

  /** The open `case`: its brace depth and line, and what its branches have covered. */
  datatype Case = Case(brace: nat, start: nat, isTry: bool, wildcard: bool, complete: bool,
    finite: Option<FiniteType>, covered: seq<string>)

  datatype Scan = Scan(depth: nat, open: Option<Case>, log: seq<string>)

  // ---------------------------------------------------------------- the report

  const MAX_WARN := 64

  /** `lint_add`: 64 lines of 199 characters. */
  function Note(log: seq<string>, ln: nat, text: string): seq<string> {
    if |log| >= MAX_WARN then log else log + [Clip("[lint] line " + Decimal(ln) + " [WARN] " + text, 199)]
  }

  /** `im_error_label`: the printed error code in front of a name that has one. */
  function Label(codes: map<string, string>, name: string): string {
    Clip(if name in codes then codes[name] + " " + name else name, 127)
  }

  function Missing(members: seq<string>, covered: seq<string>): seq<string> {
    if members == [] then []
    else
      var more := Missing(members[..|members| - 1], covered);
      var m := members[|members| - 1];
      if m in covered then more else more + [m]
  }

  /** Labels separated by commas. */
  function Listing(codes: map<string, string>, ms: seq<string>): string {
    if ms == [] then []
    else
      var more, item := Listing(codes, ms[..|ms| - 1]), Label(codes, ms[|ms| - 1]);
      if more == [] then item else more + ", " + item
  }

  /** The text between the type's name and the list. */
  function Report(codes: map<string, string>, t: FiniteType, missing: seq<string>): string {
    Clip("finite case type '" + t.name + "' is missing members: " + Clip(Listing(codes, missing), 255), 319)
  }

  // ---------------------------------------------------------------- one line

  function Count(s: string, c: char): nat {
    if s == [] then 0 else Count(s[..|s| - 1], c) + if s[|s| - 1] == c then 1 else 0
  }

  predicate Header(t: string) {
    "case " <= t && '{' in t
  }

  predicate Wildcard(t: string) {
    "_:" <= t || "else:" <= t
  }

  function NameLen(t: string, room: nat): (n: nat)
    ensures n <= |t|
    decreases room
  {
    if t == [] || room == 0 || t[0] == ':' || t[0] == ' ' || t[0] == '\t' then 0 else 1 + NameLen(t[1..], room - 1)
  }

  function SkipBlanks(t: string): string {
    if t != [] && (t[0] == ' ' || t[0] == '\t') then SkipBlanks(t[1..]) else t
  }

  function FindType(types: seq<FiniteType>, name: string): Option<FiniteType> {
    if types == [] then None else if types[0].name == name then Some(types[0]) else FindType(types[1..], name)
  }

  /** The type an `in T:` branch names, if it names one. */
  function Membership(types: seq<FiniteType>, t: string): Option<FiniteType>
    requires "in " <= t
  {
    var p := t[3..];
    var n := NameLen(p, 63);
    var tail := SkipBlanks(p[n..]);
    if ":" <= tail then FindType(types, p[..n]) else None
  }

  const COMPLETE_NOTE := "case branch is unreachable: a finite-set membership branch already covers the subject"
  const WILDCARD_NOTE := "case branch is unreachable: wildcard '_'/'else' appears before this branch"
  const OPEN_NOTE :=
    "case has no wildcard '_'/'else' branch; exhaustive coverage cannot be proven for open or infinite sets"

  /** A branch line of the open case. */
  function Branch(types: seq<FiniteType>, s: Scan, ln: nat, line: Line): (r: Scan)
    requires s.open.Some?
    ensures r.open.Some? && r.open.value.brace == s.open.value.brace && r.depth == s.depth
  {
    var c, t := s.open.value, line.clean;
    if Wildcard(t) then s.(open := Some(c.(wildcard := true)))
    else if c.isTry then s
    else if c.complete then s.(log := Note(s.log, ln, COMPLETE_NOTE))
    else if c.wildcard && ':' in t then s.(log := Note(s.log, ln, WILDCARD_NOTE))
    else if "in " <= t then
      match Membership(types, t)
      case None => s
      case Some(m) => s.(open := Some(c.(finite := Some(m), covered := Cover(c.covered, m.members), complete := true)))
    else if c.finite.Some? && |c.covered| < MEMBERS then
      s.(open := Some(c.(covered := Cover(c.covered, Extract(line.raw, MEMBERS)))))
    else s
  }

  /** The end of the open case. */
  function Close(codes: map<string, string>, s: Scan): Scan
    requires s.open.Some?
  {
    var c := s.open.value;
    var log :=
      if c.wildcard then s.log
      else if c.finite.None? then (if c.isTry then s.log else Note(s.log, c.start, OPEN_NOTE))
      else
        var missing := Missing(c.finite.value.members, c.covered);
        if Listing(codes, missing) == [] then s.log else Note(s.log, c.start, Report(codes, c.finite.value, missing));
    s.(open := None, log := log)
  }

  /** Whether a line is looked at as a branch of the open case. */
  predicate Counted(brace: nat, depth: nat, t: string) {
    t != [] && depth == brace + 1 && t[0] != '}'
  }

  /** Whether a line ends a case: any closing brace that reaches its depth. */
  predicate Closes(brace: nat, depth: nat, t: string) {
    Count(t, '}') > 0 && depth - Count(t, '}') <= brace
  }

  function NextDepth(depth: nat, t: string): nat {
    var d := depth + Count(t, '{') - Count(t, '}');
    if d < 0 then 0 else d
  }

  /** The first half of a turn: a header opens a case, a branch line is looked at. */
  function Enter(types: seq<FiniteType>, s: Scan, ln: nat, line: Line): (r: Scan)
    ensures r.depth == s.depth
  {
    var t := line.clean;
    if Header(t) then s.(open := Some(Case(s.depth, ln, "try " <= t[5..], false, false, line.subject, [])))
    else if s.open.Some? && Counted(s.open.value.brace, s.depth, t) then Branch(types, s, ln, line)
    else s
  }

  function Step(types: seq<FiniteType>, codes: map<string, string>, s: Scan, ln: nat, line: Line): Scan {
    var t := line.clean;
    if t == [] then s
    else
      var a := Enter(types, s, ln, line);
      var b := if a.open.Some? && Closes(a.open.value.brace, s.depth, t) then Close(codes, a) else a;
      b.(depth := NextDepth(s.depth, t))
  }

  /** The scan of the lines `ln`, `ln + 1`, ... */
  function Run(types: seq<FiniteType>, codes: map<string, string>, s: Scan, ln: nat, lines: seq<Line>): Scan
    decreases |lines|
  {
    if lines == [] then s else Run(types, codes, Step(types, codes, s, ln, lines[0]), ln + 1, lines[1..])
  }

  // ---------------------------------------------------------------- what the branches name

  /** A body none of whose lines opens or ends a case, or is a wildcard or an `in` branch. */
  predicate Quiet(brace: nat, depth: nat, lines: seq<Line>)
    decreases |lines|
  {
    lines != [] ==>
      var t := lines[0].clean;
      && Ordinary(brace, depth, t) && (t == [] || !Closes(brace, depth, t))
      && Quiet(brace, if t == [] then depth else NextDepth(depth, t), lines[1..])
  }

  predicate Ordinary(brace: nat, depth: nat, t: string) {
    !Header(t) && (Counted(brace, depth, t) ==> !Wildcard(t) && !("in " <= t))
  }

  function DepthAfter(depth: nat, lines: seq<Line>): nat
    decreases |lines|
  {
    if lines == [] then depth
    else DepthAfter(if lines[0].clean == [] then depth else NextDepth(depth, lines[0].clean), lines[1..])
  }

  /** Every string quoted on a branch line. */
  ghost function Named(brace: nat, depth: nat, lines: seq<Line>): set<string>
    decreases |lines|
  {
    if lines == [] then {}
    else
      var t := lines[0].clean;
      (if Counted(brace, depth, t) then Elements(Literals(lines[0].raw)) else {})
      + Named(brace, if t == [] then depth else NextDepth(depth, t), lines[1..])
  }

  /** Every branch line has at most 32 literals, each of at most 95 characters. */
  predicate Readable(brace: nat, depth: nat, lines: seq<Line>)
    decreases |lines|
  {
    lines != [] ==>
      var t := lines[0].clean;
      && (Counted(brace, depth, t) ==> |Literals(lines[0].raw)| <= MEMBERS && AllShort(Literals(lines[0].raw)))
      && Readable(brace, if t == [] then depth else NextDepth(depth, t), lines[1..])
  }

  /** The open case of the theorem: finite, and no wildcard or `in` branch so far. */
  ghost predicate Covering(s: Scan, brace: nat, start: nat, t: FiniteType, named: set<string>) {
    && s.open.Some? && s.open.value == Case(brace, start, false, false, false, Some(t), s.open.value.covered)
    && Distinct(s.open.value.covered) && Elements(s.open.value.covered) == named
  }

  /** One branch line covers exactly what it quotes. */
  lemma BranchCovers(types: seq<FiniteType>, s: Scan, ln: nat, line: Line, brace: nat, start: nat, t: FiniteType,
      named: set<string>)
    requires Covering(s, brace, start, t, named) && Ordinary(brace, brace + 1, line.clean)
      && Counted(brace, brace + 1, line.clean)
    requires |Literals(line.raw)| <= MEMBERS && AllShort(Literals(line.raw))
    requires |named + Elements(Literals(line.raw))| <= MEMBERS
    ensures var r := Branch(types, s, ln, line);
      Covering(r, brace, start, t, named + Elements(Literals(line.raw))) && r.log == s.log && r.depth == s.depth
  {
    var c := s.open.value;
    ExtractExact(line.raw, MEMBERS);
    CoverIsUnion(c.covered, Extract(line.raw, MEMBERS));
    if |c.covered| >= MEMBERS { CoverFull(c.covered, Extract(line.raw, MEMBERS)); }
    assert Branch(types, s, ln, line) == s.(open := Some(c.(covered := Cover(c.covered, Extract(line.raw, MEMBERS)))));
  }

  /** What one line of the body quotes. */
  ghost function Here(brace: nat, depth: nat, line: Line): set<string> {
    if Counted(brace, depth, line.clean) then Elements(Literals(line.raw)) else {}
  }

  /** One quiet line covers exactly what it quotes. */
  lemma LineCovers(types: seq<FiniteType>, codes: map<string, string>, s: Scan, ln: nat, line: Line,
      brace: nat, start: nat, t: FiniteType, named: set<string>)
    requires Covering(s, brace, start, t, named) && Quiet(brace, s.depth, [line]) && Readable(brace, s.depth, [line])
    requires |named + Here(brace, s.depth, line)| <= MEMBERS
    ensures var r := Step(types, codes, s, ln, line);
      && Covering(r, brace, start, t, named + Here(brace, s.depth, line)) && r.log == s.log
      && r.depth == if line.clean == [] then s.depth else NextDepth(s.depth, line.clean)
  {
    if Counted(brace, s.depth, line.clean) {
      BranchCovers(types, s, ln, line, brace, start, t, named);
    } else {
      assert named + {} == named;
    }
  }

  lemma UnionStep(a: set<string>, b: set<string>, c: set<string>)
    ensures a + (b + c) == a + b + c && |a + b| <= |a + b + c|
  {
    SubsetFull(a + b, a + b + c);
  }

  /** Over a quiet body the covered members are exactly the quoted ones. */
  lemma {:induction false} BodyCovers(types: seq<FiniteType>, codes: map<string, string>, s: Scan, ln: nat,
      body: seq<Line>,
      brace: nat, start: nat, t: FiniteType, named: set<string>)
    requires Covering(s, brace, start, t, named) && Quiet(brace, s.depth, body) && Readable(brace, s.depth, body)
    requires |named + Named(brace, s.depth, body)| <= MEMBERS
    ensures var r := Run(types, codes, s, ln, body);
      && Covering(r, brace, start, t, named + Named(brace, s.depth, body))
      && r.log == s.log && r.depth == DepthAfter(s.depth, body)
    decreases |body|
  {
    if body == [] {
      assert named + {} == named;
    } else {
      var line := body[0];
      var here := Here(brace, s.depth, line);
      var next := Step(types, codes, s, ln, line);
      var later := Named(brace, if line.clean == [] then s.depth else NextDepth(s.depth, line.clean), body[1..]);
      UnionStep(named, here, later);
      assert Named(brace, s.depth, body) == here + later;
      LineCovers(types, codes, s, ln, line, brace, start, t, named);
      BodyCovers(types, codes, next, ln + 1, body[1..], brace, start, t, named + here);
    }
  }

  // ---------------------------------------------------------------- the report is exact

  /** The members that no branch line quotes, in the type's order. */
  ghost function Unnamed(members: seq<string>, named: set<string>): seq<string> {
    if members == [] then []
    else
      var more := Unnamed(members[..|members| - 1], named);
      var m := members[|members| - 1];
      if m in named then more else more + [m]
  }

  lemma {:induction false} MissingIsUnnamed(members: seq<string>, covered: seq<string>)
    ensures Missing(members, covered) == Unnamed(members, Elements(covered))
  {
    if members != [] { MissingIsUnnamed(members[..|members| - 1], covered); }
  }

  lemma LabelShows(codes: map<string, string>, name: string)
    requires name != []
    ensures Label(codes, name) != []
  {
  }

  /** A non-empty list of members has a non-empty text. */
  lemma ListingShows(codes: map<string, string>, ms: seq<string>)
    requires forall i | 0 <= i < |ms| :: ms[i] != []
    ensures Listing(codes, ms) == [] <==> ms == []
  {
    if ms != [] { LabelShows(codes, ms[|ms| - 1]); }
  }

  lemma {:induction false} UnnamedIn(members: seq<string>, named: set<string>)
    ensures forall m :: m in Unnamed(members, named) <==> m in members && m !in named
  {
    if members != [] {
      var front, last := members[..|members| - 1], members[|members| - 1];
      UnnamedIn(front, named);
      assert members == front + [last];
    }
  }

  /** A header of a non-try case on a finite type, with no closing brace. */
  predicate Opens(header: Line) {
    Header(header.clean) && !("try " <= header.clean[5..]) && header.subject.Some? && Count(header.clean, '}') == 0
  }

  /** The last line of the case, itself perhaps a branch. */
  predicate Ends(brace: nat, depth: nat, last: Line) {
    last.clean != [] && Ordinary(brace, depth, last.clean) && Closes(brace, depth, last.clean)
  }

  /** The lines of one case, from its header to the line that ends it. */
  datatype CaseLines = CaseLines(header: Line, body: seq<Line>, last: Line)

  /** The state behind the whole case. */
  function AfterCase(types: seq<FiniteType>, codes: map<string, string>, s: Scan, ln: nat, k: CaseLines): Scan {
    var inside := Run(types, codes, Step(types, codes, s, ln, k.header), ln + 1, k.body);
    Step(types, codes, inside, ln + 1 + |k.body|, k.last)
  }

  /** The depth at which the last line stands, if the header stands at `depth`. */
  function EndDepth(depth: nat, k: CaseLines): nat {
    DepthAfter(NextDepth(depth, k.header.clean), k.body)
  }

  /** Every string quoted on a branch line of the case. */
  ghost function QuotedIn(depth: nat, k: CaseLines): set<string> {
    Named(depth, NextDepth(depth, k.header.clean), k.body) + Here(depth, EndDepth(depth, k), k.last)
  }

  /** A non-try case on a finite type, without a wildcard or `in` branch or a nested case, whose branch
      lines can be read and quote at most 32 different strings. */
  ghost predicate Regular(depth: nat, k: CaseLines) {
    && Opens(k.header) && (forall m | m in k.header.subject.value.members :: m != [])
    && Quiet(depth, NextDepth(depth, k.header.clean), k.body) && Ends(depth, EndDepth(depth, k), k.last)
    && Readable(depth, NextDepth(depth, k.header.clean), k.body) && Readable(depth, EndDepth(depth, k), [k.last])
    && |QuotedIn(depth, k)| <= MEMBERS
  }

  /** The log after a case that leaves `missing` unquoted. */
  function Reported(codes: map<string, string>, log: seq<string>, ln: nat, t: FiniteType,
      missing: seq<string>): seq<string> {
    if missing == [] then log else Note(log, ln, Report(codes, t, missing))
  }

  lemma HeaderOpens(types: seq<FiniteType>, codes: map<string, string>, s: Scan, ln: nat, header: Line)
    requires Opens(header)
    ensures var r := Step(types, codes, s, ln, header);
      Covering(r, s.depth, ln, header.subject.value, {}) && r.log == s.log
        && r.depth == NextDepth(s.depth, header.clean)
  {
    assert Elements([]) == {};
  }

  /** Missing-member reports are exact: a case whose branch lines quote at most 32 different strings
      ends with one report, on the line of its header, exactly when some member of its type is
      quoted on no branch line; the report lists exactly those members, in the type's order. */
  lemma MissingReportExact(types: seq<FiniteType>, codes: map<string, string>, s: Scan, ln: nat, k: CaseLines)
    requires Regular(s.depth, k)
    ensures var t, named := k.header.subject.value, QuotedIn(s.depth, k);
      var r, missing := AfterCase(types, codes, s, ln, k), Unnamed(t.members, named);
      && r.open == None && r.log == Reported(codes, s.log, ln, t, missing)
      && forall m :: m in missing <==> m in t.members && m !in named
  {
    var t, s1 := k.header.subject.value, Step(types, codes, s, ln, k.header);
    HeaderOpens(types, codes, s, ln, k.header);
    InsideCase(types, codes, s1, ln + 1, k.body, k.last, s.depth, ln, t);
    UnnamedIn(t.members, QuotedIn(s.depth, k));
  }

  /** From the first line behind the header to the end. */
  lemma InsideCase(types: seq<FiniteType>, codes: map<string, string>, s: Scan, ln: nat, body: seq<Line>, last: Line,
      brace: nat, start: nat, t: FiniteType)
    requires Covering(s, brace, start, t, {}) && forall m | m in t.members :: m != []
    requires Quiet(brace, s.depth, body) && Ends(brace, DepthAfter(s.depth, body), last)
    requires Readable(brace, s.depth, body) && Readable(brace, DepthAfter(s.depth, body), [last])
    requires |Named(brace, s.depth, body) + Here(brace, DepthAfter(s.depth, body), last)| <= MEMBERS
    ensures var inside := Run(types, codes, s, ln, body);
      var r := Step(types, codes, inside, ln + |body|, last);
      var missing := Unnamed(t.members, Named(brace, s.depth, body) + Here(brace, DepthAfter(s.depth, body), last));
      r.open == None && r.log == if missing == [] then s.log else Note(s.log, start, Report(codes, t, missing))
  {
    var before := Named(brace, s.depth, body);
    assert {} + before == before;
    SubsetFull(before, before + Here(brace, DepthAfter(s.depth, body), last));
    BodyCovers(types, codes, s, ln, body, brace, start, t, {});
    LastLine(types, codes, Run(types, codes, s, ln, body), ln + |body|, last, brace, start, t, before);
  }

  /** The closing line: its own branch is counted, then the report is written. */
  lemma LastLine(types: seq<FiniteType>, codes: map<string, string>, s: Scan, ln: nat, last: Line,
      brace: nat, start: nat, t: FiniteType, named: set<string>)
    requires Covering(s, brace, start, t, named) && Ends(brace, s.depth, last) && Readable(brace, s.depth, [last])
    requires |named + Here(brace, s.depth, last)| <= MEMBERS && forall m | m in t.members :: m != []
    ensures var r, missing := Step(types, codes, s, ln, last), Unnamed(t.members, named + Here(brace, s.depth, last));
      r.open == None && r.log == if missing == [] then s.log else Note(s.log, start, Report(codes, t, missing))
  {
    var a := if Counted(brace, s.depth, last.clean) then Branch(types, s, ln, last) else s;
    var named' := named + Here(brace, s.depth, last);
    if Counted(brace, s.depth, last.clean) {
      BranchCovers(types, s, ln, last, brace, start, t, named);
    } else {
      assert named' == named;
    }
    assert Step(types, codes, s, ln, last) == Close(codes, a).(depth := NextDepth(s.depth, last.clean));
    MissingIsUnnamed(t.members, a.open.value.covered);
    UnnamedIn(t.members, named');
    var missing := Unnamed(t.members, named');
    assert forall i | 0 <= i < |missing| :: missing[i] in missing;
    ListingShows(codes, missing);
  }

  /** The report with nothing cut. */
  function WholeReport(codes: map<string, string>, ln: nat, t: FiniteType, missing: seq<string>): string {
    "[lint] line " + Decimal(ln) + " [WARN] "
    + ("finite case type '" + t.name + "' is missing members: " + Listing(codes, missing))
  }

  /** A report that fits is written out in full. */
  lemma ReportInFull(codes: map<string, string>, log: seq<string>, ln: nat, t: FiniteType, missing: seq<string>)
    requires |log| < MAX_WARN
    requires |WholeReport(codes, ln, t, missing)| <= 199
    ensures Note(log, ln, Report(codes, t, missing)) == log + [WholeReport(codes, ln, t, missing)]
  {
  }

  /** After the case has ended, later lines without a case header report nothing: the branches
      behind a one-line `{ ... }` are not looked at. */
  lemma {:induction false} NothingAfterTheEnd(types: seq<FiniteType>, codes: map<string, string>, s: Scan, ln: nat,
      rest: seq<Line>)
    requires s.open == None && forall l | l in rest :: !Header(l.clean)
    ensures Run(types, codes, s, ln, rest).log == s.log && Run(types, codes, s, ln, rest).open == None
    decreases |rest|
  {
    if rest != [] {
      assert rest[0] in rest && forall l | l in rest[1..] :: l in rest;
      NothingAfterTheEnd(types, codes, Step(types, codes, s, ln, rest[0]), ln + 1, rest[1..]);
    }
  }

  /** An `in T:` branch that leaves room for the members of `T` completes the case. */
  lemma MembershipCompletes(types: seq<FiniteType>, codes: map<string, string>, s: Scan, ln: nat, line: Line)
    requires s.open.Some? && !s.open.value.isTry && !s.open.value.complete && !s.open.value.wildcard
    requires "in " <= line.clean && !Wildcard(line.clean) && Membership(types, line.clean).Some?
    requires Distinct(s.open.value.covered)
    requires |Elements(s.open.value.covered) + Elements(Membership(types, line.clean).value.members)| <= MEMBERS
    ensures var r := Branch(types, s, ln, line); r.open.value.complete && Close(codes, r).log == s.log
  {
    var m := Membership(types, line.clean).value;
    CoverIsUnion(s.open.value.covered, m.members);
    assert forall i | 0 <= i < |m.members| :: m.members[i] in Elements(m.members);
    NoneMissing(m.members, Cover(s.open.value.covered, m.members));
  }

  lemma {:induction false} NoneMissing(members: seq<string>, covered: seq<string>)
    requires forall i | 0 <= i < |members| :: members[i] in Elements(covered)
    ensures Missing(members, covered) == []
  {
    if members != [] { NoneMissing(members[..|members| - 1], covered); }
  }

  lemma {:induction false} RunAppend(types: seq<FiniteType>, codes: map<string, string>, s: Scan, ln: nat,
      a: seq<Line>, b: seq<Line>)
    ensures Run(types, codes, s, ln, a + b) == Run(types, codes, Run(types, codes, s, ln, a), ln + |a|, b)
    decreases |a|
  {
    if a == [] {
      Unit(b);
    } else {
      var all, next := a + b, Step(types, codes, s, ln, a[0]);
      DropOfSum(a, b, 1);
      RunAppend(types, codes, next, ln + 1, a[1..], b);
      assert Run(types, codes, s, ln, all) == Run(types, codes, next, ln + 1, all[1..]);
      assert Run(types, codes, s, ln, a) == Run(types, codes, next, ln + 1, a[1..]);
    }
  }

  lemma HeaderAndBody(types: seq<FiniteType>, codes: map<string, string>, s: Scan, ln: nat, header: Line,
      body: seq<Line>)
    ensures Run(types, codes, s, ln, [header] + body)
      == Run(types, codes, Step(types, codes, s, ln, header), ln + 1, body)
  {
    RunAppend(types, codes, s, ln, [header], body);
    RunOne(types, codes, s, ln, header);
  }

  lemma CaseRun(types: seq<FiniteType>, codes: map<string, string>, s: Scan, ln: nat, k: CaseLines, rest: seq<Line>)
    ensures Run(types, codes, s, ln, [k.header] + k.body + [k.last] + rest)
      == Run(types, codes, AfterCase(types, codes, s, ln, k), ln + 2 + |k.body|, rest)
  {
    AfterCaseIs(types, codes, s, ln, k);
    Appended(types, codes, s, ln, [k.header] + k.body, ln + 1 + |k.body|, k.last, rest);
  }

  lemma AfterCaseIs(types: seq<FiniteType>, codes: map<string, string>, s: Scan, ln: nat, k: CaseLines)
    ensures AfterCase(types, codes, s, ln, k)
      == Step(types, codes, Run(types, codes, s, ln, [k.header] + k.body), ln + 1 + |k.body|, k.last)
  {
    HeaderAndBody(types, codes, s, ln, k.header, k.body);
  }

  /** The lines in front, the last one and the rest. */
  lemma Appended(types: seq<FiniteType>, codes: map<string, string>, s: Scan, ln: nat, front: seq<Line>, at: nat,
      last: Line, rest: seq<Line>)
    requires at == ln + |front|
    ensures Run(types, codes, s, ln, front + [last] + rest)
      == Run(types, codes, Step(types, codes, Run(types, codes, s, ln, front), at, last), at + 1, rest)
  {
    RunAppend(types, codes, s, ln, front + [last], rest);
    RunAppend(types, codes, s, ln, front, [last]);
    RunOne(types, codes, Run(types, codes, s, ln, front), at, last);
  }

  lemma RunOne(types: seq<FiniteType>, codes: map<string, string>, s: Scan, ln: nat, line: Line)
    ensures Run(types, codes, s, ln, [line]) == Step(types, codes, s, ln, line)
  {
    assert [line][1..] == [];
  }
}
