/** The linter's own variables and loops for `case` coverage: the member tables it fills up to their
    capacity, the one open case, and the log of bounded messages.  Each method is proved
    against the function of `CaseLint` that says what the line, the union or the report should be. */
module CaseLinter {
  import opened CaseLint
  import opened CaseMembers
  import opened Options
  import opened Seqs
  import opened Text

  /** strncat into a buffer of 256. */
  function Append(t: string, s: string): (r: string)
    requires |t| <= 255
    ensures |r| <= 255
  {
    t + Clip(s, 255 - |t|)
  }

  /** The separator and the item: cutting at every step is cutting the whole. */
  lemma ListingStep(codes: map<string, string>, ms: seq<string>, m: string)
    ensures var t, sep := Clip(Listing(codes, ms), 255), ", ";
      Clip(Listing(codes, ms + [m]), 255) == Append(if t == [] then t else Append(t, sep), Label(codes, m))
  {
    var more := Listing(codes, ms);
    assert (ms + [m])[..|ms + [m]| - 1] == ms;
    if more == [] {
      assert [] + Clip(Label(codes, m), 255) == Clip(Label(codes, m), 255);
    } else {
      ClipAppend(more, ", ", 255);
      ClipAppend(more + ", ", Label(codes, m), 255);
    }
  }

  class Linter {
    const types: seq<FiniteType>
    const codes: map<string, string>
    const covered: array<string>
    var coveredCount: nat
    var blockDepth: nat
    var caseBrace: int
    var startLine: nat
    var isTry: bool
    var wildcardLine: nat
    var completeLine: nat
    var caseType: Option<FiniteType>
    var log: seq<string>

    ghost predicate Valid()
      reads this
    {
      covered.Length == MEMBERS && coveredCount <= MEMBERS && caseBrace >= -1
    }

    ghost function State(): Scan
      requires Valid()
      reads this, covered
    {
      Scan(blockDepth,
        if caseBrace < 0 then None
        else Some(Case(caseBrace, startLine, isTry, wildcardLine > 0, completeLine > 0, caseType,
          covered[..coveredCount])),
        log)
    }

    constructor (types: seq<FiniteType>, codes: map<string, string>)
      ensures Valid() && fresh(covered) && this.types == types && this.codes == codes && State() == Scan(0, None, [])
    {
      this.types, this.codes := types, codes;
      covered := new string[MEMBERS](_ => "");
      coveredCount, blockDepth, caseBrace, startLine, isTry := 0, 0, -1, 0, false;
      wildcardLine, completeLine, caseType, log := 0, 0, None, [];
    }

    /** Is `m` among the covered members? */
    method IsCovered(m: string) returns (found: bool)
      requires Valid()
      ensures found == (m in covered[..coveredCount])
    {
      found := false;
      var j := 0;
      while j < coveredCount
        invariant j <= coveredCount && found == (m in covered[..j])
      {
        if covered[j] == m { found := true; }
        j := j + 1;
      }
    }

    method AddMember(m: string)
      requires Valid()
      modifies this`coveredCount, covered
      ensures Valid() && covered[..coveredCount] == Add(old(covered[..coveredCount]), m)
    {
      if coveredCount >= MEMBERS { return; }
      var found := IsCovered(m);
      if !found {
        covered[coveredCount] := m;
        coveredCount := coveredCount + 1;
      }
    }

    /** The loop over the found members stops when the list is full. */
    method AddMembers(found: seq<string>)
      requires Valid()
      modifies this`coveredCount, covered
      ensures Valid() && covered[..coveredCount] == Cover(old(covered[..coveredCount]), found)
    {
      ghost var before := covered[..coveredCount];
      var i := 0;
      while i < |found| && coveredCount < MEMBERS
        invariant i <= |found| && Valid() && covered[..coveredCount] == Cover(before, found[..i])
      {
        Longer(found, i);
        AddMember(found[i]);
        i := i + 1;
      }
      assert found[..|found|] == found;
      if i < |found| { CoverStops(before, found, i); }
    }

    method Branch(ln: nat, line: Line)
      requires Valid() && caseBrace >= 0 && ln > 0
      modifies this, covered
      ensures Valid() && State() == CaseLint.Branch(types, old(State()), ln, line)
    {
      var t := line.clean;
      if Wildcard(t) {
        wildcardLine := ln;
      } else if isTry {
        return;
      } else if completeLine > 0 {
        log := Note(log, ln, COMPLETE_NOTE);
      } else if wildcardLine > 0 && ':' in t {
        log := Note(log, ln, WILDCARD_NOTE);
      } else if "in " <= t {
        var m := Membership(types, t);
        if m.Some? {
          caseType := m;
          AddMembers(m.value.members);
          completeLine := ln;
        }
      } else if caseType.Some? && coveredCount < MEMBERS {
        var found := ExtractQuoted(line.raw, MEMBERS);
        AddMembers(found);
      }
    }

    /** The text of the report: every uncovered member of the type is appended to a fixed buffer. */
    method MissingText(members: seq<string>) returns (text: string)
      requires Valid()
      ensures text == Clip(Listing(codes, Missing(members, covered[..coveredCount])), 255)
    {
      ghost var c := covered[..coveredCount];
      text := "";
      var i := 0;
      while i < |members|
        invariant i <= |members| && text == Clip(Listing(codes, Missing(members[..i], c)), 255)
      {
        Longer(members, i);
        var found := IsCovered(members[i]);
        if !found {
          ListingStep(codes, Missing(members[..i], c), members[i]);
          if text != "" { text := Append(text, ", "); }
          text := Append(text, Label(codes, members[i]));
        }
        i := i + 1;
      }
      assert members[..|members|] == members;
    }

    method Close()
      requires Valid() && caseBrace >= 0
      modifies this
      ensures Valid() && State() == CaseLint.Close(codes, old(State()))
    {
      if wildcardLine == 0 && caseType.None? && !isTry {
        log := Note(log, startLine, OPEN_NOTE);
      }
      if caseType.Some? && wildcardLine == 0 {
        var text := MissingText(caseType.value.members);
        if text != "" {
          log := Note(log, startLine,
            Clip("finite case type '" + caseType.value.name + "' is missing members: " + text, 319));
        }
      }
      caseBrace, wildcardLine, completeLine, startLine, caseType, isTry := -1, 0, 0, 0, None, false;
    }

    /** Opening and closing braces of the cleaned line. */
    method CountBraces(t: string) returns (opens: nat, closes: nat)
      ensures opens == Count(t, '{') && closes == Count(t, '}')
    {
      opens, closes := 0, 0;
      var i := 0;
      while i < |t|
        invariant i <= |t| && opens == Count(t[..i], '{') && closes == Count(t[..i], '}')
      {
        Longer(t, i);
        if t[i] == '{' { opens := opens + 1; }
        if t[i] == '}' { closes := closes + 1; }
        i := i + 1;
      }
      assert t[..|t|] == t;
    }

    /** The first half of a turn: a header opens a case, a branch line is looked at. */
    method EnterLine(ln: nat, line: Line)
      requires Valid() && ln > 0 && line.clean != []
      modifies this, covered
      ensures Valid() && State() == Enter(types, old(State()), ln, line)
    {
      var t := line.clean;
      if Header(t) {
        caseBrace, wildcardLine, completeLine, startLine := blockDepth, 0, 0, ln;
        isTry := "try " <= t[5..];
        coveredCount := 0;
        caseType := line.subject;
      } else if caseBrace >= 0 && blockDepth == caseBrace + 1 && t[0] != '}' {
        Branch(ln, line);
      }
    }

    /** One turn of the line loop. */
    method ScanLine(ln: nat, line: Line)
      requires Valid() && ln > 0
      modifies this, covered
      ensures Valid() && State() == Step(types, codes, old(State()), ln, line)
    {
      var t := line.clean;
      if t == [] { return; }
      var opens, closes := CountBraces(t);
      EnterLine(ln, line);
      if caseBrace >= 0 && closes > 0 && blockDepth - closes <= caseBrace {
        Close();
      }
      blockDepth := if blockDepth + opens >= closes then blockDepth + opens - closes else 0;
    }

    /** The scan of a whole file. */
    method ScanLines(lines: seq<Line>)
      requires Valid()
      modifies this, covered
      ensures Valid() && State() == Run(types, codes, old(State()), 1, lines)
    {
      var ln := 0;
      ghost var start := State();
      assert lines[0..] == lines;
      while ln < |lines|
        invariant ln <= |lines| && Valid()
          && Run(types, codes, State(), ln + 1, lines[ln..]) == Run(types, codes, start, 1, lines)
      {
        DropDrop(lines, ln, 1);
        ln := ln + 1;
        ScanLine(ln, lines[ln - 1]);
      }
    }
  }
}
