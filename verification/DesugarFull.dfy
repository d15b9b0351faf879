/** What happens when the output fills up: exactly when the loop takes the last cell, and exactly
    when the line's terminator is written outside the buffer.  Most turns stop one cell earlier; the
    edge predicates below name the turns that do not, as conditions on where the loop stands, and two
    readable lines show that both kinds are reached at the code's own buffer size. */
module DesugarFull {
  import opened Desugar
  import opened Seqs

  /** The turn copies both characters of `#[` behind a test for one. */
  predicate Opener(st: State) {
    st.rest != [] && !st.inBlock && st.rest[0] == '#' && At(st.rest, 1) == '['
  }

  /** The turn writes `;` and, if the output has room, a `)` in front of it. */
  predicate ClosingSemi(st: State) {
    st.rest != [] && !st.inBlock && !st.inStr && st.rest[0] == ';' && st.sayWrap
  }

  /** Some turn stands two cells before the end and is one of these. */
  predicate OpenerAtEdge(cap: nat, st: State)
    decreases |st.rest|
  {
    st.rest != [] && |st.out| + 1 < cap && ((|st.out| + 2 == cap && Opener(st)) || OpenerAtEdge(cap, Step(cap, st)))
  }

  predicate SemiAtEdge(cap: nat, st: State)
    decreases |st.rest|
  {
    st.rest != [] && |st.out| + 1 < cap && ((|st.out| + 2 == cap && ClosingSemi(st)) || SemiAtEdge(cap, Step(cap, st)))
  }

  predicate InCallAtEdge(cap: nat, st: State) {
    |st.out| + 1 == cap && st.sayWrap && st.out != [] && Space(st.out[|st.out| - 1])
  }

  /** The loop stops one cell before the end, with an open call and a space written last. */
  predicate SayAtEdge(cap: nat, st: State)
    decreases |st.rest|
  {
    if st.rest == [] || |st.out| + 1 >= cap
    then InCallAtEdge(cap, st)
    else SayAtEdge(cap, Step(cap, st))
  }

  /** What one call of the desugarer would have to avoid. */
  predicate Overruns(cap: nat, src: string, inBlock: bool) {
    var st := Start(cap, src, inBlock);
    OpenerAtEdge(cap, st) || SayAtEdge(cap, st)
  }

  // ---------------------------------------------------------------- the size of one turn

  lemma {:induction false} EmitBelow(out: string, s: string, cap: nat)
    requires |out| < cap
    ensures |Emit(out, s, cap)| < cap
    ensures s != [] && |out| + 1 < cap ==> |out| < |Emit(out, s, cap)| && Emit(out, s, cap)[|out|] == s[0]
    decreases |s|
  {
    if s != [] && |out| + 1 < cap {
      EmitBelow(out + [s[0]], s[1..], cap);
      assert Emit(out, s, cap)[..|out + [s[0]]|] == out + [s[0]];
      assert Emit(out, s, cap)[|out|] == (out + [s[0]])[|out|];
    }
  }

  lemma Emit3Below(out: string, a: string, b: string, c: string, cap: nat)
    requires |out| < cap
    ensures |Emit3(out, a, b, c, cap)| < cap
    ensures a != [] && |out| + 1 < cap ==> |out| < |Emit3(out, a, b, c, cap)| && Emit3(out, a, b, c, cap)[|out|] == a[0]
  {
    var x := Emit(out, a, cap);
    var y := Emit(x, b, cap);
    EmitBelow(out, a, cap);
    EmitBelow(x, b, cap);
    EmitBelow(y, c, cap);
    PrefixTransitive(x, y, Emit(y, c, cap));
  }

  lemma StartBelow(cap: nat, src: string, inBlock: bool)
    requires cap > 0
    ensures |Start(cap, src, inBlock).out| < cap
  {
    if Unless(src) {
      var k := BlankLen(src);
      var u := src[k..];
      EmitBelow([], src[..k], cap);
      Emit3Below(Emit([], src[..k], cap), "if !(", u[6..][..BraceAt(u[6..])], ") ", cap);
    }
  }

  lemma SemicolonSize(cap: nat, st: State)
    requires st.rest != [] && |st.out| + 1 < cap
    ensures var r := Semicolon(cap, st);
      |r.out| <= cap && (|r.out| == cap <==> |st.out| + 2 == cap && st.sayWrap)
      && !r.sayWrap && r.lastSemi == |r.out| - 1 && r.out[|r.out| - 1] == ';'
  {
    if st.sayWrap {
      EmitBelow(st.out, ")", cap);
      assert |Emit(st.out, ")", cap)| == |st.out| + 1;
    }
  }

  /** A turn that leaves the semicolon index and the open call as they are, and room for one more. */
  predicate Small(cap: nat, st: State, r: State) {
    |r.out| < cap && r.sayWrap == st.sayWrap && r.lastSemi == st.lastSemi
  }

  lemma KeywordSize(cap: nat, st: State, word: string, skip: nat)
    requires 1 <= skip <= |st.rest| && |st.out| < cap
    ensures Small(cap, st, Keyword(cap, st, word, skip))
  {
    EmitBelow(st.out, word, cap);
  }

  lemma IncrementSize(cap: nat, st: State, op: string)
    requires |st.rest| >= 2 && |st.out| < cap
    ensures Small(cap, st, Increment(cap, st, op))
  {
    Emit3Below(st.out, " = ", st.out[|st.out| - TrailingWord(st.out)..], op, cap);
  }

  lemma OperatorSize(cap: nat, st: State)
    requires st.rest != [] && |st.out| + 1 < cap && st.rest[0] != ';'
    ensures Small(cap, st, OperatorStep(cap, st))
  {
    var c, n := st.rest[0], At(st.rest, 1);
    if c == '&' && n == '&' {
      KeywordSize(cap, st, "and", 2);
    } else if c == '|' && n == '|' {
      KeywordSize(cap, st, "or", 2);
    } else if c == '+' && n == '+' && 0 < TrailingWord(st.out) < 250 {
      IncrementSize(cap, st, " + 1");
    } else if c == '-' && n == '-' && 0 < TrailingWord(st.out) < 250 {
      IncrementSize(cap, st, " - 1");
    } else {
      assert OperatorStep(cap, st) == Put(st, [c], 1);
    }
  }

  /** The open call is visible: something that is not space stands behind the last semicolon. */
  ghost predicate SayShows(st: State) {
    && SemiInside(st)
    && (st.sayWrap ==> exists i :: st.lastSemi < i < |st.out| && !Space(st.out[i]))
  }

  lemma SayShowsOn(st: State, r: State)
    requires SayShows(st) && Advances(st, r) && r.lastSemi == st.lastSemi && r.sayWrap == st.sayWrap
    ensures SayShows(r)
  {
    if st.sayWrap {
      var i :| st.lastSemi < i < |st.out| && !Space(st.out[i]);
      assert r.out[i] == st.out[i];
    }
  }

  lemma SayTargetShows(cap: nat, st: State)
    requires SemiInside(st) && Say(st) && |st.out| + 1 < cap
    ensures |SayTarget(cap, st).out| < cap && SayShows(SayTarget(cap, st))
  {
    var t := st.rest[4..];
    Emit3Below(st.out, "say_target(\"", t[..WordLen(t)], "\", ", cap);
    var r := SayTarget(cap, st);
    assert !Space(r.out[|st.out|]);
  }

  lemma CodeSize(cap: nat, st: State)
    requires SayShows(st) && st.rest != [] && |st.out| + 1 < cap && st.rest[0] != ';'
    ensures |CodeStep(cap, st).out| < cap && SayShows(CodeStep(cap, st))
  {
    var c, n := st.rest[0], At(st.rest, 1);
    if c == '#' || (c == '/' && n == '/') {
      CommentSize(cap, st);
    } else if c == '"' || c == '\'' {
      SayShowsOn(st, CodeStep(cap, st));
    } else {
      WordSize(cap, st);
    }
  }

  lemma CommentSize(cap: nat, st: State)
    requires SayShows(st) && st.rest != [] && |st.out| + 1 < cap
    requires st.rest[0] == '#' || (st.rest[0] == '/' && At(st.rest, 1) == '/')
    ensures |CodeStep(cap, st).out| < cap && SayShows(CodeStep(cap, st))
  {
    var r := CodeStep(cap, st);
    assert r == if st.rest[0] == '#' then Comment(cap, st, "", 0) else Comment(cap, st, "#", 2);
    SayShowsOn(st, r);
  }

  lemma WordSize(cap: nat, st: State)
    requires SayShows(st) && st.rest != [] && |st.out| + 1 < cap && st.rest[0] != ';'
    requires st.rest[0] != '#' && st.rest[0] != '"' && st.rest[0] != '\''
      && !(st.rest[0] == '/' && At(st.rest, 1) == '/')
    ensures |CodeStep(cap, st).out| < cap && SayShows(CodeStep(cap, st))
  {
    var r, edge := CodeStep(cap, st), TrailingWord(st.out) == 0;
    if edge && Say(st) {
      assert r == SayTarget(cap, st);
      SayTargetShows(cap, st);
    } else {
      if edge && "print" <= st.rest && KeywordEnd(At(st.rest, 5)) {
        assert r == Keyword(cap, st, "say", 5);
        KeywordSize(cap, st, "say", 5);
      } else if edge && "fn" <= st.rest && KeywordEnd(At(st.rest, 2)) {
        assert r == Keyword(cap, st, "func", 2);
        KeywordSize(cap, st, "func", 2);
      } else {
        assert r == OperatorStep(cap, st);
        OperatorSize(cap, st);
      }
      SayShowsOn(st, r);
    }
  }

  /** One turn takes the last cell exactly as the two edge turns do, and keeps an open call visible. */
  lemma StepSize(cap: nat, st: State)
    requires SayShows(st) && st.rest != [] && |st.out| + 1 < cap
    ensures var r := Step(cap, st);
      |r.out| <= cap && SayShows(r) && (|r.out| == cap <==> |st.out| + 2 == cap && (Opener(st) || ClosingSemi(st)))
  {
    var r := Step(cap, st);
    if st.inBlock || Opener(st) || st.inStr {
      SayShowsOn(st, r);
    } else if st.rest[0] == ';' {
      assert r == Semicolon(cap, st) by { SemicolonTurn(cap, st); }
      SemicolonSize(cap, st);
    } else {
      CodeSize(cap, st);
    }
  }

  lemma SemicolonTurn(cap: nat, st: State)
    requires st.rest != [] && |st.out| + 1 < cap && !st.inBlock && !st.inStr && st.rest[0] == ';'
    ensures Step(cap, st) == Semicolon(cap, st)
  {
    assert !Say(st);
    assert !("print" <= st.rest) && !("fn" <= st.rest);
  }

  // ---------------------------------------------------------------- the whole loop

  /** The loop fills the buffer exactly when a turn stands two cells before the end, before `#[`
      outside a block or before a code semicolon that closes a call. */
  lemma {:induction false} FullExact(cap: nat, st: State)
    requires SayShows(st) && |st.out| < cap
    ensures |Loop(cap, st).out| <= cap && SayShows(Loop(cap, st))
    ensures |Loop(cap, st).out| == cap <==> OpenerAtEdge(cap, st) || SemiAtEdge(cap, st)
    decreases |st.rest|
  {
    if st.rest != [] && |st.out| + 1 < cap {
      StepSize(cap, st);
      var r := Step(cap, st);
      if |r.out| < cap { FullExact(cap, r); }
    }
  }

  /** An opener at the edge leaves `[` in the last cell, where nothing is trimmed. */
  lemma {:induction false} OpenerLast(cap: nat, st: State)
    requires SayShows(st) && |st.out| < cap && OpenerAtEdge(cap, st)
    ensures var fin := Loop(cap, st); |fin.out| == cap && fin.lastSemi + 1 < cap && fin.out[cap - 1] == '['
    decreases |st.rest|
  {
    StepSize(cap, st);
    var r := Step(cap, st);
    if |st.out| + 2 == cap && Opener(st) {
      assert r.out == st.out + "#[";
    } else {
      OpenerLast(cap, r);
    }
  }

  /** A closing semicolon at the edge is trimmed away again. */
  lemma {:induction false} SemiLast(cap: nat, st: State)
    requires SayShows(st) && |st.out| < cap && SemiAtEdge(cap, st)
    ensures var fin := Loop(cap, st); |fin.out| == cap && fin.lastSemi == cap - 1 && !fin.sayWrap
    decreases |st.rest|
  {
    StepSize(cap, st);
    if |st.out| + 2 == cap && ClosingSemi(st) {
      SemicolonTurn(cap, st);
      SemicolonSize(cap, st);
    } else {
      SemiLast(cap, Step(cap, st));
    }
  }

  lemma {:induction false} SayAtEdgeIs(cap: nat, st: State)
    ensures SayAtEdge(cap, st) == InCallAtEdge(cap, Loop(cap, st))
    decreases |st.rest|
  {
    if st.rest == [] || |st.out| + 1 >= cap {
      assert Loop(cap, st) == st;
    } else {
      var r := Step(cap, st);
      SayAtEdgeIs(cap, r);
      assert Loop(cap, st) == Loop(cap, r) && SayAtEdge(cap, st) == SayAtEdge(cap, r);
    }
  }

  lemma NoTrimInCall(st: State)
    requires SayShows(st) && st.sayWrap
    ensures !Trims(st)
  {
    var i :| st.lastSemi < i < |st.out| && !Space(st.out[i]);
    assert i < SpaceStart(st.out);
  }

  lemma OpenerOverruns(cap: nat, fin: State)
    requires |fin.out| == cap && fin.lastSemi + 1 < cap && cap > 0 && fin.out[cap - 1] == '['
    ensures Terminator(cap, fin) >= cap
  {
  }

  lemma SemiStaysInside(cap: nat, fin: State)
    requires |fin.out| == cap && cap > 0 && fin.lastSemi == cap - 1 && !fin.sayWrap
    ensures Terminator(cap, fin) == cap - 1
  {
    assert Trims(fin);
  }

  lemma ShortOutput(cap: nat, fin: State)
    requires SayShows(fin) && |fin.out| < cap
    ensures Terminator(cap, fin) >= cap <==> InCallAtEdge(cap, fin)
  {
    if fin.sayWrap {
      NoTrimInCall(fin);
      assert Trimmed(fin) == fin.out;
    }
  }

  /** The terminator is written outside the buffer exactly when `#[` took its last two cells, or
      when the loop stopped one cell before the end with an open call and a space written last. */
  lemma TerminatorExact(cap: nat, src: string, inBlock: bool)
    requires cap > 0
    ensures Terminator(cap, Loop(cap, Start(cap, src, inBlock))) >= cap <==> Overruns(cap, src, inBlock)
    ensures |Loop(cap, Start(cap, src, inBlock)).out| <= cap
  {
    var st := Start(cap, src, inBlock);
    StartBelow(cap, src, inBlock);
    FullExact(cap, st);
    TerminatorOfLoop(cap, st);
  }

  lemma TerminatorOfLoop(cap: nat, st: State)
    requires SayShows(st) && |st.out| < cap
    ensures Terminator(cap, Loop(cap, st)) >= cap <==> OpenerAtEdge(cap, st) || SayAtEdge(cap, st)
  {
    FullExact(cap, st);
    SayAtEdgeIs(cap, st);
    if OpenerAtEdge(cap, st) {
      OpenerLast(cap, st);
      OpenerOverruns(cap, Loop(cap, st));
    } else if SemiAtEdge(cap, st) {
      SemiLast(cap, st);
      SemiStaysInside(cap, Loop(cap, st));
    } else {
      ShortOutput(cap, Loop(cap, st));
    }
  }

  // ---------------------------------------------------------------- lines that fill the buffer

  const DS_MAX_LINE := 16384

  function Letters(n: nat): (s: string)
    ensures |s| == n && forall i | 0 <= i < n :: s[i] == 'a'
  {
    seq(n, _ => 'a')
  }

  /** Any character that starts nothing is copied. */
  lemma CopyTurn(cap: nat, st: State, c: char)
    requires InCode(st) && st.rest != [] && st.rest[0] == c && (c == 'a' || c == ' ') && |st.out| + 1 < cap
    ensures Step(cap, st) == Put(st, [c], 1)
  {
    assert !Say(st) && !("print" <= st.rest) && !("fn" <= st.rest);
  }

  /** A run of letters is copied. */
  lemma {:induction false} LettersTurn(cap: nat, st: State, n: nat, tail: string)
    requires InCode(st) && st.rest == Letters(n) + tail && |st.out| + n + 1 < cap
    ensures var next := st.(out := st.out + Letters(n), rest := tail);
      OpenerAtEdge(cap, st) == OpenerAtEdge(cap, next) && SayAtEdge(cap, st) == SayAtEdge(cap, next)
    decreases n
  {
    if n == 0 {
      assert st.out + Letters(0) == st.out && Letters(0) + tail == tail;
    } else {
      CopyTurn(cap, st, 'a');
      var r := Step(cap, st);
      assert r.rest == Letters(n - 1) + tail && r.out + Letters(n - 1) == st.out + Letters(n);
      LettersTurn(cap, r, n - 1, tail);
    }
  }

  /** `&&`, letters and `#[`: one character shorter than the buffer, as fgets returns it. */
  function EdgeLine(cap: nat): (s: string)
    requires cap >= 5
    ensures |s| == cap - 1
  {
    "&&" + (Letters(cap - 5) + "#[")
  }

  lemma EdgeLineStarts(cap: nat)
    requires cap >= 5
    ensures Start(cap, EdgeLine(cap), false) == State(EdgeLine(cap), [], false, '\0', false, -1, false)
  {
    var src := EdgeLine(cap);
    assert src[0] == '&' && BlankLen(src) == 0 && src[0..] == src;
    assert !("unless" <= src);
  }

  lemma EdgeLineTurn(cap: nat, st: State, tail: string)
    requires cap >= 5 && st == State("&&" + tail, [], false, '\0', false, -1, false)
    ensures Step(cap, st) == State(tail, "and", false, '\0', false, -1, false)
  {
    assert st.rest[0] == '&' && st.rest[1] == '&' && st.rest[2..] == tail;
    assert Step(cap, st) == Keyword(cap, st, "and", 2);
    EmitRoom([], "and", cap);
    assert [] + "and" == "and";
  }

  lemma EdgeLineOverruns(cap: nat)
    requires cap >= 5
    ensures OpenerAtEdge(cap, Start(cap, EdgeLine(cap), false)) && Overruns(cap, EdgeLine(cap), false)
  {
    var tail := Letters(cap - 5) + "#[";
    EdgeLineStarts(cap);
    var st := Start(cap, EdgeLine(cap), false);
    EdgeLineTurn(cap, st, tail);
    var r := Step(cap, st);
    LettersTurn(cap, r, cap - 5, "#[");
    assert OpenerAtEdge(cap, r.(out := r.out + Letters(cap - 5), rest := "#["));
  }

  /** `say@a`, letters and a space. */
  function SayLine(cap: nat): (s: string)
    requires cap >= 19
    ensures |s| == cap - 11
  {
    "say@a " + (Letters(cap - 18) + " ")
  }

  const HEAD := "say_target(\""
  const COMMA := "\", "

  /** The text of a call to the target `a`. */
  function Call(): string {
    HEAD + "a" + COMMA
  }

  /** Where the parts of the call sit in the source. */
  lemma CallRead(st: State, tail: string)
    requires st.rest == "say@a " + tail && tail != [] && tail[0] == 'a'
    ensures Say(st) && WordLen(st.rest[4..]) == 1 && st.rest[4..][..1] == "a"
    ensures st.rest[4..][1..][BlankLen(st.rest[4..][1..])..] == tail
  {
    var t := st.rest[4..];
    assert t == "a " + tail;
    assert t[0] == 'a' && t[1..][0] == ' ' && !WordChar(' ');
    var u := t[1..];
    assert u == " " + tail && u[1..] == tail;
    assert BlankLen(tail) == 0 && BlankLen(u) == 1;
    assert WordLen(u) == 0 && WordLen(t) == 1;
    assert At(st.rest, 5) == ' ';
  }

  lemma SayStep(cap: nat, st: State)
    requires InCode(st) && Say(st) && TrailingWord(st.out) == 0 && |st.out| + 1 < cap
    ensures Step(cap, st) == SayTarget(cap, st)
  {
    assert st.rest[0] == 's';
  }

  lemma SayLineTurn(cap: nat, st: State, tail: string)
    requires cap >= 19 && tail != [] && tail[0] == 'a'
    requires st == State("say@a " + tail, [], false, '\0', false, -1, false)
    ensures Step(cap, st) == State(tail, Call(), false, '\0', false, -1, true)
  {
    CallRead(st, tail);
    SayStep(cap, st);
    SayTargetIs(cap, st, st.rest[4..], st.rest[4..][1..], tail);
    Emit3Room([], HEAD, "a", COMMA, cap);
    assert [] + HEAD == HEAD;
  }

  lemma SayLineOverruns(cap: nat)
    requires cap >= 19
    ensures SayAtEdge(cap, Start(cap, SayLine(cap), false)) && Overruns(cap, SayLine(cap), false)
  {
    var src, tail := SayLine(cap), Letters(cap - 18) + " ";
    assert src[0] == 's' && BlankLen(src) == 0 && src[0..] == src;
    assert !("unless" <= src);
    SayLineTurn(cap, State(src, [], false, '\0', false, -1, false), tail);
    var r := State(tail, Call(), false, '\0', false, -1, true);
    assert SayAtEdge(cap, Start(cap, src, false)) == SayAtEdge(cap, r);
    LettersTurn(cap, r, cap - 18, " ");
    var last := r.(out := r.out + Letters(cap - 18), rest := " ");
    CopyTurn(cap, last, ' ');
    assert " "[1..] == [];
    assert SayAtEdge(cap, Step(cap, last));
  }

  /** At the size the code uses: a line that one read returns, and whose terminator goes to the cell
      behind the buffer, by either way. */
  lemma FullLinesAtCodeSize()
    ensures |EdgeLine(DS_MAX_LINE)| == DS_MAX_LINE - 1 && |SayLine(DS_MAX_LINE)| < DS_MAX_LINE
    ensures Terminator(DS_MAX_LINE, Loop(DS_MAX_LINE, Start(DS_MAX_LINE, EdgeLine(DS_MAX_LINE), false))) >= DS_MAX_LINE
    ensures Terminator(DS_MAX_LINE, Loop(DS_MAX_LINE, Start(DS_MAX_LINE, SayLine(DS_MAX_LINE), false))) >= DS_MAX_LINE
  {
    var cap := DS_MAX_LINE;
    EdgeLineOverruns(cap);
    TerminatorExact(cap, EdgeLine(cap), false);
    SayLineOverruns(cap);
    TerminatorExact(cap, SayLine(cap), false);
  }
}
