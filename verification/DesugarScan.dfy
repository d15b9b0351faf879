/** Which bytes of a line are protected, and the proof that desugaring does not touch them: a
    simulation between scanning the source and scanning the rewritten line.  Protected are the bytes of
    strings, line comments and block comments.  The scanner knows the three modes and nothing of the
    rewriting; each turn of the rewriter gives both scans the same protected bytes, whatever follows.
    The one exception, a comment that starts with a double slash and a bracket, is the exact condition. */
module DesugarScan {
  import opened Desugar
  import opened Seqs

  datatype Kind = Text | LineComment | BlockComment

  datatype Mark = Mark(kind: Kind, c: char)

  datatype Mode = Mode(block: bool, str: bool, quote: char)

  /** The protected bytes in order, and whether a block comment is still open. */
  datatype Scanned = Scanned(marks: seq<Mark>, block: bool)

  function Prepend(ms: seq<Mark>, r: Scanned): Scanned {
    Scanned(ms + r.marks, r.block)
  }

  function MarkAll(kind: Kind, s: string): (r: seq<Mark>)
    ensures |r| == |s|
  {
    seq(|s|, i requires 0 <= i < |s| => Mark(kind, s[i]))
  }

  /** The scanner: the same modes, no rewriting.  `//` is read as `#`. */
  function Scan(s: string, m: Mode): Scanned
    decreases |s|
  {
    if s == [] then Scanned([], m.block)
    else
      var c, n := s[0], At(s, 1);
      if m.block then Prepend([Mark(BlockComment, c)], Scan(s[1..], m.(block := c != ']')))
      else if c == '#' && n == '[' then Prepend(MarkAll(BlockComment, "#["), Scan(s[2..], m.(block := true)))
      else if m.str then Prepend([Mark(Text, c)], Scan(s[1..], m.(str := c != m.quote)))
      else if c == '#' then Prepend(MarkAll(LineComment, s[..EolLen(s)]), Scan(s[EolLen(s)..], m))
      else if c == '/' && n == '/' then
        var k := EolLen(s[2..]);
        Prepend(MarkAll(LineComment, "#" + s[2..][..k]), Scan(s[2..][k..], m))
      else if c == '"' || c == '\'' then Prepend([Mark(Text, c)], Scan(s[1..], m.(str := true, quote := c)))
      else Scan(s[1..], m)
  }

  /** The scanner meets `//[` where a comment may start: written as `#[` it would open a block. */
  predicate SlashBracket(s: string, m: Mode)
    decreases |s|
  {
    if s == [] then false
    else
      var c, n := s[0], At(s, 1);
      if m.block then SlashBracket(s[1..], m.(block := c != ']'))
      else if c == '#' && n == '[' then SlashBracket(s[2..], m.(block := true))
      else if m.str then SlashBracket(s[1..], m.(str := c != m.quote))
      else if c == '#' then SlashBracket(s[EolLen(s)..], m)
      else if c == '/' && n == '/' then At(s, 2) == '[' || SlashBracket(s[2..][EolLen(s[2..])..], m)
      else if c == '"' || c == '\'' then SlashBracket(s[1..], m.(str := true, quote := c))
      else SlashBracket(s[1..], m)
  }

  // ---------------------------------------------------------------- code that scans as nothing

  predicate PlainChar(c: char) {
    c != '#' && c != '/' && c != '"' && c != '\''
  }

  predicate PlainCode(s: string) {
    forall i | 0 <= i < |s| :: PlainChar(s[i])
  }

  predicate InCode(m: Mode) {
    !m.block && !m.str
  }

  lemma {:induction false} ScanPlain(e: string, x: string, m: Mode)
    requires InCode(m) && PlainCode(e)
    ensures Scan(e + x, m) == Scan(x, m) && SlashBracket(e + x, m) == SlashBracket(x, m)
    decreases |e|
  {
    if e == [] {
      Unit(x);
    } else {
      assert (e + x)[1..] == e[1..] + x;
      ScanPlain(e[1..], x, m);
    }
  }

  /** A source prefix of plain code scans as nothing. */
  lemma ScanSkips(s: string, k: nat, m: Mode)
    requires InCode(m) && k <= |s| && PlainCode(s[..k])
    ensures Scan(s, m) == Scan(s[k..], m) && SlashBracket(s, m) == SlashBracket(s[k..], m)
  {
    assert s == s[..k] + s[k..];
    ScanPlain(s[..k], s[k..], m);
  }

  lemma {:induction false} EolIsFirst(s: string)
    ensures forall i | 0 <= i < EolLen(s) :: !LineEnd(s[i])
  {
    if s != [] && !LineEnd(s[0]) {
      EolIsFirst(s[1..]);
      assert forall i | 1 <= i < EolLen(s) :: s[i] == s[1..][i - 1];
    }
  }

  /** A whole line comment in front of a line end or the end. */
  lemma ScanComment(body: string, x: string, m: Mode)
    requires InCode(m) && body != [] && body[0] == '#' && At(body + x, 1) != '['
    requires (forall i | 0 <= i < |body| :: !LineEnd(body[i])) && (x == [] || LineEnd(x[0]))
    ensures Scan(body + x, m) == Prepend(MarkAll(LineComment, body), Scan(x, m))
  {
    EolIs(body, x);
    Parts(body, x);
  }

  // ---------------------------------------------------------------- the run of the rewriter

  function ModeOf(st: State): Mode {
    Mode(st.inBlock, st.inStr, st.quote)
  }

  predicate NoSay(s: string) {
    s != [] ==> !("say@" <= s) && NoSay(s[1..])
  }

  lemma {:induction false} NoSayDrop(s: string, k: nat)
    requires NoSay(s) && k <= |s|
    ensures NoSay(s[k..])
    decreases k
  {
    if k > 0 {
      NoSayDrop(s[1..], k - 1);
      DropDrop(s, 1, k - 1);
    } else {
      assert s[0..] == s;
    }
  }

  /** What holds at every turn of a line without `say@`. */
  predicate Good(st: State) {
    && NoSay(st.rest) && !st.sayWrap
    && QuoteKnown(st)
    && -1 <= st.lastSemi < |st.out|
  }

  /** The output never fills: at the end there is still room for one more byte. */
  predicate Fits(cap: nat, st: State) {
    |Loop(cap, st).out| + 1 < cap
  }

  lemma FitsStep(cap: nat, st: State)
    requires Fits(cap, st) && st.rest != []
    ensures |st.out| + 1 < cap && Fits(cap, Step(cap, st)) && |Step(cap, st).out| + 1 < cap
    ensures Loop(cap, st) == Loop(cap, Step(cap, st))
  {
  }

  /** What one turn writes. */
  function Written(cap: nat, st: State): string
    requires st.rest != [] && |st.out| + 1 < cap
  {
    Step(cap, st).out[|st.out|..]
  }

  lemma {:induction false} EmitFits(out: string, s: string, cap: nat)
    requires |Emit(out, s, cap)| + 1 < cap
    ensures Emit(out, s, cap) == out + s
    decreases |s|
  {
    if s == [] {
      Unit(out);
    } else if |out| + 1 < cap {
      EmitFits(out + [s[0]], s[1..], cap);
      Assoc(out, [s[0]], s[1..]);
      assert [s[0]] + s[1..] == s;
    }
  }

  lemma Emit3Fits(out: string, a: string, b: string, c: string, cap: nat)
    requires |Emit3(out, a, b, c, cap)| + 1 < cap
    ensures Emit3(out, a, b, c, cap) == out + (a + b + c)
  {
    var x := Emit(out, a, cap);
    var y := Emit(x, b, cap);
    EmitFits(y, c, cap);
    EmitFits(x, b, cap);
    EmitFits(out, a, cap);
    assert out + a + b + c == out + (a + b + c);
  }

  /** The branches of code mode that rewrite plain code into plain code. */
  predicate Rewrites(st: State)
    requires st.rest != []
  {
    var c, n := st.rest[0], At(st.rest, 1);
    var prevWord := TrailingWord(st.out) > 0;
    || (!prevWord && "print" <= st.rest && KeywordEnd(At(st.rest, 5)))
    || (!prevWord && "fn" <= st.rest && KeywordEnd(At(st.rest, 2)))
    || (c == '&' && n == '&') || (c == '|' && n == '|')
    || (((c == '+' && n == '+') || (c == '-' && n == '-')) && 0 < TrailingWord(st.out) < 250)
  }

  predicate CodeMode(st: State) {
    !st.inBlock && !st.inStr && st.rest != [] && !(st.rest[0] == '#' && At(st.rest, 1) == '[')
  }

  predicate Special(c: char, n: char) {
    c == '#' || c == '"' || c == '\'' || c == ';' || (c == '/' && n == '/')
  }

  /** A turn that replaces `skip` plain characters by the plain text `word`. */
  predicate Replaces(st: State, r: State, word: string, skip: nat) {
    && 0 < skip <= |st.rest| && PlainCode(st.rest[..skip]) && PlainCode(word) && word != []
    && r == st.(rest := st.rest[skip..], out := st.out + word)
  }

  lemma KeywordTurn(cap: nat, st: State, word: string, skip: nat)
    requires 0 < skip <= |st.rest| && |Keyword(cap, st, word, skip).out| + 1 < cap
    requires PlainCode(st.rest[..skip]) && PlainCode(word) && word != []
    ensures Replaces(st, Keyword(cap, st, word, skip), word, skip)
  {
    EmitFits(st.out, word, cap);
  }

  lemma IncrementTurn(cap: nat, st: State, op: string) returns (word: string)
    requires |st.rest| >= 2 && PlainCode(st.rest[..2]) && PlainCode(op) && PlainCode(" = ")
      && |Increment(cap, st, op).out| + 1 < cap
    ensures Replaces(st, Increment(cap, st, op), word, 2)
  {
    var ident := st.out[|st.out| - TrailingWord(st.out)..];
    word := " = " + ident + op;
    TrailingIsPlain(st.out);
    PlainJoin(" = ", ident, op);
    IncrementWrites(cap, st, op, ident);
  }

  lemma IncrementWrites(cap: nat, st: State, op: string, ident: string)
    requires |st.rest| >= 2 && |Increment(cap, st, op).out| + 1 < cap
    requires ident == st.out[|st.out| - TrailingWord(st.out)..]
    ensures Increment(cap, st, op) == st.(rest := st.rest[2..], out := st.out + (" = " + ident + op))
  {
    Emit3Fits(st.out, " = ", ident, op, cap);
  }

  lemma {:induction false} TrailingIsPlain(out: string)
    ensures PlainCode(out[|out| - TrailingWord(out)..])
  {
    if TrailingWord(out) > 0 {
      var front, at := out[..|out| - 1], |out| - TrailingWord(out);
      TrailingIsPlain(front);
      assert out[at..] == front[at..] + [out[|out| - 1]];
    }
  }

  lemma PlainJoin(a: string, b: string, c: string)
    requires PlainCode(a) && PlainCode(b) && PlainCode(c)
    ensures PlainCode(a + b + c)
  {
    PlainPlus(a, b);
    PlainPlus(a + b, c);
  }

  lemma PlainPlus(a: string, b: string)
    requires PlainCode(a) && PlainCode(b)
    ensures PlainCode(a + b)
  {
  }

  lemma PlainPair(s: string, c: char)
    requires |s| >= 2 && s[0] == s[1] == c && PlainChar(c)
    ensures PlainCode(s[..2])
  {
  }

  lemma PlainPrefix(s: string, word: string)
    requires word <= s && PlainCode(word)
    ensures PlainCode(s[..|word|])
  {
    assert s[..|word|] == word;
  }

  /** The texts the rewriter writes are plain code. */
  lemma PlainWords()
    ensures PlainCode("print") && PlainCode("fn") && PlainCode("say") && PlainCode("func")
    ensures PlainCode("and") && PlainCode("or") && PlainCode(" = ") && PlainCode(" + 1") && PlainCode(" - 1")
  {
  }

  /** A rewriting turn replaces plain code by plain code. */
  lemma RewriteTurn(cap: nat, st: State) returns (word: string, skip: nat)
    requires Good(st) && CodeMode(st) && !Special(st.rest[0], At(st.rest, 1)) && Rewrites(st)
    requires |st.out| + 1 < cap && |Step(cap, st).out| + 1 < cap
    ensures Replaces(st, Step(cap, st), word, skip)
  {
    PlainWords();
    var c, n, prevWord := st.rest[0], At(st.rest, 1), TrailingWord(st.out) > 0;
    if !prevWord && "print" <= st.rest && KeywordEnd(At(st.rest, 5)) {
      word, skip := "say", 5;
      PlainPrefix(st.rest, "print");
      KeywordTurn(cap, st, word, skip);
    } else if !prevWord && "fn" <= st.rest && KeywordEnd(At(st.rest, 2)) {
      word, skip := "func", 2;
      PlainPrefix(st.rest, "fn");
      KeywordTurn(cap, st, word, skip);
    } else {
      PlainPair(st.rest, c);
      skip := 2;
      if c == '&' {
        word := "and";
        KeywordTurn(cap, st, word, skip);
      } else if c == '|' {
        word := "or";
        KeywordTurn(cap, st, word, skip);
      } else if c == '+' {
        word := IncrementTurn(cap, st, " + 1");
      } else {
        word := IncrementTurn(cap, st, " - 1");
      }
    }
  }

  // ---------------------------------------------------------------- the line that is finally written

  /** The turn that writes the semicolon at output index `last`. */
  predicate AtSemi(st: State, last: int)
    requires st.rest != []
  {
    CodeMode(st) && st.rest[0] == ';' && |st.out| == last
  }

  /** What is written from here on, without the code semicolon at output index `last`. */
  function Tail(cap: nat, st: State, last: int): string
    decreases |st.rest|
  {
    if st.rest == [] || |st.out| + 1 >= cap then []
    else (if AtSemi(st, last) then [] else Written(cap, st)) + Tail(cap, Step(cap, st), last)
  }

  /** The semicolon at `last` is behind us, or it is the final last one and only space follows it. */
  ghost predicate Removable(cap: nat, st: State, last: int) {
    var fin := Loop(cap, st);
    last < |st.out| || (last == fin.lastSemi && forall i | last < i < |fin.out| :: Space(fin.out[i]))
  }

  /** How the written text relates to the source behind it: verbatim at the front where the mode
      protects it, at a line end and at the end; no new slash or bracket in code. */
  ghost predicate Seam(m: Mode, rest: string, x: string) {
    && (rest == [] ==> x == [])
    && (!InCode(m) || (rest != [] && LineEnd(rest[0])) ==> At(x, 0) == At(rest, 0) && (x == [] <==> rest == []))
    && (At(x, 0) == '/' ==> At(rest, 0) == '/')
  }

  /** How a turn acts on both scans: the source gives up the marks `e` and moves on from `rest` to
      `rest2`, and so does the written text `w`, whatever `x` follows it. */
  ghost predicate Simulates(m: Mode, rest: string, w: string, e: seq<Mark>, m2: Mode, rest2: string, x: string) {
    && Scan(rest, m) == Prepend(e, Scan(rest2, m2))
    && Scan(w + x, m) == Prepend(e, Scan(x, m2))
    && SlashBracket(rest, m) == SlashBracket(rest2, m2)
  }

  /** A turn of the rewriter that wrote `w` and left the modes in order; the last semicolon moves
      only at a code semicolon. */
  ghost predicate Turn(cap: nat, st: State, w: string)
    requires st.rest != [] && |st.out| + 1 < cap
  {
    var r := Step(cap, st);
    && r.out == st.out + w && w != [] && !r.sayWrap && QuoteKnown(r)
    && r.lastSemi == if AtSemi(st, |st.out|) then |st.out| else st.lastSemi
  }

  predicate QuoteKnown(st: State) {
    st.inStr ==> st.quote == '"' || st.quote == '\''
  }

  lemma BlockTurn(cap: nat, st: State, x: string)
    requires st.rest != [] && |st.out| + 1 < cap && Good(st) && st.inBlock
    ensures var r, w := Step(cap, st), [st.rest[0]];
      Turn(cap, st, w) && Simulates(ModeOf(st), st.rest, w, [Mark(BlockComment, w[0])], ModeOf(r), r.rest, x)
  {
    Parts([st.rest[0]], x);
  }

  lemma OpenBlockTurn(cap: nat, st: State, x: string)
    requires st.rest != [] && |st.out| + 1 < cap && Good(st) && !st.inBlock && st.rest[0] == '#'
      && At(st.rest, 1) == '['
    ensures var r := Step(cap, st);
      Turn(cap, st, "#[") && Simulates(ModeOf(st), st.rest, "#[", MarkAll(BlockComment, "#["), ModeOf(r), r.rest, x)
  {
    Parts("#[", x);
    assert At("#[" + x, 1) == '[';
  }

  lemma StringTurn(cap: nat, st: State, x: string)
    requires st.rest != [] && |st.out| + 1 < cap && Good(st) && !st.inBlock && st.inStr
    requires !(st.rest[0] == '#' && At(st.rest, 1) == '[') && Seam(ModeOf(Step(cap, st)), Step(cap, st).rest, x)
    ensures var r, w := Step(cap, st), [st.rest[0]];
      Turn(cap, st, w) && Simulates(ModeOf(st), st.rest, w, [Mark(Text, w[0])], ModeOf(r), r.rest, x)
  {
    var c := st.rest[0];
    Parts([c], x);
    assert At([c] + x, 1) == At(x, 0);
    assert At(st.rest, 1) == At(st.rest[1..], 0);
  }

  lemma QuoteTurn(cap: nat, st: State, x: string)
    requires |st.out| + 1 < cap && Good(st) && CodeMode(st) && (st.rest[0] == '"' || st.rest[0] == '\'')
    ensures var r, w := Step(cap, st), [st.rest[0]];
      Turn(cap, st, w) && Simulates(ModeOf(st), st.rest, w, [Mark(Text, w[0])], ModeOf(r), r.rest, x)
  {
    Parts([st.rest[0]], x);
  }

  /** The `#` form of a line comment is copied to the end of the line. */
  lemma HashTurn(cap: nat, st: State, x: string)
    requires |st.out| + 1 < cap && Good(st) && CodeMode(st) && st.rest[0] == '#' && |Step(cap, st).out| + 1 < cap
    requires Seam(ModeOf(Step(cap, st)), Step(cap, st).rest, x)
    ensures var r, w := Step(cap, st), st.rest[..EolLen(st.rest)];
      Turn(cap, st, w) && Simulates(ModeOf(st), st.rest, w, MarkAll(LineComment, w), ModeOf(r), r.rest, x)
  {
    var k := EolLen(st.rest);
    var w := st.rest[..k];
    EolIsFirst(st.rest);
    Unit(st.out);
    assert Step(cap, st).rest == st.rest[k..];
    assert st.rest == w + st.rest[k..];
    assert At(w + x, 1) == if k > 1 then w[1] else At(x, 0);
    ScanComment(w, x, ModeOf(st));
  }

  /** The `//` form becomes the `#` form. */
  lemma SlashTurn(cap: nat, st: State, x: string)
    requires |st.out| + 1 < cap && Good(st) && CodeMode(st) && st.rest[0] == '/' && At(st.rest, 1) == '/'
      && |Step(cap, st).out| + 1 < cap
    requires Seam(ModeOf(Step(cap, st)), Step(cap, st).rest, x)
    ensures var r, w := Step(cap, st), "#" + st.rest[2..][..EolLen(st.rest[2..])];
      && Turn(cap, st, w)
      && Scan(st.rest, ModeOf(st)) == Prepend(MarkAll(LineComment, w), Scan(r.rest, ModeOf(r)))
      && (At(st.rest, 2) != '[' ==> Simulates(ModeOf(st), st.rest, w, MarkAll(LineComment, w), ModeOf(r), r.rest, x))
      && (At(st.rest, 2) == '[' ==> SlashBracket(st.rest, ModeOf(st)) && |w| > 1 && w[1] == '[')
  {
    var body := st.rest[2..];
    var k := EolLen(body);
    var w := "#" + body[..k];
    EolIsFirst(body);
    Assoc(st.out, "#", body[..k]);
    assert At(st.rest, 2) == At(body, 0);
    assert Step(cap, st).rest == body[k..];
    if At(st.rest, 2) != '[' {
      assert At(w + x, 1) == if k > 0 then body[0] else At(x, 0);
      ScanComment(w, x, ModeOf(st));
    }
  }

  /** A turn in plain code: rewriting, a semicolon, or one character as it is. */
  lemma PlainTurn(cap: nat, st: State, x: string) returns (w: string)
    requires |st.out| + 1 < cap && Good(st) && CodeMode(st) && |Step(cap, st).out| + 1 < cap
    requires PlainChar(st.rest[0])
    ensures Turn(cap, st, w) && PlainCode(w) && (LineEnd(st.rest[0]) || st.rest[0] == ';' ==> w == [st.rest[0]])
    ensures var r := Step(cap, st);
      && Simulates(ModeOf(st), st.rest, w, [], ModeOf(r), r.rest, x) && ModeOf(r) == ModeOf(st)
      && Scan(x, ModeOf(st)) == Scan(w + x, ModeOf(st))
  {
    var c, skip := st.rest[0], 1;
    if c == ';' || !Rewrites(st) {
      w := [c];
      assert st.rest[..1] == [c];
    } else {
      w, skip := RewriteTurn(cap, st);
    }
    ScanSkips(st.rest, skip, ModeOf(st));
    ScanPlain(w, x, ModeOf(st));
    Unit(Scan(x, ModeOf(st)).marks);
    Unit(Scan(st.rest[skip..], ModeOf(st)).marks);
  }

  /** A single slash stays a single slash. */
  lemma SlashCharTurn(cap: nat, st: State, x: string)
    requires |st.out| + 1 < cap && Good(st) && CodeMode(st) && st.rest[0] == '/' && At(st.rest, 1) != '/'
    requires Seam(ModeOf(Step(cap, st)), Step(cap, st).rest, x)
    ensures var r := Step(cap, st); Turn(cap, st, "/") && Simulates(ModeOf(st), st.rest, "/", [], ModeOf(r), r.rest, x)
  {
    Parts("/", x);
    assert At("/" + x, 1) == At(x, 0) && At(st.rest, 1) == At(st.rest[1..], 0);
    assert Step(cap, st) == Put(st, "/", 1);
    Unit(Scan(x, ModeOf(st)).marks);
    Unit(Scan(st.rest[1..], ModeOf(st)).marks);
  }

  /** What a good turn writes: something, faithful at the front where the seam needs it. */
  ghost predicate Faithful(st: State, w: string)
    requires st.rest != []
  {
    && w != []
    && (!InCode(ModeOf(st)) || LineEnd(st.rest[0]) ==> w[0] == st.rest[0])
    && (w[0] == '/' ==> st.rest[0] == '/')
    && (AtSemi(st, |st.out|) ==> w == ";")
  }

  /** Every turn of a good, fitting line writes faithfully and leaves a good, fitting line. */
  lemma GoodTurn(cap: nat, st: State) returns (w: string)
    requires Good(st) && st.rest != [] && Fits(cap, st)
    ensures |st.out| + 1 < cap && Turn(cap, st, w) && Faithful(st, w)
    ensures Fits(cap, Step(cap, st))
  {
    FitsStep(cap, st);
    var x := Step(cap, st).rest;
    if st.inBlock {
      BlockTurn(cap, st, x);
      w := [st.rest[0]];
    } else if st.rest[0] == '#' && At(st.rest, 1) == '[' {
      OpenBlockTurn(cap, st, x);
      w := "#[";
    } else if st.inStr {
      StringTurn(cap, st, x);
      w := [st.rest[0]];
    } else {
      w := CodeTurn(cap, st);
    }
  }

  lemma CodeTurn(cap: nat, st: State) returns (w: string)
    requires Good(st) && CodeMode(st) && |st.out| + 1 < cap && |Step(cap, st).out| + 1 < cap
    ensures Turn(cap, st, w) && Faithful(st, w)
  {
    var x := Step(cap, st).rest;
    if st.rest[0] == '"' || st.rest[0] == '\'' {
      QuoteTurn(cap, st, x);
      w := [st.rest[0]];
    } else if st.rest[0] == '#' {
      HashTurn(cap, st, x);
      w := st.rest[..EolLen(st.rest)];
    } else if st.rest[0] == '/' && At(st.rest, 1) == '/' {
      SlashTurn(cap, st, x);
      w := "#" + st.rest[2..][..EolLen(st.rest[2..])];
    } else if st.rest[0] == '/' {
      SlashCharTurn(cap, st, x);
      w := "/";
    } else {
      w := PlainTurn(cap, st, x);
    }
  }

  lemma GoodAfter(st: State, r: State, w: string)
    requires Good(st) && Advances(st, r) && r.out == st.out + w && w != [] && !r.sayWrap && QuoteKnown(r)
    requires r.lastSemi == |st.out| || r.lastSemi == st.lastSemi
    ensures Good(r)
  {
    NoSayDrop(st.rest, |st.rest| - |r.rest|);
  }

  /** Goodness is kept, and the last semicolon moves only at a code semicolon. */
  lemma GoodStep(cap: nat, st: State)
    requires Good(st) && st.rest != [] && Fits(cap, st)
    ensures |st.out| + 1 < cap && Good(Step(cap, st)) && Fits(cap, Step(cap, st))
  {
    var w := GoodTurn(cap, st);
    GoodAfter(st, Step(cap, st), w);
  }

  lemma {:induction false} LastSemiAhead(cap: nat, st: State)
    requires Good(st) && Fits(cap, st)
    ensures Loop(cap, st).lastSemi == st.lastSemi || Loop(cap, st).lastSemi >= |st.out|
    decreases |st.rest|
  {
    if st.rest != [] {
      GoodStep(cap, st);
      LastSemiAhead(cap, Step(cap, st));
    }
  }

  /** Behind the semicolon nothing is left out. */
  lemma {:induction false} TailIsOutput(cap: nat, st: State, last: int)
    requires Good(st) && Fits(cap, st) && last < |st.out|
    ensures Loop(cap, st).out == st.out + Tail(cap, st, last)
    decreases |st.rest|
  {
    if st.rest == [] {
      Unit(st.out);
    } else {
      var w := GoodTurn(cap, st);
      GoodStep(cap, st);
      TailIsOutput(cap, Step(cap, st), last);
      Parts(st.out, w);
      Assoc(st.out, w, Tail(cap, Step(cap, st), last));
    }
  }

  lemma WithoutAt(a: string, c: char, b: string)
    ensures Without(a + [c] + b, |a|) == a + b
  {
    Parts(a + [c], b);
    assert (a + [c] + b)[..|a|] == a;
  }

  /** Before it, exactly that semicolon is. */
  lemma {:induction false} TailIsTrimmed(cap: nat, st: State, last: int)
    requires Good(st) && Fits(cap, st) && last >= |st.out| && Loop(cap, st).lastSemi == last
    ensures last < |Loop(cap, st).out| && Without(Loop(cap, st).out, last) == st.out + Tail(cap, st, last)
    decreases |st.rest|
  {
    if st.rest != [] {
      var w := GoodTurn(cap, st);
      GoodStep(cap, st);
      var r := Step(cap, st);
      Parts(st.out, w);
      if AtSemi(st, last) {
        TailIsOutput(cap, r, last);
        WithoutAt(st.out, ';', Tail(cap, r, last));
        Unit(Tail(cap, r, last));
      } else {
        LastSemiAhead(cap, r);
        TailIsTrimmed(cap, r, last);
        Assoc(st.out, w, Tail(cap, r, last));
      }
    }
  }

  /** The written tail and the source tail fit together as the turns before them need. */
  lemma SeamOfTail(cap: nat, st: State, last: int)
    requires Good(st) && Fits(cap, st) && Removable(cap, st, last)
    ensures Seam(ModeOf(st), st.rest, Tail(cap, st, last))
  {
    if st.rest != [] {
      var w := GoodTurn(cap, st);
      GoodStep(cap, st);
      var r := Step(cap, st);
      Parts(st.out, w);
      if AtSemi(st, last) {
        TailIsOutput(cap, r, last);
        assert |r.out| == last + 1;
        SpaceFirst(r.out, Tail(cap, r, last), last);
      } else {
        assert Tail(cap, st, last)[0] == w[0];
      }
    }
  }

  lemma SpaceFirst(a: string, b: string, last: int)
    requires |a| == last + 1 && forall i | last < i < |a + b| :: Space((a + b)[i])
    ensures At(b, 0) != '/'
  {
    if b != [] { assert (a + b)[last + 1] == b[0]; }
  }

  /** From one turn to the whole tail. */
  lemma Conclude(m: Mode, rest: string, w: string, e: seq<Mark>, m2: Mode, rest2: string, x: string)
    requires Simulates(m, rest, w, e, m2, rest2, x)
    requires !SlashBracket(rest2, m2) ==> Scan(x, m2) == Scan(rest2, m2)
    requires SlashBracket(rest2, m2) ==> Scan(x, m2).marks != Scan(rest2, m2).marks
    ensures !SlashBracket(rest, m) ==> Scan(w + x, m) == Scan(rest, m)
    ensures SlashBracket(rest, m) ==> Scan(w + x, m).marks != Scan(rest, m).marks
  {
    Parts(e, Scan(x, m2).marks);
    Parts(e, Scan(rest2, m2).marks);
  }

  /** The written text `t` scans like the source `rest`, exactly when no code-mode `//[` is read. */
  ghost predicate Alike(t: string, rest: string, m: Mode) {
    && (!SlashBracket(rest, m) ==> Scan(t, m) == Scan(rest, m))
    && (SlashBracket(rest, m) ==> Scan(t, m).marks != Scan(rest, m).marks)
  }

  /** A `//[` turn: the source marks a line comment where the written text marks a block. */
  lemma SlashBracketDiffers(m: Mode, rest: string, w: string, x: string, more: Scanned)
    requires InCode(m) && SlashBracket(rest, m) && |w| > 1 && w[0] == '#' && w[1] == '['
    requires Scan(rest, m) == Prepend(MarkAll(LineComment, w), more)
    ensures Alike(w + x, rest, m)
  {
    assert (w + x)[0] == '#' && At(w + x, 1) == '[';
    assert Scan(w + x, m).marks[0] == Mark(BlockComment, '#');
    assert Scan(rest, m).marks[0] == Mark(LineComment, '#');
  }

  /** One code turn keeps the texts alike. */
  lemma CodeKeepsAlike(cap: nat, st: State, x: string) returns (w: string)
    requires Good(st) && CodeMode(st) && |st.out| + 1 < cap && |Step(cap, st).out| + 1 < cap
    requires var r := Step(cap, st); Seam(ModeOf(r), r.rest, x) && Alike(x, r.rest, ModeOf(r))
    ensures Turn(cap, st, w) && Alike(w + x, st.rest, ModeOf(st))
    ensures st.rest[0] == ';' ==> Alike(x, st.rest, ModeOf(st))
    ensures Scan(st.rest, ModeOf(st)).block == Scan(Step(cap, st).rest, ModeOf(Step(cap, st))).block
  {
    var r, m := Step(cap, st), ModeOf(st);
    if st.rest[0] == '"' || st.rest[0] == '\'' {
      w := [st.rest[0]];
      QuoteTurn(cap, st, x);
      Conclude(m, st.rest, w, [Mark(Text, w[0])], ModeOf(r), r.rest, x);
    } else if st.rest[0] == '#' {
      w := st.rest[..EolLen(st.rest)];
      HashTurn(cap, st, x);
      Conclude(m, st.rest, w, MarkAll(LineComment, w), ModeOf(r), r.rest, x);
    } else if st.rest[0] == '/' && At(st.rest, 1) == '/' {
      w := "#" + st.rest[2..][..EolLen(st.rest[2..])];
      SlashTurn(cap, st, x);
      if At(st.rest, 2) == '[' {
        SlashBracketDiffers(m, st.rest, w, x, Scan(r.rest, ModeOf(r)));
      } else {
        Conclude(m, st.rest, w, MarkAll(LineComment, w), ModeOf(r), r.rest, x);
      }
    } else if st.rest[0] == '/' {
      w := "/";
      SlashCharTurn(cap, st, x);
      Conclude(m, st.rest, w, [], ModeOf(r), r.rest, x);
    } else {
      w := PlainTurn(cap, st, x);
      Conclude(m, st.rest, w, [], ModeOf(r), r.rest, x);
    }
  }

  /** One turn keeps the texts alike. */
  lemma TurnKeepsAlike(cap: nat, st: State, x: string) returns (w: string)
    requires Good(st) && st.rest != [] && |st.out| + 1 < cap && |Step(cap, st).out| + 1 < cap
    requires var r := Step(cap, st); Seam(ModeOf(r), r.rest, x) && Alike(x, r.rest, ModeOf(r))
    ensures Turn(cap, st, w) && Alike(w + x, st.rest, ModeOf(st))
    ensures CodeMode(st) && st.rest[0] == ';' ==> Alike(x, st.rest, ModeOf(st))
    ensures Scan(st.rest, ModeOf(st)).block == Scan(Step(cap, st).rest, ModeOf(Step(cap, st))).block
  {
    var r, m := Step(cap, st), ModeOf(st);
    if st.inBlock {
      w := [st.rest[0]];
      BlockTurn(cap, st, x);
      Conclude(m, st.rest, w, [Mark(BlockComment, w[0])], ModeOf(r), r.rest, x);
    } else if st.rest[0] == '#' && At(st.rest, 1) == '[' {
      w := "#[";
      OpenBlockTurn(cap, st, x);
      Conclude(m, st.rest, w, MarkAll(BlockComment, "#["), ModeOf(r), r.rest, x);
    } else if st.inStr {
      w := [st.rest[0]];
      StringTurn(cap, st, x);
      Conclude(m, st.rest, w, [Mark(Text, w[0])], ModeOf(r), r.rest, x);
    } else {
      w := CodeKeepsAlike(cap, st, x);
    }
  }

  /** The simulation over the whole loop: the protected bytes of what is written are those of what
      is read, exactly when no code-mode `//[` is read; and the block state is the scanner's. */
  lemma {:induction false} Simulate(cap: nat, st: State, last: int)
    requires Good(st) && Fits(cap, st) && Removable(cap, st, last)
    ensures Alike(Tail(cap, st, last), st.rest, ModeOf(st))
    ensures Loop(cap, st).inBlock == Scan(st.rest, ModeOf(st)).block
    decreases |st.rest|
  {
    if st.rest != [] {
      GoodStep(cap, st);
      FitsStep(cap, st);
      var r := Step(cap, st);
      Simulate(cap, r, last);
      SeamOfTail(cap, r, last);
      var w := TurnKeepsAlike(cap, st, Tail(cap, r, last));
      Parts(st.out, w);
      Unit(Tail(cap, r, last));
    }
  }

  // ---------------------------------------------------------------- lines and files

  function StartMode(inBlock: bool): Mode {
    Mode(inBlock, false, '\0')
  }

  /** A line the theorem speaks about: no leading `unless`, no `say@`, and its expansion fits. */
  predicate Plain(cap: nat, src: string, inBlock: bool) {
    !Unless(src) && NoSay(src) && LineFits(cap, src, inBlock)
  }

  /** Desugaring preserves protected regions: rescanning the written line gives the same string,
      line-comment and block-comment bytes as the source exactly when the source has no code-mode
      `//[`; the block state handed to the next line is the scanner's in either case. */
  lemma ProtectedRegionsKept(cap: nat, src: string, inBlock: bool)
    requires Plain(cap, src, inBlock)
    ensures Scan(DesugarLine(cap, src, inBlock).text, StartMode(inBlock)) == Scan(src, StartMode(inBlock))
      <==> !SlashBracket(src, StartMode(inBlock))
    ensures DesugarLine(cap, src, inBlock).inBlock == Scan(src, StartMode(inBlock)).block
  {
    var st := Start(cap, src, inBlock);
    var fin := Loop(cap, st);
    var last := if Trims(fin) then fin.lastSemi else -1;
    NoSayWrap(cap, st);
    Simulate(cap, st, last);
    if Trims(fin) { TailIsTrimmed(cap, st, last); } else { TailIsOutput(cap, st, last); }
    Unit(Tail(cap, st, last));
    assert DesugarLine(cap, src, inBlock).text == Tail(cap, st, last);
  }

  lemma {:induction false} NoSayWrap(cap: nat, st: State)
    requires Good(st) && Fits(cap, st)
    ensures !Loop(cap, st).sayWrap
    decreases |st.rest|
  {
    if st.rest != [] {
      GoodStep(cap, st);
      FitsStep(cap, st);
      NoSayWrap(cap, Step(cap, st));
    }
  }

  /** A file line by line, the block state carried from one line to the next. */
  function DesugarFile(cap: nat, lines: seq<string>, inBlock: bool): seq<string> {
    if lines == [] then []
    else
      var l := DesugarLine(cap, lines[0], inBlock);
      [l.text] + DesugarFile(cap, lines[1..], l.inBlock)
  }

  function ScanFile(lines: seq<string>, block: bool): Scanned
    decreases |lines|
  {
    if lines == [] then Scanned([], block)
    else
      var r := Scan(lines[0], StartMode(block));
      Prepend(r.marks, ScanFile(lines[1..], r.block))
  }

  /** Every line of the file satisfies the theorem's conditions in the mode it starts in. */
  predicate PlainFile(cap: nat, lines: seq<string>, block: bool)
    decreases |lines|
  {
    lines != [] ==>
      && Plain(cap, lines[0], block) && !SlashBracket(lines[0], StartMode(block))
      && PlainFile(cap, lines[1..], Scan(lines[0], StartMode(block)).block)
  }

  /** Over a whole file, block comments across lines included, the protected bytes are kept. */
  lemma {:induction false} FileKept(cap: nat, lines: seq<string>, block: bool)
    requires PlainFile(cap, lines, block)
    ensures ScanFile(DesugarFile(cap, lines, block), block) == ScanFile(lines, block)
    decreases |lines|
  {
    if lines != [] {
      ProtectedRegionsKept(cap, lines[0], block);
      var l := DesugarLine(cap, lines[0], block);
      FileKept(cap, lines[1..], l.inBlock);
      Parts([l.text], DesugarFile(cap, lines[1..], l.inBlock));
    }
  }
}
