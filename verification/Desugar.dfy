/** The desugarer: one line is rewritten left to right, with string, line-comment and
    block-comment modes; the block mode is carried to the next line. */
module Desugar {
  import opened Seqs

  // ---------------------------------------------------------------- characters

  predicate WordChar(c: char) {
    'a' <= c <= 'z' || 'A' <= c <= 'Z' || '0' <= c <= '9' || c == '_'
  }

  predicate Blank(c: char) {
    c == ' ' || c == '\t'
  }

  predicate LineEnd(c: char) {
    c == '\n' || c == '\r'
  }

  /** The character at `k`, or the terminating NUL. */
  function At(s: string, k: nat): char {
    if k < |s| then s[k] else '\0'
  }

  function EolLen(s: string): (n: nat)
    ensures n <= |s| && (n < |s| ==> LineEnd(s[n]))
  {
    if s == [] || LineEnd(s[0]) then 0 else 1 + EolLen(s[1..])
  }

  lemma {:induction false} EolIs(body: string, x: string)
    requires (forall i | 0 <= i < |body| :: !LineEnd(body[i])) && (x == [] || LineEnd(x[0]))
    ensures EolLen(body + x) == |body|
  {
    if body == [] {
      Unit(x);
    } else {
      assert (body + x)[1..] == body[1..] + x;
      EolIs(body[1..], x);
    }
  }

  function WordLen(s: string): (n: nat)
    ensures n <= |s|
  {
    if s == [] || !WordChar(s[0]) then 0 else 1 + WordLen(s[1..])
  }

  function BlankLen(s: string): (n: nat)
    ensures n <= |s|
  {
    if s == [] || !Blank(s[0]) then 0 else 1 + BlankLen(s[1..])
  }

  /** Length of the word the output ends with. */
  function TrailingWord(out: string): (n: nat)
    ensures n <= |out|
  {
    if out == [] || !WordChar(out[|out| - 1]) then 0 else 1 + TrailingWord(out[..|out| - 1])
  }

  // ---------------------------------------------------------------- the rewriting loop

  /** `rest` is the unread source, `out` the bytes written so far; `lastSemi` is the index of the
      last code-region semicolon, or -1. */
  datatype State = State(rest: string, out: string, inStr: bool, quote: char, inBlock: bool, lastSemi: int,
    sayWrap: bool)

  predicate InCode(st: State) {
    !st.inBlock && !st.inStr
  }

  /** `ds_emit`: stops one short of the capacity. */
  function Emit(out: string, s: string, cap: nat): (r: string)
    ensures out <= r && (|out| <= |r| <= |out| + |s|)
    ensures |r| <= cap || r == out
    decreases |s|
  {
    if s == [] || |out| + 1 >= cap then out else Emit(out + [s[0]], s[1..], cap)
  }

  lemma {:induction false} EmitRoom(out: string, s: string, cap: nat)
    requires |out| + |s| < cap
    ensures Emit(out, s, cap) == out + s
    decreases |s|
  {
    if s == [] {
      Unit(out);
    } else {
      EmitRoom(out + [s[0]], s[1..], cap);
      Assoc(out, [s[0]], s[1..]);
      assert [s[0]] + s[1..] == s;
    }
  }

  function Emit3(out: string, a: string, b: string, c: string, cap: nat): (r: string)
    ensures out <= r
  {
    var x := Emit(out, a, cap);
    var y := Emit(x, b, cap);
    PrefixTransitive(out, x, y);
    PrefixTransitive(out, y, Emit(y, c, cap));
    Emit(y, c, cap)
  }

  lemma Emit3Room(out: string, a: string, b: string, c: string, cap: nat)
    requires |out| + |a| + |b| + |c| < cap
    ensures Emit3(out, a, b, c, cap) == out + a + b + c == out + (a + b + c)
  {
    EmitRoom(out, a, cap);
    EmitRoom(out + a, b, cap);
    EmitRoom(out + a + b, c, cap);
    assert out + a + b + c == out + (a + b + c);
  }

  lemma PrefixTransitive(a: string, b: string, c: string)
    requires a <= b <= c
    ensures a <= c
  {
  }

  function Put(st: State, s: string, skip: nat): (r: State)
    requires 1 <= skip <= |st.rest|
    ensures Advances(st, r)
  {
    st.(out := st.out + s, rest := st.rest[skip..])
  }

  /** The index of the last semicolon is an index of the output, or -1. */
  predicate SemiInside(st: State) {
    -1 <= st.lastSemi && (st.lastSemi == -1 || st.lastSemi < |st.out|)
  }

  /** The output only grows and the source only loses characters at the front. */
  predicate Advances(st: State, r: State) {
    && st.out <= r.out && |r.rest| < |st.rest| && r.rest == st.rest[|st.rest| - |r.rest|..]
    && (SemiInside(st) ==> SemiInside(r))
  }

  predicate KeywordEnd(c: char) {
    Blank(c) || c == '('
  }

  predicate Say(st: State) {
    "say@" <= st.rest
    && var n := WordLen(st.rest[4..]); 0 < n < 32 && Blank(At(st.rest, 4 + n))
  }

  lemma Advancing(st: State, text: string, k: nat)
    requires 0 < k <= |st.rest|
    ensures Advances(st, st.(out := st.out + text, rest := st.rest[k..]))
  {
  }

  function Comment(cap: nat, st: State, prefix: string, skip: nat): (r: State)
    requires skip <= |st.rest| && |st.out| + |prefix| < cap
    requires skip > 0 || (|st.out| + |prefix| + 1 < cap && st.rest != [] && !LineEnd(st.rest[0]))
    ensures Advances(st, r)
  {
    var body := st.rest[skip..];
    var room := cap - 1 - (|st.out| + |prefix|);
    var n := if EolLen(body) <= room then EolLen(body) else room;
    DropDrop(st.rest, skip, n);
    Advancing(st, prefix + body[..n], skip + n);
    Assoc(st.out, prefix, body[..n]);
    st.(out := st.out + prefix + body[..n], rest := body[n..])
  }

  function SayTarget(cap: nat, st: State): (r: State)
    requires Say(st)
    ensures Advances(st, r)
  {
    var t := st.rest[4..];
    var n := WordLen(t);
    DropDrop(st.rest, 4, n);
    DropDrop(st.rest, 4 + n, BlankLen(t[n..]));
    st.(out := Emit3(st.out, "say_target(\"", t[..n], "\", ", cap),
        rest := t[n..][BlankLen(t[n..])..], sayWrap := true)
  }

  lemma SayTargetIs(cap: nat, st: State, t: string, u: string, after: string)
    requires Say(st) && t == st.rest[4..] && u == t[WordLen(t)..] && after == u[BlankLen(u)..]
    ensures SayTarget(cap, st)
      == st.(out := Emit3(st.out, "say_target(\"", t[..WordLen(t)], "\", ", cap), rest := after, sayWrap := true)
  {
  }

  function Increment(cap: nat, st: State, op: string): (r: State)
    requires |st.rest| >= 2
    ensures Advances(st, r)
  {
    var ident := st.out[|st.out| - TrailingWord(st.out)..];
    st.(out := Emit3(st.out, " = ", ident, op, cap), rest := st.rest[2..])
  }

  function Keyword(cap: nat, st: State, word: string, skip: nat): (r: State)
    requires 1 <= skip <= |st.rest|
    ensures Advances(st, r)
  {
    st.(out := Emit(st.out, word, cap), rest := st.rest[skip..])
  }

  function Semicolon(cap: nat, st: State): (r: State)
    requires st.rest != []
    ensures Advances(st, r)
  {
    var closed := if st.sayWrap then Emit(st.out, ")", cap) else st.out;
    PrefixTransitive(st.out, closed, closed + ";");
    st.(out := closed + ";", rest := st.rest[1..], sayWrap := false, lastSemi := |closed|)
  }

  /** Operators, the semicolon, and any other character. */
  function OperatorStep(cap: nat, st: State): (r: State)
    requires st.rest != [] && |st.out| + 1 < cap
    ensures Advances(st, r)
  {
    var c, n := st.rest[0], At(st.rest, 1);
    if c == '&' && n == '&' then Keyword(cap, st, "and", 2)
    else if c == '|' && n == '|' then Keyword(cap, st, "or", 2)
    else if c == '+' && n == '+' && 0 < TrailingWord(st.out) < 250 then Increment(cap, st, " + 1")
    else if c == '-' && n == '-' && 0 < TrailingWord(st.out) < 250 then Increment(cap, st, " - 1")
    else if c == ';' then Semicolon(cap, st)
    else Put(st, [c], 1)
  }

  /** One turn of the loop in code mode. */
  function CodeStep(cap: nat, st: State): (r: State)
    requires st.rest != [] && |st.out| + 1 < cap
    ensures Advances(st, r)
  {
    var c, n := st.rest[0], At(st.rest, 1);
    var prevWord := TrailingWord(st.out) > 0;
    if c == '#' then Comment(cap, st, "", 0)
    else if c == '/' && n == '/' then Comment(cap, st, "#", 2)
    else if c == '"' || c == '\'' then Put(st, [c], 1).(inStr := true, quote := c)
    else if !prevWord && Say(st) then SayTarget(cap, st)
    else if !prevWord && "print" <= st.rest && KeywordEnd(At(st.rest, 5)) then Keyword(cap, st, "say", 5)
    else if !prevWord && "fn" <= st.rest && KeywordEnd(At(st.rest, 2)) then Keyword(cap, st, "func", 2)
    else OperatorStep(cap, st)
  }

  /** One turn of the main loop. */
  function Step(cap: nat, st: State): (r: State)
    requires st.rest != [] && |st.out| + 1 < cap
    ensures Advances(st, r)
  {
    var c, n := st.rest[0], At(st.rest, 1);
    if st.inBlock then Put(st, [c], 1).(inBlock := c != ']')
    else if c == '#' && n == '[' then Put(st, "#[", 2).(inBlock := true)
    else if st.inStr then Put(st, [c], 1).(inStr := c != st.quote)
    else CodeStep(cap, st)
  }

  /** The whole loop: until the source ends or the output is full. */
  function Loop(cap: nat, st: State): (r: State)
    ensures st.out <= r.out
    decreases |st.rest|
  {
    if st.rest == [] || |st.out| + 1 >= cap then st
    else
      var next := Step(cap, st);
      PrefixTransitive(st.out, next.out, Loop(cap, next).out);
      Loop(cap, next)
  }

  // ---------------------------------------------------------------- before and after the loop

  /** The position of the first `{`, or the length. */
  function BraceAt(s: string): (k: nat)
    ensures k <= |s|
  {
    if s == [] || s[0] == '{' then 0 else 1 + BraceAt(s[1..])
  }

  /** A leading `unless` with a brace somewhere behind it. */
  predicate Unless(src: string) {
    var u := src[BlankLen(src)..];
    "unless" <= u && Blank(At(u, 6)) && BraceAt(u[6..]) < |u[6..]|
  }

  /** `unless c {` becomes `if !( c ) {`; the loop goes on at the brace. */
  function Start(cap: nat, src: string, inBlock: bool): State {
    var begin := State(src, [], false, '\0', inBlock, -1, false);
    if !Unless(src) then begin
    else
      var k := BlankLen(src);
      var u := src[k..];
      var b := BraceAt(u[6..]);
      begin.(out := Emit3(Emit([], src[..k], cap), "if !(", u[6..][..b], ") ", cap), rest := u[6..][b..])
  }

  predicate Space(c: char) {
    Blank(c) || LineEnd(c)
  }

  /** Where the trailing space begins. */
  function SpaceStart(s: string): (e: nat)
    ensures e <= |s| && (forall i | e <= i < |s| :: Space(s[i])) && (e > 0 ==> !Space(s[e - 1]))
  {
    if s == [] || !Space(s[|s| - 1]) then |s| else SpaceStart(s[..|s| - 1])
  }

  /** The last code semicolon goes if only space follows it. */
  predicate Trims(st: State) {
    0 <= st.lastSemi < |st.out| && SpaceStart(st.out) <= st.lastSemi + 1
  }

  function Without(s: string, k: int): string
    requires -1 <= k < |s|
  {
    if k < 0 then s else s[..k] + s[k + 1..]
  }

  function Trimmed(st: State): string {
    if Trims(st) then Without(st.out, st.lastSemi) else st.out
  }

  /** The line that is written: an open `say_target` call is closed in front of the trailing space
      if there is room for one more character. */
  function Finish(cap: nat, st: State): string {
    var t := Trimmed(st);
    if st.sayWrap && |t| + 1 < cap then t[..SpaceStart(t)] + ")" + t[SpaceStart(t)..] else t
  }

  /** Where the line's terminator is written: the length of the output, counted up for the closing
      parenthesis whenever that is written, even over a character. */
  function Terminator(cap: nat, st: State): nat {
    var t := Trimmed(st);
    if st.sayWrap && SpaceStart(t) + 1 < cap then |t| + 1 else |t|
  }

  datatype Line = Line(text: string, inBlock: bool)

  function DesugarLine(cap: nat, src: string, inBlock: bool): Line {
    var fin := Loop(cap, Start(cap, src, inBlock));
    Line(Finish(cap, fin), fin.inBlock)
  }

  /** The loop leaves room for one more byte: nothing was cut. */
  predicate LineFits(cap: nat, src: string, inBlock: bool) {
    |Loop(cap, Start(cap, src, inBlock)).out| + 1 < cap
  }
}
