/** The table of the rules: what a line of tokens is rewritten to, with the texts the rules write.
    Tokens are words, other characters, strings, block comments, semicolons and the sugar; each has a
    spelling in the source and a text it becomes.  A line is read as tokens under conditions on what
    stands in front of a token and behind it, and then the rewriter yields the texts one after the other,
    for every such line that fits the buffer.  Nothing in these statements refers to the rewriter's turns. */
module DesugarRules {
  import opened Desugar
  import opened Seqs

  datatype Token =
    | Word(w: string)
    | Other(c: char)
    | Quoted(q: char, body: string)
    | Block(body: string)
    | Semicolon
    | AndAnd
    | OrOr
    | PlusPlus(w: string)
    | MinusMinus(w: string)
    | Print
    | Fn

  function Spelled(t: Token): string {
    match t
    case Word(w) => w
    case Other(c) => [c]
    case Quoted(q, body) => [q] + (body + [q])
    case Block(body) => "#[" + (body + "]")
    case Semicolon => ";"
    case AndAnd => "&&"
    case OrOr => "||"
    case PlusPlus(w) => w + "++"
    case MinusMinus(w) => w + "--"
    case Print => "print"
    case Fn => "fn"
  }

  function Rewritten(t: Token): string {
    match t
    case Word(w) => w
    case Other(c) => [c]
    case Quoted(q, body) => [q] + (body + [q])
    case Block(body) => "#[" + (body + "]")
    case Semicolon => ";"
    case AndAnd => "and"
    case OrOr => "or"
    case PlusPlus(w) => w + (" = " + w + " + 1")
    case MinusMinus(w) => w + (" = " + w + " - 1")
    case Print => "say"
    case Fn => "func"
  }

  function Source(ts: seq<Token>): string {
    if ts == [] then [] else Spelled(ts[0]) + Source(ts[1..])
  }

  function Target(ts: seq<Token>): string {
    if ts == [] then [] else Rewritten(ts[0]) + Target(ts[1..])
  }

  predicate Letter(c: char) {
    'a' <= c <= 'z' || 'A' <= c <= 'Z' || '0' <= c <= '9' || c == '_'
  }

  predicate Letters(w: string) {
    w != [] && forall i | 0 <= i < |w| :: Letter(w[i])
  }

  /** The token may stand where the output ends with `word` word characters and `next` follows: a word
      is whole and not one of the words that are replaced there, and another character starts nothing. */
  predicate Fits(t: Token, word: nat, next: char) {
    match t
    case Word(w) =>
      && Letters(w) && !Letter(next)
      && (word == 0 && (w == "print" || w == "fn") ==> next != ' ' && next != '\t' && next != '(')
      && (word == 0 && w == "say" ==> next != '@')
    case Other(c) =>
      && !Letter(c) && c != '#' && c != '"' && c != '\'' && c != ';'
      && (c == '/' || c == '&' || c == '|' ==> next != c)
      && (c == '+' || c == '-' ==> next != c || word == 0 || word >= 250)
    case Quoted(q, body) =>
      && (q == '"' || q == '\'') && q !in body
      && forall i | 0 <= i < |body| - 1 :: body[i] == '#' ==> body[i + 1] != '['
    case Block(body) => ']' !in body
    case Semicolon => true
    case AndAnd => true
    case OrOr => true
    case PlusPlus(w) => word == 0 && Letters(w) && |w| < 250
    case MinusMinus(w) => word == 0 && Letters(w) && |w| < 250
    case Print => word == 0 && (next == ' ' || next == '\t' || next == '(')
    case Fn => word == 0 && (next == ' ' || next == '\t' || next == '(')
  }

  /** Word characters at the end of the output behind the token. */
  function WordAfter(t: Token, word: nat): nat {
    match t
    case Word(w) => word + |w|
    case Other(_) => 0
    case Quoted(_, _) => 0
    case Block(_) => 0
    case Semicolon => 0
    case AndAnd => word + 3
    case OrOr => word + 2
    case PlusPlus(_) => 1
    case MinusMinus(_) => 1
    case Print => 3
    case Fn => 4
  }

  /** The tokens read as such, in front of `tail`. */
  predicate Reads(ts: seq<Token>, word: nat, tail: string) {
    ts != [] ==>
      && Fits(ts[0], word, At(Source(ts[1..]) + tail, 0))
      && Reads(ts[1..], WordAfter(ts[0], word), tail)
  }

  function WordsAfter(ts: seq<Token>, word: nat): nat {
    if ts == [] then word else WordsAfter(ts[1..], WordAfter(ts[0], word))
  }

  // ---------------------------------------------------------------- the word at the end

  lemma {:induction false} TrailingAppend(a: string, w: string)
    requires forall i | 0 <= i < |w| :: Letter(w[i])
    ensures TrailingWord(a + w) == TrailingWord(a) + |w|
  {
    if w == [] {
      Unit(a);
    } else {
      var front := w[..|w| - 1];
      assert (a + w)[..|a + w| - 1] == a + front;
      TrailingAppend(a, front);
    }
  }

  lemma TrailingNone(a: string, b: string)
    requires b != [] && !Letter(b[|b| - 1])
    ensures TrailingWord(a + b) == 0
  {
    assert (a + b)[|a + b| - 1] == b[|b| - 1];
  }

  /** What stands behind something that is no word character is the whole last word. */
  lemma TrailingIs(a: string, b: string, w: string)
    requires b != [] && !Letter(b[|b| - 1]) && forall i | 0 <= i < |w| :: Letter(w[i])
    ensures TrailingWord(a + (b + w)) == |w|
  {
    Assoc(a, b, w);
    TrailingNone(a, b);
    TrailingAppend(a + b, w);
  }

  lemma TrailingStep(out: string, t: Token, next: char)
    requires Fits(t, TrailingWord(out), next)
    ensures TrailingWord(out + Rewritten(t)) == WordAfter(t, TrailingWord(out))
  {
    match t
    case Word(w) => TrailingAppend(out, w);
    case Other(c) => TrailingNone(out, [c]);
    case Quoted(q, body) => TrailingNone(out, [q] + (body + [q]));
    case Block(body) => TrailingNone(out, "#[" + (body + "]"));
    case Semicolon => TrailingNone(out, ";");
    case AndAnd => TrailingAppend(out, "and");
    case OrOr => TrailingAppend(out, "or");
    case PlusPlus(w) =>
      assert w + (" = " + w + " + 1") == w + (" = " + w + " + ") + "1";
      TrailingIs(out, w + (" = " + w + " + "), "1");
    case MinusMinus(w) =>
      assert w + (" = " + w + " - 1") == w + (" = " + w + " - ") + "1";
      TrailingIs(out, w + (" = " + w + " - "), "1");
    case Print => TrailingAppend(out, "say");
    case Fn => TrailingAppend(out, "func");
  }

  // ---------------------------------------------------------------- one token

  function Behind(st: State, text: string, tail: string): State {
    st.(out := st.out + text, rest := tail)
  }

  /** A character in code that starts nothing is copied. */
  lemma CopyTurn(cap: nat, st: State, c: char, tail: string)
    requires InCode(st) && st.rest == [c] + tail && |st.out| + 1 < cap
    requires c != '#' && c != '"' && c != '\'' && c != ';'
    requires c == '/' || c == '&' || c == '|' ==> At(tail, 0) != c
    requires c == '+' || c == '-' ==> At(tail, 0) != c || TrailingWord(st.out) == 0 || TrailingWord(st.out) >= 250
    requires TrailingWord(st.out) > 0 || !Letter(c)
    ensures Step(cap, st) == Behind(st, [c], tail)
  {
    assert st.rest[0] == c && st.rest[1..] == tail && At(st.rest, 1) == At(tail, 0);
    assert TrailingWord(st.out) == 0 ==> !("print" <= st.rest) && !("fn" <= st.rest) && !("say@" <= st.rest);
    assert Step(cap, st) == OperatorStep(cap, st);
    assert OperatorStep(cap, st) == Put(st, [c], 1);
  }

  lemma FirstOf(w: string, tail: string)
    requires w != []
    ensures w + tail == [w[0]] + (w[1..] + tail)
  {
  }

  lemma BehindBehind(st: State, w: string, tail: string)
    requires w != []
    ensures Behind(Behind(st, [w[0]], w[1..] + tail), w[1..], tail) == Behind(st, w, tail)
  {
    assert w == [w[0]] + w[1..];
    Assoc(st.out, [w[0]], w[1..]);
  }

  /** The rest of a word whose first character is written. */
  lemma {:induction false} WordTurn(cap: nat, st: State, w: string, tail: string)
    requires InCode(st) && st.rest == w + tail && |st.out| + |w| < cap && TrailingWord(st.out) > 0
    requires forall i | 0 <= i < |w| :: Letter(w[i])
    ensures Loop(cap, st) == Loop(cap, Behind(st, w, tail))
    decreases |w|
  {
    if w == [] {
      Unit(st.out);
      Unit(tail);
      assert Behind(st, w, tail) == st;
    } else {
      var c, u := w[0], w[1..] + tail;
      FirstOf(w, tail);
      CopyTurn(cap, st, c, u);
      OneStep(cap, st);
      TrailingAppend(st.out, [c]);
      WordTurn(cap, Behind(st, [c], u), w[1..], tail);
      BehindBehind(st, w, tail);
    }
  }

  lemma OneStep(cap: nat, st: State)
    requires st.rest != [] && |st.out| + 1 < cap
    ensures Loop(cap, st) == Loop(cap, Step(cap, st))
  {
  }

  /** The first character of a word that is not replaced. */
  lemma FirstTurn(cap: nat, st: State, w: string, tail: string)
    requires InCode(st) && st.rest == w + tail && |st.out| + 1 < cap && TrailingWord(st.out) == 0
    requires Fits(Word(w), 0, At(tail, 0)) || (Letters(w) && (tail != [] && tail[0] in "+-"))
    ensures Step(cap, st) == Behind(st, [w[0]], w[1..] + tail)
  {
    var c, n := w[0], At(st.rest, 1);
    assert st.rest[0] == c && st.rest[1..] == w[1..] + tail;
    assert |w| > 1 ==> n == w[1];
    NotReplaced(st, w, tail);
    assert Step(cap, st) == OperatorStep(cap, st);
    assert OperatorStep(cap, st) == Put(st, [c], 1);
  }

  lemma NotReplaced(st: State, w: string, tail: string)
    requires st.rest == w + tail
    requires Fits(Word(w), 0, At(tail, 0)) || (Letters(w) && (tail != [] && tail[0] in "+-"))
    ensures !Say(st)
    ensures !("print" <= st.rest && KeywordEnd(At(st.rest, 5)))
    ensures !("fn" <= st.rest && KeywordEnd(At(st.rest, 2)))
  {
    var r := st.rest;
    assert forall i | 0 <= i < |w| :: r[i] == w[i] && Letter(r[i]);
    assert |w| < |r| ==> r[|w|] == At(tail, 0) && !Letter(r[|w|]);
    assert "print" <= r && KeywordEnd(At(r, 5)) ==> |w| == 5;
    assert "fn" <= r && KeywordEnd(At(r, 2)) ==> |w| == 2;
    assert "say@" <= r ==> At(r, 3) == '@' && |w| == 3;
  }

  /** A whole word, in front of anything it is not replaced for. */
  lemma WholeWord(cap: nat, st: State, w: string, tail: string)
    requires InCode(st) && st.rest == w + tail && |st.out| + |w| < cap && w != []
    requires Fits(Word(w), TrailingWord(st.out), At(tail, 0))
      || (TrailingWord(st.out) == 0 && Letters(w) && (tail != [] && tail[0] in "+-"))
    ensures Loop(cap, st) == Loop(cap, Behind(st, w, tail))
  {
    if TrailingWord(st.out) > 0 {
      WordTurn(cap, st, w, tail);
    } else {
      FirstTurn(cap, st, w, tail);
      OneStep(cap, st);
      TrailingAppend(st.out, [w[0]]);
      WordTurn(cap, Behind(st, [w[0]], w[1..] + tail), w[1..], tail);
      BehindBehind(st, w, tail);
    }
  }

  /** The turn at two ampersands or bars, at `print` and at `fn`. */
  lemma BarsStep(cap: nat, st: State, c: char, tail: string)
    requires InCode(st) && st.rest == [c, c] + tail && (c == '&' || c == '|')
      && |st.out| + (if c == '&' then 3 else 2) < cap
    ensures Step(cap, st) == Behind(st, if c == '&' then "and" else "or", tail)
  {
    var word := if c == '&' then "and" else "or";
    assert st.rest[0] == c && At(st.rest, 1) == c && st.rest[2..] == tail;
    assert Step(cap, st) == OperatorStep(cap, st);
    EmitRoom(st.out, word, cap);
  }

  lemma PrintStep(cap: nat, st: State, tail: string)
    requires InCode(st) && st.rest == "print" + tail && TrailingWord(st.out) == 0 && |st.out| + 3 < cap
    requires At(tail, 0) == ' ' || At(tail, 0) == '\t' || At(tail, 0) == '('
    ensures Step(cap, st) == Behind(st, "say", tail)
  {
    Parts("print", tail);
    assert st.rest[0] == 'p' && At(st.rest, 5) == At(tail, 0);
    assert Step(cap, st) == Keyword(cap, st, "say", 5);
    EmitRoom(st.out, "say", cap);
  }

  lemma FnStep(cap: nat, st: State, tail: string)
    requires InCode(st) && st.rest == "fn" + tail && TrailingWord(st.out) == 0 && |st.out| + 4 < cap
    requires At(tail, 0) == ' ' || At(tail, 0) == '\t' || At(tail, 0) == '('
    ensures Step(cap, st) == Behind(st, "func", tail)
  {
    Parts("fn", tail);
    assert st.rest[0] == 'f' && At(st.rest, 2) == At(tail, 0);
    assert Step(cap, st) == Keyword(cap, st, "func", 2);
    EmitRoom(st.out, "func", cap);
  }

  /** The two characters behind a word that is written. */
  lemma SignTurn(cap: nat, st: State, c: char, w: string, tail: string)
    requires InCode(st) && st.rest == [c, c] + tail && (c == '+' || c == '-')
    requires |w| == TrailingWord(st.out) && 0 < |w| < 250 && w == st.out[|st.out| - |w|..]
    requires |st.out| + |w| + 7 < cap
    ensures Step(cap, st) == Behind(st, " = " + w + (if c == '+' then " + 1" else " - 1"), tail)
  {
    var op := if c == '+' then " + 1" else " - 1";
    SignStep(cap, st, c, tail);
    IncrementIs(cap, st, op, w, tail);
  }

  lemma SignStep(cap: nat, st: State, c: char, tail: string)
    requires InCode(st) && st.rest == [c, c] + tail && (c == '+' || c == '-')
    requires 0 < TrailingWord(st.out) < 250 && |st.out| + 1 < cap
    ensures Step(cap, st) == Increment(cap, st, if c == '+' then " + 1" else " - 1")
  {
    assert st.rest[0] == c && At(st.rest, 1) == c;
    assert Step(cap, st) == OperatorStep(cap, st);
  }

  lemma IncrementIs(cap: nat, st: State, op: string, w: string, tail: string)
    requires |st.rest| >= 2 && tail == st.rest[2..]
    requires |w| == TrailingWord(st.out) && w == st.out[|st.out| - |w|..]
    requires |st.out| + |" = " + w + op| < cap
    ensures Increment(cap, st, op) == Behind(st, " = " + w + op, tail)
  {
    Emit3Room(st.out, " = ", w, op, cap);
    IncrementWith(cap, st, op, w);
  }

  lemma IncrementWith(cap: nat, st: State, op: string, w: string)
    requires |st.rest| >= 2 && |w| == TrailingWord(st.out) && w == st.out[|st.out| - |w|..]
    ensures Increment(cap, st, op) == st.(out := Emit3(st.out, " = ", w, op, cap), rest := st.rest[2..])
  {
  }

  lemma SignSplit(w: string, c: char, tail: string)
    ensures w + [c, c] + tail == w + ([c, c] + tail)
  {
  }

  lemma Incremented(cap: nat, st: State, c: char, w: string, tail: string)
    requires InCode(st) && st.rest == w + ([c, c] + tail) && (c == '+' || c == '-')
    requires TrailingWord(st.out) == 0 && Letters(w) && |w| < 250 && |st.out| + |w| + |w| + 7 < cap
    ensures Loop(cap, st) == Loop(cap, Behind(st, w + (" = " + w + (if c == '+' then " + 1" else " - 1")), tail))
  {
    var text := " = " + w + if c == '+' then " + 1" else " - 1";
    var mid := Behind(st, w, [c, c] + tail);
    WholeWord(cap, st, w, [c, c] + tail);
    TrailingAppend(st.out, w);
    Parts(st.out, w);
    SignTurn(cap, mid, c, w, tail);
    OneStep(cap, mid);
    Assoc(st.out, w, text);
  }

  // ---------------------------------------------------------------- strings

  lemma InsideTurn(cap: nat, st: State, c: char, tail: string)
    requires st.inStr && !st.inBlock && st.rest == [c] + tail && |st.out| + 1 < cap
    requires c == '#' ==> At(tail, 0) != '['
    ensures Step(cap, st) == Behind(st, [c], tail).(inStr := c != st.quote)
  {
    assert st.rest[0] == c && st.rest[1..] == tail && At(st.rest, 1) == At(tail, 0);
  }

  /** The inside of a string and its closing quote. */
  lemma {:induction false} StringTurn(cap: nat, st: State, body: string, end: string, tail: string)
    requires st.inStr && !st.inBlock && st.quote !in body && |st.out| + |body| + 1 < cap
    requires end == [st.quote] + tail && st.rest == body + end && st.quote != '#' && st.quote != '['
    requires forall i | 0 <= i < |body| - 1 :: body[i] == '#' ==> body[i + 1] != '['
    ensures Loop(cap, st) == Loop(cap, Behind(st, body + [st.quote], tail).(inStr := false))
    decreases |body|
  {
    OneStep(cap, st);
    if body == [] {
      Unit(end);
      Unit([st.quote]);
      InsideTurn(cap, st, st.quote, tail);
    } else {
      var c, u := body[0], body[1..] + end;
      FirstOf(body, end);
      NextInside(body, end);
      InsideTurn(cap, st, c, u);
      StringTurn(cap, Behind(st, [c], u), body[1..], end, tail);
      StringOut(st.out, body, st.quote);
    }
  }

  lemma NextInside(body: string, end: string)
    requires body != [] && end != []
    ensures At(body[1..] + end, 0) == if |body| > 1 then body[1] else end[0]
  {
  }

  lemma StringOut(out: string, body: string, q: char)
    requires body != []
    ensures out + [body[0]] + (body[1..] + [q]) == out + (body + [q])
  {
  }

  lemma QuotedTurn(cap: nat, st: State, q: char, body: string, tail: string)
    requires InCode(st) && st.rest == [q] + (body + ([q] + tail)) && Fits(Quoted(q, body), 0, ' ')
    requires |st.out| + |body| + 2 < cap
    ensures Loop(cap, st) == Loop(cap, Behind(st, [q] + (body + [q]), tail).(quote := q))
  {
    var u := body + ([q] + tail);
    assert st.rest[0] == q && st.rest[1..] == u;
    var next := Behind(st, [q], u).(inStr := true, quote := q);
    assert Step(cap, st) == next;
    OneStep(cap, st);
    StringTurn(cap, next, body, [q] + tail, tail);
    Assoc(st.out, [q], body + [q]);
  }

  // ---------------------------------------------------------------- block comments

  lemma BlockStep(cap: nat, st: State, c: char, tail: string)
    requires st.inBlock && st.rest == [c] + tail && |st.out| + 1 < cap
    ensures Step(cap, st) == Behind(st, [c], tail).(inBlock := c != ']')
  {
    assert st.rest[0] == c && st.rest[1..] == tail;
  }

  /** The inside of a block comment, in front of its end or of the end of the line. */
  lemma {:induction false} InBlockTurn(cap: nat, st: State, body: string, tail: string)
    requires st.inBlock && st.rest == body + tail && ']' !in body && |st.out| + |body| < cap
    ensures Loop(cap, st) == Loop(cap, Behind(st, body, tail))
    decreases |body|
  {
    if body == [] {
      Unit(st.out);
      Unit(tail);
      assert Behind(st, body, tail) == st;
    } else {
      var c, u := body[0], body[1..] + tail;
      FirstOf(body, tail);
      BlockStep(cap, st, c, u);
      OneStep(cap, st);
      InBlockTurn(cap, Behind(st, [c], u), body[1..], tail);
      BehindBehind(st, body, tail);
    }
  }

  /** The inside and the bracket that ends it. */
  lemma BlockEnds(cap: nat, st: State, body: string, tail: string)
    requires st.inBlock && st.rest == body + ("]" + tail) && ']' !in body && |st.out| + |body| + 1 < cap
    ensures Loop(cap, st) == Loop(cap, Behind(st, body + "]", tail).(inBlock := false))
  {
    var mid := Behind(st, body, "]" + tail);
    InBlockTurn(cap, st, body, "]" + tail);
    BlockStep(cap, mid, ']', tail);
    OneStep(cap, mid);
    Assoc(st.out, body, "]");
  }

  lemma BlockOpens(cap: nat, st: State, tail: string)
    requires InCode(st) && st.rest == "#[" + tail && |st.out| + 1 < cap
    ensures Step(cap, st) == Behind(st, "#[", tail).(inBlock := true)
  {
    assert st.rest[0] == '#' && At(st.rest, 1) == '[' && st.rest[2..] == tail;
  }

  lemma BlockTurn(cap: nat, st: State, body: string, tail: string)
    requires InCode(st) && st.rest == "#[" + (body + ("]" + tail)) && ']' !in body && |st.out| + |body| + 3 < cap
    ensures Loop(cap, st) == Loop(cap, Behind(st, "#[" + (body + "]"), tail))
  {
    BlockOpens(cap, st, body + ("]" + tail));
    OneStep(cap, st);
    BlockEnds(cap, Step(cap, st), body, tail);
    Assoc(st.out, "#[", body + "]");
  }

  lemma BlockSplit(body: string, tail: string)
    ensures "#[" + (body + "]") + tail == "#[" + (body + ("]" + tail))
  {
  }

  // ---------------------------------------------------------------- a run of tokens

  /** The string mode's quote behind the tokens: the code keeps the last one. */
  function QuoteAfter(t: Token, q: char): char {
    if t.Quoted? then t.q else q
  }

  /** The state behind a token. */
  function Done(st: State, t: Token, tail: string): State {
    Behind(st, Rewritten(t), tail)
      .(quote := QuoteAfter(t, st.quote), lastSemi := if t.Semicolon? then |st.out| else st.lastSemi)
  }

  lemma TokenTurn(cap: nat, st: State, t: Token, tail: string)
    requires InCode(st) && st.rest == Spelled(t) + tail && |st.out| + |Rewritten(t)| < cap
    requires Fits(t, TrailingWord(st.out), At(tail, 0)) && (st.sayWrap ==> !t.Semicolon?)
    ensures Loop(cap, st) == Loop(cap, Done(st, t, tail))
  {
    match t
    case Word(w) => WholeWord(cap, st, w, tail);
    case Other(c) =>
      CopyTurn(cap, st, c, tail);
      OneStep(cap, st);
    case Quoted(q, body) =>
      QuotedSplit(q, body, tail);
      QuotedTurn(cap, st, q, body, tail);
    case Block(body) =>
      BlockSplit(body, tail);
      BlockTurn(cap, st, body, tail);
    case Semicolon =>
      SemiStep(cap, st, tail);
      OneStep(cap, st);
      Unit(st.out);
    case PlusPlus(w) =>
      SignSplit(w, '+', tail);
      Incremented(cap, st, '+', w, tail);
    case MinusMinus(w) =>
      SignSplit(w, '-', tail);
      Incremented(cap, st, '-', w, tail);
    case AndAnd => FixedTurn(cap, st, t, tail);
    case OrOr => FixedTurn(cap, st, t, tail);
    case Print => FixedTurn(cap, st, t, tail);
    case Fn => FixedTurn(cap, st, t, tail);
  }

  lemma FixedTurn(cap: nat, st: State, t: Token, tail: string)
    requires InCode(st) && st.rest == Spelled(t) + tail && |st.out| + |Rewritten(t)| < cap
    requires Fits(t, TrailingWord(st.out), At(tail, 0)) && (t.AndAnd? || t.OrOr? || t.Print? || t.Fn?)
    ensures Loop(cap, st) == Loop(cap, Behind(st, Rewritten(t), tail))
  {
    OneStep(cap, st);
    if t.AndAnd? {
      BarsStep(cap, st, '&', tail);
    } else if t.OrOr? {
      BarsStep(cap, st, '|', tail);
    } else if t.Print? {
      PrintStep(cap, st, tail);
    } else {
      FnStep(cap, st, tail);
    }
  }

  lemma QuotedSplit(q: char, body: string, tail: string)
    ensures [q] + (body + [q]) + tail == [q] + (body + ([q] + tail))
  {
  }

  function LastQuote(ts: seq<Token>, q: char): char {
    if ts == [] then q else LastQuote(ts[1..], QuoteAfter(ts[0], q))
  }

  /** The index of the last semicolon written, if the tokens are written from index `n` on. */
  function SemiAfter(ts: seq<Token>, n: nat, last: int): int {
    if ts == [] then last
    else SemiAfter(ts[1..], n + |Rewritten(ts[0])|, if ts[0].Semicolon? then n else last)
  }

  /** No semicolon stands in an open call. */
  predicate NoSemicolon(ts: seq<Token>) {
    forall i | 0 <= i < |ts| :: !ts[i].Semicolon?
  }

  /** The state behind tokens. */
  function AllDone(st: State, ts: seq<Token>, tail: string): State {
    Behind(st, Target(ts), tail)
      .(quote := LastQuote(ts, st.quote), lastSemi := SemiAfter(ts, |st.out|, st.lastSemi))
  }

  /** The loop over tokens in code, in front of anything. */
  lemma {:induction false} TokensTurn(cap: nat, st: State, ts: seq<Token>, tail: string)
    requires InCode(st) && st.rest == Source(ts) + tail && |st.out| + |Target(ts)| < cap
    requires Reads(ts, TrailingWord(st.out), tail) && (st.sayWrap ==> NoSemicolon(ts))
    ensures Loop(cap, st) == Loop(cap, AllDone(st, ts, tail))
    ensures TrailingWord(st.out + Target(ts)) == WordsAfter(ts, TrailingWord(st.out))
    decreases |ts|
  {
    if ts == [] {
      Unit(st.out);
      Unit(tail);
      assert AllDone(st, ts, tail) == st;
    } else {
      var t, us := ts[0], ts[1..];
      Assoc(Spelled(t), Source(us), tail);
      TokenTurn(cap, st, t, Source(us) + tail);
      TrailingStep(st.out, t, At(Source(us) + tail, 0));
      assert st.sayWrap ==> forall i | 0 <= i < |us| :: us[i] == ts[i + 1];
      TokensTurn(cap, Done(st, t, Source(us) + tail), us, tail);
      DoneDone(st, ts, tail);
    }
  }

  lemma DoneDone(st: State, ts: seq<Token>, tail: string)
    requires ts != []
    ensures AllDone(Done(st, ts[0], Source(ts[1..]) + tail), ts[1..], tail) == AllDone(st, ts, tail)
    ensures st.out + Rewritten(ts[0]) + Target(ts[1..]) == st.out + Target(ts)
  {
    var t, us := ts[0], ts[1..];
    var next := Done(st, t, Source(us) + tail);
    Assoc(st.out, Rewritten(t), Target(us));
    assert |next.out| == |st.out| + |Rewritten(t)|;
    assert SemiAfter(us, |next.out|, next.lastSemi) == SemiAfter(ts, |st.out|, st.lastSemi);
    assert LastQuote(us, next.quote) == LastQuote(ts, st.quote);
  }

  // ---------------------------------------------------------------- whether a semicolon is the last thing

  /** Only space stands behind the last semicolon. */
  function Pending(ts: seq<Token>, pending: bool): bool {
    if ts == [] then pending
    else
      var t := ts[0];
      Pending(ts[1..], t.Semicolon? || (t.Other? && Blanks([t.c]) && pending))
  }

  /** If there is a semicolon at `last`, something that is not space stands behind it, unless it is pending. */
  ghost predicate Shown(out: string, last: int, pending: bool) {
    && -1 <= last && (last == -1 || last < |out|)
    && (last == -1 || pending || exists i :: last < i < |out| && !Blanks([out[i]]))
  }

  lemma ShownOn(out: string, last: int, pending: bool, text: string)
    requires Shown(out, last, pending)
    ensures Shown(out + text, last, pending)
    ensures text != [] && !Blanks([text[0]]) ==> Shown(out + text, last, false)
  {
    var all := out + text;
    assert forall i | 0 <= i < |out| :: all[i] == out[i];
    if text != [] { assert all[|out|] == text[0]; }
  }

  lemma FirstSolid(t: Token, word: nat, next: char)
    requires Fits(t, word, next) && !(t.Other? && Blanks([t.c]))
    ensures Rewritten(t) != [] && !Blanks([Rewritten(t)[0]])
  {
    var c := Rewritten(t)[0];
    assert [c][0] == c;
  }

  lemma {:induction false} SemiShown(ts: seq<Token>, word: nat, tail: string, out: string, last: int, pending: bool)
    requires Reads(ts, word, tail) && Shown(out, last, pending)
    ensures Shown(out + Target(ts), SemiAfter(ts, |out|, last), Pending(ts, pending))
    decreases |ts|
  {
    if ts == [] {
      Unit(out);
    } else {
      var t, next := ts[0], At(Source(ts[1..]) + tail, 0);
      ShownOn(out, last, pending, Rewritten(t));
      if !(t.Other? && Blanks([t.c])) { FirstSolid(t, word, next); }
      Assoc(out, Rewritten(t), Target(ts[1..]));
      SemiShown(ts[1..], WordAfter(t, word), tail, out + Rewritten(t), if t.Semicolon? then |out| else last,
        t.Semicolon? || (t.Other? && Blanks([t.c]) && pending));
    }
  }

  // ---------------------------------------------------------------- how a line ends

  predicate Blanks(s: string) {
    forall i | 0 <= i < |s| :: s[i] == ' ' || s[i] == '\t' || s[i] == '\n' || s[i] == '\r'
  }

  /** Space, a semicolon and space, or a comment and the line break. */
  datatype End = Open(space: string) | Semi(space: string) | Comment(slashes: bool, body: string, eol: string)

  function EndSource(e: End): string {
    match e
    case Open(sp) => sp
    case Semi(sp) => ";" + sp
    case Comment(slashes, body, eol) => (if slashes then "//" else "#") + (body + eol)
  }

  /** What is written for it, with the parenthesis of an open call. */
  function EndTarget(e: End, call: bool): string {
    var close := if call then ")" else "";
    match e
    case Open(sp) => close + sp
    case Semi(sp) => close + sp
    case Comment(_, body, eol) => "#" + body + close + eol
  }

  /** The most that is written on the way there. */
  function EndSize(e: End, call: bool): nat {
    |EndTarget(e, call)| + if e.Semi? then 1 else 0
  }

  predicate EndFits(e: End) {
    match e
    case Open(sp) => Blanks(sp)
    case Semi(sp) => Blanks(sp)
    case Comment(_, body, eol) =>
      && Blanks(eol) && (eol == [] || eol[0] == '\n' || eol[0] == '\r')
      && '\n' !in body && '\r' !in body && (body != [] ==> body[0] != '[')
  }

  /** The last character is not space. */
  predicate Solid(s: string) {
    s != [] && !Blanks([s[|s| - 1]])
  }

  lemma {:induction false} BlanksTurn(cap: nat, st: State, sp: string)
    requires InCode(st) && st.rest == sp && Blanks(sp) && |st.out| + |sp| < cap
    ensures Loop(cap, st) == Behind(st, sp, [])
    decreases |sp|
  {
    if sp == [] {
      Unit(st.out);
    } else {
      assert sp == [sp[0]] + sp[1..];
      CopyTurn(cap, st, sp[0], sp[1..]);
      OneStep(cap, st);
      BlanksTurn(cap, Behind(st, [sp[0]], sp[1..]), sp[1..]);
      Assoc(st.out, [sp[0]], sp[1..]);
    }
  }

  lemma {:induction false} SpaceStartIs(a: string, sp: string)
    requires Blanks(sp) && Solid(a)
    ensures SpaceStart(a + sp) == |a|
  {
    if sp == [] {
      Unit(a);
      assert a[|a| - 1] == [a[|a| - 1]][0];
    } else {
      var front := sp[..|sp| - 1];
      assert (a + sp)[..|a + sp| - 1] == a + front;
      SpaceStartIs(a, front);
    }
  }

  lemma NotTrimmed(st: State)
    requires Shown(st.out, st.lastSemi, false)
    ensures !Trims(st)
  {
    if st.lastSemi >= 0 {
      var i :| st.lastSemi < i < |st.out| && !Blanks([st.out[i]]);
      assert !Space(st.out[i]);
    }
  }

  lemma CloseIs(cap: nat, fin: State, a: string, sp: string)
    requires fin.out == a + sp && Blanks(sp) && !Trims(fin) && (fin.sayWrap ==> Solid(a) && |a + sp| + 1 < cap)
    ensures Finish(cap, fin) == a + ((if fin.sayWrap then ")" else "") + sp)
  {
    if fin.sayWrap {
      SpaceStartIs(a, sp);
      Parts(a, sp);
      Assoc(a, ")", sp);
    } else {
      Unit(sp);
    }
  }

  lemma SemiStep(cap: nat, st: State, sp: string)
    requires InCode(st) && st.rest == ";" + sp && |st.out| + 1 + (if st.sayWrap then 1 else 0) < cap
    ensures var closed := st.out + if st.sayWrap then ")" else "";
      Step(cap, st) == st.(out := closed + ";", rest := sp, sayWrap := false, lastSemi := |closed|)
  {
    assert st.rest[0] == ';' && st.rest[1..] == sp;
    assert !("print" <= st.rest) && !("fn" <= st.rest) && !("say@" <= st.rest);
    assert Step(cap, st) == Desugar.Semicolon(cap, st);
    if st.sayWrap { EmitRoom(st.out, ")", cap); } else { Unit(st.out); }
  }

  lemma SemiGoes(cap: nat, fin: State, a: string, sp: string)
    requires fin.out == a + ";" + sp && fin.lastSemi == |a| && Blanks(sp) && !fin.sayWrap
    ensures Finish(cap, fin) == a + sp
  {
    assert Solid(a + ";");
    SpaceStartIs(a + ";", sp);
    assert Without(fin.out, |a|) == a + sp;
  }

  lemma CommentStep(cap: nat, st: State, e: End)
    requires InCode(st) && e.Comment? && EndFits(e) && st.rest == EndSource(e) && |st.out| + 1 + |e.body| < cap
    ensures Step(cap, st) == Behind(st, "#" + e.body, e.eol)
  {
    var text := e.body + e.eol;
    EolIs(e.body, e.eol);
    Parts(e.body, e.eol);
    Assoc(st.out, "#", e.body);
    if e.slashes {
      assert st.rest[0] == '/' && At(st.rest, 1) == '/' && st.rest[2..] == text;
      assert Step(cap, st) == Desugar.Comment(cap, st, "#", 2);
    } else {
      assert st.rest[0] == '#' && At(st.rest, 1) != '[' && st.rest[0..] == st.rest;
      HashIs(cap, st, e.body, e.eol);
    }
  }

  lemma HashIs(cap: nat, st: State, body: string, eol: string)
    requires st.rest == "#" + (body + eol) && EolLen(body + eol) == |body| && |st.out| + 1 + |body| < cap
    ensures Desugar.Comment(cap, st, "", 0) == Behind(st, "#" + body, eol)
  {
    var s := st.rest;
    assert s[1..] == body + eol && EolLen(s) == 1 + |body|;
    assert s == ("#" + body) + eol;
    Parts("#" + body, eol);
    Unit(st.out);
    assert s[0..] == s;
  }

  /** A line of tokens in code, from any state behind tokens, to the text that is written. */
  lemma LineEnds(cap: nat, st: State, pending: bool, ts: seq<Token>, e: End)
    requires InCode(st) && st.rest == Source(ts) + EndSource(e) && EndFits(e) && Shown(st.out, st.lastSemi, pending)
    requires Reads(ts, TrailingWord(st.out), EndSource(e)) && |st.out| + |Target(ts)| + EndSize(e, st.sayWrap) < cap
    requires e.Open? ==> !Pending(ts, pending)
    requires st.sayWrap ==> NoSemicolon(ts) && Solid(Target(ts)) && (e.Comment? ==> Solid("#" + e.body))
    ensures Finish(cap, Loop(cap, st)) == st.out + Target(ts) + EndTarget(e, st.sayWrap)
    ensures !Loop(cap, st).inBlock
  {
    var mid := AllDone(st, ts, EndSource(e));
    TokensTurn(cap, st, ts, EndSource(e));
    SemiShown(ts, TrailingWord(st.out), EndSource(e), st.out, st.lastSemi, pending);
    if st.sayWrap { SolidOn(st.out, Target(ts)); }
    EndWritten(cap, mid, Pending(ts, pending), e);
  }

  lemma SolidOn(a: string, b: string)
    requires Solid(b)
    ensures Solid(a + b)
  {
    assert (a + b)[|a + b| - 1] == b[|b| - 1];
  }

  lemma EndWritten(cap: nat, st: State, pending: bool, e: End)
    requires InCode(st) && st.rest == EndSource(e) && EndFits(e) && Shown(st.out, st.lastSemi, pending)
    requires |st.out| + EndSize(e, st.sayWrap) < cap && (e.Open? ==> !pending)
    requires st.sayWrap ==> Solid(st.out) && (e.Comment? ==> Solid("#" + e.body))
    ensures Finish(cap, Loop(cap, st)) == st.out + EndTarget(e, st.sayWrap) && !Loop(cap, st).inBlock
  {
    match e
    case Open(sp) => OpenWritten(cap, st, sp);
    case Semi(sp) => SemiWritten(cap, st, sp);
    case Comment(_, _, _) => CommentWritten(cap, st, pending, e);
  }

  lemma OpenWritten(cap: nat, st: State, sp: string)
    requires InCode(st) && st.rest == sp && Blanks(sp) && Shown(st.out, st.lastSemi, false)
    requires |st.out| + |sp| + (if st.sayWrap then 1 else 0) < cap && (st.sayWrap ==> Solid(st.out))
    ensures Finish(cap, Loop(cap, st)) == st.out + ((if st.sayWrap then ")" else "") + sp) && !Loop(cap, st).inBlock
  {
    BlanksTurn(cap, st, sp);
    ShownOn(st.out, st.lastSemi, false, sp);
    NotTrimmed(Behind(st, sp, []));
    CloseIs(cap, Behind(st, sp, []), st.out, sp);
  }

  lemma SemiWritten(cap: nat, st: State, sp: string)
    requires InCode(st) && st.rest == ";" + sp && Blanks(sp)
    requires |st.out| + |sp| + 1 + (if st.sayWrap then 1 else 0) < cap
    ensures Finish(cap, Loop(cap, st)) == st.out + ((if st.sayWrap then ")" else "") + sp) && !Loop(cap, st).inBlock
  {
    var close := if st.sayWrap then ")" else "";
    SemiStep(cap, st, sp);
    OneStep(cap, st);
    BlanksTurn(cap, Step(cap, st), sp);
    SemiGoes(cap, Loop(cap, st), st.out + close, sp);
    Assoc(st.out, close, sp);
  }

  lemma CommentWritten(cap: nat, st: State, pending: bool, e: End)
    requires InCode(st) && e.Comment? && st.rest == EndSource(e) && EndFits(e) && Shown(st.out, st.lastSemi, pending)
    requires |st.out| + EndSize(e, st.sayWrap) < cap && (st.sayWrap ==> Solid("#" + e.body))
    ensures Finish(cap, Loop(cap, st)) == st.out + EndTarget(e, st.sayWrap) && !Loop(cap, st).inBlock
  {
    var text := "#" + e.body;
    CommentStep(cap, st, e);
    OneStep(cap, st);
    ShownOn(st.out, st.lastSemi, pending, text);
    if st.sayWrap { SolidOn(st.out, text); }
    OpenWritten(cap, Behind(st, text, e.eol), e.eol);
    CommentOut(st.out, text, if st.sayWrap then ")" else "", e.eol);
  }

  lemma CommentOut(out: string, text: string, close: string, eol: string)
    ensures out + text + (close + eol) == out + (text + close + eol)
  {
  }

  // ---------------------------------------------------------------- whole lines

  /** Behind `k` leading blanks stands `unless`, a blank and later a brace. */
  predicate UnlessAt(s: string, k: nat)
    requires k + 7 <= |s|
  {
    && (forall i | 0 <= i < k :: s[i] == ' ' || s[i] == '\t')
    && s[k..k + 6] == "unless" && (s[k + 6] == ' ' || s[k + 6] == '\t') && '{' in s[k + 6..]
  }

  ghost predicate LeadingUnless(s: string) {
    exists k | 0 <= k <= |s| - 7 :: UnlessAt(s, k)
  }

  lemma NoBrace(s: string)
    requires '{' !in s
    ensures !LeadingUnless(s)
  {
  }

  lemma {:induction false} BlankLenIs(k: string, s: string)
    requires (forall i | 0 <= i < |k| :: k[i] == ' ' || k[i] == '\t') && (s != [] ==> s[0] != ' ' && s[0] != '\t')
    ensures BlankLen(k + s) == |k|
  {
    if k == [] {
      Unit(s);
    } else {
      assert (k + s)[1..] == k[1..] + s;
      BlankLenIs(k[1..], s);
    }
  }

  lemma {:induction false} BlankPrefix(s: string)
    ensures forall i | 0 <= i < BlankLen(s) :: s[i] == ' ' || s[i] == '\t'
  {
    if s != [] && Blank(s[0]) {
      BlankPrefix(s[1..]);
      assert forall i | 1 <= i < BlankLen(s) :: s[i] == s[1..][i - 1];
    }
  }

  lemma {:induction false} BraceAtIs(c: string, s: string)
    requires '{' !in c && s != [] && s[0] == '{'
    ensures BraceAt(c + s) == |c|
  {
    if c == [] {
      Unit(s);
    } else {
      assert c[0] != '{' && (c + s)[1..] == c[1..] + s;
      BraceAtIs(c[1..], s);
    }
  }

  lemma {:induction false} BraceIn(s: string)
    ensures BraceAt(s) < |s| ==> s[BraceAt(s)] == '{'
  {
    if s != [] && s[0] != '{' { BraceIn(s[1..]); }
  }

  lemma NoUnless(src: string)
    requires !LeadingUnless(src)
    ensures !Unless(src)
  {
    if Unless(src) {
      var k := BlankLen(src);
      UnlessStands(src, k);
      assert false;
    }
  }

  lemma UnlessStands(src: string, k: nat)
    requires Unless(src) && k == BlankLen(src)
    ensures k + 7 <= |src| && UnlessAt(src, k)
  {
    var u := src[k..];
    BlankPrefix(src);
    BraceFound(u[6..]);
    DropDrop(src, k, 6);
    UnlessWord(src, k, u);
  }

  lemma BraceFound(s: string)
    requires BraceAt(s) < |s|
    ensures '{' in s
  {
    BraceIn(s);
  }

  lemma UnlessWord(src: string, k: nat, u: string)
    requires k <= |src| && u == src[k..] && "unless" <= u && Blank(At(u, 6))
    ensures k + 7 <= |src| && src[k..k + 6] == "unless" && (src[k + 6] == ' ' || src[k + 6] == '\t')
  {
    SliceByDrop(src, k, k + 6);
    assert u[6] == src[k + 6];
  }

  function Begin(rest: string, out: string): State {
    State(rest, out, false, '\0', false, -1, false)
  }

  /** The rules on a whole line: words, other characters and strings stay, every other token and the end
      of the line become what the table says. */
  lemma RulesApplied(cap: nat, ts: seq<Token>, e: End)
    requires Reads(ts, 0, EndSource(e)) && EndFits(e) && |Target(ts)| + EndSize(e, false) < cap
    requires !LeadingUnless(Source(ts) + EndSource(e)) && (e.Open? ==> !Pending(ts, false))
    ensures DesugarLine(cap, Source(ts) + EndSource(e), false) == Line(Target(ts) + EndTarget(e, false), false)
  {
    var src := Source(ts) + EndSource(e);
    NoUnless(src);
    Unit(Target(ts));
    LineEnds(cap, Begin(src, []), false, ts, e);
  }

  /** A block comment carried over from the line before, which ends on this one. */
  lemma BlockContinues(cap: nat, body: string, ts: seq<Token>, e: End)
    requires ']' !in body && Reads(ts, 0, EndSource(e)) && EndFits(e) && (e.Open? ==> !Pending(ts, false))
    requires |body| + 1 + |Target(ts)| + EndSize(e, false) < cap
    requires !LeadingUnless(body + ("]" + (Source(ts) + EndSource(e))))
    ensures DesugarLine(cap, body + ("]" + (Source(ts) + EndSource(e))), true)
      == Line(body + "]" + Target(ts) + EndTarget(e, false), false)
  {
    var tail := Source(ts) + EndSource(e);
    var st := Begin(body + ("]" + tail), []).(inBlock := true);
    NoUnless(st.rest);
    BlockEnds(cap, st, body, tail);
    Unit(body + "]");
    TrailingNone(body, "]");
    LineEnds(cap, Begin(tail, body + "]"), false, ts, e);
  }

  /** A line inside a block comment, or one that opens it behind tokens, is carried to the next line. */
  lemma BlockStaysOpen(cap: nat, ts: seq<Token>, body: string)
    requires ']' !in body && Reads(ts, 0, "#[") && |Target(ts)| + 2 + |body| < cap
    requires !LeadingUnless(body) && !LeadingUnless(Source(ts) + ("#[" + body))
    ensures DesugarLine(cap, body, true) == Line(body, true)
    ensures DesugarLine(cap, Source(ts) + ("#[" + body), false) == Line(Target(ts) + ("#[" + body), true)
  {
    var inside := Begin(body, []).(inBlock := true);
    NoUnless(body);
    Unit(body);
    InBlockTurn(cap, inside, body, "");
    OpensBehind(cap, ts, body);
  }

  lemma OpensBehind(cap: nat, ts: seq<Token>, body: string)
    requires ']' !in body && Reads(ts, 0, "#[") && |Target(ts)| + 2 + |body| < cap
    requires !LeadingUnless(Source(ts) + ("#[" + body))
    ensures DesugarLine(cap, Source(ts) + ("#[" + body), false) == Line(Target(ts) + ("#[" + body), true)
  {
    var st := Begin(Source(ts) + ("#[" + body), []);
    NoUnless(st.rest);
    ReadsOn(ts, 0, "#[", "#[" + body);
    Unit(Target(ts));
    TokensTurn(cap, st, ts, "#[" + body);
    SemiShown(ts, 0, "#[" + body, [], -1, false);
    OpenedBehind(cap, AllDone(st, ts, "#[" + body), Pending(ts, false), body);
  }

  lemma OpenedBehind(cap: nat, st: State, pending: bool, body: string)
    requires InCode(st) && st.rest == "#[" + body && ']' !in body && |st.out| + 2 + |body| < cap && !st.sayWrap
    requires Shown(st.out, st.lastSemi, pending)
    ensures Finish(cap, Loop(cap, st)) == st.out + ("#[" + body) && Loop(cap, st).inBlock
  {
    var block := Behind(st, "#[", body).(inBlock := true);
    BlockOpens(cap, st, body);
    OneStep(cap, st);
    Unit(body);
    InBlockTurn(cap, block, body, "");
    Assoc(st.out, "#[", body);
    ShownOn(st.out, st.lastSemi, pending, "#[" + body);
    NotTrimmed(Behind(block, body, ""));
  }

  /** `unless c {` in front of a line of tokens. */
  lemma UnlessRewritten(cap: nat, k: string, c: string, ts: seq<Token>, e: End)
    requires (forall i | 0 <= i < |k| :: k[i] == ' ' || k[i] == '\t')
    requires c != [] && (c[0] == ' ' || c[0] == '\t') && '{' !in c && ts != [] && ts[0] == Other('{')
    requires e.Open? ==> !Pending(ts, false)
    requires Reads(ts, 0, EndSource(e)) && EndFits(e) && |k| + |c| + 7 + |Target(ts)| + EndSize(e, false) < cap
    ensures DesugarLine(cap, k + ("unless" + (c + (Source(ts) + EndSource(e)))), false)
      == Line(k + ("if !(" + c + ") ") + Target(ts) + EndTarget(e, false), false)
  {
    var body := Source(ts) + EndSource(e);
    var out := k + ("if !(" + c + ") ");
    UnlessStart(cap, k, c, body);
    TrailingNone(k, "if !(" + c + ") ");
    LineEnds(cap, Begin(body, out), false, ts, e);
  }

  lemma UnlessStart(cap: nat, k: string, c: string, body: string)
    requires (forall i | 0 <= i < |k| :: k[i] == ' ' || k[i] == '\t')
    requires c != [] && (c[0] == ' ' || c[0] == '\t') && '{' !in c && body != [] && body[0] == '{'
    requires |k| + |c| + 7 < cap
    ensures Start(cap, k + ("unless" + (c + body)), false) == Begin(body, k + ("if !(" + c + ") "))
  {
    var u := "unless" + (c + body);
    var src := k + u;
    BlankLenIs(k, u);
    Parts(k, u);
    Parts("unless", c + body);
    BraceAtIs(c, body);
    Parts(c, body);
    assert At(u, 6) == c[0];
    EmitRoom([], k, cap);
    Unit(k);
    Emit3Room(k, "if !(", c, ") ", cap);
  }

  /** `say@t` opens a call that the end of the line closes: in front of a trailing semicolon or space,
      but behind a comment, which then holds the parenthesis. */
  lemma SayRewritten(cap: nat, a: seq<Token>, t: string, gap: string, b: seq<Token>, e: End)
    requires Reads(a, 0, "say@") && WordsAfter(a, 0) == 0 && Letters(t) && |t| < 32
    requires gap != [] && (forall i | 0 <= i < |gap| :: gap[i] == ' ' || gap[i] == '\t')
    requires Reads(b, 0, EndSource(e)) && EndFits(e) && Solid(Target(b)) && (e.Comment? ==> Solid("#" + e.body))
    requires At(Source(b), 0) != ' ' && At(Source(b), 0) != '\t' && Source(b) != [] && NoSemicolon(b)
    requires |Target(a)| + |t| + 15 + |Target(b)| + EndSize(e, true) < cap
    requires !LeadingUnless(Source(a) + ("say@" + (t + (gap + (Source(b) + EndSource(e))))))
    ensures DesugarLine(cap, Source(a) + ("say@" + (t + (gap + (Source(b) + EndSource(e))))), false)
      == Line(Target(a) + ("say_target(\"" + t + "\", ") + Target(b) + EndTarget(e, true), false)
  {
    var after := Source(b) + EndSource(e);
    var call := "say@" + (t + (gap + after));
    var st := Begin(Source(a) + call, []);
    NoUnless(st.rest);
    Unit(Target(a));
    ReadsOn(a, 0, "say@", call);
    TokensTurn(cap, st, a, call);
    SemiShown(a, 0, call, [], -1, false);
    SayToEnd(cap, AllDone(st, a, call), Pending(a, false), t, gap, b, e);
  }

  lemma SayToEnd(cap: nat, st: State, pending: bool, t: string, gap: string, b: seq<Token>, e: End)
    requires InCode(st) && st.rest == "say@" + (t + (gap + (Source(b) + EndSource(e)))) && TrailingWord(st.out) == 0
    requires Letters(t) && |t| < 32 && gap != [] && (forall i | 0 <= i < |gap| :: gap[i] == ' ' || gap[i] == '\t')
    requires Reads(b, 0, EndSource(e)) && EndFits(e) && Solid(Target(b)) && (e.Comment? ==> Solid("#" + e.body))
    requires At(Source(b), 0) != ' ' && At(Source(b), 0) != '\t' && Source(b) != [] && NoSemicolon(b)
    requires Shown(st.out, st.lastSemi, pending)
    requires |st.out| + |t| + 15 + |Target(b)| + EndSize(e, true) < cap
    ensures Finish(cap, Loop(cap, st)) == st.out + ("say_target(\"" + t + "\", ") + Target(b) + EndTarget(e, true)
    ensures !Loop(cap, st).inBlock
  {
    SayStep(cap, st, t, gap, Source(b) + EndSource(e));
    OneStep(cap, st);
    TrailingNone(st.out, "say_target(\"" + t + "\", ");
    ShownOn(st.out, st.lastSemi, pending, "say_target(\"" + t + "\", ");
    NotPending(b, false);
    LineEnds(cap, Step(cap, st), false, b, e);
  }

  lemma {:induction false} NotPending(ts: seq<Token>, pending: bool)
    requires NoSemicolon(ts) && !pending
    ensures !Pending(ts, pending)
  {
    if ts != [] {
      assert forall i | 0 <= i < |ts| - 1 :: ts[1..][i] == ts[i + 1];
      NotPending(ts[1..], pending);
    }
  }

  /** Reading depends only on the first character behind the tokens. */
  lemma {:induction false} ReadsOn(ts: seq<Token>, word: nat, x: string, y: string)
    requires Reads(ts, word, x) && At(x, 0) == At(y, 0)
    ensures Reads(ts, word, y)
  {
    if ts != [] {
      assert At(Source(ts[1..]) + x, 0) == At(Source(ts[1..]) + y, 0);
      ReadsOn(ts[1..], WordAfter(ts[0], word), x, y);
    }
  }

  lemma {:induction false} WordLenIs(w: string, s: string)
    requires (forall i | 0 <= i < |w| :: Letter(w[i])) && (s != [] ==> !Letter(s[0]))
    ensures WordLen(w + s) == |w|
  {
    if w == [] {
      Unit(s);
    } else {
      assert (w + s)[1..] == w[1..] + s;
      WordLenIs(w[1..], s);
    }
  }

  lemma SayStep(cap: nat, st: State, t: string, gap: string, after: string)
    requires InCode(st) && st.rest == "say@" + (t + (gap + after)) && TrailingWord(st.out) == 0
    requires Letters(t) && |t| < 32 && |st.out| + |t| + 15 < cap
    requires gap != [] && (forall i | 0 <= i < |gap| :: gap[i] == ' ' || gap[i] == '\t')
    requires after != [] ==> after[0] != ' ' && after[0] != '\t'
    ensures Step(cap, st) == Behind(st, "say_target(\"" + t + "\", ", after).(sayWrap := true)
  {
    var u := gap + after;
    Parts("say@", t + u);
    Parts(t, u);
    Parts(gap, after);
    WordLenIs(t, u);
    BlankLenIs(gap, after);
    SayIs(st, t, u);
    assert st.rest[0] == 's' && Step(cap, st) == SayTarget(cap, st);
    Emit3Room(st.out, "say_target(\"", t, "\", ", cap);
    SayTargetIs(cap, st, t + u, u, after);
  }

  lemma SayIs(st: State, t: string, u: string)
    requires st.rest == "say@" + (t + u) && WordLen(t + u) == |t| && 0 < |t| < 32 && u != []
      && (u[0] == ' ' || u[0] == '\t')
    ensures Say(st)
  {
    Parts("say@", t + u);
    assert At(st.rest, 4 + |t|) == u[0];
  }

  // ---------------------------------------------------------------- the rules one by one

  /** Words, strings and characters that no rule names. */
  predicate Plain(ts: seq<Token>) {
    forall i | 0 <= i < |ts| :: ts[i].Word? || ts[i].Other? || ts[i].Quoted?
  }

  lemma {:induction false} PlainStays(ts: seq<Token>)
    requires Plain(ts)
    ensures Target(ts) == Source(ts)
  {
    if ts != [] {
      assert forall i | 0 <= i < |ts| - 1 :: ts[1..][i] == ts[i + 1];
      PlainStays(ts[1..]);
    }
  }

  lemma FirstToken(a: seq<Token>, b: seq<Token>)
    requires a != []
    ensures (a + b)[0] == a[0] && (a + b)[1..] == a[1..] + b
  {
  }

  lemma {:induction false} SourceAppend(a: seq<Token>, b: seq<Token>)
    ensures Source(a + b) == Source(a) + Source(b) && Target(a + b) == Target(a) + Target(b)
  {
    if a == [] {
      Unit(b);
    } else {
      FirstToken(a, b);
      SourceAppend(a[1..], b);
      Assoc(Spelled(a[0]), Source(a[1..]), Source(b));
      Assoc(Rewritten(a[0]), Target(a[1..]), Target(b));
    }
  }

  lemma OneBetween(a: seq<Token>, t: Token, b: seq<Token>)
    requires Plain(a) && Plain(b)
    ensures Source(a + ([t] + b)) == Source(a) + (Spelled(t) + Source(b))
    ensures Target(a + ([t] + b)) == Source(a) + (Rewritten(t) + Source(b))
  {
    SourceAppend(a, [t] + b);
    assert ([t] + b)[1..] == b;
    PlainStays(a);
    PlainStays(b);
  }

  /** Each replacement between arbitrary plain code. */
  lemma RuleBetween(cap: nat, a: seq<Token>, t: Token, b: seq<Token>)
    requires Plain(a) && Plain(b) && !t.Semicolon? && Reads(a + ([t] + b), 0, "") && |Target(a + ([t] + b))| < cap
    requires !LeadingUnless(Source(a + ([t] + b)))
    ensures t == AndAnd ==>
      DesugarLine(cap, Source(a) + ("&&" + Source(b)), false).text == Source(a) + ("and" + Source(b))
    ensures t == OrOr ==>
      DesugarLine(cap, Source(a) + ("||" + Source(b)), false).text == Source(a) + ("or" + Source(b))
    ensures t == Print ==>
      DesugarLine(cap, Source(a) + ("print" + Source(b)), false).text == Source(a) + ("say" + Source(b))
    ensures t == Fn ==>
      DesugarLine(cap, Source(a) + ("fn" + Source(b)), false).text == Source(a) + ("func" + Source(b))
  {
    var ts := a + ([t] + b);
    OneBetween(a, t, b);
    Unit(Source(ts));
    Unit(Target(ts));
    NoneBetween(a, t, b);
    NotPending(ts, false);
    RulesApplied(cap, ts, Open(""));
  }

  lemma NoneBetween(a: seq<Token>, t: Token, b: seq<Token>)
    requires Plain(a) && Plain(b) && !t.Semicolon?
    ensures NoSemicolon(a + ([t] + b))
  {
    var ts := a + ([t] + b);
    forall i | 0 <= i < |ts| ensures !ts[i].Semicolon? {
      assert ts[i] == if i < |a| then a[i] else if i == |a| then t else b[i - |a| - 1];
    }
  }

  /** Increment and decrement of every word that fits. */
  lemma WordIncremented(cap: nat, w: string)
    requires Letters(w) && |w| < 250 && 2 * |w| + 7 < cap
    ensures DesugarLine(cap, w + "++", false).text == w + " = " + w + " + 1"
    ensures DesugarLine(cap, w + "--", false).text == w + " = " + w + " - 1"
  {
    OneToken(cap, PlusPlus(w));
    OneToken(cap, MinusMinus(w));
    Expansion(w, " + 1");
    Expansion(w, " - 1");
  }

  lemma Expansion(w: string, op: string)
    ensures w + (" = " + w + op) == w + " = " + w + op
  {
  }

  lemma NoBraceInside(w: string, op: string)
    requires Letters(w) && (op == "++" || op == "--")
    ensures '{' !in w + op
  {
  }

  lemma OneToken(cap: nat, t: Token)
    requires (t.PlusPlus? || t.MinusMinus?) && Fits(t, 0, '\0') && |Rewritten(t)| < cap
    ensures DesugarLine(cap, Spelled(t), false).text == Rewritten(t)
  {
    var ts := [t];
    assert ts[1..] == [];
    Unit(Spelled(t));
    Unit(Rewritten(t));
    NoBraceInside(t.w, if t.PlusPlus? then "++" else "--");
    NoBrace(Spelled(t));
    RulesApplied(cap, ts, Open(""));
  }

  /** Without space around it an operator joins its operands to one word. */
  lemma OperandsMerge(cap: nat)
    requires cap > 5
    ensures DesugarLine(cap, "a&&b", false).text == "aandb"
  {
    var ts := [Word("a"), AndAnd, Word("b")];
    assert ts[1..] == [AndAnd, Word("b")] && ts[1..][1..] == [Word("b")] && ts[1..][1..][1..] == [];
    assert Source(ts) == "a&&b" && Target(ts) == "aandb";
    assert Source(ts) + "" == "a&&b" && Target(ts) + "" == "aandb";
    assert !LeadingUnless("a&&b");
    RulesApplied(cap, ts, Open(""));
  }
}
