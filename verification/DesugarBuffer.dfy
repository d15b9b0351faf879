/** `desugar_line` on its fixed output buffer, written in place with indices, rewritten behind the
    cursor for `++` and `--`, and terminated.  Each method is proved against the functional rewriter of
    `Desugar` and `DesugarFull`, for every line whose terminator stays inside the buffer. */
module DesugarBuffer {
  import opened Desugar
  import opened DesugarFull
  import opened Seqs

  /** `ds_emit`. */
  method EmitTo(dst: array<char>, d0: nat, cap: nat, s: string) returns (d: nat)
    requires d0 <= cap <= dst.Length
    modifies dst
    ensures d <= cap && dst[..d] == Emit(old(dst[..d0]), s, cap)
  {
    d := d0;
    var k := 0;
    assert s[0..] == s;
    while k < |s| && d + 1 < cap
      invariant k <= |s| && d <= cap
      invariant Emit(dst[..d], s[k..], cap) == Emit(old(dst[..d0]), s, cap)
      decreases |s| - k
    {
      DropDrop(s, k, 1);
      ghost var before := dst[..d];
      dst[d] := s[k];
      d := d + 1;
      assert dst[..d] == before + [s[k..][0]];
      k := k + 1;
    }
  }

  /** Three emits in a row. */
  method Emit3To(dst: array<char>, d0: nat, cap: nat, a: string, b: string, c: string) returns (d: nat)
    requires d0 <= cap <= dst.Length
    modifies dst
    ensures d <= cap && dst[..d] == Emit3(old(dst[..d0]), a, b, c, cap)
  {
    d := EmitTo(dst, d0, cap, a);
    d := EmitTo(dst, d, cap, b);
    d := EmitTo(dst, d, cap, c);
  }

  /** One character, one cell. */
  method PutTo(dst: array<char>, d0: nat, c: char) returns (d: nat)
    requires d0 < dst.Length
    modifies dst
    ensures d == d0 + 1 && dst[..d] == old(dst[..d0]) + [c]
  {
    dst[d0] := c;
    d := d0 + 1;
  }

  lemma CopyStep(out: string, src: string, p0: nat, p: nat)
    requires p0 <= p < |src|
    ensures out + src[p0..p] + [src[p]] == out + src[p0..p + 1]
    ensures EolLen(src[p..]) == if LineEnd(src[p]) then 0 else 1 + EolLen(src[p + 1..])
  {
    DropDrop(src, p, 1);
  }

  /** Copies to the end of the line or until the output is full. */
  method CopyLine(src: string, p0: nat, dst: array<char>, d0: nat, cap: nat) returns (p: nat, d: nat)
    requires p0 <= |src| && d0 < cap <= dst.Length
    modifies dst
    ensures var body := src[p0..];
      var n := if EolLen(body) <= cap - 1 - d0 then EolLen(body) else cap - 1 - d0;
      p == p0 + n && d == d0 + n && d < cap && dst[..d] == old(dst[..d0]) + body[..n]
  {
    p, d := p0, d0;
    ghost var out, eol := dst[..d0], EolLen(src[p0..]);
    Unit(out);
    while p < |src| && !LineEnd(src[p]) && d + 1 < cap
      invariant p0 <= p <= |src| && d - d0 == p - p0 && d < cap
      invariant eol == (p - p0) + EolLen(src[p..])
      invariant dst[..d] == out + src[p0..p]
      decreases |src| - p
    {
      CopyStep(out, src, p0, p);
      d := PutTo(dst, d, src[p]);
      p := p + 1;
    }
    SliceByDrop(src, p0, p);
  }

  /** The length of the word the output ends with. */
  method WordBehind(dst: array<char>, d: nat) returns (n: nat)
    requires d <= dst.Length
    ensures n == TrailingWord(dst[..d])
  {
    n := 0;
    ghost var out := dst[..d];
    assert out[..d] == out;
    while n < d && WordChar(dst[d - n - 1])
      invariant n <= d && TrailingWord(out) == n + TrailingWord(out[..d - n])
    {
      assert out[..d - n][..d - n - 1] == out[..d - n - 1];
      n := n + 1;
    }
  }

  /** `x++`: the word is taken back, written again and followed by its expansion. */
  method ExpandIncrement(dst: array<char>, d0: nat, cap: nat, n: nat, op: string) returns (d: nat)
    requires d0 + 1 < cap <= dst.Length && n == TrailingWord(dst[..d0])
    modifies dst
    ensures d <= cap
    ensures var out := old(dst[..d0]); dst[..d] == Emit3(out, " = ", out[|out| - n..], op, cap)
  {
    ghost var out := dst[..d0];
    var k := d0 - n;
    var ident := dst[k..d0];
    assert ident == out[|out| - n..] && dst[..k] == out[..k] && out[..k] + ident == out;
    EmitRoom(dst[..k], ident, cap);
    d := EmitTo(dst, k, cap, ident);
    d := Emit3To(dst, d, cap, " = ", ident, op);
  }

  /** The locals of the loop besides the two indices. */
  datatype Locals = Locals(inStr: bool, quote: char, inBlock: bool, lastSemi: int, sayWrap: bool)

  function StateOf(rest: string, out: string, l: Locals): State {
    State(rest, out, l.inStr, l.quote, l.inBlock, l.lastSemi, l.sayWrap)
  }

  /** A keyword or an operator replaced by a word. */
  method KeywordTo(src: string, p0: nat, dst: array<char>, d0: nat, cap: nat, word: string, skip: nat, ghost l: Locals)
    returns (p: nat, d: nat)
    requires 0 < skip && p0 + skip <= |src| && d0 <= cap <= dst.Length
    modifies dst
    ensures p <= |src| && d <= cap
    ensures StateOf(src[p..], dst[..d], l) == Keyword(cap, StateOf(src[p0..], old(dst[..d0]), l), word, skip)
  {
    DropDrop(src, p0, skip);
    d := EmitTo(dst, d0, cap, word);
    p := p0 + skip;
  }

  lemma IncrementIs(cap: nat, st: State, op: string, ident: string, after: string)
    requires |st.rest| >= 2 && ident == st.out[|st.out| - TrailingWord(st.out)..] && after == st.rest[2..]
    ensures Increment(cap, st, op) == st.(out := Emit3(st.out, " = ", ident, op, cap), rest := after)
  {
  }

  method IncrementTo(src: string, p0: nat, dst: array<char>, d0: nat, cap: nat, n: nat, op: string, ghost l: Locals)
    returns (p: nat, d: nat)
    requires p0 + 2 <= |src| && d0 + 1 < cap <= dst.Length && n == TrailingWord(dst[..d0])
    modifies dst
    ensures p <= |src| && d <= cap
    ensures StateOf(src[p..], dst[..d], l) == Increment(cap, StateOf(src[p0..], old(dst[..d0]), l), op)
  {
    ghost var st := StateOf(src[p0..], dst[..d0], l);
    p := p0 + 2;
    DropDrop(src, p0, 2);
    IncrementIs(cap, st, op, st.out[|st.out| - n..], src[p..]);
    d := ExpandIncrement(dst, d0, cap, n, op);
  }

  method SemicolonTo(src: string, p0: nat, dst: array<char>, d0: nat, cap: nat, l0: Locals)
    returns (p: nat, d: nat, l: Locals)
    requires p0 < |src| && d0 + 1 < cap <= dst.Length
    modifies dst
    ensures p <= |src| && d <= cap
    ensures StateOf(src[p..], dst[..d], l) == Semicolon(cap, StateOf(src[p0..], old(dst[..d0]), l0))
  {
    DropDrop(src, p0, 1);
    d := d0;
    if l0.sayWrap { d := EmitTo(dst, d, cap, ")"); }
    assert |dst[..d]| == d;
    l := l0.(sayWrap := false, lastSemi := d);
    d := PutTo(dst, d, ';');
    p := p0 + 1;
  }

  /** One character as it is. */
  method CopyTo(src: string, p0: nat, dst: array<char>, d0: nat, ghost l: Locals) returns (p: nat, d: nat)
    requires p0 < |src| && d0 < dst.Length
    modifies dst
    ensures p <= |src| && d == d0 + 1
    ensures StateOf(src[p..], dst[..d], l) == Put(StateOf(src[p0..], old(dst[..d0]), l), [src[p0]], 1)
  {
    DropDrop(src, p0, 1);
    d := PutTo(dst, d0, src[p0]);
    p := p0 + 1;
  }

  /** The branches for operators, the semicolon and any other character. */
  method OperatorTurn(src: string, p0: nat, dst: array<char>, d0: nat, cap: nat, l0: Locals)
    returns (p: nat, d: nat, l: Locals)
    requires p0 < |src| && d0 + 1 < cap <= dst.Length
    modifies dst
    ensures p <= |src| && d <= cap
    ensures StateOf(src[p..], dst[..d], l) == OperatorStep(cap, StateOf(src[p0..], old(dst[..d0]), l0))
  {
    p, d, l := p0, d0, l0;
    ghost var st := StateOf(src[p..], dst[..d], l);
    var c, n := src[p], if p + 1 < |src| then src[p + 1] else '\0';
    assert st.rest[0] == c && At(st.rest, 1) == n;
    if c == '&' && n == '&' {
      assert OperatorStep(cap, st) == Keyword(cap, st, "and", 2);
      p, d := KeywordTo(src, p, dst, d, cap, "and", 2, l);
    } else if c == '|' && n == '|' {
      assert OperatorStep(cap, st) == Keyword(cap, st, "or", 2);
      p, d := KeywordTo(src, p, dst, d, cap, "or", 2, l);
    } else if (c == '+' && n == '+') || (c == '-' && n == '-') {
      var k := WordBehind(dst, d);
      var op := if c == '+' then " + 1" else " - 1";
      if 0 < k < 250 {
        assert OperatorStep(cap, st) == Increment(cap, st, op);
        p, d := IncrementTo(src, p, dst, d, cap, k, op, l);
      } else {
        assert OperatorStep(cap, st) == Put(st, [c], 1);
        p, d := CopyTo(src, p, dst, d, l);
      }
    } else if c == ';' {
      assert OperatorStep(cap, st) == Semicolon(cap, st);
      p, d, l := SemicolonTo(src, p, dst, d, cap, l);
    } else {
      assert OperatorStep(cap, st) == Put(st, [c], 1);
      p, d := CopyTo(src, p, dst, d, l);
    }
  }

  /** `say@target` becomes an open call. */
  method SayTurn(src: string, p0: nat, dst: array<char>, d0: nat, cap: nat, l0: Locals)
    returns (p: nat, d: nat, l: Locals)
    requires p0 + 4 <= |src| && d0 + 1 < cap <= dst.Length && Say(StateOf(src[p0..], dst[..d0], l0))
    modifies dst
    ensures p <= |src| && d <= cap
    ensures StateOf(src[p..], dst[..d], l) == SayTarget(cap, StateOf(src[p0..], old(dst[..d0]), l0))
  {
    ghost var st := StateOf(src[p0..], dst[..d0], l0);
    p := p0 + 4;
    DropDrop(src, p0, 4);
    var t := src[p..];
    var n := WordLen(t);
    DropDrop(src, p, n);
    p := p + n;
    var u := src[p..];
    var k := BlankLen(u);
    DropDrop(src, p, k);
    p := p + k;
    l := l0.(sayWrap := true);
    SayTargetIs(cap, st, t, u, src[p..]);
    d := Emit3To(dst, d0, cap, "say_target(\"", t[..n], "\", ");
  }

  lemma CommentIs(cap: nat, st: State, prefix: string, skip: nat, body: string, n: nat, after: string)
    requires skip <= |st.rest| && |st.out| + |prefix| < cap
    requires skip > 0 || (|st.out| + |prefix| + 1 < cap && st.rest != [] && !LineEnd(st.rest[0]))
    requires body == st.rest[skip..]
    requires var room := cap - 1 - (|st.out| + |prefix|); n == if EolLen(body) <= room then EolLen(body) else room
    requires after == body[n..]
    ensures Comment(cap, st, prefix, skip) == st.(out := st.out + prefix + body[..n], rest := after)
  {
  }

  /** A line comment that starts with `#`. */
  method HashTo(src: string, p0: nat, dst: array<char>, d0: nat, cap: nat, ghost l: Locals) returns (p: nat, d: nat)
    requires p0 < |src| && d0 + 1 < cap <= dst.Length && src[p0] == '#'
    modifies dst
    ensures p <= |src| && d <= cap
    ensures StateOf(src[p..], dst[..d], l) == Comment(cap, StateOf(src[p0..], old(dst[..d0]), l), "", 0)
  {
    ghost var st := StateOf(src[p0..], dst[..d0], l);
    p, d := CopyLine(src, p0, dst, d0, cap);
    DropDrop(src, p0, p - p0);
    Unit(st.out);
    CommentIs(cap, st, "", 0, st.rest, p - p0, src[p..]);
  }

  /** A line comment that starts with `//`, written with `#`. */
  method SlashTo(src: string, p0: nat, dst: array<char>, d0: nat, cap: nat, ghost l: Locals) returns (p: nat, d: nat)
    requires p0 + 2 <= |src| && d0 + 1 < cap <= dst.Length
    modifies dst
    ensures p <= |src| && d <= cap
    ensures StateOf(src[p..], dst[..d], l) == Comment(cap, StateOf(src[p0..], old(dst[..d0]), l), "#", 2)
  {
    ghost var st, body := StateOf(src[p0..], dst[..d0], l), src[p0 + 2..];
    p := p0 + 2;
    assert body == st.rest[2..] by { DropDrop(src, p0, 2); }
    d := PutTo(dst, d0, '#');
    p, d := CopyLine(src, p, dst, d, cap);
    ghost var n := p - (p0 + 2);
    assert src[p..] == body[n..] by { DropDrop(src, p0 + 2, n); }
    CommentIs(cap, st, "#", 2, body, n, src[p..]);
  }

  /** One turn of the loop in code mode. */
  method CodeTurnTo(src: string, p0: nat, dst: array<char>, d0: nat, cap: nat, l0: Locals)
    returns (p: nat, d: nat, l: Locals)
    requires p0 < |src| && d0 + 1 < cap <= dst.Length
    modifies dst
    ensures p <= |src| && d <= cap
    ensures StateOf(src[p..], dst[..d], l) == CodeStep(cap, StateOf(src[p0..], old(dst[..d0]), l0))
  {
    p, d, l := p0, d0, l0;
    var rest := src[p..];
    ghost var st := StateOf(rest, dst[..d], l);
    var c := src[p];
    if c == '#' {
      assert CodeStep(cap, st) == Comment(cap, st, "", 0);
      p, d := HashTo(src, p, dst, d, cap, l);
    } else if c == '/' && p + 1 < |src| && src[p + 1] == '/' {
      assert At(rest, 1) == src[p + 1];
      assert CodeStep(cap, st) == Comment(cap, st, "#", 2);
      p, d := SlashTo(src, p, dst, d, cap, l);
    } else if c == '"' || c == '\'' {
      assert CodeStep(cap, st) == Put(st, [c], 1).(inStr := true, quote := c);
      p, d := CopyTo(src, p, dst, d, l);
      l := l.(inStr := true, quote := c);
    } else {
      p, d, l := WordTurn(src, p, dst, d, cap, l);
    }
  }

  /** Keywords at a word boundary, then the operators. */
  method WordTurn(src: string, p0: nat, dst: array<char>, d0: nat, cap: nat, l0: Locals)
    returns (p: nat, d: nat, l: Locals)
    requires p0 < |src| && d0 + 1 < cap <= dst.Length
    requires src[p0] != '#' && src[p0] != '"' && src[p0] != '\''
      && !(src[p0] == '/' && p0 + 1 < |src| && src[p0 + 1] == '/')
    modifies dst
    ensures p <= |src| && d <= cap
    ensures StateOf(src[p..], dst[..d], l) == CodeStep(cap, StateOf(src[p0..], old(dst[..d0]), l0))
  {
    p, d, l := p0, d0, l0;
    var rest := src[p..];
    ghost var st := StateOf(rest, dst[..d], l);
    assert rest[0] == src[p] && (At(rest, 1) == '/' ==> p + 1 < |src| && src[p + 1] == '/');
    var word := WordBehind(dst, d);
    if word == 0 && Say(StateOf(rest, dst[..d], l)) {
      assert CodeStep(cap, st) == SayTarget(cap, st);
      p, d, l := SayTurn(src, p, dst, d, cap, l);
    } else if word == 0 && "print" <= rest && KeywordEnd(At(rest, 5)) {
      assert CodeStep(cap, st) == Keyword(cap, st, "say", 5);
      p, d := KeywordTo(src, p, dst, d, cap, "say", 5, l);
    } else if word == 0 && "fn" <= rest && KeywordEnd(At(rest, 2)) {
      assert CodeStep(cap, st) == Keyword(cap, st, "func", 2);
      p, d := KeywordTo(src, p, dst, d, cap, "func", 2, l);
    } else {
      assert CodeStep(cap, st) == OperatorStep(cap, st);
      p, d, l := OperatorTurn(src, p, dst, d, cap, l);
    }
  }

  /** One turn of the main loop. */
  method OneTurn(src: string, p0: nat, dst: array<char>, d0: nat, cap: nat, l0: Locals)
    returns (p: nat, d: nat, l: Locals)
    requires p0 < |src| && d0 + 1 < cap <= dst.Length
    modifies dst
    ensures p <= |src| && d <= cap
    ensures StateOf(src[p..], dst[..d], l) == Step(cap, StateOf(src[p0..], old(dst[..d0]), l0))
  {
    p, d, l := p0, d0, l0;
    ghost var st := StateOf(src[p..], dst[..d], l);
    var c := src[p];
    assert At(st.rest, 1) == if p + 1 < |src| then src[p + 1] else '\0';
    if l.inBlock {
      assert Step(cap, st) == Put(st, [c], 1).(inBlock := c != ']');
      p, d := CopyTo(src, p, dst, d, l);
      l := l.(inBlock := c != ']');
    } else if c == '#' && p + 1 < |src| && src[p + 1] == '[' {
      assert Step(cap, st) == Put(st, "#[", 2).(inBlock := true);
      DropDrop(src, p, 2);
      Assoc(dst[..d], ['#'], ['[']);
      d := PutTo(dst, d, c);
      d := PutTo(dst, d, src[p + 1]);
      p := p + 2;
      l := l.(inBlock := true);
    } else if l.inStr {
      assert Step(cap, st) == Put(st, [c], 1).(inStr := c != st.quote);
      p, d := CopyTo(src, p, dst, d, l);
      l := l.(inStr := c != l.quote);
    } else {
      assert Step(cap, st) == CodeStep(cap, st);
      p, d, l := CodeTurnTo(src, p, dst, d, cap, l);
    }
  }

  /** The prologue for `unless`. */
  method Prologue(src: string, dst: array<char>, cap: nat, inBlock: bool) returns (p: nat, d: nat)
    requires 0 < cap <= dst.Length
    modifies dst
    ensures p <= |src| && d <= cap
    ensures StateOf(src[p..], dst[..d], Locals(false, '\0', inBlock, -1, false)) == Start(cap, src, inBlock)
  {
    assert src[0..] == src && dst[..0] == [];
    if !Unless(src) { return 0, 0; }
    var k := BlankLen(src);
    var u := src[k..];
    var b := BraceAt(u[6..]);
    d := EmitTo(dst, 0, cap, src[..k]);
    d := Emit3To(dst, d, cap, "if !(", u[6..][..b], ") ");
    DropDrop(src, k, 6);
    DropDrop(src, k + 6, b);
    p := k + 6 + b;
  }

  /** Removes the last code semicolon when only space follows it. */
  method Trim(dst: array<char>, d0: nat, lastSemi: int, ghost st: State) returns (d: nat)
    requires d0 <= dst.Length && dst[..d0] == st.out && st.lastSemi == lastSemi && SemiInside(st)
    modifies dst
    ensures d <= d0 && dst[..d] == Trimmed(st)
  {
    d := d0;
    if lastSemi >= 0 {
      var e := SpaceBehind(dst, d, lastSemi + 1, st.out);
      if e == lastSemi + 1 {
        RemoveAt(dst, d, lastSemi);
        d := d - 1;
      }
    }
  }

  /** memmove over one character. */
  method RemoveAt(dst: array<char>, d: nat, k: nat)
    requires k < d <= dst.Length
    modifies dst
    ensures dst[..d - 1] == Without(old(dst[..d]), k)
  {
    ghost var out := dst[..d];
    var i := k;
    while i + 1 < d
      invariant k <= i && i + 1 <= d
      invariant forall j | 0 <= j < k || i < j < d :: dst[j] == out[j]
      invariant forall j | k <= j < i :: dst[j] == out[j + 1]
    {
      dst[i] := dst[i + 1];
      i := i + 1;
    }
  }

  /** Steps back over trailing space, not below `floor`. */
  method SpaceBehind(dst: array<char>, d: nat, floor: nat, ghost out: string) returns (e: nat)
    requires floor <= d <= dst.Length && dst[..d] == out
    ensures e == if SpaceStart(out) <= floor then floor else SpaceStart(out)
  {
    e := d;
    assert out[..d] == out;
    while e > floor && Space(dst[e - 1])
      invariant floor <= e <= d && SpaceStart(out) == SpaceStart(out[..e])
    {
      assert out[..e][..e - 1] == out[..e - 1];
      e := e - 1;
    }
  }

  /** Closes an open `say_target` call: in front of the trailing space if there is room, else over
      its first character, and the length is counted up in either case. */
  method CloseSay(dst: array<char>, d0: nat, cap: nat, ghost t: string) returns (d: nat)
    requires d0 <= cap <= dst.Length && dst[..d0] == t
    modifies dst
    ensures d == if SpaceStart(t) + 1 < cap then d0 + 1 else d0
    ensures d0 + 1 < cap ==> dst[..d] == t[..SpaceStart(t)] + ")" + t[SpaceStart(t)..]
    ensures d0 + 1 >= cap ==>
      dst[..d0] == if SpaceStart(t) + 1 < cap && SpaceStart(t) < d0 then t[SpaceStart(t) := ')'] else t
  {
    var e := SpaceBehind(dst, d0, 0, t);
    d := d0;
    if d0 + 1 < cap {
      if e < d0 { MakeRoom(dst, d0, e, t); }
      dst[e] := ')';
      d := d + 1;
      CloseIn(dst[..d], t, e);
    } else if e + 1 < cap {
      dst[e] := ')';
      d := d + 1;
      CloseOver(dst[..d0], t, e);
    }
  }

  lemma CloseIn(s: string, t: string, e: nat)
    requires e <= |t| && |s| == |t| + 1 && s[e] == ')'
    requires forall i | 0 <= i < e :: s[i] == t[i]
    requires forall i | e <= i < |t| :: s[i + 1] == t[i]
    ensures s == t[..e] + ")" + t[e..]
  {
  }

  lemma CloseOver(s: string, t: string, e: nat)
    requires |s| == |t| && (e < |t| ==> s[e] == ')') && forall i | 0 <= i < |t| && i != e :: s[i] == t[i]
    ensures s == if e < |t| then t[e := ')'] else t
  {
  }

  /** memmove one cell to the right. */
  method MakeRoom(dst: array<char>, d: nat, e: nat, ghost t: string)
    requires e <= d < dst.Length && dst[..d] == t
    modifies dst
    ensures dst[..e] == t[..e] && dst[e + 1..d + 1] == t[e..]
  {
    var i := d;
    while i > e
      invariant e <= i <= d
      invariant forall j | 0 <= j < i :: dst[j] == t[j]
      invariant forall j | i < j <= d :: dst[j] == t[j - 1]
    {
      dst[i] := dst[i - 1];
      i := i - 1;
    }
  }

  /** `desugar_line` on a buffer of exactly the capacity, for every line whose terminator stays in it. */
  method DesugarLineTo(src: string, dst: array<char>, cap: nat, inBlock0: bool) returns (d: nat, inBlock: bool)
    requires 0 < cap == dst.Length && !Overruns(cap, src, inBlock0)
    modifies dst
    ensures d < cap && dst[d] == '\0'
    ensures Line(dst[..d], inBlock) == DesugarLine(cap, src, inBlock0)
  {
    ghost var start := Start(cap, src, inBlock0);
    TerminatorExact(cap, src, inBlock0);
    var p, l;
    p, d, l := RunLoop(src, dst, cap, inBlock0);
    ghost var fin := StateOf(src[p..], dst[..d], l);
    inBlock := l.inBlock;
    d := Trim(dst, d, l.lastSemi, fin);
    if l.sayWrap { d := CloseSay(dst, d, cap, Trimmed(fin)); }
    dst[d] := '\0';
  }

  /** The prologue and the main loop; the output never leaves the buffer. */
  method RunLoop(src: string, dst: array<char>, cap: nat, inBlock0: bool) returns (p: nat, d: nat, l: Locals)
    requires 0 < cap == dst.Length
    modifies dst
    ensures p <= |src| && d <= cap
    ensures StateOf(src[p..], dst[..d], l) == Loop(cap, Start(cap, src, inBlock0))
    ensures SemiInside(StateOf(src[p..], dst[..d], l))
  {
    p, d := Prologue(src, dst, cap, inBlock0);
    l := Locals(false, '\0', inBlock0, -1, false);
    ghost var start := Start(cap, src, inBlock0);
    while p < |src| && d + 1 < cap
      invariant p <= |src| && d <= cap && SemiInside(StateOf(src[p..], dst[..d], l))
      invariant Loop(cap, StateOf(src[p..], dst[..d], l)) == Loop(cap, start)
      decreases |src| - p
    {
      p, d, l := OneTurn(src, p, dst, d, cap, l);
    }
  }
}
