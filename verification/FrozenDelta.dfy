/** The arithmetic of the frozen-identity check: how many bytes an indented JSON dump gains when a
    directory is renamed, and where the difference between the two dumps comes from. */
module FrozenDelta {

  /** The spelling of a number, a boolean or null. */
  type Token = t: string | '\n' !in t

  datatype Value =
    | Atom(text: Token)
    | Str(s: string)
    | Arr(items: seq<Value>)
    | Obj(members: seq<Member>)

  datatype Member = Member(key: string, value: Value)

  // ---------------------------------------------------------------- bytes and lines

  /** Octets of one character in UTF-8. */
  function Width(c: char): (w: nat)
    ensures 1 <= w <= 4
  {
    if c as int < 0x80 then 1 else if c as int < 0x800 then 2 else if c as int < 0x10000 then 3 else 4
  }

  function Size(s: string): (n: nat)
    ensures n >= |s|
  {
    if s == [] then 0 else Width(s[0]) + Size(s[1..])
  }

  function Newlines(s: string): nat {
    if s == [] then 0 else (if s[0] == '\n' then 1 else 0) + Newlines(s[1..])
  }

  lemma {:induction false} Additive(a: string, b: string)
    ensures Size(a + b) == Size(a) + Size(b)
    ensures Newlines(a + b) == Newlines(a) + Newlines(b)
  {
    if a == [] {
      assert a + b == b;
    } else {
      assert (a + b)[1..] == a[1..] + b;
      Additive(a[1..], b);
    }
  }

  // ---------------------------------------------------------------- json.dumps(indent=1, ensure_ascii=False)

  function Hex(n: nat): char
    requires n < 16
  {
    if n < 10 then '0' + n as char else 'a' + (n - 10) as char
  }

  function EscapeChar(c: char): (r: string)
    ensures 1 <= |r| <= 6
  {
    if c == '"' then "\\\"" else if c == '\\' then "\\\\"
    else if c == '\n' then "\\n" else if c == '\r' then "\\r" else if c == '\t' then "\\t"
    else if c as int == 8 then "\\b" else if c as int == 12 then "\\f"
    else if c < ' ' then "\\u00" + [Hex(c as int / 16), Hex(c as int % 16)]
    else [c]
  }

  function Escape(s: string): string {
    if s == [] then [] else EscapeChar(s[0]) + Escape(s[1..])
  }

  /** Bytes a string contributes between its quotes. */
  function Weight(s: string): nat {
    Size(Escape(s))
  }

  function Quoted(s: string): string {
    "\"" + Escape(s) + "\""
  }

  function Spaces(n: nat): (r: string)
    ensures |r| == n
  {
    if n == 0 then [] else [' '] + Spaces(n - 1)
  }

  function Break(level: nat): string {
    "\n" + Spaces(level)
  }

  function Ser(v: Value, level: nat): string
    decreases v, 1
  {
    match v
    case Atom(t) => t
    case Str(s) => Quoted(s)
    case Arr(vs) => if vs == [] then "[]" else "[" + SerItems(vs, level + 1) + Break(level) + "]"
    case Obj(ms) => if ms == [] then "{}" else "{" + SerMembers(ms, level + 1) + Break(level) + "}"
  }

  /** Every item on its own line, separated by commas. */
  function SerItems(vs: seq<Value>, level: nat): string
    decreases vs, 0
  {
    if vs == [] then []
    else Break(level) + Ser(vs[0], level) + (if |vs| == 1 then [] else ",") + SerItems(vs[1..], level)
  }

  function Key(k: string): string {
    Quoted(k) + ": "
  }

  function SerMembers(ms: seq<Member>, level: nat): string
    decreases ms, 0
  {
    if ms == [] then []
    else
      assert ms[0].value < ms[0];
      Break(level) + (Key(ms[0].key) + Ser(ms[0].value, level)) + (if |ms| == 1 then [] else ",")
        + SerMembers(ms[1..], level)
  }

  // ---------------------------------------------------------------- sizes, computed on the tree

  /** Line breaks in the dump of a value; they do not depend on the level. */
  function Breaks(v: Value): nat
    decreases v, 1
  {
    match v
    case Atom(_) => 0
    case Str(_) => 0
    case Arr(vs) => if vs == [] then 0 else ItemBreaks(vs) + 1
    case Obj(ms) => if ms == [] then 0 else MemberBreaks(ms) + 1
  }

  function ItemBreaks(vs: seq<Value>): nat
    decreases vs, 0
  {
    if vs == [] then 0 else 1 + Breaks(vs[0]) + ItemBreaks(vs[1..])
  }

  function MemberBreaks(ms: seq<Member>): nat
    decreases ms, 0
  {
    if ms == [] then 0 else assert ms[0].value < ms[0]; 1 + Breaks(ms[0].value) + MemberBreaks(ms[1..])
  }

  /** Bytes in the dump of a value at a level. */
  function Bytes(v: Value, level: nat): nat
    decreases v, 1
  {
    match v
    case Atom(t) => Size(t)
    case Str(s) => Weight(s) + 2
    case Arr(vs) => if vs == [] then 2 else ItemBytes(vs, level + 1) + level + 3
    case Obj(ms) => if ms == [] then 2 else MemberBytes(ms, level + 1) + level + 3
  }

  function ItemBytes(vs: seq<Value>, level: nat): nat
    decreases vs, 0
  {
    if vs == [] then 0 else level + 1 + Bytes(vs[0], level) + (if |vs| == 1 then 0 else 1) + ItemBytes(vs[1..], level)
  }

  function MemberBytes(ms: seq<Member>, level: nat): nat
    decreases ms, 0
  {
    if ms == [] then 0
    else
      assert ms[0].value < ms[0];
      level + 1 + (Weight(ms[0].key) + 4 + Bytes(ms[0].value, level)) + (if |ms| == 1 then 0 else 1)
        + MemberBytes(ms[1..], level)
  }

  // ---------------------------------------------------------------- nesting adds one space a line

  lemma {:induction false} SpacesCount(n: nat)
    ensures Size(Spaces(n)) == n && Newlines(Spaces(n)) == 0
  {
    if n > 0 { SpacesCount(n - 1); }
  }

  lemma BreakCount(level: nat)
    ensures Size(Break(level)) == level + 1 && Newlines(Break(level)) == 1
  {
    Additive("\n", Spaces(level));
    SpacesCount(level);
    assert Newlines("\n") == 1 by { assert "\n"[1..] == []; }
    assert Size("\n") == 1 by { assert "\n"[1..] == []; }
  }

  lemma OneChar(c: char)
    ensures Size([c]) == Width(c) && Newlines([c]) == if c == '\n' then 1 else 0
  {
    assert [c][1..] == [];
  }

  /** The bytes and line breaks of a whole bracketed value, from those of its contents. */
  lemma Bracketed(open: char, body: string, level: nat, close: char)
    requires open as int < 0x80 && close as int < 0x80 && open != '\n' && close != '\n'
    ensures Size([open] + body + Break(level) + [close]) == Size(body) + level + 3
    ensures Newlines([open] + body + Break(level) + [close]) == Newlines(body) + 1
  {
    OneChar(open);
    OneChar(close);
    BreakCount(level);
    Additive([open], body);
    Additive([open] + body, Break(level));
    Additive([open] + body + Break(level), [close]);
  }

  lemma Entry(level: nat, text: string, last: bool, more: string)
    ensures var t := Break(level) + text + (if last then [] else ",") + more;
      && Size(t) == level + 1 + Size(text) + (if last then 0 else 1) + Size(more)
      && Newlines(t) == 1 + Newlines(text) + Newlines(more)
  {
    var sep := if last then [] else ",";
    if !last { OneChar(','); }
    BreakCount(level);
    Additive(Break(level), text);
    Additive(Break(level) + text, sep);
    Additive(Break(level) + text + sep, more);
  }

  lemma {:induction false} NoBreaks(s: string)
    requires '\n' !in s
    ensures Newlines(s) == 0
  {
    if s != [] { NoBreaks(s[1..]); }
  }

  lemma {:induction false} EscapeHasNoBreaks(s: string)
    ensures '\n' !in Escape(s)
  {
    if s != [] { EscapeHasNoBreaks(s[1..]); }
  }

  lemma QuotedSize(s: string)
    ensures Size(Quoted(s)) == Weight(s) + 2 && Newlines(Quoted(s)) == 0
  {
    EscapeHasNoBreaks(s);
    NoBreaks(Quoted(s));
    OneChar('"');
    Additive("\"", Escape(s));
    Additive("\"" + Escape(s), "\"");
  }

  lemma KeySize(k: string)
    ensures Size(Key(k)) == Weight(k) + 4 && Newlines(Key(k)) == 0
  {
    QuotedSize(k);
    OneChar(':');
    OneChar(' ');
    Additive(":", " ");
    assert ": " == ":" + " ";
    Additive(Quoted(k), ": ");
  }

  lemma MemberText(m: Member, level: nat)
    ensures Size(Key(m.key) + Ser(m.value, level)) == Weight(m.key) + 4 + Size(Ser(m.value, level))
    ensures Newlines(Key(m.key) + Ser(m.value, level)) == Newlines(Ser(m.value, level))
  {
    KeySize(m.key);
    Additive(Key(m.key), Ser(m.value, level));
  }

  /** The tree computations are the size and the line breaks of the dump itself. */
  lemma {:induction false} DumpSize(v: Value, level: nat)
    ensures Size(Ser(v, level)) == Bytes(v, level) && Newlines(Ser(v, level)) == Breaks(v)
    decreases v, 1
  {
    match v
    case Atom(t) => NoBreaks(t);
    case Str(s) => QuotedSize(s);
    case Arr(vs) =>
      if vs == [] {
        NoBreaks("[]");
        assert Size("[]") == 2 by { assert "[]"[1..] == "]" && "]"[1..] == []; }
      } else {
        ItemsSize(vs, level + 1);
        Bracketed('[', SerItems(vs, level + 1), level, ']');
      }
    case Obj(ms) =>
      if ms == [] {
        NoBreaks("{}");
        assert Size("{}") == 2 by { assert "{}"[1..] == "}" && "}"[1..] == []; }
      } else {
        MembersSize(ms, level + 1);
        Bracketed('{', SerMembers(ms, level + 1), level, '}');
      }
  }

  lemma {:induction false} ItemsSize(vs: seq<Value>, level: nat)
    ensures Size(SerItems(vs, level)) == ItemBytes(vs, level) && Newlines(SerItems(vs, level)) == ItemBreaks(vs)
    decreases vs, 0
  {
    if vs != [] {
      DumpSize(vs[0], level);
      ItemsSize(vs[1..], level);
      Entry(level, Ser(vs[0], level), |vs| == 1, SerItems(vs[1..], level));
    }
  }

  lemma {:induction false} MembersSize(ms: seq<Member>, level: nat)
    ensures Size(SerMembers(ms, level)) == MemberBytes(ms, level) && Newlines(SerMembers(ms, level)) == MemberBreaks(ms)
    decreases ms, 0
  {
    if ms != [] {
      assert ms[0].value < ms[0];
      DumpSize(ms[0].value, level);
      MembersSize(ms[1..], level);
      MemberText(ms[0], level);
      Entry(level, Key(ms[0].key) + Ser(ms[0].value, level), |ms| == 1, SerMembers(ms[1..], level));
    }
  }

  /** Nesting a value one level deeper adds exactly one byte per line break. */
  lemma {:induction false} NestingAddsBreaks(v: Value, level: nat)
    ensures Bytes(v, level + 1) == Bytes(v, level) + Breaks(v)
    decreases v, 1
  {
    match v
    case Atom(_) =>
    case Str(_) =>
    case Arr(vs) => ItemsNest(vs, level + 1);
    case Obj(ms) => MembersNest(ms, level + 1);
  }

  lemma {:induction false} ItemsNest(vs: seq<Value>, level: nat)
    ensures ItemBytes(vs, level + 1) == ItemBytes(vs, level) + ItemBreaks(vs)
    decreases vs, 0
  {
    if vs != [] {
      NestingAddsBreaks(vs[0], level);
      ItemsNest(vs[1..], level);
    }
  }

  lemma {:induction false} MembersNest(ms: seq<Member>, level: nat)
    ensures MemberBytes(ms, level + 1) == MemberBytes(ms, level) + MemberBreaks(ms)
    decreases ms, 0
  {
    if ms != [] {
      assert ms[0].value < ms[0];
      NestingAddsBreaks(ms[0].value, level);
      MembersNest(ms[1..], level);
    }
  }

  // ---------------------------------------------------------------- what renaming the root changes

  predicate Under(s: string, root: string) {
    s == root || root + "/" <= s
  }

  /** Every string at or below the root, in serialization order (`under_root`). */
  function UnderRoot(v: Value, root: string): seq<string>
    decreases v, 1
  {
    match v
    case Atom(_) => []
    case Str(s) => if Under(s, root) then [s] else []
    case Arr(vs) => UnderItems(vs, root)
    case Obj(ms) => UnderMembers(ms, root)
  }

  function UnderItems(vs: seq<Value>, root: string): seq<string>
    decreases vs, 0
  {
    if vs == [] then [] else UnderRoot(vs[0], root) + UnderItems(vs[1..], root)
  }

  function UnderMembers(ms: seq<Member>, root: string): seq<string>
    decreases ms, 0
  {
    if ms == [] then []
    else
      assert ms[0].value < ms[0];
      UnderRoot(ms[0].value, root) + UnderMembers(ms[1..], root)
  }

  /** `regrow` on a value held by a list or a dictionary: such a string is rewritten in its slot. */
  function Regrow(v: Value, old_: string, new_: string): Value
    decreases v, 1
  {
    match v
    case Atom(_) => v
    case Str(s) => if Under(s, old_) then Str(new_ + s[|old_|..]) else v
    case Arr(vs) => Arr(RegrowItems(vs, old_, new_))
    case Obj(ms) => Obj(RegrowMembers(ms, old_, new_))
  }

  function RegrowItems(vs: seq<Value>, old_: string, new_: string): (r: seq<Value>)
    ensures |r| == |vs|
    decreases vs, 0
  {
    if vs == [] then [] else [Regrow(vs[0], old_, new_)] + RegrowItems(vs[1..], old_, new_)
  }

  function RegrowMembers(ms: seq<Member>, old_: string, new_: string): (r: seq<Member>)
    ensures |r| == |ms|
    decreases ms, 0
  {
    if ms == [] then []
    else
      assert ms[0].value < ms[0];
      [Member(ms[0].key, Regrow(ms[0].value, old_, new_))] + RegrowMembers(ms[1..], old_, new_)
  }

  lemma {:induction false} EscapeConcat(a: string, b: string)
    ensures Escape(a + b) == Escape(a) + Escape(b)
  {
    if a == [] {
      assert a + b == b;
    } else {
      assert (a + b)[1..] == a[1..] + b;
      EscapeConcat(a[1..], b);
    }
  }

  lemma WeightConcat(a: string, b: string)
    ensures Weight(a + b) == Weight(a) + Weight(b)
  {
    EscapeConcat(a, b);
    Additive(Escape(a), Escape(b));
  }

  lemma RenamedWeight(s: string, old_: string, new_: string)
    requires Under(s, old_)
    ensures Weight(new_ + s[|old_|..]) == Weight(s) + (Weight(new_) - Weight(old_))
  {
    assert s == old_ + s[|old_|..];
    WeightConcat(old_, s[|old_|..]);
    WeightConcat(new_, s[|old_|..]);
  }

  /** `n` moves by `w` bytes each. */
  function Moves(n: nat, w: int): int {
    if n == 0 then 0 else w + Moves(n - 1, w)
  }

  lemma {:induction false} MovesAdd(a: nat, b: nat, w: int)
    ensures Moves(a + b, w) == Moves(a, w) + Moves(b, w)
  {
    if a > 0 { MovesAdd(a - 1, b, w); }
  }

  lemma {:induction false} MovesProduct(n: nat, w: int)
    ensures Moves(n, w) == n * w
  {
    if n > 0 {
      MovesProduct(n - 1, w);
      assert n * w == (n - 1) * w + w;
    }
  }

  /** Renaming moves the dump by the difference of the root's weights for each string under it,
      for every tree, every root and every new root, whatever needs escaping. */
  lemma {:induction false} RegrowMoves(v: Value, old_: string, new_: string, level: nat)
    ensures Bytes(Regrow(v, old_, new_), level)
      == Bytes(v, level) + Moves(|UnderRoot(v, old_)|, Weight(new_) - Weight(old_))
    decreases v, 1
  {
    match v
    case Atom(_) =>
    case Str(s) => if Under(s, old_) { RenamedWeight(s, old_, new_); }
    case Arr(vs) => RegrowItemsMove(vs, old_, new_, level + 1);
    case Obj(ms) => RegrowMembersMove(ms, old_, new_, level + 1);
  }

  lemma {:induction false} RegrowItemsMove(vs: seq<Value>, old_: string, new_: string, level: nat)
    ensures ItemBytes(RegrowItems(vs, old_, new_), level)
      == ItemBytes(vs, level) + Moves(|UnderItems(vs, old_)|, Weight(new_) - Weight(old_))
    decreases vs, 0
  {
    if vs != [] {
      var w := Weight(new_) - Weight(old_);
      RegrowMoves(vs[0], old_, new_, level);
      RegrowItemsMove(vs[1..], old_, new_, level);
      assert RegrowItems(vs, old_, new_)[1..] == RegrowItems(vs[1..], old_, new_);
      MovesAdd(|UnderRoot(vs[0], old_)|, |UnderItems(vs[1..], old_)|, w);
    }
  }

  lemma HeadBytes(ms: seq<Member>, level: nat)
    requires ms != []
    ensures MemberBytes(ms, level) == level + 5 + Weight(ms[0].key) + Bytes(ms[0].value, level)
      + (if |ms| == 1 then 0 else 1) + MemberBytes(ms[1..], level)
  {
  }

  lemma HeadRegrown(ms: seq<Member>, old_: string, new_: string)
    requires ms != []
    ensures var r := RegrowMembers(ms, old_, new_);
      && r[1..] == RegrowMembers(ms[1..], old_, new_) && |r| == |ms|
      && r[0] == Member(ms[0].key, Regrow(ms[0].value, old_, new_))
  {
  }

  lemma {:induction false} RegrowMembersMove(ms: seq<Member>, old_: string, new_: string, level: nat)
    ensures MemberBytes(RegrowMembers(ms, old_, new_), level)
      == MemberBytes(ms, level) + Moves(|UnderMembers(ms, old_)|, Weight(new_) - Weight(old_))
    decreases ms, 0
  {
    if ms != [] {
      assert ms[0].value < ms[0];
      var w := Weight(new_) - Weight(old_);
      RegrowMoves(ms[0].value, old_, new_, level);
      RegrowMembersMove(ms[1..], old_, new_, level);
      HeadRegrown(ms, old_, new_);
      MovesAdd(|UnderRoot(ms[0].value, old_)|, |UnderMembers(ms[1..], old_)|, w);
      HeadBytes(RegrowMembers(ms, old_, new_), level);
    }
  }

  // ---------------------------------------------------------------- the two dumps

  /** The names of the two top-level keys: "frozen" and "four_piece". */
  datatype Keys = Keys(frozen: string, fourPiece: string) {
    predicate Valid() {
      frozen != fourPiece && PlainText(frozen) && PlainText(fourPiece)
    }
  }

  const PRODUCT := Keys("frozen", "four_piece")

  /** A decoded JSON object: no key twice. */
  predicate Distinct(ms: seq<Member>) {
    forall i, j | 0 <= i < j < |ms| :: ms[i].key != ms[j].key
  }

  predicate Has(ms: seq<Member>, key: string) {
    exists i | 0 <= i < |ms| :: ms[i].key == key
  }

  function Get(ms: seq<Member>, key: string): Value
    requires Has(ms, key)
  {
    if ms[0].key == key then ms[0].value
    else
      assert Has(ms[1..], key) by {
        var i :| 0 <= i < |ms| && ms[i].key == key;
        assert ms[1..][i - 1].key == key;
      }
      Get(ms[1..], key)
  }

  /** The first dump's object: `four_piece` dropped, `frozen` emptied in its place. */
  function First(ms: seq<Member>, ks: Keys): seq<Member> {
    if ms == [] then []
    else if ms[0].key == ks.fourPiece then First(ms[1..], ks)
    else [if ms[0].key == ks.frozen then Member(ks.frozen, Obj([])) else ms[0]] + First(ms[1..], ks)
  }

  function Delta(ms: seq<Member>, ks: Keys): int {
    Bytes(Obj(ms), 0) - Bytes(Obj(First(ms, ks)), 0)
  }

  /** The delta is the difference of the lengths of the two dumps. */
  lemma DeltaIsDumpDifference(ms: seq<Member>, ks: Keys)
    ensures Delta(ms, ks) == Size(Ser(Obj(ms), 0)) - Size(Ser(Obj(First(ms, ks)), 0))
  {
    DumpSize(Obj(ms), 0);
    DumpSize(Obj(First(ms, ks)), 0);
  }

  /** A member's share of a top-level object: indent, key, value, and the line break or comma. */
  function Share(m: Member): nat {
    Weight(m.key) + 7 + Bytes(m.value, 1)
  }

  function Shares(ms: seq<Member>): nat {
    if ms == [] then 0 else Share(ms[0]) + Shares(ms[1..])
  }

  lemma {:induction false} MembersShare(ms: seq<Member>)
    requires ms != []
    ensures MemberBytes(ms, 1) + 1 == Shares(ms)
  {
    if |ms| > 1 { MembersShare(ms[1..]); }
  }

  lemma ObjectShare(ms: seq<Member>)
    ensures Bytes(Obj(ms), 0) == 2 + Shares(ms)
  {
    if ms != [] { MembersShare(ms); }
  }

  lemma {:induction false} FirstRegrown(ms: seq<Member>, ks: Keys, old_: string, new_: string)
    ensures First(RegrowMembers(ms, old_, new_), ks) == RegrowMembers(First(ms, ks), old_, new_)
  {
    if ms != [] {
      FirstRegrown(ms[1..], ks, old_, new_);
      var ns := RegrowMembers(ms, old_, new_);
      assert ns[1..] == RegrowMembers(ms[1..], old_, new_) && ns[0].key == ms[0].key;
      if ms[0].key != ks.fourPiece {
        var f := if ms[0].key == ks.frozen then Member(ks.frozen, Obj([])) else ms[0];
        assert First(ms, ks) == [f] + First(ms[1..], ks) && First(ms, ks)[1..] == First(ms[1..], ks);
      }
    }
  }

  /** The slope the check predicts: strings under the root in the second dump but not in the first. */
  function Slope(ms: seq<Member>, ks: Keys, root: string): int {
    |UnderRoot(Obj(ms), root)| - |UnderRoot(Obj(First(ms, ks)), root)|
  }

  lemma ObjectMoves(ms: seq<Member>, old_: string, new_: string)
    ensures Bytes(Obj(RegrowMembers(ms, old_, new_)), 0)
      == Bytes(Obj(ms), 0) + Moves(|UnderRoot(Obj(ms), old_)|, Weight(new_) - Weight(old_))
  {
    RegrowMoves(Obj(ms), old_, new_, 0);
  }

  lemma DeltaMoves(ms: seq<Member>, ks: Keys, old_: string, new_: string)
    ensures Delta(RegrowMembers(ms, old_, new_), ks) == Delta(ms, ks)
      + Moves(|UnderRoot(Obj(ms), old_)|, Weight(new_) - Weight(old_))
      - Moves(|UnderRoot(Obj(First(ms, ks)), old_)|, Weight(new_) - Weight(old_))
  {
    FirstRegrown(ms, ks, old_, new_);
    ObjectMoves(ms, old_, new_);
    ObjectMoves(First(ms, ks), old_, new_);
  }

  /** The slope prediction: for every product object, the delta moves by the predicted slope times
      the change of the root's weight. */
  lemma SlopeTheorem(ms: seq<Member>, ks: Keys, old_: string, new_: string)
    ensures Delta(RegrowMembers(ms, old_, new_), ks)
      == Delta(ms, ks) + Slope(ms, ks, old_) * (Weight(new_) - Weight(old_))
  {
    var after, before, w := Delta(RegrowMembers(ms, old_, new_), ks), Delta(ms, ks), Weight(new_) - Weight(old_);
    var a, b := |UnderRoot(Obj(ms), old_)|, |UnderRoot(Obj(First(ms, ks)), old_)|;
    assert after == before + Moves(a, w) - Moves(b, w) by { DeltaMoves(ms, ks, old_, new_); }
    MovesDifference(a, b, w);
  }

  lemma MovesDifference(a: nat, b: nat, w: int)
    ensures Moves(a, w) - Moves(b, w) == (a - b) * w
  {
    MovesProduct(a, w);
    MovesProduct(b, w);
    assert (a - b) * w == a * w - b * w;
  }

  /** Characters a dump writes as themselves in one byte. */
  predicate PlainText(s: string) {
    forall i | 0 <= i < |s| :: EscapeChar(s[i]) == [s[i]] && s[i] as int < 0x80
  }

  lemma {:induction false} WeightOfPlain(s: string)
    ensures Weight(s) >= |s|
    ensures Weight(s) == |s| <==> PlainText(s)
  {
    if s != [] {
      var c := s[0];
      WeightOfPlain(s[1..]);
      Additive(EscapeChar(c), Escape(s[1..]));
      CharWeight(c);
      assert PlainText(s) <==> (EscapeChar(c) == [c] && c as int < 0x80) && PlainText(s[1..]) by {
        assert forall i | 1 <= i < |s| :: s[i] == s[1..][i - 1];
      }
    }
  }

  lemma CharWeight(c: char)
    ensures Size(EscapeChar(c)) >= 1
    ensures Size(EscapeChar(c)) == 1 <==> EscapeChar(c) == [c] && c as int < 0x80
  {
    if EscapeChar(c) == [c] { OneChar(c); }
  }

  /** `synthetic_root`. */
  function SyntheticRoot(n: nat): (r: string)
    requires n >= 1
    ensures |r| == n && PlainText(r)
  {
    "/" + seq(n - 1, _ => 'r')
  }

  /** What the check compares at one length. */
  predicate LengthAgrees(ms: seq<Member>, ks: Keys, root: string, n: nat)
    requires n >= 1
  {
    Delta(RegrowMembers(ms, root, SyntheticRoot(n)), ks) == Delta(ms, ks) + Slope(ms, ks, root) * (n - |root|)
  }

  /** Lengths are counted in characters but dumps in bytes: the check's prediction holds, at any
      length, exactly when the slope is 0 or the recorded root is plain ASCII without escapes. */
  lemma PredictionExact(ms: seq<Member>, ks: Keys, root: string, n: nat)
    requires n >= 1
    ensures LengthAgrees(ms, ks, root, n) <==> Slope(ms, ks, root) == 0 || PlainText(root)
  {
    SlopeTheorem(ms, ks, root, SyntheticRoot(n));
    WeightOfPlain(SyntheticRoot(n));
    WeightOfPlain(root);
    SameProduct(Slope(ms, ks, root), n - Weight(root), n - |root|);
  }

  lemma SameProduct(e: int, x: int, y: int)
    ensures e * x == e * y <==> e == 0 || x == y
  {
    assert e * x - e * y == e * (x - y);
    assert e * (x - y) == 0 <==> e == 0 || x - y == 0;
  }

  /** The slope loop of `measure`. */
  method MeasureSlope(ms: seq<Member>, ks: Keys, root: string, lengths: seq<nat>) returns (ok: bool)
    requires forall i | 0 <= i < |lengths| :: lengths[i] >= 1
    ensures ok <==> lengths == [] || Slope(ms, ks, root) == 0 || PlainText(root)
  {
    ok := true;
    var delta, expected := Delta(ms, ks), Slope(ms, ks, root);
    for i := 0 to |lengths|
      invariant ok <==> i == 0 || Slope(ms, ks, root) == 0 || PlainText(root)
    {
      var n := lengths[i];
      PredictionExact(ms, ks, root, n);
      var got := Delta(RegrowMembers(ms, root, SyntheticRoot(n)), ks);
      var want := delta + expected * (n - |root|);
      ok := ok && got == want;
    }
  }

  // ---------------------------------------------------------------- the nesting closure

  lemma {:induction false} WithoutFourPiece(ms: seq<Member>, ks: Keys)
    requires Distinct(ms) && ks.frozen != ks.fourPiece
    ensures Shares(ms) - Shares(First(ms, ks))
      == (if Has(ms, ks.fourPiece) then Share(Member(ks.fourPiece, Get(ms, ks.fourPiece))) else 0)
       + (if Has(ms, ks.frozen) then Bytes(Get(ms, ks.frozen), 1) - 2 else 0)
  {
    if ms != [] {
      WithoutFourPiece(ms[1..], ks);
      HasTail(ms, ks.fourPiece);
      HasTail(ms, ks.frozen);
      assert First(ms, ks) != [] && ms[0].key != ks.fourPiece ==> First(ms, ks)[1..] == First(ms[1..], ks);
    }
  }

  lemma HasTail(ms: seq<Member>, key: string)
    requires ms != [] && Distinct(ms)
    ensures Has(ms, key) <==> ms[0].key == key || Has(ms[1..], key)
    ensures ms[0].key == key ==> !Has(ms[1..], key)
  {
    assert forall i | 1 <= i < |ms| :: ms[i] == ms[1..][i - 1];
  }

  /** The nine terms of the closure: each standalone dump, its nesting, its key text and its two
      closing bytes, minus the placeholder line of the first dump. */
  function ClosureTerms(ks: Keys, frozen: Value, fourPiece: Value): int {
    var vf, vp := Ser(frozen, 0), Ser(fourPiece, 0);
    var lf, lp := Newlines(vf) + 1, Newlines(vp) + 1;
    var kf, kp := |ks.frozen| + 4, |ks.fourPiece| + 4;
    Size(vf) + (lf - 1) + kf + 2 + Size(vp) + (lp - 1) + kp + 2 - (kf + 3)
  }

  /** A value nested one level deep, from its standalone dump. */
  lemma NestedSize(v: Value)
    ensures Bytes(v, 1) == Size(Ser(v, 0)) + Newlines(Ser(v, 0))
  {
    NestingAddsBreaks(v, 0);
    DumpSize(v, 0);
  }

  lemma DeltaIsShares(ms: seq<Member>, ks: Keys)
    requires ks.Valid() && Distinct(ms) && Has(ms, ks.frozen) && Has(ms, ks.fourPiece)
    ensures Delta(ms, ks) == |ks.fourPiece| + 7 + Bytes(Get(ms, ks.fourPiece), 1) + Bytes(Get(ms, ks.frozen), 1) - 2
  {
    ObjectShare(ms);
    ObjectShare(First(ms, ks));
    WithoutFourPiece(ms, ks);
    WeightOfPlain(ks.fourPiece);
  }

  /** The nesting closure: for every product with both keys, the nine terms sum to the delta. */
  lemma ClosureTheorem(ms: seq<Member>, ks: Keys)
    requires ks.Valid() && Distinct(ms) && Has(ms, ks.frozen) && Has(ms, ks.fourPiece)
    ensures ClosureTerms(ks, Get(ms, ks.frozen), Get(ms, ks.fourPiece)) == Delta(ms, ks)
  {
    DeltaIsShares(ms, ks);
    NestedSize(Get(ms, ks.frozen));
    NestedSize(Get(ms, ks.fourPiece));
  }

  /** The key names of the product satisfy the theorem's condition, and its key texts and
      placeholder are the literals the check measures. */
  lemma ProductKeys()
    ensures PRODUCT.Valid()
    ensures |PRODUCT.frozen| + 4 == |"\"frozen\": "| && |PRODUCT.fourPiece| + 4 == |"\"four_piece\": "|
    ensures |PRODUCT.frozen| + 7 == |"\"frozen\": {}\n"|
  {
    LettersArePlain(PRODUCT.frozen);
    LettersArePlain(PRODUCT.fourPiece);
  }

  lemma LettersArePlain(s: string)
    requires forall i | 0 <= i < |s| :: 'a' <= s[i] <= 'z' || s[i] == '_'
    ensures PlainText(s)
  {
  }
}
