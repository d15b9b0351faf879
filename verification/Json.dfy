/** JSON values, a compact printer and a strict reader (sections 2 to 7 of RFC 8259).  The reader
    covers the compact form: no insignificant whitespace, no fractions or exponents. */
module Json {
  import opened Numerals
  import opened Seqs

  datatype Json =
    | Null
    | Bool(b: bool)
    | Num(n: int)
    | Str(s: string)
    | Arr(items: seq<Json>)
    | Obj(members: seq<Member>)

  datatype Member = Member(key: string, value: Json)

  // ---------------------------------------------------------------- printing

  /** What `json_esc` does to one character: only quotes and backslashes are escaped. */
  function EscapeChar(c: char): (r: string)
    ensures 1 <= |r| <= 2
  {
    if c == '"' || c == '\\' then ['\\', c] else [c]
  }

  function Escape(s: string): (r: string)
    ensures |s| <= |r| <= 2 * |s|
  {
    if s == [] then [] else EscapeChar(s[0]) + Escape(s[1..])
  }

  lemma {:induction false} EscapeSnoc(s: string, c: char)
    ensures Escape(s + [c]) == Escape(s) + EscapeChar(c)
  {
    if s == [] {
      assert s + [c] == [c] && [c][1..] == [];
    } else {
      assert (s + [c])[1..] == s[1..] + [c];
      EscapeSnoc(s[1..], c);
    }
  }

  function WriteNum(n: int): string {
    if n < 0 then "-" + Decimal(-n) else Decimal(n)
  }

  function Write(v: Json): string
    decreases v, 1
  {
    match v
    case Null => "null"
    case Bool(b) => if b then "true" else "false"
    case Num(n) => WriteNum(n)
    case Str(s) => "\"" + (Escape(s) + "\"")
    case Arr(items) => "[" + (WriteItems(items) + "]")
    case Obj(members) => "{" + (WriteMembers(members) + "}")
  }

  function WriteItems(vs: seq<Json>): string
    decreases vs, 0
  {
    if vs == [] then "" else if |vs| == 1 then Write(vs[0]) else Write(vs[0]) + ("," + WriteItems(vs[1..]))
  }

  function WriteMember(m: Member): string
    decreases m, 2
  {
    "\"" + (Escape(m.key) + ("\"" + (":" + Write(m.value))))
  }

  function WriteMembers(ms: seq<Member>): string
    decreases ms, 0
  {
    if ms == [] then "" else if |ms| == 1 then WriteMember(ms[0])
      else WriteMember(ms[0]) + ("," + WriteMembers(ms[1..]))
  }

  // ---------------------------------------------------------------- reading

  datatype Read<T> = Fail | Ok(value: T, rest: string)

  /** The character after a backslash, or -1. */
  function Unescape(c: char): (v: int)
    ensures -1 <= v < 128
  {
    if c == '"' || c == '\\' || c == '/' then c as int
    else if c == 'b' then 8
    else if c == 'f' then 12
    else if c == 'n' then 10
    else if c == 'r' then 13
    else if c == 't' then 9
    else -1
  }

  /** The rest of a string literal, behind its opening quote. */
  function ReadString(s: string): (r: Read<string>)
    ensures r.Ok? ==> |r.rest| < |s|
    decreases |s|
  {
    if s == [] || s[0] < ' ' then Fail
    else if s[0] == '"' then Ok([], s[1..])
    else if s[0] != '\\' then
      var r := ReadString(s[1..]);
      if r.Fail? then Fail else Ok([s[0]] + r.value, r.rest)
    else if |s| < 2 then Fail
    else if s[1] == 'u' then
      if |s| < 6 || exists i | 2 <= i < 6 :: HexValue(s[i]) < 0 then Fail
      else
        var code := ((HexValue(s[2]) * 16 + HexValue(s[3])) * 16 + HexValue(s[4])) * 16 + HexValue(s[5]);
        var r := ReadString(s[6..]);
        if r.Fail? || 0xD800 <= code < 0xE000 then Fail else Ok([code as char] + r.value, r.rest)
    else
      var r := ReadString(s[2..]);
      if r.Fail? || Unescape(s[1]) < 0 then Fail else Ok([Unescape(s[1]) as char] + r.value, r.rest)
  }

  /** The digits at the front, with the number of them. */
  function ReadDigits(s: string, acc: nat): (r: Read<nat>)
    ensures r.Ok? && |r.rest| <= |s|
  {
    if s == [] || !('0' <= s[0] <= '9') then Ok(acc, s)
    else ReadDigits(s[1..], acc * 10 + (s[0] - '0') as nat)
  }

  function ReadNat(s: string): (r: Read<nat>)
    ensures r.Ok? ==> |r.rest| < |s|
  {
    if s == [] || !('0' <= s[0] <= '9') then Fail
    else
      var r := if s[0] == '0' then Ok(0, s[1..]) else ReadDigits(s[1..], (s[0] - '0') as nat);
      if r.rest != [] && (r.rest[0] == '.' || r.rest[0] == 'e' || r.rest[0] == 'E') then Fail else r
  }

  function ReadValue(s: string): (r: Read<Json>)
    ensures r.Ok? ==> |r.rest| < |s|
    decreases |s|, 1
  {
    if s == [] then Fail
    else if s[0] == 'n' then if "null" <= s then Ok(Null, s[4..]) else Fail
    else if s[0] == 't' then if "true" <= s then Ok(Bool(true), s[4..]) else Fail
    else if s[0] == 'f' then if "false" <= s then Ok(Bool(false), s[5..]) else Fail
    else if s[0] == '"' then
      var r := ReadString(s[1..]);
      if r.Fail? then Fail else Ok(Str(r.value), r.rest)
    else if s[0] == '[' then
      if |s| > 1 && s[1] == ']' then Ok(Arr([]), s[2..])
      else
        var r := ReadItems(s[1..]);
        if r.Fail? then Fail else Ok(Arr(r.value), r.rest)
    else if s[0] == '{' then
      if |s| > 1 && s[1] == '}' then Ok(Obj([]), s[2..])
      else
        var r := ReadMembers(s[1..]);
        if r.Fail? then Fail else Ok(Obj(r.value), r.rest)
    else if s[0] == '-' then
      var r := ReadNat(s[1..]);
      if r.Fail? then Fail else Ok(Num(0 - (r.value as int)), r.rest)
    else
      var r := ReadNat(s);
      if r.Fail? then Fail else Ok(Num(r.value), r.rest)
  }

  /** Values up to and including the closing bracket. */
  function ReadItems(s: string): (r: Read<seq<Json>>)
    ensures r.Ok? ==> |r.rest| < |s|
    decreases |s|, 2
  {
    var v := ReadValue(s);
    if v.Fail? || v.rest == [] then Fail
    else if v.rest[0] == ']' then Ok([v.value], v.rest[1..])
    else if v.rest[0] != ',' then Fail
    else
      var r := ReadItems(v.rest[1..]);
      if r.Fail? then Fail else Ok([v.value] + r.value, r.rest)
  }

  function ReadMember(s: string): (r: Read<Member>)
    ensures r.Ok? ==> |r.rest| < |s|
    decreases |s|, 0
  {
    if s == [] || s[0] != '"' then Fail
    else
      var k := ReadString(s[1..]);
      if k.Fail? || k.rest == [] || k.rest[0] != ':' then Fail
      else
        var v := ReadValue(k.rest[1..]);
        if v.Fail? then Fail else Ok(Member(k.value, v.value), v.rest)
  }

  function ReadMembers(s: string): (r: Read<seq<Member>>)
    ensures r.Ok? ==> |r.rest| < |s|
    decreases |s|, 1
  {
    var m := ReadMember(s);
    if m.Fail? || m.rest == [] then Fail
    else if m.rest[0] == '}' then Ok([m.value], m.rest[1..])
    else if m.rest[0] != ',' then Fail
    else
      var r := ReadMembers(m.rest[1..]);
      if r.Fail? then Fail else Ok([m.value] + r.value, r.rest)
  }

  // ---------------------------------------------------------------- the round trip

  predicate ControlFree(s: string) {
    forall i | 0 <= i < |s| :: s[i] >= ' '
  }

  /** All strings in the value are free of control characters, which `json_esc` does not escape. */
  predicate Clean(v: Json) {
    match v
    case Str(s) => ControlFree(s)
    case Arr(items) => forall i | 0 <= i < |items| :: Clean(items[i])
    case Obj(ms) => forall i | 0 <= i < |ms| :: ControlFree(ms[i].key) && Clean(ms[i].value)
    case _ => true
  }

  /** A string literal reads back exactly when it has no control character. */
  lemma {:induction false} StringReads(s: string, rest: string)
    ensures ReadString(Escape(s) + ("\"" + rest)) == if ControlFree(s) then Ok(s, rest) else Fail
  {
    var t := Escape(s) + ("\"" + rest);
    if s == [] {
      assert t == "\"" + rest && t[1..] == rest;
    } else {
      var c, tail := s[0], Escape(s[1..]) + ("\"" + rest);
      assert t == EscapeChar(c) + tail;
      StringReads(s[1..], rest);
      assert ControlFree(s) <==> c >= ' ' && ControlFree(s[1..]) by {
        assert forall i | 1 <= i < |s| :: s[i] == s[1..][i - 1];
      }
      assert t[|EscapeChar(c)|..] == tail;
      assert [c] + s[1..] == s;
    }
  }

  /** What may follow a value inside a document. */
  predicate Stops(rest: string) {
    rest == [] || rest[0] == ',' || rest[0] == ']' || rest[0] == '}'
  }

  lemma {:induction false} DigitsRead(d: string, rest: string, acc: nat)
    requires Stops(rest) && Numeral(d)
    ensures ReadDigits(d + rest, acc) == Ok(Value(d, acc), rest)
  {
    if d == [] {
      assert d + rest == rest;
    } else {
      assert (d + rest)[1..] == d[1..] + rest;
      DigitsRead(d[1..], rest, acc * 10 + (d[0] - '0') as nat);
    }
  }

  lemma ZeroReads(rest: string)
    requires Stops(rest)
    ensures ReadNat(['0'] + rest) == Ok(0, rest)
  {
    Parts(['0'], rest);
  }

  lemma LeadReads(c: char, more: string, rest: string)
    requires '1' <= c <= '9' && Numeral(more) && Stops(rest)
    ensures ReadNat([c] + (more + rest)) == Ok(Value(more, (c - '0') as nat), rest)
  {
    Parts([c], more + rest);
    DigitsRead(more, rest, (c - '0') as nat);
  }

  /** A leading zero ends the numeral, any other digit starts it. */
  lemma NatOf(d: string, rest: string)
    requires d != [] && Numeral(d) && (d[0] == '0' ==> |d| == 1) && Stops(rest)
    ensures ReadNat(d + rest) == Ok(Value(d, 0), rest)
  {
    if d[0] == '0' {
      ZeroOf(d, rest);
    } else {
      NonZeroOf(d, rest);
    }
  }

  lemma NonZeroOf(d: string, rest: string)
    requires d != [] && Numeral(d) && d[0] != '0' && Stops(rest)
    ensures ReadNat(d + rest) == Ok(Value(d, 0), rest)
  {
    var c, more := LeadDigit(d);
    LeadOf(c, more, rest);
  }

  lemma LeadOf(c: char, more: string, rest: string)
    requires '1' <= c <= '9' && Numeral(more) && Stops(rest)
    ensures ReadNat([c] + more + rest) == Ok(Value(more, (c - '0') as nat), rest)
  {
    Assoc([c], more, rest);
    LeadReads(c, more, rest);
  }

  lemma ZeroOf(d: string, rest: string)
    requires |d| == 1 && d[0] == '0' && Stops(rest)
    ensures Numeral(d) && ReadNat(d + rest) == Ok(Value(d, 0), rest)
  {
    assert d == "0" && d[1..] == [];
    ZeroReads(rest);
  }

  lemma LeadDigit(d: string) returns (c: char, more: string)
    requires d != [] && Numeral(d) && d[0] != '0'
    ensures d == [c] + more && '1' <= c <= '9' && Numeral(more) && Value(d, 0) == Value(more, (c - '0') as nat)
  {
    c, more := d[0], d[1..];
  }

  lemma NatReads(n: nat, rest: string)
    requires Stops(rest)
    ensures ReadNat(Decimal(n) + rest) == Ok(n, rest)
  {
    DecimalHasValue(n);
    NatOf(Decimal(n), rest);
  }

  lemma OpenMinus(body: string)
    ensures ReadValue("-" + body) == var r := ReadNat(body); if r.Fail? then Fail
      else Ok(Num(0 - (r.value as int)), r.rest)
  {
    Parts("-", body);
  }

  lemma OpenDigit(s: string)
    requires s != [] && '0' <= s[0] <= '9'
    ensures ReadValue(s) == var r := ReadNat(s); if r.Fail? then Fail else Ok(Num(r.value), r.rest)
  {
  }

  lemma NumReads(n: int, rest: string)
    requires Stops(rest)
    ensures ReadValue(WriteNum(n) + rest) == Ok(Num(n), rest)
  {
    var d := Decimal(if n < 0 then -n else n);
    var s := d + rest;
    NatReads(if n < 0 then -n else n, rest);
    if n < 0 {
      Assoc("-", d, rest);
      OpenMinus(s);
    } else {
      assert s[0] == d[0];
      OpenDigit(s);
    }
  }

  lemma {:induction false} WriteFirst(v: Json)
    ensures Write(v) != [] && Write(v)[0] != ']' && Write(v)[0] != '}'
  {
  }

  // How the reader moves over one opening or separating character.

  lemma OpenString(body: string)
    ensures ReadValue("\"" + body) == var r := ReadString(body); if r.Fail? then Fail else Ok(Str(r.value), r.rest)
  {
    assert ("\"" + body)[1..] == body;
  }

  lemma OpenArray(body: string)
    requires body != [] && body[0] != ']'
    ensures ReadValue("[" + body) == var r := ReadItems(body); if r.Fail? then Fail else Ok(Arr(r.value), r.rest)
  {
    assert ("[" + body)[1..] == body;
  }

  lemma OpenObject(body: string)
    requires body != [] && body[0] != '}'
    ensures ReadValue("{" + body) == var r := ReadMembers(body); if r.Fail? then Fail else Ok(Obj(r.value), r.rest)
  {
    assert ("{" + body)[1..] == body;
  }

  lemma AfterItem(s: string, more: string)
    requires ReadValue(s).Ok? && ReadValue(s).rest == "," + more
    ensures ReadItems(s) == var r := ReadItems(more); if r.Fail? then Fail
      else Ok([ReadValue(s).value] + r.value, r.rest)
  {
    assert ("," + more)[1..] == more;
  }

  lemma AfterKey(body: string, tail: string)
    requires ReadString(body).Ok? && ReadString(body).rest == ":" + tail
    ensures ReadMember("\"" + body) ==
      var v := ReadValue(tail); if v.Fail? then Fail else Ok(Member(ReadString(body).value, v.value), v.rest)
  {
    assert ("\"" + body)[1..] == body && (":" + tail)[1..] == tail;
  }

  lemma AfterMember(s: string, more: string)
    requires ReadMember(s).Ok? && ReadMember(s).rest == "," + more
    ensures ReadMembers(s) == var r := ReadMembers(more); if r.Fail? then Fail
      else Ok([ReadMember(s).value] + r.value, r.rest)
  {
    assert ("," + more)[1..] == more;
  }

  /** The three literal names. */
  lemma WordReads(word: string, rest: string)
    requires word == "null" || word == "true" || word == "false"
    ensures ReadValue(word + rest) == Ok(if word == "null" then Null else Bool(word == "true"), rest)
  {
    var s := word + rest;
    Parts(word, rest);
    assert s[..|word|] == word && s[0] == word[0];
  }

  lemma TextReads(s: string, rest: string)
    ensures ReadValue(Write(Str(s)) + rest) == if ControlFree(s) then Ok(Str(s), rest) else Fail
  {
    var body := Escape(s) + ("\"" + rest);
    assert Write(Str(s)) + rest == "\"" + body;
    OpenString(body);
    StringReads(s, rest);
  }

  /** The reader undoes the printer exactly on clean values, whatever stop follows. */
  lemma {:induction false} ValueReads(v: Json, rest: string)
    requires Stops(rest)
    ensures ReadValue(Write(v) + rest) == if Clean(v) then Ok(v, rest) else Fail
    decreases v, 1
  {
    match v
    case Null => WordReads("null", rest);
    case Bool(b) => WordReads(if b then "true" else "false", rest);
    case Num(n) => NumReads(n, rest);
    case Str(s) => TextReads(s, rest);
    case Arr(items) => ArrayReads(items, rest);
    case Obj(ms) => ObjectReads(ms, rest);
  }

  lemma {:induction false} ArrayReads(vs: seq<Json>, rest: string)
    ensures ReadValue(Write(Arr(vs)) + rest) == if Clean(Arr(vs)) then Ok(Arr(vs), rest) else Fail
    decreases vs, 2
  {
    if vs == [] {
      assert Write(Arr(vs)) + rest == "[]" + rest;
      assert ("[]" + rest)[2..] == rest;
    } else {
      var body := WriteItems(vs) + ("]" + rest);
      assert Write(Arr(vs)) + rest == "[" + body;
      WriteFirst(vs[0]);
      assert body[0] == Write(vs[0])[0];
      OpenArray(body);
      ItemsRead(vs, rest);
    }
  }

  lemma CleanItems(vs: seq<Json>)
    requires vs != []
    ensures Clean(Arr(vs)) <==> Clean(vs[0]) && Clean(Arr(vs[1..]))
  {
    assert forall i | 1 <= i < |vs| :: vs[i] == vs[1..][i - 1];
  }

  lemma LaterItems(vs: seq<Json>, tail: string)
    requires |vs| > 1
    ensures WriteItems(vs) + tail == Write(vs[0]) + ("," + (WriteItems(vs[1..]) + tail))
  {
  }

  lemma {:induction false} ItemsRead(vs: seq<Json>, rest: string)
    requires vs != []
    ensures ReadItems(WriteItems(vs) + ("]" + rest)) == if Clean(Arr(vs)) then Ok(vs, rest) else Fail
    decreases vs, 1
  {
    var t := WriteItems(vs) + ("]" + rest);
    CleanItems(vs);
    assert vs == [vs[0]] + vs[1..];
    if |vs| == 1 {
      ValueReads(vs[0], "]" + rest);
      assert vs == [vs[0]] && vs[1..] == [] && ("]" + rest)[1..] == rest;
    } else {
      var more := WriteItems(vs[1..]) + ("]" + rest);
      LaterItems(vs, "]" + rest);
      ValueReads(vs[0], "," + more);
      ItemsRead(vs[1..], rest);
      if Clean(vs[0]) { AfterItem(t, more); }
    }
  }

  lemma {:induction false} ObjectReads(ms: seq<Member>, rest: string)
    ensures ReadValue(Write(Obj(ms)) + rest) == if Clean(Obj(ms)) then Ok(Obj(ms), rest) else Fail
    decreases ms, 2
  {
    if ms == [] {
      assert Write(Obj(ms)) + rest == "{}" + rest;
      assert ("{}" + rest)[2..] == rest;
    } else {
      var body := WriteMembers(ms) + ("}" + rest);
      assert Write(Obj(ms)) + rest == "{" + body;
      assert body[0] == WriteMember(ms[0])[0] == '"';
      OpenObject(body);
      MembersRead(ms, rest);
    }
  }

  lemma Nested(a: string, b: string, c: string, d: string, e: string, rest: string)
    ensures a + (b + (c + (d + e))) + rest == a + (b + (c + (d + (e + rest))))
  {
    Assoc(d, e, rest);
    Assoc(c, d + e, rest);
    Assoc(b, c + (d + e), rest);
    Assoc(a, b + (c + (d + e)), rest);
  }

  lemma {:induction false} MemberReads(m: Member, rest: string)
    requires Stops(rest)
    ensures ReadMember(WriteMember(m) + rest) == if ControlFree(m.key) && Clean(m.value) then Ok(m, rest) else Fail
    decreases m, 2
  {
    var tail := Write(m.value) + rest;
    var body := Escape(m.key) + ("\"" + (":" + tail));
    Nested("\"", Escape(m.key), "\"", ":", Write(m.value), rest);
    StringReads(m.key, ":" + tail);
    ValueReads(m.value, rest);
    if ControlFree(m.key) {
      AfterKey(body, tail);
    } else {
      Parts("\"", body);
    }
  }

  lemma CleanMembers(ms: seq<Member>)
    requires ms != []
    ensures Clean(Obj(ms)) <==> ControlFree(ms[0].key) && Clean(ms[0].value) && Clean(Obj(ms[1..]))
  {
    assert forall i | 1 <= i < |ms| :: ms[i] == ms[1..][i - 1];
  }

  lemma LaterMembers(ms: seq<Member>, tail: string)
    requires |ms| > 1
    ensures WriteMembers(ms) + tail == WriteMember(ms[0]) + ("," + (WriteMembers(ms[1..]) + tail))
  {
    var a, b := WriteMember(ms[0]), WriteMembers(ms[1..]);
    assert a + ("," + b) + tail == a + ("," + (b + tail));
  }

  lemma {:induction false} MembersRead(ms: seq<Member>, rest: string)
    requires ms != []
    ensures ReadMembers(WriteMembers(ms) + ("}" + rest)) == if Clean(Obj(ms)) then Ok(ms, rest) else Fail
    decreases ms, 1
  {
    CleanMembers(ms);
    if |ms| == 1 {
      MemberReads(ms[0], "}" + rest);
      assert ("}" + rest)[1..] == rest && ms == [ms[0]];
    } else {
      var more := WriteMembers(ms[1..]) + ("}" + rest);
      LaterMembers(ms, "}" + rest);
      MemberReads(ms[0], "," + more);
      MembersRead(ms[1..], rest);
      var t := WriteMember(ms[0]) + ("," + more);
      if ReadMember(t).Ok? {
        AfterMember(t, more);
        assert [ms[0]] + ms[1..] == ms;
      }
    }
  }
}
