/** Query parameters: the slice behind `key=`, percent-decoded in place with two indices
    (section 2.1 of RFC 3986, with `+` for a space). */
module QueryParam {
  import opened Numerals
  import opened Seqs
  import opened Text

  /** A percent sign with two hexadecimal characters behind it. */
  predicate Triplet(s: string, i: nat) {
    i + 2 < |s| && s[i] == '%' && HexValue(s[i + 1]) >= 0 && HexValue(s[i + 2]) >= 0
  }

  /** The character decoded at `i` and the number of characters it takes. */
  function Head(s: string, i: nat): char
    requires i < |s|
  {
    if s[i] == '+' then ' '
    else if Triplet(s, i) then (HexValue(s[i + 1]) * 16 + HexValue(s[i + 2])) as char
    else s[i]
  }

  function Width(s: string, i: nat): (n: nat)
    requires i < |s|
    ensures 1 <= n <= |s| - i
  {
    if Triplet(s, i) then 3 else 1
  }

  function DecodeFrom(s: string, i: nat): string
    requires i <= |s|
    decreases |s| - i
  {
    if i == |s| then [] else [Head(s, i)] + DecodeFrom(s, i + Width(s, i))
  }

  function Decode(s: string): string {
    DecodeFrom(s, 0)
  }

  lemma DecodeStep(s: string, i: nat, done: string)
    requires i < |s| && done + DecodeFrom(s, i) == Decode(s)
    ensures (done + [Head(s, i)]) + DecodeFrom(s, i + Width(s, i)) == Decode(s)
  {
    Assoc(done, [Head(s, i)], DecodeFrom(s, i + Width(s, i)));
  }

  predicate Delimiter(c: char) {
    c == '&' || c == ' ' || c == '\r' || c == '\n'
  }

  function UntilDelimiter(s: string): (k: nat)
    ensures k <= |s| && (k < |s| ==> Delimiter(s[k]))
    ensures forall i | 0 <= i < k :: !Delimiter(s[i])
  {
    if s == [] || Delimiter(s[0]) then 0 else UntilDelimiter(s[1..]) + 1
  }

  /** The value that begins at `start`: up to a delimiter, cut to the buffer. */
  function ValueAt(req: string, start: nat, cap: nat): (r: string)
    requires start <= |req| && cap >= 1
    ensures |r| < cap && |r| <= |req| - start
  {
    var n := UntilDelimiter(req[start..]);
    req[start..start + if n > cap - 1 then cap - 1 else n]
  }

  /** The raw bytes the parameter's buffer receives. */
  function RawValue(req: string, key: string, cap: nat): (r: string)
    requires cap >= 1
    ensures |r| < cap
  {
    var p := Search(req, key + "=");
    if p > |req| then [] else ValueAt(req, p + |key| + 1, cap)
  }

  /** The decoding loop of `qparam`: output and input share the buffer. */
  method DecodeInPlace(out: array<char>, ghost src: string) returns (w: nat)
    requires |src| < out.Length && out[|src|] == '\0' && '\0' !in src
    requires forall k | 0 <= k < |src| :: out[k] == src[k]
    modifies out
    ensures w <= |src| && out[..w] == Decode(src) && out[w] == '\0'
    ensures forall k | |src| < k < out.Length :: out[k] == old(out[k])
  {
    w := 0;
    var r := 0;
    ghost var done := [];
    Unit(Decode(src));
    while out[r] != '\0'
      invariant w <= r <= |src| && out[|src|] == '\0'
      invariant forall k | r <= k < |src| :: out[k] == src[k]
      invariant forall k | |src| < k < out.Length :: out[k] == old(out[k])
      invariant |done| == w && forall k | 0 <= k < w :: out[k] == done[k]
      invariant done + DecodeFrom(src, r) == Decode(src)
      decreases |src| - r
    {
      var c, skip := DecodeOne(out, r, src, done);
      out[w] := c;
      done := done + [c];
      w := w + 1;
      r := r + skip + 1;
    }
    Unit(done);
    assert out[..w] == done;
    out[w] := '\0';
  }

  /** The branches of the loop body. */
  method DecodeOne(out: array<char>, r: nat, ghost src: string, ghost done: string) returns (c: char, skip: nat)
    requires r < |src| < out.Length && '\0' !in src && out[|src|] == '\0'
    requires forall k | r <= k < |src| :: out[k] == src[k]
    requires done + DecodeFrom(src, r) == Decode(src)
    ensures r + skip < |src| && (done + [c]) + DecodeFrom(src, r + skip + 1) == Decode(src)
  {
    DecodeStep(src, r, done);
    c, skip := out[r], 0;
    if out[r] == '+' {
      c := ' ';
    } else if out[r] == '%' && out[r + 1] != '\0' && out[r + 2] != '\0' {
      var hi, lo := HexValue(out[r + 1]), HexValue(out[r + 2]);
      if hi >= 0 && lo >= 0 { c := (hi * 16 + lo) as char; skip := 2; }
    }
    StepIs(src, r, out[..], c, skip);
  }

  /** The test with two non-NUL characters ahead is the test for a triplet. */
  lemma StepIs(src: string, r: nat, buf: string, c: char, skip: nat)
    requires r < |src| < |buf| && '\0' !in src && buf[|src|] == '\0' && forall k | r <= k < |src| :: buf[k] == src[k]
    requires
      if buf[r] == '+' then c == ' ' && skip == 0
      else if buf[r] == '%' && buf[r + 1] != '\0' && buf[r + 2] != '\0' && HexValue(buf[r + 1]) >= 0
        && HexValue(buf[r + 2]) >= 0
      then c == (HexValue(buf[r + 1]) * 16 + HexValue(buf[r + 2])) as char && skip == 2
      else c == buf[r] && skip == 0
    ensures c == Head(src, r) && skip + 1 == Width(src, r)
  {
    assert forall k | 0 <= k < |src| :: src[k] in src;
  }

  method ScanValue(req: string, start: nat) returns (e: nat)
    requires start <= |req|
    ensures start <= e <= |req| && e - start == UntilDelimiter(req[start..])
  {
    e := start;
    while e < |req| && !Delimiter(req[e])
      invariant start <= e <= |req|
      invariant UntilDelimiter(req[start..]) == (e - start) + UntilDelimiter(req[e..])
    {
      assert req[e..][1..] == req[e + 1..];
      e := e + 1;
    }
  }

  method CopyIn(req: string, start: nat, n: nat, out: array<char>)
    requires start + n <= |req| && n <= out.Length
    modifies out
    ensures forall k | 0 <= k < n :: out[k] == req[start + k]
    ensures forall k | n <= k < out.Length :: out[k] == old(out[k])
  {
    var i := 0;
    while i < n
      invariant 0 <= i <= n
      invariant forall k | 0 <= k < i :: out[k] == req[start + k]
      invariant forall k | n <= k < out.Length :: out[k] == old(out[k])
    {
      out[i] := req[start + i];
      i := i + 1;
    }
  }

  lemma SliceFacts(req: string, start: nat, n: nat, src: string, c: char)
    requires start + n <= |req| && src == req[start..start + n] && c !in req
    ensures |src| == n && c !in src && forall k | 0 <= k < n :: src[k] == req[start + k]
  {
    assert forall k | 0 <= k < n :: src[k] == req[start + k] && req[start + k] in req;
  }

  lemma ValueFacts(req: string, start: nat, cap: nat)
    requires start <= |req| && cap >= 1 && '\0' !in req
    ensures var src := ValueAt(req, start, cap);
      '\0' !in src && forall k | 0 <= k < |src| :: src[k] == req[start + k]
  {
    var src := ValueAt(req, start, cap);
    SliceFacts(req, start, |src|, src, '\0');
  }

  /** The slice is copied and terminated. */
  method LoadValue(req: string, start: nat, out: array<char>, cap: nat)
    requires start <= |req| && 1 <= cap <= out.Length && '\0' !in req
    modifies out
    ensures var src := ValueAt(req, start, cap);
      && '\0' !in src && out[|src|] == '\0' && forall k | 0 <= k < |src| :: out[k] == src[k]
    ensures forall k | cap <= k < out.Length :: out[k] == old(out[k])
  {
    var e := ScanValue(req, start);
    var n := e - start;
    if n > cap - 1 { n := cap - 1; }
    ValueFacts(req, start, cap);
    assert n == |ValueAt(req, start, cap)|;
    CopyIn(req, start, n, out);
    out[n] := '\0';
  }

  /** The first half of `qparam`: the raw slice behind the key, cut to the buffer. */
  method LoadRaw(req: string, key: string, out: array<char>, cap: nat)
    requires 1 <= cap <= out.Length && '\0' !in req
    modifies out
    ensures var src := RawValue(req, key, cap);
      && '\0' !in src && out[|src|] == '\0' && forall k | 0 <= k < |src| :: out[k] == src[k]
    ensures forall k | cap <= k < out.Length :: out[k] == old(out[k])
  {
    out[0] := '\0';
    var p := Search(req, key + "=");
    if p <= |req| { LoadValue(req, p + |key| + 1, out, cap); }
  }

  /** `qparam`. */
  method QParam(req: string, key: string, out: array<char>, cap: nat) returns (w: nat)
    requires 1 <= cap <= out.Length && '\0' !in req
    modifies out
    ensures w < cap && out[..w] == Decode(RawValue(req, key, cap)) && out[w] == '\0'
    ensures forall k | cap <= k < out.Length :: out[k] == old(out[k])
  {
    LoadRaw(req, key, out, cap);
    w := DecodeInPlace(out, RawValue(req, key, cap));
  }

  // ---------------------------------------------------------------- what each character decodes to

  /** Decoding at an index is decoding what stands there. */
  lemma {:induction false} DecodeShift(pre: string, s: string, i: nat)
    requires i <= |s|
    ensures DecodeFrom(pre + s, |pre| + i) == DecodeFrom(s, i)
    decreases |s| - i
  {
    if i < |s| {
      var all := pre + s;
      assert forall k | 0 <= k < |s| :: all[|pre| + k] == s[k];
      assert Head(all, |pre| + i) == Head(s, i) && Width(all, |pre| + i) == Width(s, i);
      DecodeShift(pre, s, i + Width(s, i));
    }
  }

  lemma DecodeFirst(front: string, rest: string)
    requires front != [] && Width(front + rest, 0) == |front|
    ensures Decode(front + rest) == [Head(front + rest, 0)] + Decode(rest)
  {
    DecodeShift(front, rest, 0);
  }

  /** A plus is a space; a percent sign and two hexadecimal digits, in either case, are the character
      with that value; everything else, also an unfinished triplet, stands for itself. */
  lemma DecodeRules(c: char, v: nat, w: nat, rest: string)
    requires v < 16 && w < 16
    ensures Decode("+" + rest) == " " + Decode(rest)
    ensures c != '+' && c != '%' ==> Decode([c] + rest) == [c] + Decode(rest)
    ensures forall h, l | h in ["0123456789abcdef"[v], "0123456789ABCDEF"[v]]
        && l in ["0123456789abcdef"[w], "0123456789ABCDEF"[w]] ::
      Decode(['%', h, l] + rest) == [(16 * v + w) as char] + Decode(rest)
    ensures |rest| < 2 || HexValue(rest[0]) == -1 || HexValue(rest[1]) == -1
      ==> Decode("%" + rest) == "%" + Decode(rest)
  {
    DecodeFirst("+", rest);
    if c != '+' && c != '%' { DecodeFirst([c], rest); }
    forall h, l | h in ["0123456789abcdef"[v], "0123456789ABCDEF"[v]]
        && l in ["0123456789abcdef"[w], "0123456789ABCDEF"[w]]
      ensures Decode(['%', h, l] + rest) == [(16 * v + w) as char] + Decode(rest)
    {
      HexExact(h);
      TripletDecodes(h, l, v, w, rest);
    }
    if |rest| < 2 || HexValue(rest[0]) == -1 || HexValue(rest[1]) == -1 {
      PercentStays(rest);
    }
  }

  lemma TripletDecodes(h: char, l: char, v: nat, w: nat, rest: string)
    requires v < 16 && w < 16 && HexValue(h) == v && HexValue(l) == w
    ensures Decode(['%', h, l] + rest) == [(16 * v + w) as char] + Decode(rest)
  {
    var s := ['%', h, l] + rest;
    assert s[0] == '%' && s[1] == h && s[2] == l && Triplet(s, 0);
    DecodeFirst(['%', h, l], rest);
  }

  lemma PercentStays(rest: string)
    requires |rest| < 2 || HexValue(rest[0]) == -1 || HexValue(rest[1]) == -1
    ensures Decode("%" + rest) == "%" + Decode(rest)
  {
    var s := "%" + rest;
    assert |rest| >= 2 ==> s[1] == rest[0] && s[2] == rest[1];
    assert !Triplet(s, 0);
    DecodeFirst("%", rest);
  }

  // ---------------------------------------------------------------- the inverse

  /** What `encodeURIComponent` leaves as it is: letters, digits and nine marks. */
  predicate Unescaped(c: char) {
    || 'a' <= c <= 'z' || 'A' <= c <= 'Z' || '0' <= c <= '9' || c == '-' || c == '_' || c == '.' || c == '~'
    || c == '!' || c == '*' || c == '\'' || c == '(' || c == ')'
  }

  function HexDigit(n: nat): (c: char)
    requires n < 16
    ensures HexValue(c) == n && !Delimiter(c)
  {
    if n < 10 then '0' + n as char else 'A' + (n - 10) as char
  }

  predicate Octets(s: string) {
    forall i | 0 <= i < |s| :: s[i] < 256 as char
  }

  function EncodeChar(c: char): (r: string)
    requires c < 256 as char
    ensures 1 <= |r| <= 3 && forall i | 0 <= i < |r| :: !Delimiter(r[i])
  {
    if Unescaped(c) then [c] else ['%', HexDigit(c as nat / 16), HexDigit(c as nat % 16)]
  }

  /** What `encodeURIComponent` sends, byte by byte. */
  function Encode(s: string): (r: string)
    requires Octets(s)
    ensures forall i | 0 <= i < |r| :: !Delimiter(r[i])
  {
    if s == [] then [] else EncodeChar(s[0]) + Encode(s[1..])
  }

  lemma OneEncoded(s: string, i: nat, c: char)
    requires c < 256 as char && i + |EncodeChar(c)| <= |s|
    requires forall k | 0 <= k < |EncodeChar(c)| :: s[i + k] == EncodeChar(c)[k]
    ensures Head(s, i) == c && Width(s, i) == |EncodeChar(c)|
  {
    assert s[i] == EncodeChar(c)[0];
    if !Unescaped(c) {
      assert s[i + 1] == EncodeChar(c)[1] && s[i + 2] == EncodeChar(c)[2];
      HexPair(c);
    }
  }

  lemma {:induction false} DecodeEncodeFrom(pre: string, s: string)
    requires Octets(s)
    ensures DecodeFrom(pre + Encode(s), |pre|) == s
    decreases |s|
  {
    if s != [] {
      var c, all := s[0], pre + Encode(s);
      Assoc(pre, EncodeChar(c), Encode(s[1..]));
      DecodeEncodeFrom(pre + EncodeChar(c), s[1..]);
      OneEncoded(all, |pre|, c);
      assert [c] + s[1..] == s;
    }
  }

  lemma HexPair(c: char)
    requires c < 256 as char
    ensures (c as nat / 16) * 16 + c as nat % 16 == c as nat
  {
  }

  /** Encode, then decode, is the identity on octets. */
  lemma DecodeEncode(s: string)
    requires Octets(s)
    ensures Decode(Encode(s)) == s
  {
    DecodeEncodeFrom([], s);
    Unit(Encode(s));
  }

  lemma {:induction false} DelimiterAt(s: string, k: nat)
    requires k <= |s| && (k < |s| ==> Delimiter(s[k])) && forall i | 0 <= i < k :: !Delimiter(s[i])
    ensures UntilDelimiter(s) == k
  {
  }

  /** A value that was percent-encoded into a query comes back unchanged if its encoding fits and
      no earlier part of the request looks like the key. */
  lemma QueryRoundTrip(req: string, pre: string, key: string, value: string, post: string, cap: nat)
    requires Octets(value) && |Encode(value)| < cap
    requires post == [] || post[0] == '&' || post[0] == ' ' || post[0] == '\r' || post[0] == '\n'
    requires req == pre + (key + "=") + (Encode(value) + post) && Search(req, key + "=") == |pre|
    ensures Decode(RawValue(req, key, cap)) == value
    ensures '\0' !in value ==> CString(Decode(RawValue(req, key, cap))) == value
  {
    var front := pre + (key + "=");
    assert RawValue(req, key, cap) == ValueAt(req, |front|, cap);
    ValueIsEncoded(req, front, value, post, cap);
    DecodeEncode(value);
    NoNul(value);
  }

  lemma NoNul(value: string)
    ensures '\0' !in value ==> CString(value) == value
  {
    if '\0' !in value {
      assert value[..|value|] == value;
      FindIs(value, '\0', |value|);
    }
  }

  lemma ValueIsEncoded(req: string, front: string, value: string, post: string, cap: nat)
    requires Octets(value) && |Encode(value)| < cap && (post == [] || Delimiter(post[0]))
    requires req == front + (Encode(value) + post)
    ensures ValueAt(req, |front|, cap) == Encode(value)
  {
    var e := Encode(value);
    Parts(front, e + post);
    DelimiterAt(e + post, |e|);
    assert req[|front|..|front| + |e|] == e;
  }
}
