/** The frames of section 5.2 of RFC 6455, octet by octet. */
module WireFormat {
  import opened Bytes
  import opened Frames
  import opened Seqs

  /** The `k`-th binary digit, lowest first. */
  function Bit(n: nat, k: nat): nat {
    if k == 0 then n % 2 else Bit(n / 2, k - 1)
  }

  /** Exclusive or, bit by bit. */
  lemma {:induction false} XorBits(a: nat, b: nat, k: nat)
    ensures Bit(XorNat(a, b), k) == if Bit(a, k) == Bit(b, k) then 0 else 1
    decreases k
  {
    XorHalf(a, b);
    if k > 0 { XorBits(a / 2, b / 2, k - 1); }
  }

  lemma XorHalf(a: nat, b: nat)
    ensures XorNat(a, b) / 2 == XorNat(a / 2, b / 2)
    ensures XorNat(a, b) % 2 == if a % 2 == b % 2 then 0 else 1
  {
  }

  /** Every frame, in its four forms: the length in seven bits, or 126 and two octets with the high one
      first; the mask bit, the four octets of the key, and each payload octet combined with its own. */
  lemma FrameBytes(f: Frame, body: seq<byte>)
    requires f.WellFormed() && |body| == |f.payload|
    requires forall i | 0 <= i < |body| ::
      body[i] == if f.mask == [] then f.payload[i] else Xor(f.payload[i], f.mask[i % 4])
    ensures var n := |f.payload|;
      && (f.mask == [] && !f.wide ==> Encode(f) == [f.first, n] + body)
      && (f.mask == [] && f.wide ==> Encode(f) == [f.first, 126, n / 256, n % 256] + body)
      && (f.mask != [] && !f.wide ==> Encode(f) == [f.first, 128 + n] + f.mask + body)
      && (f.mask != [] && f.wide ==> Encode(f) == [f.first, 254, n / 256, n % 256] + f.mask + body)
  {
    assert ApplyMask(f.payload, f.mask) == body;
    Unit([f.first] + LengthOctets(f));
  }

  /** What the bridge writes. */
  lemma WrittenBytes(p: seq<byte>)
    requires |p| < 65536
    ensures |p| <= 125 ==> Encode(TextFrame(p)) == [0x81, |p|] + p
    ensures |p| >= 126 ==> Encode(TextFrame(p)) == [0x81, 126, |p| / 256, |p| % 256] + p
  {
    FrameBytes(TextFrame(p), p);
  }

  /** What the bridge refuses: the 64-bit length form as soon as it shows, and a whole frame whose payload
      is longer than the buffer. */
  lemma RefusedExact(b: seq<byte>, cap: nat)
    ensures Parse(b, cap).Bad? <==>
      && |b| >= 2
      && (b[1] == 127 || b[1] == 255
        || exists f: Frame :: f.WellFormed() && f.first == b[0] && |f.payload| > cap && Encode(f) <= b)
  {
    if |b| >= 2 && b[1] != 127 && b[1] != 255 {
      if Parse(b, cap).Bad? {
        var f := FrameIn(b, cap);
      } else if exists f: Frame :: f.WellFormed() && f.first == b[0] && |f.payload| > cap && Encode(f) <= b {
        var f: Frame :| f.WellFormed() && f.first == b[0] && |f.payload| > cap && Encode(f) <= b;
        TooLong(f, b, cap);
        assert false;
      }
    } else if |b| >= 2 {
      assert b[1] % 128 == 127;
    }
  }

  /** The frame a buffer starts with. */
  lemma FrameIn(b: seq<byte>, cap: nat) returns (f: Frame)
    requires |b| >= 2 && Parse(b, cap).Bad? && b[1] != 127 && b[1] != 255
    ensures f.WellFormed() && f.first == b[0] && |f.payload| > cap && Encode(f) <= b
  {
    var wide, len, off, head := TooLongAt(b, cap);
    f := MaskedBack(b[0], b[off..head], wide, b[head..head + len]);
    HeaderIn(f, b, len, off);
    Front(b, head, len);
  }

  lemma TooLongAt(b: seq<byte>, cap: nat) returns (wide: bool, len: nat, off: nat, head: nat)
    requires |b| >= 2 && Parse(b, cap).Bad? && b[1] != 127 && b[1] != 255
    ensures off == (if wide then 4 else 2) && off <= head <= |b| - len && (head == off || head == off + 4)
    ensures cap < len < 65536 && (!wide ==> len < 126)
      && b[1] == (if head == off then 0 else 128) + if wide then 126 else len
    ensures wide ==> (b[2] as nat) * 256 + b[3] as nat == len
  {
    wide := b[1] % 128 == 126;
    len := if wide then (b[2] as nat) * 256 + b[3] as nat else b[1] % 128;
    off := if wide then 4 else 2;
    head := if b[1] >= 128 then off + 4 else off;
  }

  /** The frame with this masked payload. */
  lemma MaskedBack(first: byte, mask: seq<byte>, wide: bool, body: seq<byte>) returns (f: Frame)
    requires (mask == [] || |mask| == 4) && |body| < 65536 && (!wide ==> |body| < 126)
    ensures f.first == first && f.mask == mask && f.wide == wide && |f.payload| == |body| && f.WellFormed()
    ensures Encode(f) == Header(f) + body
  {
    f := Frame(first, mask, wide, ApplyMask(body, mask));
    ApplyMaskTwice(body, mask);
  }

  lemma Front(b: seq<byte>, head: nat, len: nat)
    requires head + len <= |b|
    ensures b[..head] + b[head..head + len] <= b
  {
    assert b[..head] + b[head..head + len] == b[..head + len];
  }

  lemma HeaderIn(f: Frame, b: seq<byte>, len: nat, off: nat)
    requires f.WellFormed() && off == (if f.wide then 4 else 2) && |b| >= off + |f.mask| && f.first == b[0]
    requires |f.payload| == len && f.mask == b[off..off + |f.mask|]
    requires b[1] == (if f.mask == [] then 0 else 128) + (if f.wide then 126 else len)
    requires f.wide ==> (b[2] as nat) * 256 + b[3] as nat == len
    ensures Header(f) == b[..off + |f.mask|]
  {
    if f.wide { assert b[2] == len / 256 && b[3] == len % 256; }
    assert [f.first] + LengthOctets(f) == b[..off];
    assert b[..off + |f.mask|] == b[..off] + f.mask;
  }

  lemma TooLong(f: Frame, b: seq<byte>, cap: nat)
    requires f.WellFormed() && |f.payload| > cap && Encode(f) <= b
    ensures Parse(b, cap).Bad?
  {
    var e := Encode(f);
    HeaderFields(f);
    assert forall i | 0 <= i < |Header(f)| :: b[i] == e[i] == Header(f)[i];
  }

  /** The pump refuses a whole frame exactly when its payload is longer than 4095 octets. */
  lemma PayloadLimit(f: Frame, tail: seq<byte>)
    requires f.WellFormed()
    ensures var b := Encode(f) + tail; Pump(b) == Pumped([], b, Refused) <==> |f.payload| > 4095
  {
    if |f.payload| > 4095 {
      TooLong(f, Encode(f) + tail, PAYLOAD_CAP);
    } else {
      ParseEncode(f, tail, PAYLOAD_CAP);
    }
  }
}
