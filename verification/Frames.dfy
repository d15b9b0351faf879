/** WebSocket frames as the bridge reads and writes them (sections 5.2 and 5.3 of RFC 6455).
    The reader ignores the first octet (FIN and opcode) and refuses the 64-bit length form. */
module Frames {
  import opened Bytes
  import opened Seqs

  const PAYLOAD_CAP := 4095

  /** `mask` is empty or four octets; `wide` selects the 16-bit length form. */
  datatype Frame = Frame(first: byte, mask: seq<byte>, wide: bool, payload: seq<byte>) {
    predicate WellFormed() {
      && (mask == [] || |mask| == 4)
      && |payload| < 65536
      && (!wide ==> |payload| < 126)
    }

    /** A frame whose payload the bridge forwards. */
    predicate Forwardable() {
      WellFormed() && 1 <= |payload| <= PAYLOAD_CAP
    }
  }

  function ApplyMask(p: seq<byte>, key: seq<byte>): (r: seq<byte>)
    requires key == [] || |key| == 4
    ensures |r| == |p|
  {
    if key == [] then p else seq(|p|, i requires 0 <= i < |p| => Xor(p[i], key[i % 4]))
  }

  lemma ApplyMaskTwice(p: seq<byte>, key: seq<byte>)
    requires key == [] || |key| == 4
    ensures ApplyMask(ApplyMask(p, key), key) == p
  {
    if key != [] {
      forall i | 0 <= i < |p| ensures ApplyMask(ApplyMask(p, key), key)[i] == p[i] {
        XorInvolution(p[i], key[i % 4]);
      }
    }
  }

  function LengthOctets(f: Frame): (h: seq<byte>)
    requires f.WellFormed()
  {
    var m := if f.mask == [] then 0 else 128;
    if f.wide then [m + 126, |f.payload| / 256, |f.payload| % 256] else [m + |f.payload|]
  }

  function Header(f: Frame): (h: seq<byte>)
    requires f.WellFormed()
  {
    [f.first] + LengthOctets(f) + f.mask
  }

  function Encode(f: Frame): (e: seq<byte>)
    requires f.WellFormed()
    ensures |e| == |Header(f)| + |f.payload| && |e| >= 2
  {
    Header(f) + ApplyMask(f.payload, f.mask)
  }

  /** What one look at the buffer finds. */
  datatype Look = More | Bad | Got(payload: seq<byte>, consumed: nat)

  function Parse(b: seq<byte>, cap: nat): (r: Look)
    ensures r.Got? ==> 2 <= r.consumed <= |b| && |r.payload| <= cap
  {
    if |b| < 2 then More else
    var masked := b[1] >= 128;
    var len7 := b[1] % 128;
    if len7 == 127 then Bad else
    if len7 == 126 && |b| < 4 then More else
    var len: nat := if len7 == 126 then (b[2] as nat) * 256 + b[3] as nat else len7;
    var off := if len7 == 126 then 4 else 2;
    var head := if masked then off + 4 else off;
    if |b| < head + len then More else
    if len > cap then Bad else
    Got(ApplyMask(b[head..head + len], if masked then b[off..off + 4] else []), head + len)
  }

  /** Where the fields of a header sit. */
  lemma HeaderFields(f: Frame)
    requires f.WellFormed()
    ensures var h, off := Header(f), if f.wide then 4 else 2;
      && |h| == off + |f.mask| && h[off..] == f.mask
      && (h[1] >= 128 <==> f.mask != [])
      && h[1] % 128 == (if f.wide then 126 else |f.payload|)
      && (f.wide ==> (h[2] as nat) * 256 + h[3] as nat == |f.payload|)
  {
    Parts([f.first] + LengthOctets(f), f.mask);
  }

  /** Reader and writer undo each other, whatever bytes follow the frame. */
  lemma ParseEncode(f: Frame, tail: seq<byte>, cap: nat)
    requires f.WellFormed() && |f.payload| <= cap
    ensures Parse(Encode(f) + tail, cap) == Got(f.payload, |Encode(f)|)
  {
    var h, body := Header(f), ApplyMask(f.payload, f.mask);
    var b, len, head := Encode(f) + tail, |f.payload|, |Header(f)|;
    var off := if f.wide then 4 else 2;
    HeaderFields(f);
    Assoc(h, body, tail);
    Parts(h, body + tail);
    Parts(body, tail);
    SliceByDrop(b, head, head + len);
    SliceOfLeft(h, body + tail, off, head);
    assert h[off..head] == h[off..];
    assert forall i | 0 <= i < |h| :: b[i] == h[i];
    ApplyMaskTwice(f.payload, f.mask);
    ParseFields(b, f.mask, f.wide, len, body, cap);
  }

  /** The reader on a buffer whose fields are known. */
  lemma ParseFields(b: seq<byte>, mask: seq<byte>, wide: bool, len: nat, body: seq<byte>, cap: nat)
    requires mask == [] || |mask| == 4
    requires var off := if wide then 4 else 2;
      && |b| >= off + |mask| + len && len <= cap && |body| == len
      && (b[1] >= 128 <==> mask != [])
      && b[1] % 128 == (if wide then 126 else len) && (!wide ==> len < 126)
      && (wide ==> (b[2] as nat) * 256 + b[3] as nat == len)
      && b[off..off + |mask|] == mask && b[off + |mask|..off + |mask| + len] == body
    ensures Parse(b, cap) == Got(ApplyMask(body, mask), (if wide then 4 else 2) + |mask| + len)
  {
  }

  /** No proper prefix of a frame is mistaken for a frame or refused. */
  lemma ParsePrefix(f: Frame, k: nat, cap: nat)
    requires f.WellFormed() && k < |Encode(f)|
    ensures Parse(Encode(f)[..k], cap) == More
  {
    var e, b := Encode(f), Encode(f)[..k];
    HeaderFields(f);
    assert forall i | 0 <= i < |Header(f)| :: e[i] == Header(f)[i];
    assert forall i | 0 <= i < k :: b[i] == e[i];
  }

  /** More bytes never change a verdict already reached. */
  lemma ParseMonotone(b: seq<byte>, c: seq<byte>, cap: nat)
    requires !Parse(b, cap).More?
    ensures Parse(b + c, cap) == Parse(b, cap)
  {
    var d := b + c;
    assert forall i | 0 <= i < |b| :: d[i] == b[i];
    assert forall i, j | 0 <= i <= j <= |b| :: d[i..j] == b[i..j];
  }

  // ---------------------------------------------------------------- the writer

  /** The frame `ws_send_text` writes: unmasked, text opcode with FIN, shortest form. */
  function TextFrame(p: seq<byte>): (f: Frame)
    requires |p| < 65536
    ensures f.WellFormed() && f.payload == p
  {
    Frame(0x81, [], |p| >= 126, p)
  }

  /** The writer's length form is the minimal one of section 5.2. */
  lemma TextFrameIsMinimal(p: seq<byte>, f: Frame)
    requires |p| < 65536 && f.WellFormed() && f.payload == p
    ensures |Encode(TextFrame(p))| <= |Encode(f)|
    ensures |Encode(TextFrame(p))| == |Encode(f)| <==> f.mask == [] && f.wide == (|p| >= 126)
  {
    assert |Header(f)| == (if f.wide then 4 else 2) + |f.mask|;
  }

  // ---------------------------------------------------------------- the pump

  /** Why a pump stopped: too few bytes, an empty frame (same C return value), or a refused frame. */
  datatype Stop = Starved | EmptyFrame | Refused

  datatype Pumped = Pumped(sent: seq<byte>, rest: seq<byte>, stop: Stop)

  function Pump(b: seq<byte>): (r: Pumped)
    ensures |r.rest| <= |b|
    decreases |b|
  {
    match Parse(b, PAYLOAD_CAP)
    case More => Pumped([], b, Starved)
    case Bad => Pumped([], b, Refused)
    case Got(p, k) =>
      if p == [] then Pumped([], b[k..], EmptyFrame)
      else var r := Pump(b[k..]); Pumped(p + [NEWLINE] + r.sent, r.rest, r.stop)
  }

  /** The pump behind a frame with a payload. */
  lemma PumpFrame(b: seq<byte>)
    requires Parse(b, PAYLOAD_CAP).Got? && Parse(b, PAYLOAD_CAP).payload != []
    ensures var g := Parse(b, PAYLOAD_CAP);
      var r := Pump(b[g.consumed..]); Pump(b) == Pumped(g.payload + [NEWLINE] + r.sent, r.rest, r.stop)
  {
  }

  /** Bytes that arrive later can be pumped later, as long as the first pump only starved. */
  lemma {:induction false} PumpAppend(b: seq<byte>, c: seq<byte>)
    ensures Pump(b).stop.Starved? ==>
      var p, q := Pump(b), Pump(Pump(b).rest + c);
      Pump(b + c) == Pumped(p.sent + q.sent, q.rest, q.stop)
    ensures !Pump(b).stop.Starved? ==>
      Pump(b + c) == Pumped(Pump(b).sent, Pump(b).rest + c, Pump(b).stop)
    decreases |b|
  {
    var g := Parse(b, PAYLOAD_CAP);
    if g.More? {
      Unit(Pump(b + c).sent);
    } else {
      ParseMonotone(b, c, PAYLOAD_CAP);
      if g.Got? {
        DropOfSum(b, c, g.consumed);
        if g.payload != [] {
          var tail := b[g.consumed..];
          PumpFrame(b);
          PumpFrame(b + c);
          PumpAppend(tail, c);
          Assoc(g.payload + [NEWLINE], Pump(tail).sent, Pump(Pump(tail).rest + c).sent);
        }
      }
    }
  }

  /** The reads of one client: each chunk is appended to the buffer, then the buffer is pumped.
      A refused frame closes the client, so nothing is read after it. */
  function Feed(b: seq<byte>, chunks: seq<seq<byte>>): (r: Pumped)
    decreases |chunks|
  {
    if chunks == [] then Pumped([], b, Starved)
    else
      var p := Pump(b + chunks[0]);
      if p.stop.Refused? || |chunks| == 1 then p
      else var r := Feed(p.rest, chunks[1..]); Pumped(p.sent + r.sent, r.rest, r.stop)
  }

  function Concat(chunks: seq<seq<byte>>): seq<byte> {
    if chunks == [] then [] else chunks[0] + Concat(chunks[1..])
  }

  /** Chunk independence, for every byte stream at all whose one-shot pump starves:
      how recv cuts it does not matter. */
  lemma {:induction false} FeedIsPump(b: seq<byte>, chunks: seq<seq<byte>>)
    requires Pump(b + Concat(chunks)).stop.Starved?
    requires chunks == [] ==> Pump(b) == Pumped([], b, Starved)
    ensures Feed(b, chunks) == Pump(b + Concat(chunks))
    decreases |chunks|
  {
    if chunks == [] {
      assert b + Concat(chunks) == b;
    } else {
      var c, cs := chunks[0], chunks[1..];
      assert b + Concat(chunks) == (b + c) + Concat(cs);
      PumpAppend(b + c, Concat(cs));
      if cs == [] {
        assert (b + c) + Concat(cs) == b + c;
      } else {
        FeedIsPump(Pump(b + c).rest, cs);
      }
    }
  }

  // ---------------------------------------------------------------- streams of frames

  function EncodeAll(fs: seq<Frame>): seq<byte>
    requires forall i | 0 <= i < |fs| :: fs[i].WellFormed()
  {
    if fs == [] then [] else Encode(fs[0]) + EncodeAll(fs[1..])
  }

  /** The payloads in order, each followed by one newline, the octet 10. */
  function Lines(fs: seq<Frame>): seq<byte> {
    if fs == [] then [] else fs[0].payload + [10] + Lines(fs[1..])
  }

  /** `part` is an incomplete frame: a proper prefix of some frame of the wire format. */
  ghost predicate Incomplete(part: seq<byte>) {
    exists g: Frame :: g.Forwardable() && part < Encode(g)
  }

  lemma {:induction false} PumpFrames(fs: seq<Frame>, part: seq<byte>)
    requires forall i | 0 <= i < |fs| :: fs[i].Forwardable()
    requires Incomplete(part)
    ensures Pump(EncodeAll(fs) + part) == Pumped(Lines(fs), part, Starved)
  {
    if fs == [] {
      var g: Frame :| g.Forwardable() && part < Encode(g);
      ParsePrefix(g, |part|, PAYLOAD_CAP);
      assert part == Encode(g)[..|part|];
      assert EncodeAll(fs) + part == part;
    } else {
      var e, tail := Encode(fs[0]), EncodeAll(fs[1..]) + part;
      assert EncodeAll(fs) + part == e + tail;
      ParseEncode(fs[0], tail, PAYLOAD_CAP);
      assert (e + tail)[|e|..] == tail;
      PumpFrames(fs[1..], part);
    }
  }

  /** Chunk independence of the frame reader.  Whatever was received so far, it is some whole
      frames and an incomplete one; however it was cut into chunks, the engine has been sent the
      unmasked payloads in order, one newline after each, and the buffer is the incomplete frame. */
  lemma ChunkIndependence(fs: seq<Frame>, part: seq<byte>, chunks: seq<seq<byte>>)
    requires forall i | 0 <= i < |fs| :: fs[i].Forwardable()
    requires Incomplete(part)
    requires Concat(chunks) == EncodeAll(fs) + part
    ensures Feed([], chunks) == Pumped(Lines(fs), part, Starved)
    ensures |part| < 8 + PAYLOAD_CAP
  {
    PumpFrames(fs, part);
    Unit(Concat(chunks));
    FeedIsPump([], chunks);
    IncompleteIsShort(part);
  }

  lemma IncompleteIsShort(part: seq<byte>)
    requires Incomplete(part)
    ensures |part| < 8 + PAYLOAD_CAP
  {
    var g: Frame :| g.Forwardable() && part < Encode(g);
  }

  /** The payload 0 case: an empty frame is consumed but reported like a starved buffer, so the
      frames behind it wait for the next recv.  One chunk is fully consumed exactly when no frame
      but the last is empty. */
  lemma {:induction false} ConsumedInOneChunk(fs: seq<Frame>)
    requires AllRead(fs)
    ensures Pump(EncodeAll(fs)).rest == [] <==> EmptyOnlyLast(fs)
  {
    if fs != [] {
      var e, tail := Encode(fs[0]), EncodeAll(fs[1..]);
      ParseEncode(fs[0], tail, PAYLOAD_CAP);
      assert (e + tail)[|e|..] == tail;
      assert tail == [] <==> |fs| == 1 by { if |fs| > 1 { assert |tail| >= |Encode(fs[1])|; } }
      ConsumedInOneChunk(fs[1..]);
      assert forall i | 0 < i < |fs| :: fs[i] == fs[1..][i - 1];
    }
  }

  function OneFrameEach(fs: seq<Frame>): (chunks: seq<seq<byte>>)
    requires forall i | 0 <= i < |fs| :: fs[i].WellFormed()
    ensures |chunks| == |fs|
  {
    if fs == [] then [] else [Encode(fs[0])] + OneFrameEach(fs[1..])
  }

  lemma {:induction false} FrameByFrame(fs: seq<Frame>)
    requires AllRead(fs)
    ensures Feed([], OneFrameEach(fs)).rest == []
  {
    if fs != [] {
      var e := Encode(fs[0]);
      ParseEncode(fs[0], [], PAYLOAD_CAP);
      assert [] + e == e && e + [] == e && e[|e|..] == [];
      assert Pump(e).rest == [] && !Pump(e).stop.Refused?;
      FrameByFrame(fs[1..]);
    }
  }

  /** One chunk and one chunk per frame leave the same bytes unread exactly when no frame but the
      last is empty. */
  lemma TwoCuts(fs: seq<Frame>)
    requires fs != [] && AllRead(fs)
    ensures Feed([], [EncodeAll(fs)]).rest == Feed([], OneFrameEach(fs)).rest <==> EmptyOnlyLast(fs)
  {
    FrameByFrame(fs);
    ConsumedInOneChunk(fs);
    assert [] + EncodeAll(fs) == EncodeAll(fs);
  }

  predicate AllRead(fs: seq<Frame>) {
    forall i | 0 <= i < |fs| :: fs[i].WellFormed() && |fs[i].payload| <= PAYLOAD_CAP
  }

  predicate EmptyOnlyLast(fs: seq<Frame>) {
    forall i | 0 <= i < |fs| - 1 :: fs[i].payload != []
  }

  /** A way recv may cut a stream: a chunk is never empty. */
  predicate Cutting(chunks: seq<seq<byte>>, b: seq<byte>) {
    Concat(chunks) == b && forall i | 0 <= i < |chunks| :: chunks[i] != []
  }

  /** Before its last octet, such a stream only starves the pump. */
  lemma {:induction false} PrefixStarves(fs: seq<Frame>, k: nat)
    requires AllRead(fs) && EmptyOnlyLast(fs) && k < |EncodeAll(fs)|
    ensures Pump(EncodeAll(fs)[..k]).stop.Starved?
    decreases |fs|
  {
    var e, tail := Encode(fs[0]), EncodeAll(fs[1..]);
    var b := (e + tail)[..k];
    if k < |e| {
      ParsePrefix(fs[0], k, PAYLOAD_CAP);
      assert b == e[..k];
    } else {
      assert b == e + tail[..k - |e|] && b[|e|..] == tail[..k - |e|];
      ParseEncode(fs[0], tail[..k - |e|], PAYLOAD_CAP);
      assert |fs| > 1;
      PrefixStarves(fs[1..], k - |e|);
    }
  }

  /** Reading one chunk more. */
  lemma {:induction false} FeedSnoc(b: seq<byte>, chunks: seq<seq<byte>>, c: seq<byte>)
    requires !Feed(b, chunks).stop.Refused?
    ensures var p := Feed(b, chunks);
      var q := Pump(p.rest + c);
      Feed(b, chunks + [c]) == Pumped(p.sent + q.sent, q.rest, q.stop)
    decreases |chunks|
  {
    if chunks == [] {
      assert [] + [c] == [c];
      Unit(Pump(b + c).sent);
    } else {
      assert (chunks + [c])[0] == chunks[0] && (chunks + [c])[1..] == chunks[1..] + [c];
      var p := Pump(b + chunks[0]);
      if |chunks| == 1 {
        assert chunks[1..] + [c] == [c];
      } else {
        FeedSnoc(p.rest, chunks[1..], c);
        Assoc(p.sent, Feed(p.rest, chunks[1..]).sent, Pump(Feed(b, chunks).rest + c).sent);
      }
    }
  }

  lemma {:induction false} ConcatSnoc(chunks: seq<seq<byte>>, c: seq<byte>)
    ensures Concat(chunks + [c]) == Concat(chunks) + c
  {
    if chunks == [] {
      assert [] + [c] == [c] && [c][1..] == [];
    } else {
      assert (chunks + [c])[1..] == chunks[1..] + [c];
      ConcatSnoc(chunks[1..], c);
      Assoc(chunks[0], Concat(chunks[1..]), c);
    }
  }

  /** A cutting without its last chunk stops before the end. */
  lemma LastChunk(chunks: seq<seq<byte>>, b: seq<byte>) returns (init: seq<seq<byte>>, c: seq<byte>)
    requires Cutting(chunks, b) && b != []
    ensures chunks == init + [c] && Concat(init) + c == b
    ensures |Concat(init)| < |b| && Concat(init) == b[..|Concat(init)|]
  {
    var n := |chunks| - 1;
    init, c := chunks[..n], chunks[n];
    assert chunks == init + [c];
    ConcatSnoc(init, c);
    Parts(Concat(init), c);
  }

  /** However it is cut, such a stream is read as if it had come in one chunk. */
  lemma EveryCutIsPump(fs: seq<Frame>, chunks: seq<seq<byte>>)
    requires fs != [] && AllRead(fs) && EmptyOnlyLast(fs) && Cutting(chunks, EncodeAll(fs))
    ensures Feed([], chunks) == Pump(EncodeAll(fs))
  {
    assert |EncodeAll(fs)| >= |Encode(fs[0])|;
    var init, c := LastChunk(chunks, EncodeAll(fs));
    PrefixStarves(fs, |Concat(init)|);
    CutBeforeEnd(init, c);
  }

  lemma CutBeforeEnd(init: seq<seq<byte>>, c: seq<byte>)
    requires Pump(Concat(init)).stop.Starved?
    ensures Feed([], init + [c]) == Pump(Concat(init) + c)
  {
    var front := Concat(init);
    Unit(front);
    FeedIsPump([], init);
    FeedSnoc([], init, c);
    PumpAppend(front, c);
  }

  lemma {:induction false} OneFrameEachCuts(fs: seq<Frame>)
    requires forall i | 0 <= i < |fs| :: fs[i].WellFormed()
    ensures Cutting(OneFrameEach(fs), EncodeAll(fs))
  {
    if fs != [] { OneFrameEachCuts(fs[1..]); }
  }

  lemma OneChunk(b: seq<byte>)
    ensures Concat([b]) == b
  {
    var chunks := [b];
    assert chunks[1..] == [];
    Unit(b);
  }

  /** So the cut matters exactly for streams with an empty frame that is not the last: every way of
      cutting sends the same lines and leaves the same bytes if and only if there is none. */
  lemma CutMattersForEmptyFrames(fs: seq<Frame>)
    requires fs != [] && AllRead(fs)
    ensures (forall c, d | Cutting(c, EncodeAll(fs)) && Cutting(d, EncodeAll(fs)) ::
        Feed([], c).sent == Feed([], d).sent && Feed([], c).rest == Feed([], d).rest)
      <==> EmptyOnlyLast(fs)
  {
    var b := EncodeAll(fs);
    if EmptyOnlyLast(fs) {
      forall c | Cutting(c, b) ensures Feed([], c) == Pump(b) {
        EveryCutIsPump(fs, c);
      }
    } else {
      TwoCuts(fs);
      OneFrameEachCuts(fs);
      assert |b| >= |Encode(fs[0])|;
      Unit(b);
      OneChunk(b);
    }
  }

  // ---------------------------------------------------------------- how full the buffer gets

  /** Any byte stream at all: a pump that starves leaves less than the largest header and payload length
      together, so without empty frames no buffer of more than 65542 octets fills. */
  lemma {:induction false} StarvedIsShort(b: seq<byte>)
    requires Pump(b).stop.Starved?
    ensures |Pump(b).rest| < 8 + 65535
    decreases |b|
  {
    if Parse(b, PAYLOAD_CAP).Got? {
      PumpFrame(b);
      StarvedIsShort(b[Parse(b, PAYLOAD_CAP).consumed..]);
    }
  }

  /** `n` empty, unmasked text frames. */
  function Empties(n: nat): seq<byte> {
    if n == 0 then [] else [0x81, 0] + Empties(n - 1)
  }

  /** `n` chunks of `k` empty frames each. */
  function Flood(n: nat, k: nat): (chunks: seq<seq<byte>>)
    ensures |chunks| == n
  {
    if n == 0 then [] else [Empties(k)] + Flood(n - 1, k)
  }

  lemma {:induction false} EmptiesJoin(m: nat, k: nat)
    ensures Empties(m) + Empties(k) == Empties(m + k)
    ensures |Empties(m)| == 2 * m
  {
    if m == 0 {
      Unit(Empties(k));
    } else {
      EmptiesJoin(m - 1, k);
      Assoc([0x81, 0], Empties(m - 1), Empties(k));
    }
  }

  lemma PumpEmpties(n: nat)
    requires n > 0
    ensures Pump(Empties(n)) == Pumped([], Empties(n - 1), EmptyFrame)
  {
    var b := Empties(n);
    assert b[0] == 0x81 && b[1] == 0 && |b| >= 2 && b[2..] == Empties(n - 1);
    assert Parse(b, PAYLOAD_CAP) == Got([], 2);
  }

  /** The frames left after `n` recvs of `k` each: every recv takes one out. */
  function PiledUp(m: nat, n: nat, k: nat): nat
    requires k > 0
    decreases n
  {
    if n == 0 then m else PiledUp(m + k - 1, n - 1, k)
  }

  lemma {:induction false} PiledUpIs(m: nat, n: nat, k: nat)
    requires k > 0
    ensures PiledUp(m, n, k) == m + n * (k - 1)
    decreases n
  {
    if n > 0 {
      PiledUpIs(m + k - 1, n - 1, k);
      assert (n - 1) * (k - 1) + (k - 1) == n * (k - 1);
    }
  }

  /** One recv of a flood. */
  lemma FloodPump(m: nat, k: nat)
    requires k > 0
    ensures Pump(Empties(m) + Empties(k)) == Pumped([], Empties(m + k - 1), EmptyFrame)
  {
    EmptiesJoin(m, k);
    PumpEmpties(m + k);
  }

  lemma FeedOne(b: seq<byte>, chunks: seq<seq<byte>>, c: seq<byte>)
    requires chunks != [] && chunks[0] == c && !Pump(b + c).stop.Refused?
    ensures Feed(b, chunks).rest == if |chunks| == 1 then Pump(b + c).rest else Feed(Pump(b + c).rest, chunks[1..]).rest
  {
  }

  lemma {:induction false} FloodLeaves(m: nat, n: nat, k: nat, chunks: seq<seq<byte>>)
    requires n > 0 && k > 0 && chunks == Flood(n, k)
    ensures Feed(Empties(m), chunks).rest == Empties(PiledUp(m, n, k))
    decreases n
  {
    var next, tail := m + k - 1, chunks[1..];
    FloodPump(m, k);
    FeedOne(Empties(m), chunks, Empties(k));
    assert PiledUp(m, n, k) == PiledUp(next, n - 1, k);
    if n > 1 {
      assert tail == Flood(n - 1, k);
      FloodLeaves(next, n - 1, k, tail);
    }
  }

  /** Every recv takes only one empty frame out of the buffer, so a stream of them fills it: of `n` recvs
      of `k` frames all but `n` frames are left. */
  lemma EmptyFramesPileUp(n: nat, k: nat)
    requires n > 0 && k > 0
    ensures Feed([], Flood(n, k)).rest == Empties(n * (k - 1)) && |Feed([], Flood(n, k)).rest| == 2 * (n * (k - 1))
  {
    FloodLeaves(0, n, k, Flood(n, k));
    PiledUpIs(0, n, k);
    EmptiesJoin(n * (k - 1), 0);
  }
}
