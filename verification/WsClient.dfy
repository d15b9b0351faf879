/** One WebSocket client of the bridge: a fixed receive buffer whose front is consumed frame by
    frame, the frame writer, and the pump that forwards payloads to the engine.  The methods work on the
    buffer in place and are proved against the reader, pump and writer of `Frames`. */
module WsClient {
  import opened Bytes
  import opened Frames
  import opened Seqs

  const CLIENT_BUF := 1048576

  /** Copies `n` octets of `src` to the front of `dst`, unmasking when a key is given. */
  method CopyOut(dst: array<byte>, src: array<byte>, at: nat, n: nat, masked: bool, key: nat)
    requires dst != src && n <= dst.Length && at + n <= src.Length
    requires masked ==> key + 4 <= src.Length
    modifies dst
    ensures dst[..n] == ApplyMask(src[at..at + n], if masked then src[key..key + 4] else [])
  {
    if masked {
      Unmask(dst, src, at, n, key);
      return;
    }
    var i := 0;
    while i < n
      invariant 0 <= i <= n && dst[..i] == src[at..at + i]
    {
      dst[i] := src[at + i];
      i := i + 1;
    }
  }

  /** The loop of a masked frame. */
  method Unmask(dst: array<byte>, src: array<byte>, at: nat, n: nat, key: nat)
    requires dst != src && n <= dst.Length && at + n <= src.Length && key + 4 <= src.Length
    modifies dst
    ensures dst[..n] == ApplyMask(src[at..at + n], src[key..key + 4])
  {
    ghost var p, m := src[at..at + n], src[key..key + 4];
    var i := 0;
    while i < n
      invariant 0 <= i <= n && forall k | 0 <= k < i :: dst[k] == Xor(p[k], m[k % 4])
    {
      dst[i] := Xor(src[at + i], src[key + i % 4]);
      i := i + 1;
    }
  }

  /** memmove towards the front of the same buffer. */
  method Slide(a: array<byte>, from: nat, n: nat)
    requires from + n <= a.Length
    modifies a
    ensures a[..n] == old(a[from..from + n])
  {
    var i := 0;
    while i < n
      invariant 0 <= i <= n
      invariant forall k | 0 <= k < i :: a[k] == old(a[from + k])
      invariant forall k | i <= k < a.Length :: a[k] == old(a[k])
    {
      a[i] := a[from + i];
      i := i + 1;
    }
  }

  /** A pump whose output comes behind what was sent before. */
  function Behind(sent: seq<byte>, p: Pumped): Pumped {
    Pumped(sent + p.sent, p.rest, p.stop)
  }

  /** One frame moves from the buffer to what was sent. */
  lemma FrameBehind(sent: seq<byte>, b: seq<byte>)
    requires Parse(b, PAYLOAD_CAP).Got? && Parse(b, PAYLOAD_CAP).payload != []
    ensures var g := Parse(b, PAYLOAD_CAP);
      Behind(sent, Pump(b)) == Behind(sent + (g.payload + [NEWLINE]), Pump(b[g.consumed..]))
  {
    var g := Parse(b, PAYLOAD_CAP);
    PumpFrame(b);
    Assoc(sent, g.payload + [NEWLINE], Pump(b[g.consumed..]).sent);
  }

  /** The engine socket as the pump sees it; `log` is every octet handed to it. */
  class Engine {
    var valid: bool
    var ready: bool
    var log: seq<byte>

    constructor (valid: bool, ready: bool)
      ensures this.valid == valid && this.ready == ready && log == []
    {
      this.valid, this.ready, log := valid, ready, [];
    }

    method Send(data: array<byte>, n: nat)
      requires n <= data.Length
      modifies `log
      ensures log == old(log) + data[..n]
    {
      log := log + data[..n];
    }

    /** A payload and a newline: one send when the newline fits behind the payload, else two. */
    method Forward(pl: array<byte>, n: nat)
      requires pl.Length == PAYLOAD_CAP + 1 && n <= PAYLOAD_CAP
      modifies `log, pl
      ensures log == old(log) + (old(pl[..n]) + [NEWLINE])
    {
      ghost var p := pl[..n];
      if n < PAYLOAD_CAP - 1 {
        pl[n] := NEWLINE;
        assert pl[..n + 1] == p + [NEWLINE];
        Send(pl, n + 1);
      } else {
        Send(pl, n);
        var nl := new byte[1] [NEWLINE];
        Send(nl, 1);
        assert nl[..1] == [NEWLINE];
        assert old(log) + p + [NEWLINE] == old(log) + (p + [NEWLINE]);
      }
    }
  }

  class Client {
    const buf: array<byte>
    var blen: nat

    constructor ()
      ensures Valid() && fresh(buf) && Received() == []
    {
      buf := new byte[CLIENT_BUF];
      blen := 0;
    }

    /** A client that has already received `pending`. */
    constructor Holding(pending: seq<byte>)
      requires |pending| < CLIENT_BUF
      ensures Valid() && fresh(buf) && Received() == pending
    {
      buf := new byte[CLIENT_BUF](k => if 0 <= k < |pending| then pending[k] else 0);
      blen := |pending|;
    }

    ghost predicate Valid()
      reads this
    {
      buf.Length == CLIENT_BUF && blen < CLIENT_BUF
    }

    ghost function Received(): (s: seq<byte>)
      requires Valid()
      reads this, buf
    {
      buf[..blen]
    }

    /** Copies a complete frame's payload out and drops the frame from the front of the buffer. */
    method TakeFrame(out: array<byte>, off: nat, head: nat, len: nat, masked: bool)
      requires Valid() && out != buf && len < out.Length && head + len <= blen
      requires head == if masked then off + 4 else off
      modifies `blen, buf, out
      ensures Valid() && Received() == old(Received())[head + len..]
      ensures out[..len] == ApplyMask(old(Received())[head..head + len],
        if masked then old(Received())[off..off + 4] else [])
      ensures out[len] == 0
    {
      ghost var b := buf[..];
      SliceOfPrefix(b, blen, head, head + len);
      if masked { SliceOfPrefix(b, blen, off, off + 4); }
      SliceOfPrefix(b, blen, head + len, blen);
      CopyOut(out, buf, head, len, masked, off);
      ghost var p := out[..len];
      out[len] := 0;
      assert out[..len] == p;
      Slide(buf, head + len, blen - (head + len));
      blen := blen - (head + len);
    }

    /** `ws_parse_buf`: the C return value `n` does not tell "need more" from an empty frame. */
    method ParseBuf(out: array<byte>, cap: nat) returns (n: int)
      requires Valid() && out != buf && cap < out.Length
      modifies `blen, buf, out
      ensures Valid()
      ensures match Parse(old(Received()), cap)
        case More => n == 0 && Received() == old(Received())
        case Bad => n == -1 && Received() == old(Received())
        case Got(p, k) => n == |p| && out[..n] == p && out[n] == 0 && Received() == old(Received())[k..]
    {
      ghost var b := Received();
      if blen < 2 { return 0; }
      var masked := buf[1] >= 128;
      var len: nat := buf[1] % 128;
      var off := 2;
      if len == 126 {
        if blen < 4 { return 0; }
        len := (buf[2] as nat) * 256 + buf[3] as nat;
        off := 4;
      } else if len == 127 {
        return -1;
      }
      var head := off + if masked then 4 else 0;
      if blen < head + len { return 0; }
      if len > cap { return -1; }
      TakeFrame(out, off, head, len, masked);
      n := len;
    }

    /** One turn of the pump loop: parse a frame and forward it with its newline. */
    method PumpOne(pl: array<byte>, engine: Engine) returns (n: int)
      requires Valid() && pl != buf && pl.Length == PAYLOAD_CAP + 1
      modifies `blen, buf, pl, engine`log
      ensures Valid()
      ensures match Parse(old(Received()), PAYLOAD_CAP)
        case More => n == 0 && Received() == old(Received()) && engine.log == old(engine.log)
        case Bad => n == -1 && Received() == old(Received()) && engine.log == old(engine.log)
        case Got(p, k) =>
          && n == |p| && Received() == old(Received())[k..]
          && engine.log == old(engine.log) + if p != [] && engine.valid && engine.ready then p + [NEWLINE] else []
    {
      n := ParseBuf(pl, PAYLOAD_CAP);
      if n > 0 && engine.valid && engine.ready {
        engine.Forward(pl, n);
      }
    }

    /** `client_pump_ws`: forwards every complete frame and keeps exactly the unconsumed bytes. */
    method PumpWs(engine: Engine) returns (r: int)
      requires Valid()
      modifies `blen, buf, engine`log
      ensures Valid()
      ensures Received() == Pump(old(Received())).rest
      ensures r == if Pump(old(Received())).stop.Refused? then -1 else 0
      ensures engine.log == old(engine.log) + if engine.valid && engine.ready then Pump(old(Received())).sent else []
    {
      ghost var linked := engine.valid && engine.ready;
      ghost var all := Pump(Received());
      ghost var sent := [];
      var pl := new byte[PAYLOAD_CAP + 1];
      Unit(all.sent);
      Unit(engine.log);
      while true
        invariant Valid() && all == Behind(sent, Pump(Received()))
        invariant engine.log == if linked then old(engine.log) + sent else old(engine.log)
        decreases blen
      {
        ghost var was := Received();
        var n := PumpOne(pl, engine);
        Unit(sent);
        Unit(engine.log);
        if n < 0 { return -1; }
        if n == 0 { break; }
        ghost var mine := Parse(was, PAYLOAD_CAP).payload + [NEWLINE];
        FrameBehind(sent, was);
        Assoc(old(engine.log), sent, mine);
        sent := sent + mine;
      }
      r := 0;
    }

    /** One readable event of the client sweep: a chunk that fits is received and pumped. */
    method OnReadable(chunk: seq<byte>, engine: Engine) returns (r: int)
      requires Valid() && blen + |chunk| < CLIENT_BUF
      modifies `blen, buf, engine`log
      ensures Valid()
      ensures var p := Pump(old(Received()) + chunk);
        && Received() == p.rest
        && r == (if p.stop.Refused? then -1 else 0)
        && engine.log == old(engine.log) + if engine.valid && engine.ready then p.sent else []
    {
      var i := 0;
      while i < |chunk|
        invariant 0 <= i <= |chunk| && Valid() && blen == old(blen) && engine.log == old(engine.log)
        invariant buf[..blen + i] == old(Received()) + chunk[..i]
      {
        buf[blen + i] := chunk[i];
        i := i + 1;
      }
      blen := blen + |chunk|;
      assert Received() == old(Received()) + chunk;
      r := PumpWs(engine);
    }
  }

  /** What one send puts on the wire, by its result; a negative one is an error. */
  function Taken(s: seq<byte>, result: int): (r: seq<byte>)
    ensures r <= s && |r| == if result < 0 then 0 else if result < |s| then result else |s|
  {
    if result < 0 then [] else if result < |s| then s[..result] else s
  }

  /** What the two sends of a frame put on the wire: the second is made whatever the first sent, as
      long as it was no error. */
  function Wire(data: seq<byte>, first: int, second: int): seq<byte>
    requires |data| < 65536
  {
    if first == -1 then [] else Taken(Header(TextFrame(data)), first) + Taken(data, second)
  }

  /** Both sends took everything; without data there is nothing the second could lose. */
  predicate Complete(data: seq<byte>, first: int, second: int)
    requires |data| < 65536
  {
    first >= |Header(TextFrame(data))| && (data == [] || second >= |data|)
  }

  /** The receiver gets the text frame if and only if both sends are complete. */
  lemma WireComplete(data: seq<byte>, first: int, second: int)
    requires |data| < 65536
    ensures Wire(data, first, second) == Encode(TextFrame(data)) <==> Complete(data, first, second)
  {
    var h := Header(TextFrame(data));
    assert Encode(TextFrame(data)) == h + data;
    assert |h| >= 2;
    if Wire(data, first, second) == h + data {
      assert |Wire(data, first, second)| == |h| + |data|;
    }
  }

  /** `ws_send_text`: what is written on the socket, and the result of the call.  `first` and
      `second` are the results of the two sends; -1 is SOCKET_ERROR. */
  method WsSendText(data: seq<byte>, first: int, second: int) returns (r: int, wire: seq<byte>)
    ensures |data| >= 65536 ==> r == -1 && wire == []
    ensures |data| < 65536 ==> r == (if first == -1 then -1 else second) && wire == Wire(data, first, second)
  {
    var len := |data|;
    var hdr := new byte[10];
    var hn := 0;
    if len < 126 {
      hdr[0], hdr[1] := 0x81, len;
      hn := 2;
    } else if len < 65536 {
      hdr[0], hdr[1], hdr[2], hdr[3] := 0x81, 126, len / 256, len % 256;
      hn := 4;
    } else {
      return -1, [];
    }
    assert hdr[..hn] == Header(TextFrame(data));
    if first == -1 { return -1, []; }
    return second, Taken(hdr[..hn], first) + Taken(data, second);
  }

  /** Frame writer, then frame reader: the payload comes back and the bytes behind it are untouched. */
  lemma WriteThenRead(data: seq<byte>, tail: seq<byte>)
    requires 1 <= |data| <= PAYLOAD_CAP
    ensures Parse(Encode(TextFrame(data)) + tail, PAYLOAD_CAP) == Got(data, |Encode(TextFrame(data))|)
    ensures Pump(Encode(TextFrame(data)) + tail).sent == data + [NEWLINE] + Pump(tail).sent
    ensures Pump(Encode(TextFrame(data)) + tail).rest == Pump(tail).rest
  {
    var e := Encode(TextFrame(data));
    ParseEncode(TextFrame(data), tail, PAYLOAD_CAP);
    assert (e + tail)[|e|..] == tail;
  }
}
