/** The headless server's globals: eight sockets, eight byte buffers and their lengths, shifted
    together whenever a client goes.  The methods keep the three arrays in step and are proved against
    the sessions of `Sessions`, whose laws over whole runs therefore hold of them. */
module HeadlessServer {
  import opened Compaction
  import opened Recognition
  import opened Seqs
  import opened Text
  import opened Sessions

  /** The buffer holds this C string. */
  ghost predicate Spells(buf: array<char>, s: string)
    reads buf
  {
    |s| < buf.Length && buf[..|s|] == s && buf[|s|] == '\0'
  }

  class Server {
    const clients: array<int>
    const inputs: array2<char>
    const lens: array<nat>
    var count: nat
    var lastCi: int
    ghost var sessions: seq<Session>
    ghost var past: seq<Session>

    constructor ()
      ensures Valid() && fresh(clients) && fresh(inputs) && fresh(lens) && sessions == [] && past == [] && lastCi == -1
    {
      clients := new int[HL_MAX_CLIENTS];
      inputs := new char[HL_MAX_CLIENTS, HL_INPUT_CAP];
      lens := new nat[HL_MAX_CLIENTS];
      count, lastCi := 0, -1;
      sessions, past := [], [];
    }

    ghost predicate Shape()
    {
      clients.Length == lens.Length == inputs.Length0 == HL_MAX_CLIENTS && inputs.Length1 == HL_INPUT_CAP
    }

    /** Slot `i` of the parallel arrays holds exactly this session's socket and bytes. */
    ghost predicate Holds(i: nat, s: Session)
      requires Shape() && i < HL_MAX_CLIENTS
      reads clients, lens, inputs
    {
      && clients[i] == s.sock && lens[i] == |s.buf| && |s.buf| < HL_INPUT_CAP
      && forall j | 0 <= j < |s.buf| :: inputs[i, j] == s.buf[j]
    }

    /** Every buffer is paired with its socket. */
    ghost predicate Valid()
      reads this, clients, lens, inputs
    {
      Shape() && count == |sessions| <= HL_MAX_CLIENTS && forall i | 0 <= i < count :: Holds(i, sessions[i])
    }

    /** One step of the shift in `remove_client`; only the used bytes are copied. */
    method MoveDown(k: nat, ghost s: Session)
      requires Shape() && k + 1 < HL_MAX_CLIENTS && Holds(k + 1, s)
      modifies clients, lens, inputs
      ensures Holds(k, s)
      ensures forall r: nat, t: Session | r < HL_MAX_CLIENTS && r != k && old(Holds(r, t)) :: Holds(r, t)
    {
      clients[k] := clients[k + 1];
      lens[k] := lens[k + 1];
      var n := lens[k];
      var j := 0;
      while j < n
        invariant 0 <= j <= n
        invariant forall c | 0 <= c < j :: inputs[k, c] == inputs[k + 1, c]
        invariant forall r, c | 0 <= r < HL_MAX_CLIENTS && r != k && 0 <= c < HL_INPUT_CAP ::
          inputs[r, c] == old(inputs[r, c])
        modifies inputs
      {
        inputs[k, j] := inputs[k + 1, j];
        j := j + 1;
      }
    }

    /** Drops the first `n` bytes of a buffer, sliding the rest to the front. */
    method DropFront(i: nat, n: nat, ghost s: Session)
      requires Shape() && i < HL_MAX_CLIENTS && Holds(i, s) && n <= |s.buf|
      modifies lens, inputs
      ensures Holds(i, s.(buf := s.buf[n..]))
      ensures forall r: nat, t: Session | r < HL_MAX_CLIENTS && r != i && old(Holds(r, t)) :: Holds(r, t)
    {
      var rest := lens[i] - n;
      var j := 0;
      while j < rest
        invariant 0 <= j <= rest
        invariant forall c | 0 <= c < j :: inputs[i, c] == s.buf[n + c]
        invariant forall c | j <= c < |s.buf| :: inputs[i, c] == s.buf[c]
        invariant forall r, c | 0 <= r < HL_MAX_CLIENTS && r != i && 0 <= c < HL_INPUT_CAP ::
          inputs[r, c] == old(inputs[r, c])
        modifies inputs
      {
        inputs[i, j] := inputs[i, n + j];
        j := j + 1;
      }
      lens[i] := rest;
    }

    /** The receive step: an overflowing buffer is emptied before the chunk is copied in. */
    method Store(i: nat, chunk: string, ghost s: Session)
      requires Shape() && i < HL_MAX_CLIENTS && Holds(i, s) && |chunk| <= RECV_MAX
      modifies lens, inputs
      ensures Holds(i, Append(s, chunk))
      ensures forall r: nat, t: Session | r < HL_MAX_CLIENTS && r != i && old(Holds(r, t)) :: Holds(r, t)
    {
      if lens[i] + |chunk| >= HL_INPUT_CAP { lens[i] := 0; }
      if lens[i] + |chunk| < HL_INPUT_CAP {
        var at := lens[i];
        var j := 0;
        while j < |chunk|
          invariant 0 <= j <= |chunk|
          invariant forall c | 0 <= c < at :: inputs[i, c] == s.buf[c]
          invariant forall c | 0 <= c < j :: inputs[i, at + c] == chunk[c]
          invariant forall r, c | 0 <= r < HL_MAX_CLIENTS && r != i && 0 <= c < HL_INPUT_CAP ::
            inputs[r, c] == old(inputs[r, c])
          modifies inputs
        {
          inputs[i, at + j] := chunk[j];
          j := j + 1;
        }
        lens[i] := lens[i] + |chunk|;
      }
    }

    /** `remove_client`. */
    method Remove(i: nat)
      requires Valid() && i < count
      modifies `count, `sessions, `past, clients, lens, inputs
      ensures Valid()
      ensures sessions == old(sessions)[..i] + old(sessions)[i + 1..]
      ensures past == old(past) + [old(sessions)[i]]
    {
      ghost var ss := sessions;
      ghost var rest := ss[..i] + ss[i + 1..];
      past := past + [ss[i]];
      var last := count - 1;
      var k := i;
      while k + 1 < count
        invariant i <= k <= last
        invariant forall r | k <= r < |ss| :: Holds(r, ss[r])
        invariant forall r | 0 <= r < k :: Holds(r, rest[r])
        modifies clients, lens, inputs
      {
        MoveDown(k, ss[k + 1]);
        k := k + 1;
      }
      count := last;
      sessions := rest;
    }

    /** memchr on one buffer. */
    method FindNewline(i: nat, ghost s: Session) returns (k: nat)
      requires Shape() && i < HL_MAX_CLIENTS && Holds(i, s)
      ensures k == Find(s.buf, '\n')
    {
      k := 0;
      while k < lens[i] && inputs[i, k] != '\n'
        invariant 0 <= k <= lens[i] && '\n' !in s.buf[..k]
      {
        k := k + 1;
      }
      FindIs(s.buf, '\n', k);
    }

    /** Copies a line to the caller's buffer and terminates it. */
    method CopyLine(ci: nat, buf: array<char>, len: nat, ghost s: Session)
      requires Shape() && ci < HL_MAX_CLIENTS && Holds(ci, s) && len <= |s.buf| && len < buf.Length
      modifies buf
      ensures buf[..len] == s.buf[..len] && Spells(buf, s.buf[..len])
    {
      var j := 0;
      while j < len
        invariant 0 <= j <= len && buf[..j] == s.buf[..j]
      {
        buf[j] := inputs[ci, j];
        j := j + 1;
      }
      buf[len] := '\0';
    }

    /** `extract_line`: the caller's buffer gets the line and a NUL when one is delivered. */
    method ExtractLine(ci: nat, buf: array<char>, cap: nat) returns (kind: nat)
      requires Valid() && ci < count && cap <= buf.Length
      modifies `sessions, `lastCi, lens, inputs, buf
      ensures Valid() && count == old(count)
      ensures var e := Extract(old(sessions)[ci], cap);
        && kind == e.kind && sessions == old(sessions)[ci := e.session]
        && (kind != 0 ==> |e.line| < cap && Spells(buf, e.line) && Announces(kind, e.line))
        && lastCi == if kind != 0 then ci else old(lastCi)
    {
      ghost var s := sessions[ci];
      ghost var e := Extract(s, cap);
      var len := FindNewline(ci, s);
      if len == lens[ci] {
        assert sessions == sessions[ci := s];
        return 0;
      }
      ExtractAnnounces(s, cap);
      kind := 0;
      if 0 < len < cap {
        CopyLine(ci, buf, len, s);
        kind := Kind(buf[..len]);
        if kind != 0 { lastCi := ci; }
      }
      DropFront(ci, len + 1, s);
      sessions := sessions[ci := e.session];
    }

    /** The poll loop body for the client in slot `i`. */
    method Serve(i: nat, r: Recv, buf: array<char>, cap: nat) returns (kind: nat, gone: bool)
      requires Valid() && i < count && cap <= buf.Length && Legal(r)
      modifies this, clients, lens, inputs, buf
      ensures Valid()
      ensures var s := old(sessions)[i]; var v := VisitClient(s, r, cap);
        && kind == v.after.kind && gone == v.gone
        && sessions == Replaced(old(sessions), i, if gone then [] else [v.after.session])
        && past == old(past) + (if gone then [v.after.session] else [])
        && (kind != 0 ==> |v.after.line| < cap && Spells(buf, v.after.line))
        && lastCi == if kind != 0 then i else old(lastCi)
    {
      ghost var ss, e := sessions, Extract(sessions[i], cap);
      kind := ExtractLine(i, buf, cap);
      gone := false;
      if kind != 0 { return; }
      if r == Closed || r == HardError {
        Remove(i);
        gone := true;
        assert ss[i := e.session][..i] == ss[..i] && ss[i := e.session][i + 1..] == ss[i + 1..];
        return;
      }
      if r.Chunk? {
        assert sessions[i] == e.session;
        Store(i, r.data, e.session);
        sessions := sessions[i := Append(e.session, r.data)];
        kind := ExtractLine(i, buf, cap);
      }
    }

    /** `headless_poll_input`. */
    method PollInput(net: seq<Recv>, buf: array<char>, cap: nat) returns (kind: nat)
      requires Valid() && |net| >= count && cap <= buf.Length && AllLegal(net)
      modifies this, clients, lens, inputs, buf
      ensures Valid()
      ensures cap < 2 ==> kind == 0 && sessions == old(sessions) && past == old(past) && lastCi == old(lastCi)
      ensures cap >= 2 ==>
        var p := Poll(old(sessions), net, cap);
        && kind == p.kind && sessions == p.sessions && past == old(past) + p.gone
        && (kind != 0 ==> |p.line| < cap && Spells(buf, p.line) && Announces(kind, p.line))
        && lastCi == if kind != 0 then p.ci else old(lastCi)
    {
      if cap < 2 { return 0; }
      ghost var all, before := sessions, past;
      var k, i := 0, 0;
      PollStart(all, net, cap, before);
      PollAnnounces(all, net, cap);
      while i < count
        invariant Valid() && 0 <= i && 0 <= k <= |all| && lastCi == old(lastCi)
        invariant PolledTo(all, net, cap, k, before, sessions, i, past)
        decreases |all| - k
      {
        PollEnd(all, net, cap, k, before, sessions, i, past);
        PollTurn(all, net, cap, k, before, sessions, i, past);
        var gone;
        kind, gone := Serve(i, net[k], buf, cap);
        if kind != 0 { return; }
        if !gone { i := i + 1; }
        k := k + 1;
      }
      PollEnd(all, net, cap, k, before, sessions, i, past);
      return 0;
    }

    /** The loop body of `headless_send_frame`. */
    method SendOne(i: nat, r: Sent) returns (stays: bool)
      requires Valid() && i < count
      modifies this, clients, lens, inputs
      ensures Valid() && stays == !r.Broken?
      ensures sessions == Replaced(old(sessions), i, if stays then [old(sessions)[i]] else [])
      ensures past == old(past) + if stays then [] else [old(sessions)[i]]
    {
      stays := r != Broken;
      if stays {
        SplitAt(sessions, i);
        Unit(past);
      } else {
        ghost var ss := sessions;
        Remove(i);
        Unit(ss[..i]);
      }
    }

    /** `headless_send_frame`: one send per client; `net` gives the results in table order. */
    method SendFrame(net: seq<Sent>)
      requires Valid() && |net| >= count
      modifies this, clients, lens, inputs
      ensures Valid()
      ensures sessions == Reached(old(sessions), net) && past == old(past) + Unreached(old(sessions), net)
    {
      ghost var all := sessions;
      var k, i := 0, 0;
      while i < count
        invariant Valid() && 0 <= i <= count && 0 <= k <= |all|
        invariant sessions[..i] == Reached(all[..k], net) && sessions[i..] == all[k..]
        invariant past == old(past) + Unreached(all[..k], net)
        decreases |all| - k
      {
        ghost var rest := if net[k].Broken? then [] else [sessions[i]];
        Advance(sessions, i, rest, all, k);
        ReachedSnoc(all, net, k);
        Assoc(old(past), Unreached(all[..k], net), if net[k].Broken? then [all[k]] else []);
        var stays := SendOne(i, net[k]);
        if stays { i := i + 1; }
        k := k + 1;
      }
      assert all[..k] == all && sessions[..i] == sessions;
    }

    /** `headless_accept`: `socks` are the pending connections; at capacity they stay pending. */
    method Accept(socks: seq<int>)
      requires Valid()
      modifies this, clients, lens
      ensures Valid()
      ensures sessions == Accepted(old(sessions), socks) && past == old(past)
    {
      var k := 0;
      while count < HL_MAX_CLIENTS && k < |socks|
        invariant Valid() && 0 <= k <= |socks| && past == old(past)
        invariant Accepted(sessions, socks[k..]) == Accepted(old(sessions), socks)
        decreases |socks| - k
      {
        clients[count] := socks[k];
        lens[count] := 0;
        sessions := sessions + [Opened(socks[k])];
        count := count + 1;
        assert socks[k..][1..] == socks[k + 1..];
        k := k + 1;
      }
    }
  }
}
