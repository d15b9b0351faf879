/** One client's stream through the shared table: whatever the other clients, the broadcasts and the
    new connections do, it is read as the client's own chunks, one behind the other. */
module TableStreams {
  import opened Bytes
  import opened ClientTable
  import opened Frames
  import opened Seqs

  /** What the bridge does to its table. */
  datatype Op = Sweep(es: seq<Event>) | Join(s: Socket) | Send(data: seq<byte>, net: seq<Sends>)

  ghost predicate Possible(cs: seq<Slot>, op: Op) {
    match op
    case Sweep(es) => AllFit(cs, es)
    case Join(_) => true
    case Send(_, net) => |net| >= |cs|
  }

  ghost function Next(cs: seq<Slot>, op: Op): seq<Slot>
    requires Possible(cs, op)
  {
    match op
    case Sweep(es) => Kept(Visits(cs, es))
    case Join(s) => if |cs| < MAX_CLIENTS then cs + [Slot(s, false, [])] else cs
    case Send(data, net) => Survivors(cs, |data|, net)
  }

  ghost predicate PossibleRun(cs: seq<Slot>, ops: seq<Op>)
    decreases |ops|
  {
    ops != [] ==> Possible(cs, ops[0]) && PossibleRun(Next(cs, ops[0]), ops[1..])
  }

  ghost function Run(cs: seq<Slot>, ops: seq<Op>): seq<Slot>
    requires PossibleRun(cs, ops)
    decreases |ops|
  {
    if ops == [] then cs else Run(Next(cs, ops[0]), ops[1..])
  }

  // ---------------------------------------------------------------- what concerns one socket

  /** The bytes a sweep sends to the engine for the socket. */
  function From(vs: seq<Visit>, s: Socket): seq<byte> {
    if vs == [] then []
    else
      var v := vs[|vs| - 1];
      From(vs[..|vs| - 1], s) + if v.slot.s == s then v.sent else []
  }

  /** If no other client gives anything, that is all the sweep sends. */
  lemma {:induction false} ForwardedAlone(vs: seq<Visit>, s: Socket)
    requires forall i | 0 <= i < |vs| && vs[i].slot.s != s :: vs[i].sent == []
    ensures Forwarded(vs) == From(vs, s)
  {
    if vs != [] { ForwardedAlone(vs[..|vs| - 1], s); }
  }

  /** The chunks a sweep receives on the socket. */
  function Got(cs: seq<Slot>, es: seq<Event>, s: Socket): seq<seq<byte>>
    requires |es| >= |cs|
  {
    if cs == [] then []
    else
      var m := |cs| - 1;
      Got(cs[..m], es, s) + if cs[m].s == s && es[m].Data? then [es[m].chunk] else []
  }

  /** The peer of the socket closes it, or a send to it fails. */
  predicate Quits(cs: seq<Slot>, es: seq<Event>, s: Socket)
    requires |es| >= |cs|
  {
    exists i | 0 <= i < |cs| :: cs[i].s == s && es[i].Gone?
  }

  predicate SendFails(cs: seq<Slot>, len: nat, net: seq<Sends>, s: Socket)
    requires |net| >= |cs|
  {
    exists i | 0 <= i < |cs| :: cs[i].s == s && cs[i].ws && Fails(len, net[i])
  }

  /** The same over a run. */
  ghost function Forwards(cs: seq<Slot>, ops: seq<Op>, s: Socket): seq<byte>
    requires PossibleRun(cs, ops)
    decreases |ops|
  {
    if ops == [] then []
    else
      (if ops[0].Sweep? then From(Visits(cs, ops[0].es), s) else []) + Forwards(Next(cs, ops[0]), ops[1..], s)
  }

  ghost function Chunks(cs: seq<Slot>, ops: seq<Op>, s: Socket): seq<seq<byte>>
    requires PossibleRun(cs, ops)
    decreases |ops|
  {
    if ops == [] then []
    else (if ops[0].Sweep? then Got(cs, ops[0].es, s) else []) + Chunks(Next(cs, ops[0]), ops[1..], s)
  }

  ghost predicate Leaves(cs: seq<Slot>, op: Op, s: Socket)
    requires Possible(cs, op)
  {
    match op
    case Sweep(es) => Quits(cs, es, s)
    case Join(_) => false
    case Send(data, net) => SendFails(cs, |data|, net, s)
  }

  ghost predicate LeavesInRun(cs: seq<Slot>, ops: seq<Op>, s: Socket)
    requires PossibleRun(cs, ops)
    decreases |ops|
  {
    ops != [] && (Leaves(cs, ops[0], s) || LeavesInRun(Next(cs, ops[0]), ops[1..], s))
  }

  /** No connection is accepted under the socket's own number. */
  predicate Fresh(ops: seq<Op>, s: Socket) {
    forall i | 0 <= i < |ops| :: ops[i] != Join(s)
  }

  // ---------------------------------------------------------------- one slot in the table

  /** The slot at `i` is the only one of its socket. */
  predicate Only(cs: seq<Slot>, i: nat) {
    i < |cs| && forall j | 0 <= j < |cs| && j != i :: cs[j].s != cs[i].s
  }

  predicate Absent(cs: seq<Slot>, s: Socket) {
    forall j | 0 <= j < |cs| :: cs[j].s != s
  }

  /** The visits belong to the slots. */
  predicate Owned(cs: seq<Slot>, vs: seq<Visit>) {
    |vs| == |cs| && forall j | 0 <= j < |cs| :: vs[j].slot.s == cs[j].s
  }

  lemma {:induction false} AbsentVisits(cs: seq<Slot>, es: seq<Event>, vs: seq<Visit>, s: Socket)
    requires |es| >= |cs| && Owned(cs, vs) && Absent(cs, s)
    ensures From(vs, s) == [] && Got(cs, es, s) == [] && Absent(Kept(vs), s)
  {
    if cs != [] {
      var m := |cs| - 1;
      AbsentVisits(cs[..m], es, vs[..m], s);
    }
  }

  /** What the visits of one sweep do to the one slot of a socket. */
  lemma {:induction false} OnlyVisit(cs: seq<Slot>, es: seq<Event>, vs: seq<Visit>, i: nat) returns (k: nat)
    requires |es| >= |cs| && Owned(cs, vs) && Only(cs, i)
    ensures From(vs, cs[i].s) == vs[i].sent
    ensures Got(cs, es, cs[i].s) == if es[i].Data? then [es[i].chunk] else []
    ensures vs[i].keep ==> Only(Kept(vs), k) && Kept(vs)[k] == vs[i].slot
    ensures !vs[i].keep ==> Absent(Kept(vs), cs[i].s)
  {
    var m, s := |cs| - 1, cs[i].s;
    if i < m {
      k := OnlyVisit(cs[..m], es, vs[..m], i);
      assert vs[m].slot.s != s;
    } else {
      AbsentVisits(cs[..m], es, vs[..m], s);
      k := |Kept(vs[..m])|;
    }
  }

  lemma {:induction false} AbsentSend(cs: seq<Slot>, len: nat, net: seq<Sends>, s: Socket)
    requires |net| >= |cs| && Absent(cs, s)
    ensures Absent(Survivors(cs, len, net), s)
  {
    if cs != [] { AbsentSend(cs[..|cs| - 1], len, net, s); }
  }

  lemma {:induction false} OnlySend(cs: seq<Slot>, len: nat, net: seq<Sends>, i: nat) returns (k: nat)
    requires |net| >= |cs| && Only(cs, i)
    ensures var lost := cs[i].ws && Fails(len, net[i]);
      && (!lost ==> Only(Survivors(cs, len, net), k) && Survivors(cs, len, net)[k] == cs[i])
      && (lost ==> Absent(Survivors(cs, len, net), cs[i].s))
  {
    var m := |cs| - 1;
    if i < m {
      k := OnlySend(cs[..m], len, net, i);
    } else {
      AbsentSend(cs[..m], len, net, cs[i].s);
      k := |Survivors(cs[..m], len, net)|;
    }
  }

  lemma VisitsOwned(cs: seq<Slot>, es: seq<Event>)
    requires AllFit(cs, es)
    ensures Owned(cs, Visits(cs, es))
  {
  }

  /** A socket that is not in the table stays out of it and gets and gives nothing. */
  lemma {:induction false} AbsentRun(cs: seq<Slot>, ops: seq<Op>, s: Socket)
    requires PossibleRun(cs, ops) && Absent(cs, s) && Fresh(ops, s)
    ensures Forwards(cs, ops, s) == [] && Chunks(cs, ops, s) == [] && Absent(Run(cs, ops), s)
    ensures !LeavesInRun(cs, ops, s)
    decreases |ops|
  {
    if ops != [] {
      var op := ops[0];
      match op {
        case Sweep(es) =>
          VisitsOwned(cs, es);
          AbsentVisits(cs, es, Visits(cs, es), s);
        case Join(_) =>
        case Send(data, net) => AbsentSend(cs, |data|, net, s);
      }
      assert forall i | 0 <= i < |ops| - 1 :: ops[1..][i] == ops[i + 1];
      AbsentRun(Next(cs, op), ops[1..], s);
    }
  }

  // ---------------------------------------------------------------- the stream of one client

  /** One chunk more in front, unless it is refused. */
  lemma FeedCons(b: seq<byte>, c: seq<byte>, cs: seq<seq<byte>>)
    ensures var p, f := Pump(b + c), Feed(b, [c] + cs);
      if p.stop.Refused? then f == p
      else
        var g := Feed(p.rest, cs);
        f.sent == p.sent + g.sent && f.rest == g.rest && (f.stop.Refused? <==> g.stop.Refused?)
  {
    var all := [c] + cs;
    assert all[0] == c && all[1..] == cs;
    if cs == [] { Unit(Pump(b + c).sent); }
  }

  /** The client at `i` is left with `f`, or it is gone. */
  ghost predicate EndsWith(table: seq<Slot>, s: Socket, f: Pumped, left: bool) {
    && (Absent(table, s) <==> left || f.stop.Refused?)
    && (!Absent(table, s) ==> exists k: nat :: Only(table, k) && table[k] == Slot(s, true, f.rest))
  }

  /** A WebSocket client in any run of sweeps, broadcasts and new connections: what the bridge forwards
      to the engine for it and what stays in its buffer are what its own chunks yield, fed one by one
      behind the bytes already there; it is closed if and only if its peer quits, a send to it fails, or
      the stream has a frame that is refused. */
  lemma {:induction false} StreamIsFed(cs: seq<Slot>, ops: seq<Op>, i: nat)
    requires PossibleRun(cs, ops) && Only(cs, i) && cs[i].ws && Fresh(ops, cs[i].s)
    ensures var c := cs[i];
      var f := Feed(c.pending, Chunks(cs, ops, c.s));
      Forwards(cs, ops, c.s) == f.sent && EndsWith(Run(cs, ops), c.s, f, LeavesInRun(cs, ops, c.s))
    decreases |ops|
  {
    if ops == [] {
      assert cs[i] == Slot(cs[i].s, true, cs[i].pending);
    } else {
      assert Fresh(ops[1..], cs[i].s) by { assert forall j | 0 <= j < |ops| - 1 :: ops[1..][j] == ops[j + 1]; }
      match ops[0]
      case Sweep(es) => SweepFed(cs, ops, i);
      case Join(s) =>
        assert Only(Next(cs, ops[0]), i);
        StreamIsFed(Next(cs, ops[0]), ops[1..], i);
        Neutral(cs, ops, cs[i].s);
      case Send(data, net) =>
        var k := OnlySend(cs, |data|, net, i);
        Neutral(cs, ops, cs[i].s);
        if cs[i].ws && Fails(|data|, net[i]) {
          AbsentRun(Next(cs, ops[0]), ops[1..], cs[i].s);
        } else {
          StreamIsFed(Next(cs, ops[0]), ops[1..], k);
        }
    }
  }

  lemma Neutral(cs: seq<Slot>, ops: seq<Op>, s: Socket)
    requires PossibleRun(cs, ops) && ops != [] && !ops[0].Sweep?
    ensures Forwards(cs, ops, s) == Forwards(Next(cs, ops[0]), ops[1..], s)
    ensures Chunks(cs, ops, s) == Chunks(Next(cs, ops[0]), ops[1..], s)
  {
    Unit(Forwards(Next(cs, ops[0]), ops[1..], s));
    Unit(Chunks(Next(cs, ops[0]), ops[1..], s));
  }

  lemma {:induction false} SweepFed(cs: seq<Slot>, ops: seq<Op>, i: nat)
    requires PossibleRun(cs, ops) && ops != [] && ops[0].Sweep? && Only(cs, i) && cs[i].ws
    requires Fresh(ops[1..], cs[i].s)
    ensures var c := cs[i];
      var f := Feed(c.pending, Chunks(cs, ops, c.s));
      Forwards(cs, ops, c.s) == f.sent && EndsWith(Run(cs, ops), c.s, f, LeavesInRun(cs, ops, c.s))
    decreases |ops|, 0
  {
    var c, es, tail := cs[i], ops[0].es, ops[1..];
    var vs, next := Visits(cs, es), Kept(Visits(cs, es));
    VisitsOwned(cs, es);
    var k := OnlyVisit(cs, es, vs, i);
    assert Quits(cs, es, c.s) <==> es[i].Gone?;
    if vs[i].keep {
      StreamIsFed(next, tail, k);
    } else {
      AbsentRun(next, tail, c.s);
    }
    VisitFeeds(c, es[i], Chunks(next, tail, c.s));
    Unit(vs[i].sent);
  }

  /** The event of one sweep in front of the chunks of the later ones. */
  lemma VisitFeeds(c: Slot, e: Event, later: seq<seq<byte>>)
    requires c.ws && Fits(c, e) && (VisitSlot(c, e).keep || later == [])
    ensures var v := VisitSlot(c, e);
      var f := Feed(c.pending, (if e.Data? then [e.chunk] else []) + later);
      && (e.Data? && !v.keep ==> f.stop.Refused? && f.sent == v.sent)
      && (!e.Data? ==> f == Feed(c.pending, later) && v.sent == [] && v.keep == !e.Gone?)
      && (v.keep ==>
        var g := Feed(v.slot.pending, later);
        v.slot == Slot(c.s, true, v.slot.pending) && f.sent == v.sent + g.sent && f.rest == g.rest
        && (f.stop.Refused? <==> g.stop.Refused?))
  {
    if e.Data? {
      FeedCons(c.pending, e.chunk, later);
    } else {
      Unit(later);
      Unit(Feed(c.pending, later).sent);
    }
  }

  /** So the frame reader's chunk independence holds of the table: a client whose stream is whole frames
      and an incomplete one has exactly their payload lines forwarded, however the chunks were cut and
      whatever happened between them. */
  lemma TableReadsFrames(cs: seq<Slot>, ops: seq<Op>, i: nat, fs: seq<Frame>, part: seq<byte>)
    requires forall k | 0 <= k < |fs| :: fs[k].Forwardable()
    requires Incomplete(part)
    requires PossibleRun(cs, ops) && Only(cs, i) && cs[i].ws && cs[i].pending == [] && Fresh(ops, cs[i].s)
    requires Concat(Chunks(cs, ops, cs[i].s)) == EncodeAll(fs) + part && !LeavesInRun(cs, ops, cs[i].s)
    ensures Forwards(cs, ops, cs[i].s) == Lines(fs)
    ensures exists k: nat :: Only(Run(cs, ops), k) && Run(cs, ops)[k] == Slot(cs[i].s, true, part)
  {
    StreamIsFed(cs, ops, i);
    ChunkIndependence(fs, part, Chunks(cs, ops, cs[i].s));
  }

  // ---------------------------------------------------------------- before the upgrade

  /** A client in its HTTP phase keeps every byte, in order, and sends nothing; the upgrade starts its
      stream with the bytes left over. */
  lemma HttpKeepsBytes(cs: seq<Slot>, es: seq<Event>, i: nat)
    requires AllFit(cs, es) && Only(cs, i) && !cs[i].ws && es[i].Data? && !es[i].http.ClosePage?
    ensures var c, e, next := cs[i], es[i], Kept(Visits(cs, es));
      var f := if e.http.Upgrade? then Feed([], [e.http.leftover]) else Pumped([], c.pending + e.chunk, Starved);
      && From(Visits(cs, es), c.s) == f.sent
      && (f.stop.Refused? <==> Absent(next, c.s))
      && (!f.stop.Refused? ==> exists k: nat :: Only(next, k) && next[k] == Slot(c.s, e.http.Upgrade?, f.rest))
  {
    var vs := Visits(cs, es);
    VisitsOwned(cs, es);
    var k := OnlyVisit(cs, es, vs, i);
    if es[i].http.Upgrade? { Unit(es[i].http.leftover); }
    if vs[i].keep { assert Only(Kept(vs), k); }
  }
}
