/** The bridge's client table: a compact array of structs that is edited while it is iterated.
    C assigns whole structs, so a slot is a value; `pending` is the used part of its buffer. */
module ClientTable {
  import opened Bytes
  import opened Compaction
  import opened Frames
  import opened Seqs
  import WsClient

  type Socket = int

  const MAX_CLIENTS := 16

  datatype Slot = Slot(s: Socket, ws: bool, pending: seq<byte>)

  /** Results of the two sends inside one `ws_send_text`; -1 is SOCKET_ERROR. */
  datatype Sends = Sends(header: int, body: int)

  /** The outcome of one `ws_send_text` call. */
  predicate Fails(len: nat, r: Sends) {
    len >= 65536 || r.header == -1 || r.body == -1
  }

  /** The table after a broadcast: the old one, in order, minus the clients whose attempt failed. */
  function Survivors(cs: seq<Slot>, len: nat, net: seq<Sends>): seq<Slot>
    requires |net| >= |cs|
  {
    if cs == [] then []
    else
      var m := |cs| - 1;
      Survivors(cs[..m], len, net) + if cs[m].ws && Fails(len, net[m]) then [] else [cs[m]]
  }

  function Casualties(cs: seq<Slot>, len: nat, net: seq<Sends>): seq<Socket>
    requires |net| >= |cs|
  {
    if cs == [] then []
    else
      var m := |cs| - 1;
      Casualties(cs[..m], len, net) + if cs[m].ws && Fails(len, net[m]) then [cs[m].s] else []
  }

  /** The WebSocket clients, in table order. */
  function WsSockets(cs: seq<Slot>): seq<Socket> {
    if cs == [] then []
    else
      var m := |cs| - 1;
      WsSockets(cs[..m]) + if cs[m].ws then [cs[m].s] else []
  }

  /** One attempt: the socket and what went out on it. */
  datatype Attempt = Attempt(s: Socket, wire: seq<byte>)

  function AttemptOf(c: Slot, data: seq<byte>, r: Sends): Attempt {
    Attempt(c.s, if |data| >= 65536 then [] else WsClient.Wire(data, r.header, r.body))
  }

  /** The attempts of a broadcast, in table order. */
  function Attempts(cs: seq<Slot>, data: seq<byte>, net: seq<Sends>): seq<Attempt>
    requires |net| >= |cs|
  {
    if cs == [] then []
    else
      var m := |cs| - 1;
      Attempts(cs[..m], data, net) + if cs[m].ws then [AttemptOf(cs[m], data, net[m])] else []
  }

  /** The sockets that were tried are those of the WebSocket clients. */
  lemma {:induction false} AttemptsReachAll(cs: seq<Slot>, data: seq<byte>, net: seq<Sends>)
    requires |net| >= |cs|
    ensures |Attempts(cs, data, net)| == |WsSockets(cs)|
    ensures forall i | 0 <= i < |WsSockets(cs)| :: Attempts(cs, data, net)[i].s == WsSockets(cs)[i]
  {
    if cs != [] { AttemptsReachAll(cs[..|cs| - 1], data, net); }
  }

  /** A client that stays although its frame did not go out whole. */
  predicate Torn(c: Slot, data: seq<byte>, r: Sends) {
    c.ws && !Fails(|data|, r) && AttemptOf(c, data, r).wire != Encode(TextFrame(data))
  }

  /** Which clients stay with a broken stream: exactly those for which no send was an error and one
      was short.  -1 is the only negative result of a send. */
  lemma TornExact(c: Slot, data: seq<byte>, r: Sends)
    requires r.header >= -1 && r.body >= -1
    ensures Torn(c, data, r) <==>
      && c.ws && |data| < 65536 && r.header >= 0 && r.body >= 0
      && (r.header < |Header(TextFrame(data))| || r.body < |data|)
  {
    if |data| < 65536 { WsClient.WireComplete(data, r.header, r.body); }
  }

  lemma {:induction false} TornStays(cs: seq<Slot>, data: seq<byte>, net: seq<Sends>, i: nat)
    requires i < |cs| <= |net| && Torn(cs[i], data, net[i])
    ensures cs[i] in Survivors(cs, |data|, net)
  {
    var m := |cs| - 1;
    if i < m { TornStays(cs[..m], data, net, i); }
  }

  /** A broadcast leaves no broken stream behind if and only if no send to a WebSocket client is short
      without an error. */
  lemma BroadcastWhole(cs: seq<Slot>, data: seq<byte>, net: seq<Sends>)
    requires |net| >= |cs| && |data| < 65536 && forall i | 0 <= i < |cs| :: net[i].header >= -1 && net[i].body >= -1
    ensures (forall i | 0 <= i < |cs| :: !Torn(cs[i], data, net[i])) <==>
      forall i | 0 <= i < |cs| :: cs[i].ws && net[i].header >= 0 && net[i].body >= 0 ==>
        net[i].header >= |Header(TextFrame(data))| && net[i].body >= |data|
  {
    forall i | 0 <= i < |cs|
      ensures !Torn(cs[i], data, net[i]) <==> (cs[i].ws && net[i].header >= 0 && net[i].body >= 0 ==>
        net[i].header >= |Header(TextFrame(data))| && net[i].body >= |data|)
    {
      TornExact(cs[i], data, net[i]);
    }
  }

  /** A short header: one octet of it and three of the thousand behind it go out, and the client stays. */
  lemma ShortHeaderStays(c: Slot, data: seq<byte>)
    requires c.ws && |data| == 1000
    ensures Torn(c, data, Sends(1, 3)) && AttemptOf(c, data, Sends(1, 3)).wire == [0x81] + data[..3]
    ensures c in Survivors([c], |data|, [Sends(1, 3)])
  {
    TornExact(c, data, Sends(1, 3));
    TornStays([c], data, [Sends(1, 3)], 0);
    assert Header(TextFrame(data))[..1] == [0x81];
  }

  /** How often a socket occurs in a table, in a list. */
  function InTable(cs: seq<Slot>, s: Socket): nat {
    if cs == [] then 0 else InTable(cs[..|cs| - 1], s) + if cs[|cs| - 1].s == s then 1 else 0
  }

  function InList(ss: seq<Socket>, s: Socket): nat {
    if ss == [] then 0 else InList(ss[..|ss| - 1], s) + if ss[|ss| - 1] == s then 1 else 0
  }

  lemma SurvivorsSnoc(cs: seq<Slot>, data: seq<byte>, net: seq<Sends>, k: nat)
    requires k < |cs| <= |net|
    ensures var len, lost := |data|, cs[k].ws && Fails(|data|, net[k]);
      && Survivors(cs[..k + 1], len, net) == Survivors(cs[..k], len, net) + (if lost then [] else [cs[k]])
      && Casualties(cs[..k + 1], len, net) == Casualties(cs[..k], len, net) + (if lost then [cs[k].s] else [])
      && Attempts(cs[..k + 1], data, net)
        == Attempts(cs[..k], data, net) + (if cs[k].ws then [AttemptOf(cs[k], data, net[k])] else [])
  {
    Longer(cs, k);
  }

  /** The same behind what was closed and tried before. */
  lemma BroadcastStep(cs: seq<Slot>, data: seq<byte>, net: seq<Sends>, k: nat, closed: seq<Socket>, tried: seq<Attempt>)
    requires k < |cs| <= |net|
    ensures var len, lost := |data|, cs[k].ws && Fails(|data|, net[k]);
      && Survivors(cs[..k + 1], len, net) == Survivors(cs[..k], len, net) + (if lost then [] else [cs[k]])
      && closed + Casualties(cs[..k + 1], len, net)
        == closed + Casualties(cs[..k], len, net) + (if lost then [cs[k].s] else [])
      && tried + Attempts(cs[..k + 1], data, net)
        == tried + Attempts(cs[..k], data, net) + (if cs[k].ws then [AttemptOf(cs[k], data, net[k])] else [])
  {
    SurvivorsSnoc(cs, data, net, k);
    Assoc(closed, Casualties(cs[..k], |data|, net), if cs[k].ws && Fails(|data|, net[k]) then [cs[k].s] else []);
    Assoc(tried, Attempts(cs[..k], data, net), if cs[k].ws then [AttemptOf(cs[k], data, net[k])] else []);
  }

  lemma TableSnoc(cs: seq<Slot>, c: Slot, s: Socket)
    ensures InTable(cs + [c], s) == InTable(cs, s) + if c.s == s then 1 else 0
  {
    Parts(cs, [c]);
  }

  lemma ListSnoc(ss: seq<Socket>, x: Socket, s: Socket)
    ensures InList(ss + [x], s) == InList(ss, s) + if x == s then 1 else 0
  {
    Parts(ss, [x]);
  }

  /** One client settled: it goes to the end of the kept table or of the closed list. */
  lemma Settle(kept: seq<Slot>, lost: seq<Socket>, c: Slot, stays: bool, s: Socket)
    ensures InTable(kept + (if stays then [c] else []), s) + InList(lost + (if stays then [] else [c.s]), s)
      == InTable(kept, s) + InList(lost, s) + if c.s == s then 1 else 0
  {
    if stays {
      TableSnoc(kept, c, s);
      Unit(lost);
    } else {
      ListSnoc(lost, c.s, s);
      Unit(kept);
    }
  }

  /** No socket is lost or closed twice: survivors and casualties partition the table. */
  lemma {:induction false} BroadcastConserves(cs: seq<Slot>, len: nat, net: seq<Sends>, s: Socket)
    requires |net| >= |cs|
    ensures InTable(Survivors(cs, len, net), s) + InList(Casualties(cs, len, net), s) == InTable(cs, s)
  {
    if cs != [] {
      var m := |cs| - 1;
      var lost := cs[m].ws && Fails(len, net[m]);
      BroadcastConserves(cs[..m], len, net, s);
      Settle(Survivors(cs[..m], len, net), Casualties(cs[..m], len, net), cs[m], !lost, s);
    }
  }

  /** The engine's recv buffer holds 65536 octets, one more than the writer accepts.  When every
      send would succeed, nobody is dropped exactly when the chunk is shorter than that or there
      is no WebSocket client; a full chunk drops every one of them. */
  lemma {:induction false} FullChunkDropsEveryone(cs: seq<Slot>, len: nat, net: seq<Sends>)
    requires |net| >= |cs| && forall i | 0 <= i < |cs| :: net[i].header >= 0 && net[i].body >= 0
    ensures Survivors(cs, len, net) == cs <==> len < 65536 || WsSockets(cs) == []
    ensures len >= 65536 ==> Casualties(cs, len, net) == WsSockets(cs)
    ensures |Survivors(cs, len, net)| <= |cs|
  {
    if cs != [] {
      var m := |cs| - 1;
      FullChunkDropsEveryone(cs[..m], len, net);
      assert cs == cs[..m] + [cs[m]];
    }
  }

  // ---------------------------------------------------------------- the client sweep

  /** What one pass of the sweep sees on one slot.  For a client still in its HTTP phase the
      outcome of `client_recv_http` is given: keep reading, close, or upgrade with left-over bytes. */
  datatype Event =
    | Idle
    | WouldBlock
    | Gone
    | Data(chunk: seq<byte>, http: Http)

  datatype Http = KeepReading | ClosePage | Upgrade(leftover: seq<byte>)

  datatype Visit = Visit(slot: Slot, keep: bool, sent: seq<byte>)

  /** recv returns at least one octet, and it and the upgrade leave room in the buffer. */
  predicate Fits(c: Slot, e: Event) {
    e.Data? ==>
      && 0 < |e.chunk| && |c.pending| + |e.chunk| < WsClient.CLIENT_BUF
      && (e.http.Upgrade? ==> |e.http.leftover| < WsClient.CLIENT_BUF)
  }

  predicate AllFit(cs: seq<Slot>, es: seq<Event>) {
    |es| >= |cs| && forall i | 0 <= i < |cs| :: Fits(cs[i], es[i])
  }

  /** A full buffer ends the connection: recv is asked for no octets, which reads as the end of the
      stream, and no data can come any more. */
  lemma FullBufferGetsNothing(c: Slot, e: Event)
    requires |c.pending| == WsClient.CLIENT_BUF - 1 && Fits(c, e)
    ensures VisitSlot(c, e).keep ==> VisitSlot(c, e) == Visit(c, true, [])
  {
  }

  function PumpSlot(c: Slot, bytes: seq<byte>): Visit
    requires |bytes| < WsClient.CLIENT_BUF
  {
    var p := Pump(bytes);
    Visit(Slot(c.s, true, p.rest), !p.stop.Refused?, p.sent)
  }

  function VisitSlot(c: Slot, e: Event): Visit
    requires Fits(c, e)
  {
    match e
    case Idle => Visit(c, true, [])
    case WouldBlock => Visit(c, true, [])
    case Gone => Visit(c, false, [])
    case Data(chunk, http) =>
      if c.ws then PumpSlot(c, c.pending + chunk)
      else match http
        case KeepReading => Visit(c.(pending := c.pending + chunk), true, [])
        case ClosePage => Visit(c, false, [])
        case Upgrade(left) => PumpSlot(c, left)
  }

  /** What the visits of one sweep yield, client by client. */
  function Visits(cs: seq<Slot>, es: seq<Event>): (vs: seq<Visit>)
    requires AllFit(cs, es)
    ensures |vs| == |cs|
  {
    seq(|cs|, i requires 0 <= i < |cs| => VisitSlot(cs[i], es[i]))
  }

  function Kept(vs: seq<Visit>): seq<Slot> {
    if vs == [] then []
    else
      var v := vs[|vs| - 1];
      Kept(vs[..|vs| - 1]) + if v.keep then [v.slot] else []
  }

  function Dropped(vs: seq<Visit>): seq<Socket> {
    if vs == [] then []
    else
      var v := vs[|vs| - 1];
      Dropped(vs[..|vs| - 1]) + if v.keep then [] else [v.slot.s]
  }

  /** The bytes one sweep sends to a ready engine: client by client, in table order. */
  function Forwarded(vs: seq<Visit>): seq<byte> {
    if vs == [] then [] else Forwarded(vs[..|vs| - 1]) + vs[|vs| - 1].sent
  }

  lemma VisitSnoc(vs: seq<Visit>, k: nat)
    requires k < |vs|
    ensures Kept(vs[..k + 1]) == Kept(vs[..k]) + (if vs[k].keep then [vs[k].slot] else [])
    ensures Dropped(vs[..k + 1]) == Dropped(vs[..k]) + (if vs[k].keep then [] else [vs[k].slot.s])
    ensures Forwarded(vs[..k + 1]) == Forwarded(vs[..k]) + vs[k].sent
  {
    Longer(vs, k);
  }

  /** A sweep closes or keeps every client once. */
  lemma {:induction false} VisitsConserve(cs: seq<Slot>, vs: seq<Visit>, s: Socket)
    requires |vs| == |cs| && forall i | 0 <= i < |cs| :: vs[i].slot.s == cs[i].s
    ensures InTable(Kept(vs), s) + InList(Dropped(vs), s) == InTable(cs, s)
  {
    if cs != [] {
      var m := |cs| - 1;
      var v := vs[m];
      VisitsConserve(cs[..m], vs[..m], s);
      Settle(Kept(vs[..m]), Dropped(vs[..m]), v.slot, v.keep, s);
    }
  }

  /** In a sweep no socket is lost, closed twice or given another client's bytes. */
  lemma SweepConserves(cs: seq<Slot>, es: seq<Event>, s: Socket)
    requires AllFit(cs, es)
    ensures InTable(Kept(Visits(cs, es)), s) + InList(Dropped(Visits(cs, es)), s) == InTable(cs, s)
    ensures forall c | c in Kept(Visits(cs, es)) ::
      exists i | 0 <= i < |cs| :: VisitSlot(cs[i], es[i]).slot == c && c.s == cs[i].s
  {
    var vs := Visits(cs, es);
    VisitsConserve(cs, vs, s);
    forall c | c in Kept(vs)
      ensures exists i | 0 <= i < |cs| :: VisitSlot(cs[i], es[i]).slot == c && c.s == cs[i].s
    {
      var i := KeptOwner(vs, c);
      assert VisitSlot(cs[i], es[i]).slot == c;
    }
  }

  lemma {:induction false} KeptOwner(vs: seq<Visit>, c: Slot) returns (i: nat)
    requires c in Kept(vs)
    ensures i < |vs| && vs[i].slot == c
  {
    var m := |vs| - 1;
    if c in Kept(vs[..m]) { i := KeptOwner(vs[..m], c); } else { i := m; }
  }

  // ---------------------------------------------------------------- one turn of the two loops

  /** The edited table, the closed sockets and the attempts after `k` clients of a broadcast; `i` is the
      index the loop has reached, `shut` and `tried` are the lists it started with. */
  ghost predicate SentTo(all: seq<Slot>, data: seq<byte>, net: seq<Sends>, k: nat, shut: seq<Socket>,
    tried: seq<Attempt>,
      table: seq<Slot>, i: nat, closed: seq<Socket>, attempts: seq<Attempt>)
    requires k <= |all| <= |net|
  {
    && i <= |table| && table[..i] == Survivors(all[..k], |data|, net) && table[i..] == all[k..]
    && closed == shut + Casualties(all[..k], |data|, net)
    && attempts == tried + Attempts(all[..k], data, net)
  }

  lemma BroadcastTurn(all: seq<Slot>, data: seq<byte>, net: seq<Sends>, k: nat, shut: seq<Socket>, tried: seq<Attempt>,
      table: seq<Slot>, i: nat, closed: seq<Socket>, attempts: seq<Attempt>)
    requires k < |all| <= |net| && i < |table|
    requires SentTo(all, data, net, k, shut, tried, table, i, closed, attempts)
    ensures table[i] == all[k]
    ensures var c := table[i];
      var lost := c.ws && Fails(|data|, net[k]);
      SentTo(all, data, net, k + 1, shut, tried, Replaced(table, i, if lost then [] else [c]),
        if lost then i else i + 1, closed + (if lost then [c.s] else []),
        attempts + if c.ws then [AttemptOf(c, data, net[k])] else [])
  {
    var c := table[i];
    Advance(table, i, if c.ws && Fails(|data|, net[k]) then [] else [c], all, k);
    BroadcastStep(all, data, net, k, shut, tried);
  }

  /** The same for the sweep: `sent` is what went to the engine. */
  ghost predicate SweptTo(all: seq<Slot>, vs: seq<Visit>, k: nat, shut: seq<Socket>,
      table: seq<Slot>, i: nat, closed: seq<Socket>, sent: seq<byte>)
    requires k <= |all| == |vs|
  {
    && i <= |table| && table[..i] == Kept(vs[..k]) && table[i..] == all[k..]
    && closed == shut + Dropped(vs[..k]) && sent == Forwarded(vs[..k])
  }

  lemma SweepTurn(all: seq<Slot>, vs: seq<Visit>, k: nat, shut: seq<Socket>,
      table: seq<Slot>, i: nat, closed: seq<Socket>, sent: seq<byte>)
    requires k < |all| == |vs| && i < |table| && SweptTo(all, vs, k, shut, table, i, closed, sent)
    ensures table[i] == all[k]
    ensures var v := vs[k];
      SweptTo(all, vs, k + 1, shut, Replaced(table, i, if v.keep then [v.slot] else []),
        if v.keep then i + 1 else i, closed + (if v.keep then [] else [v.slot.s]), sent + v.sent)
  {
    var v := vs[k];
    Advance(table, i, if v.keep then [v.slot] else [], all, k);
    VisitSnoc(vs, k);
    Assoc(shut, Dropped(vs[..k]), if v.keep then [] else [v.slot.s]);
  }

  /** The loops start with nothing visited. */
  lemma SentStart(all: seq<Slot>, data: seq<byte>, net: seq<Sends>, shut: seq<Socket>, tried: seq<Attempt>)
    requires |net| >= |all|
    ensures SentTo(all, data, net, 0, shut, tried, all, 0, shut, tried)
  {
    Unit(shut);
    Unit(tried);
  }

  lemma SweptStart(all: seq<Slot>, vs: seq<Visit>, shut: seq<Socket>)
    requires |vs| == |all|
    ensures SweptTo(all, vs, 0, shut, all, 0, shut, [])
  {
    Unit(shut);
  }

  /** The loops end with the list. */
  lemma SentBound(all: seq<Slot>, data: seq<byte>, net: seq<Sends>, k: nat, shut: seq<Socket>, tried: seq<Attempt>,
      table: seq<Slot>, i: nat, closed: seq<Socket>, attempts: seq<Attempt>)
    requires k <= |all| <= |net| && SentTo(all, data, net, k, shut, tried, table, i, closed, attempts)
    ensures |table| - i == |all| - k
    ensures i == |table| ==>
      && table == Survivors(all, |data|, net) && closed == shut + Casualties(all, |data|, net)
      && attempts == tried + Attempts(all, data, net)
  {
    assert |table[i..]| == |all[k..]|;
    if i == |table| { assert all[..k] == all && table[..i] == table; }
  }

  lemma SweptBound(all: seq<Slot>, vs: seq<Visit>, k: nat, shut: seq<Socket>,
      table: seq<Slot>, i: nat, closed: seq<Socket>, sent: seq<byte>)
    requires k <= |all| == |vs| && SweptTo(all, vs, k, shut, table, i, closed, sent)
    ensures |table| - i == |all| - k
    ensures i == |table| ==> table == Kept(vs) && closed == shut + Dropped(vs) && sent == Forwarded(vs)
  {
    assert |table[i..]| == |all[k..]|;
    if i == |table| { assert vs[..k] == vs && table[..i] == table; }
  }

  // ---------------------------------------------------------------- the table itself

  class Table {
    const cli: array<Slot>
    var n: nat
    ghost var attempts: seq<Attempt>
    ghost var closed: seq<Socket>

    constructor ()
      ensures Valid() && Clients() == [] && attempts == [] && closed == [] && fresh(cli)
    {
      cli := new Slot[MAX_CLIENTS](_ => Slot(0, false, []));
      n := 0;
      attempts, closed := [], [];
    }

    ghost predicate Valid()
      reads this
    {
      cli.Length == MAX_CLIENTS && n <= MAX_CLIENTS
    }

    ghost function Clients(): (s: seq<Slot>)
      requires Valid()
      reads this, cli
    {
      cli[..n]
    }

    /** A new connection; at capacity the connection is closed instead. */
    method Accept(s: Socket) returns (ok: bool)
      requires Valid()
      modifies `n, `closed, cli
      ensures Valid() && ok == (old(n) < MAX_CLIENTS)
      ensures Clients() == old(Clients()) + if ok then [Slot(s, false, [])] else []
      ensures closed == old(closed) + if ok then [] else [s]
    {
      if n >= MAX_CLIENTS {
        closed := closed + [s];
        return false;
      }
      cli[n] := Slot(s, false, []);
      n := n + 1;
      return true;
    }

    /** `client_close`: close, shift the tail down, shrink. */
    method Close(i: nat)
      requires Valid() && i < n
      modifies `n, `closed, cli
      ensures Valid()
      ensures Clients() == old(Clients())[..i] + old(Clients())[i + 1..]
      ensures closed == old(closed) + [old(Clients())[i].s]
    {
      ghost var was := Clients();
      ghost var rest := was[..i] + was[i + 1..];
      closed := closed + [cli[i].s];
      var j := i;
      while j < n - 1
        invariant i <= j <= n - 1
        invariant forall k | 0 <= k < j :: cli[k] == rest[k]
        invariant forall k | j <= k < |was| :: cli[k] == was[k]
        modifies cli
      {
        cli[j] := cli[j + 1];
        j := j + 1;
      }
      n := n - 1;
      assert Clients() == rest;
    }

    /** The loop body of `engine_broadcast`: a WebSocket client gets one attempt and goes if it fails. */
    method SendOne(i: nat, data: seq<byte>, r: Sends) returns (stays: bool)
      requires Valid() && i < n
      modifies this, cli
      ensures Valid() && stays == !(old(cli[i].ws) && Fails(|data|, r))
      ensures Clients() == Replaced(old(Clients()), i, if stays then [old(Clients())[i]] else [])
      ensures closed == old(closed) + if stays then [] else [old(Clients())[i].s]
      ensures attempts == old(attempts) + if old(cli[i].ws) then [AttemptOf(old(Clients())[i], data, r)] else []
    {
      ghost var was := Clients();
      SplitAt(was, i);
      Unit(closed);
      Unit(attempts);
      Unit(was[..i]);
      if !cli[i].ws { return true; }
      var code, wire := WsClient.WsSendText(data, r.header, r.body);
      attempts := attempts + [Attempt(cli[i].s, wire)];
      stays := code != -1;
      if !stays { Close(i); }
    }

    /** One turn of the loop of `engine_broadcast`. */
    method BroadcastOne(i: nat, data: seq<byte>, net: seq<Sends>, k: nat,
        ghost all: seq<Slot>, ghost shut: seq<Socket>, ghost tried: seq<Attempt>) returns (next: nat)
      requires Valid() && i < n && k < |all| <= |net|
      requires SentTo(all, data, net, k, shut, tried, Clients(), i, closed, attempts)
      modifies this, cli
      ensures Valid() && SentTo(all, data, net, k + 1, shut, tried, Clients(), next, closed, attempts)
    {
      BroadcastTurn(all, data, net, k, shut, tried, Clients(), i, closed, attempts);
      var stays := SendOne(i, data, net[k]);
      next := if stays then i + 1 else i;
    }

    /** `engine_broadcast`. */
    method Broadcast(data: seq<byte>, net: seq<Sends>)
      requires Valid() && |net| >= n
      modifies this, cli
      ensures Valid()
      ensures Clients() == Survivors(old(Clients()), |data|, net)
      ensures closed == old(closed) + Casualties(old(Clients()), |data|, net)
      ensures attempts == old(attempts) + Attempts(old(Clients()), data, net)
    {
      ghost var all, shut, tried := Clients(), closed, attempts;
      var k, i := 0, 0;
      SentStart(all, data, net, shut, tried);
      while i < n
        invariant Valid() && 0 <= i && 0 <= k <= |all|
          && SentTo(all, data, net, k, shut, tried, Clients(), i, closed, attempts)
        decreases |all| - k
      {
        SentBound(all, data, net, k, shut, tried, Clients(), i, closed, attempts);
        i := BroadcastOne(i, data, net, k, all, shut, tried);
        k := k + 1;
      }
      SentBound(all, data, net, k, shut, tried, Clients(), i, closed, attempts);
    }

    /** The client's own pump on the bytes of one slot. */
    method PumpBytes(c: Slot, pending: seq<byte>, chunk: seq<byte>) returns (v: Visit)
      requires |pending| + |chunk| < WsClient.CLIENT_BUF
      ensures v == PumpSlot(c, pending + chunk)
    {
      var client := new WsClient.Client.Holding(pending);
      var engine := new WsClient.Engine(true, true);
      var r := client.OnReadable(chunk, engine);
      assert client.Received() == client.buf[..client.blen];
      var p := Pump(pending + chunk);
      Unit(p.sent);
      v := Visit(Slot(c.s, true, client.buf[..client.blen]), r >= 0, engine.log);
    }

    /** What one pass of the sweep does to the slot it looks at. */
    method ServeSlot(c: Slot, e: Event) returns (v: Visit)
      requires Fits(c, e)
      ensures v == VisitSlot(c, e)
    {
      match e
      case Idle => v := Visit(c, true, []);
      case WouldBlock => v := Visit(c, true, []);
      case Gone => v := Visit(c, false, []);
      case Data(chunk, http) =>
        if c.ws {
          v := PumpBytes(c, c.pending, chunk);
        } else {
          match http
          case KeepReading => v := Visit(c.(pending := c.pending + chunk), true, []);
          case ClosePage => v := Visit(c, false, []);
          case Upgrade(left) =>
            Unit(left);
            v := PumpBytes(c, left, []);
        }
    }

    /** One readable client of the sweep: the visit replaces its slot or closes it. */
    method VisitOne(i: nat, e: Event) returns (stays: bool, sent: seq<byte>)
      requires Valid() && i < n && Fits(cli[i], e)
      modifies this, cli
      ensures Valid()
      ensures var v := VisitSlot(old(cli[i]), e);
        && stays == v.keep && sent == v.sent
        && Clients() == Replaced(old(Clients()), i, if v.keep then [v.slot] else [])
        && closed == old(closed) + (if v.keep then [] else [v.slot.s])
      ensures attempts == old(attempts)
    {
      var v := ServeSlot(cli[i], e);
      ghost var was := Clients();
      if v.keep {
        cli[i] := v.slot;
        assert Clients() == was[i := v.slot] == Replaced(was, i, [v.slot]);
      } else {
        Close(i);
      }
      return v.keep, v.sent;
    }

    /** One turn of the sweep. */
    method SweepOne(i: nat, e: Event, sent: seq<byte>, k: nat, ghost all: seq<Slot>, ghost vs: seq<Visit>,
        ghost shut: seq<Socket>)
      returns (next: nat, total: seq<byte>)
      requires Valid() && i < n && k < |all| == |vs| && SweptTo(all, vs, k, shut, Clients(), i, closed, sent)
      requires Fits(all[k], e) && vs[k] == VisitSlot(all[k], e)
      modifies this, cli
      ensures Valid() && SweptTo(all, vs, k + 1, shut, Clients(), next, closed, total)
    {
      SweepTurn(all, vs, k, shut, Clients(), i, closed, sent);
      var stays, out := VisitOne(i, e);
      next := if stays then i + 1 else i;
      total := sent + out;
    }

    /** The client sweep of `main`: the index only advances past a client that stayed. */
    method Sweep(es: seq<Event>) returns (sent: seq<byte>)
      requires Valid() && AllFit(Clients(), es)
      modifies this, cli
      ensures Valid()
      ensures Clients() == Kept(Visits(old(Clients()), es))
      ensures closed == old(closed) + Dropped(Visits(old(Clients()), es))
      ensures sent == Forwarded(Visits(old(Clients()), es))
    {
      ghost var all, shut := Clients(), closed;
      ghost var vs := Visits(all, es);
      var k, i := 0, 0;
      sent := [];
      SweptStart(all, vs, shut);
      while i < n
        invariant Valid() && 0 <= i && 0 <= k <= |all| && SweptTo(all, vs, k, shut, Clients(), i, closed, sent)
        decreases |all| - k
      {
        SweptBound(all, vs, k, shut, Clients(), i, closed, sent);
        i, sent := SweepOne(i, es[k], sent, k, all, vs, shut);
        k := k + 1;
      }
      SweptBound(all, vs, k, shut, Clients(), i, closed, sent);
    }
  }
}
