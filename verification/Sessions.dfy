/** The headless input server, client by client: what each client sent, which lines were taken
    from it and which were delivered. */
module Sessions {
  import opened Compaction
  import opened Seqs
  import opened Text

  const HL_MAX_CLIENTS := 8
  const HL_INPUT_CAP := 16384
  const RECV_MAX := 512

  /** What became of the bytes of one client: a line taken out under the caller's `cap`, or a
      buffer thrown away because the next chunk would not fit. */
  datatype Piece = Line(text: string, cap: nat) | Dropped(bytes: string)

  datatype Message = Message(kind: nat, text: string)

  datatype Session = Session(sock: int, buf: string, received: string, pieces: seq<Piece>, delivered: seq<Message>)

  /** 2 for a mouse line, 1 for a key line, 0 for neither; strstr stops at an embedded NUL. */
  function Kind(line: string): (k: nat)
    ensures k <= 2
  {
    if Contains(CString(line), "\"mouse\"") then 2
    else if Contains(CString(line), "\"key\"") then 1
    else 0
  }

  function DeliveredBy(p: Piece): seq<Message> {
    match p
    case Line(t, cap) => if 0 < |t| < cap && Kind(t) != 0 then [Message(Kind(t), t)] else []
    case Dropped(_) => []
  }

  function Deliveries(ps: seq<Piece>): seq<Message> {
    if ps == [] then [] else Deliveries(ps[..|ps| - 1]) + DeliveredBy(ps[|ps| - 1])
  }

  function Bytes(p: Piece): string {
    match p
    case Line(t, _) => t + ['\n']
    case Dropped(b) => b
  }

  function AllBytes(ps: seq<Piece>): string {
    if ps == [] then [] else AllBytes(ps[..|ps| - 1]) + Bytes(ps[|ps| - 1])
  }

  /** No consumed line contains a newline. */
  predicate NoNewlines(ps: seq<Piece>) {
    ps != [] ==> NoNewlines(ps[..|ps| - 1]) && (ps[|ps| - 1].Line? ==> '\n' !in ps[|ps| - 1].text)
  }

  /** Nothing was dropped. */
  predicate AllLines(ps: seq<Piece>) {
    ps != [] ==> AllLines(ps[..|ps| - 1]) && ps[|ps| - 1].Line?
  }

  predicate SameCap(ps: seq<Piece>, cap: nat) {
    ps != [] ==> SameCap(ps[..|ps| - 1], cap) && (ps[|ps| - 1].Line? ==> ps[|ps| - 1].cap == cap)
  }

  /** Every received byte is accounted for, in order; every consumed line was judged on its own; and
      nothing was dropped from a client that sent less than the buffer holds. */
  ghost predicate Accounted(s: Session) {
    && s.received == AllBytes(s.pieces) + s.buf
    && s.delivered == Deliveries(s.pieces)
    && NoNewlines(s.pieces)
    && |s.buf| < HL_INPUT_CAP
    && (AllLines(s.pieces) || |s.received| >= 16384)
  }

  // ---------------------------------------------------------------- one client, one event

  datatype Extracted = Extracted(session: Session, kind: nat, line: string)

  /** `extract_line`. */
  function Extract(s: Session, cap: nat): Extracted {
    var k := Find(s.buf, '\n');
    if k == |s.buf| then Extracted(s, 0, [])
    else
      var line := s.buf[..k];
      var taken := s.(buf := s.buf[k + 1..], pieces := s.pieces + [Line(line, cap)]);
      if k == 0 || k >= cap || Kind(line) == 0 then Extracted(taken, 0, [])
      else Extracted(taken.(delivered := s.delivered + [Message(Kind(line), line)]), Kind(line), line)
  }

  function Append(s: Session, chunk: string): Session {
    if |s.buf| + |chunk| >= HL_INPUT_CAP
    then s.(buf := chunk, received := s.received + chunk, pieces := s.pieces + [Dropped(s.buf)])
    else s.(buf := s.buf + chunk, received := s.received + chunk)
  }

  datatype Recv = Chunk(data: string) | Closed | WouldBlock | HardError

  predicate Legal(r: Recv) {
    r.Chunk? ==> 0 < |r.data| <= RECV_MAX
  }

  predicate AllLegal(net: seq<Recv>) {
    forall i | 0 <= i < |net| :: Legal(net[i])
  }

  datatype Visit = Visit(after: Extracted, gone: bool)

  /** The poll loop body on one client: a buffered line first, then one recv, then a line again. */
  function VisitClient(s: Session, r: Recv, cap: nat): Visit {
    var e := Extract(s, cap);
    if e.kind != 0 then Visit(e, false)
    else match r
      case Chunk(d) => Visit(Extract(Append(e.session, d), cap), false)
      case WouldBlock => Visit(e, false)
      case Closed => Visit(e, true)
      case HardError => Visit(e, true)
  }

  /** Taking a line out keeps the bytes in order. */
  lemma TakeLine(before: seq<Piece>, buf: string, k: nat, cap: nat)
    requires k < |buf| && buf[k] == '\n'
    ensures AllBytes(before + [Line(buf[..k], cap)]) + buf[k + 1..] == AllBytes(before) + buf
  {
    var p := Line(buf[..k], cap);
    PieceAdded(before, p);
    SplitAt(buf, k);
    Assoc(AllBytes(before), Bytes(p), buf[k + 1..]);
  }

  lemma ExtractAccounted(s: Session, cap: nat)
    requires Accounted(s)
    ensures var e := Extract(s, cap);
      && Accounted(e.session) && e.session.received == s.received && e.session.sock == s.sock
      && e.session.delivered == if e.kind == 0 then s.delivered else s.delivered + [Message(e.kind, e.line)]
  {
    var k := Find(s.buf, '\n');
    if k < |s.buf| {
      var p := Line(s.buf[..k], cap);
      var e := Extract(s, cap).session;
      TakeLine(s.pieces, s.buf, k, cap);
      PieceAdded(s.pieces, p);
      Unit(s.delivered);
      assert e.pieces == s.pieces + [p] && e.buf == s.buf[k + 1..];
      assert e.delivered == s.delivered + DeliveredBy(p);
    }
  }

  lemma PieceAdded(ps: seq<Piece>, p: Piece)
    ensures AllBytes(ps + [p]) == AllBytes(ps) + Bytes(p)
    ensures Deliveries(ps + [p]) == Deliveries(ps) + DeliveredBy(p)
    ensures NoNewlines(ps + [p]) == (NoNewlines(ps) && (p.Line? ==> '\n' !in p.text))
  {
    assert (ps + [p])[..|ps|] == ps;
  }

  lemma AppendAccounted(s: Session, chunk: string)
    requires Accounted(s) && |chunk| < HL_INPUT_CAP
    ensures Accounted(Append(s, chunk)) && Append(s, chunk).received == s.received + chunk
    ensures Append(s, chunk).sock == s.sock && Append(s, chunk).delivered == s.delivered
  {
    PieceAdded(s.pieces, Dropped(s.buf));
    Assoc(AllBytes(s.pieces), s.buf, chunk);
    Unit(s.delivered);
  }

  /** One visit keeps the accounts, adds exactly what recv returned, and delivers what it reports. */
  lemma VisitAccounted(s: Session, r: Recv, cap: nat)
    requires Accounted(s) && Legal(r)
    ensures var v := VisitClient(s, r, cap).after;
      && Accounted(v.session) && v.session.sock == s.sock
      && v.session.delivered == (if v.kind == 0 then s.delivered else s.delivered + [Message(v.kind, v.line)])
      && v.session.received == (if Extract(s, cap).kind == 0 && r.Chunk? then s.received + r.data else s.received)
  {
    ExtractAccounted(s, cap);
    var e := Extract(s, cap);
    if e.kind == 0 && r.Chunk? {
      AppendAccounted(e.session, r.data);
      ExtractAccounted(Append(e.session, r.data), cap);
    }
  }

  // ---------------------------------------------------------------- the whole table

  /** The clients that stay when all of `ss` are visited without a hit. */
  function Stayed(ss: seq<Session>, net: seq<Recv>, cap: nat): (r: seq<Session>)
    requires |net| >= |ss|
    ensures |r| <= |ss|
  {
    if ss == [] then []
    else
      var m := |ss| - 1;
      var v := VisitClient(ss[m], net[m], cap);
      Stayed(ss[..m], net, cap) + if v.gone then [] else [v.after.session]
  }

  function Left(ss: seq<Session>, net: seq<Recv>, cap: nat): seq<Session>
    requires |net| >= |ss|
  {
    if ss == [] then []
    else
      var m := |ss| - 1;
      var v := VisitClient(ss[m], net[m], cap);
      Left(ss[..m], net, cap) + if v.gone then [v.after.session] else []
  }

  lemma StayedSnoc(ss: seq<Session>, net: seq<Recv>, cap: nat, k: nat)
    requires k < |ss| <= |net|
    ensures var v := VisitClient(ss[k], net[k], cap);
      && Stayed(ss[..k + 1], net, cap) == Stayed(ss[..k], net, cap) + (if v.gone then [] else [v.after.session])
      && Left(ss[..k + 1], net, cap) == Left(ss[..k], net, cap) + (if v.gone then [v.after.session] else [])
  {
    Longer(ss, k);
  }

  /** The first client, in table order, whose visit yields a recognised line. */
  function FirstHit(ss: seq<Session>, net: seq<Recv>, cap: nat): (m: nat)
    requires |net| >= |ss|
    ensures m <= |ss|
  {
    if ss == [] then 0
    else
      var n := |ss| - 1;
      var m := FirstHit(ss[..n], net, cap);
      if m < n then m else if VisitClient(ss[n], net[n], cap).after.kind != 0 then n else n + 1
  }

  /** `FirstHit` is the first index whose visit has a kind: none before, and one there. */
  lemma {:induction false} FirstHitExact(ss: seq<Session>, net: seq<Recv>, cap: nat)
    requires |net| >= |ss|
    ensures var m := FirstHit(ss, net, cap);
      && (forall j | 0 <= j < m :: VisitClient(ss[j], net[j], cap).after.kind == 0)
      && (m < |ss| ==> VisitClient(ss[m], net[m], cap).after.kind != 0)
  {
    if ss != [] { FirstHitExact(ss[..|ss| - 1], net, cap); }
  }

  lemma HitStep(ss: seq<Session>, net: seq<Recv>, cap: nat, k: nat)
    requires k < |ss| <= |net| && FirstHit(ss, net, cap) >= k
    ensures FirstHit(ss, net, cap) == k <==> VisitClient(ss[k], net[k], cap).after.kind != 0
  {
    FirstHitExact(ss, net, cap);
  }

  datatype Polled = Polled(sessions: seq<Session>, gone: seq<Session>, kind: nat, line: string, ci: nat)

  /** `headless_poll_input`: visit clients in order until one yields a line; the clients behind it
      are not touched, and `ci` is its position in the compacted table. */
  function Poll(ss: seq<Session>, net: seq<Recv>, cap: nat): Polled
    requires |net| >= |ss|
  {
    var m := FirstHit(ss, net, cap);
    var front := Stayed(ss[..m], net, cap);
    var gone := Left(ss[..m], net, cap);
    if m == |ss| then Polled(front, gone, 0, [], 0)
    else
      var v := VisitClient(ss[m], net[m], cap).after;
      Polled(front + [v.session] + ss[m + 1..], gone, v.kind, v.line, |front|)
  }

  /** What the poll returns when the walk over the table stops at a hit, and when it does not. */
  lemma PollStopsAt(ss: seq<Session>, net: seq<Recv>, cap: nat, m: nat, table: seq<Session>, i: nat)
    requires m < |ss| <= |net| && i < |table| && FirstHit(ss, net, cap) == m
    requires table[..i] == Stayed(ss[..m], net, cap) && table[i..] == ss[m..]
    ensures var v := VisitClient(ss[m], net[m], cap).after;
      Poll(ss, net, cap) == Polled(Replaced(table, i, [v.session]), Left(ss[..m], net, cap), v.kind, v.line, i)
  {
    DropDrop(table, i, 1);
    DropDrop(ss, m, 1);
  }

  lemma PollRunsThrough(ss: seq<Session>, net: seq<Recv>, cap: nat)
    requires |ss| <= |net| && FirstHit(ss, net, cap) == |ss|
    ensures Poll(ss, net, cap) == Polled(Stayed(ss, net, cap), Left(ss, net, cap), 0, [], 0)
  {
    assert ss[..|ss|] == ss;
  }

  /** Where the walk over the table stands after `k` visits without a hit; `i` is the index it has
      reached in the edited table, `before` the removed clients it started with. */
  ghost predicate PolledTo(all: seq<Session>, net: seq<Recv>, cap: nat, k: nat, before: seq<Session>,
      table: seq<Session>, i: nat, past: seq<Session>)
    requires k <= |all| <= |net|
  {
    && i <= |table| && table[..i] == Stayed(all[..k], net, cap) && table[i..] == all[k..]
    && past == before + Left(all[..k], net, cap) && FirstHit(all, net, cap) >= k
  }

  lemma PollStart(all: seq<Session>, net: seq<Recv>, cap: nat, before: seq<Session>)
    requires |all| <= |net|
    ensures PolledTo(all, net, cap, 0, before, all, 0, before)
  {
    Unit(before);
  }

  /** One visit: the walk ends with the poll's result, or goes on. */
  lemma PollTurn(all: seq<Session>, net: seq<Recv>, cap: nat, k: nat, before: seq<Session>,
      table: seq<Session>, i: nat, past: seq<Session>)
    requires k < |all| <= |net| && i < |table| && PolledTo(all, net, cap, k, before, table, i, past)
    ensures table[i] == all[k]
    ensures var v, p := VisitClient(all[k], net[k], cap), Poll(all, net, cap);
      if v.after.kind != 0 then
        && !v.gone && past + [] == before + p.gone && p.sessions == Replaced(table, i, [v.after.session])
        && p.kind == v.after.kind && p.line == v.after.line && p.ci == i
      else
        PolledTo(all, net, cap, k + 1, before, Replaced(table, i, if v.gone then [] else [v.after.session]),
          if v.gone then i else i + 1, past + if v.gone then [v.after.session] else [])
  {
    var v := VisitClient(all[k], net[k], cap);
    Advance(table, i, if v.gone then [] else [v.after.session], all, k);
    HitStep(all, net, cap, k);
    if v.after.kind != 0 {
      PollStopsAt(all, net, cap, k, table, i);
      Unit(past);
    } else {
      StayedSnoc(all, net, cap, k);
      Assoc(before, Left(all[..k], net, cap), if v.gone then [v.after.session] else []);
    }
  }

  /** The walk ends with the list. */
  lemma PollEnd(all: seq<Session>, net: seq<Recv>, cap: nat, k: nat, before: seq<Session>,
      table: seq<Session>, i: nat, past: seq<Session>)
    requires k <= |all| <= |net| && PolledTo(all, net, cap, k, before, table, i, past)
    ensures |table| - i == |all| - k
    ensures i == |table| ==>
      var p := Poll(all, net, cap); p.kind == 0 && table == p.sessions && past == before + p.gone
  {
    assert |table[i..]| == |all[k..]|;
    if i == |table| {
      assert all[..k] == all && table[..i] == table;
      PollRunsThrough(all, net, cap);
    }
  }

  /** `headless_send_frame`: a hard error removes the client, a full send buffer does not. */
  datatype Sent = Wrote | Full | Broken

  function Reached(ss: seq<Session>, net: seq<Sent>): (r: seq<Session>)
    requires |net| >= |ss|
    ensures |r| <= |ss|
  {
    if ss == [] then []
    else
      var m := |ss| - 1;
      Reached(ss[..m], net) + if net[m].Broken? then [] else [ss[m]]
  }

  function Unreached(ss: seq<Session>, net: seq<Sent>): seq<Session>
    requires |net| >= |ss|
  {
    if ss == [] then []
    else
      var m := |ss| - 1;
      Unreached(ss[..m], net) + if net[m].Broken? then [ss[m]] else []
  }

  lemma ReachedSnoc(ss: seq<Session>, net: seq<Sent>, k: nat)
    requires k < |ss| <= |net|
    ensures Reached(ss[..k + 1], net) == Reached(ss[..k], net) + (if net[k].Broken? then [] else [ss[k]])
    ensures Unreached(ss[..k + 1], net) == Unreached(ss[..k], net) + (if net[k].Broken? then [ss[k]] else [])
  {
    Longer(ss, k);
  }

  /** A new connection starts with an empty account. */
  function Opened(sock: int): Session {
    Session(sock, [], [], [], [])
  }

  function Accepted(ss: seq<Session>, socks: seq<int>): seq<Session>
    decreases |socks|
  {
    if socks == [] || |ss| >= HL_MAX_CLIENTS then ss else Accepted(ss + [Opened(socks[0])], socks[1..])
  }

  // ---------------------------------------------------------------- runs

  datatype Op = Accept(socks: seq<int>) | PollInput(net: seq<Recv>, cap: nat) | SendFrame(results: seq<Sent>)

  ghost predicate Possible(ss: seq<Session>, op: Op) {
    match op
    case Accept(_) => true
    case PollInput(net, _) => |net| >= |ss| && AllLegal(net)
    case SendFrame(results) => |results| >= |ss|
  }

  /** The live clients and the removed ones after one call. */
  datatype Server = Server(live: seq<Session>, past: seq<Session>)

  function Step(s: Server, op: Op): Server
    requires Possible(s.live, op)
  {
    match op
    case Accept(socks) => Server(Accepted(s.live, socks), s.past)
    case PollInput(net, cap) => var p := Poll(s.live, net, cap); Server(p.sessions, s.past + p.gone)
    case SendFrame(results) => Server(Reached(s.live, results), s.past + Unreached(s.live, results))
  }

  ghost predicate AllAccounted(ss: seq<Session>) {
    forall i | 0 <= i < |ss| :: Accounted(ss[i])
  }

  lemma {:induction false} AcceptedAccounted(ss: seq<Session>, socks: seq<int>)
    requires AllAccounted(ss)
    ensures AllAccounted(Accepted(ss, socks))
    decreases |socks|
  {
    if socks != [] && |ss| < HL_MAX_CLIENTS { AcceptedAccounted(ss + [Opened(socks[0])], socks[1..]); }
  }

  lemma JoinAccounted(a: seq<Session>, s: Session, joins: bool)
    requires AllAccounted(a) && Accounted(s)
    ensures AllAccounted(a + if joins then [s] else [])
  {
    if joins {
      forall i | 0 <= i < |a + [s]| ensures Accounted((a + [s])[i]) {
        if i < |a| { assert (a + [s])[i] == a[i]; }
      }
    } else {
      Unit(a);
    }
  }

  lemma VisitKeepsAccount(s: Session, r: Recv, cap: nat)
    requires Accounted(s) && Legal(r)
    ensures Accounted(VisitClient(s, r, cap).after.session)
  {
    VisitAccounted(s, r, cap);
  }

  lemma {:induction false} StayedAccounted(ss: seq<Session>, net: seq<Recv>, cap: nat)
    requires |net| >= |ss| && AllAccounted(ss) && AllLegal(net)
    ensures AllAccounted(Stayed(ss, net, cap))
  {
    if ss != [] {
      var m := |ss| - 1;
      StayedAccounted(ss[..m], net, cap);
      VisitKeepsAccount(ss[m], net[m], cap);
      var v := VisitClient(ss[m], net[m], cap);
      JoinAccounted(Stayed(ss[..m], net, cap), v.after.session, !v.gone);
    }
  }

  lemma {:induction false} LeftAccounted(ss: seq<Session>, net: seq<Recv>, cap: nat)
    requires |net| >= |ss| && AllAccounted(ss) && AllLegal(net)
    ensures AllAccounted(Left(ss, net, cap))
  {
    if ss != [] {
      var m := |ss| - 1;
      LeftAccounted(ss[..m], net, cap);
      VisitKeepsAccount(ss[m], net[m], cap);
      var v := VisitClient(ss[m], net[m], cap);
      JoinAccounted(Left(ss[..m], net, cap), v.after.session, v.gone);
    }
  }

  lemma {:induction false} ReachedAccounted(ss: seq<Session>, net: seq<Sent>)
    requires |net| >= |ss| && AllAccounted(ss)
    ensures AllAccounted(Reached(ss, net)) && AllAccounted(Unreached(ss, net))
  {
    if ss != [] { ReachedAccounted(ss[..|ss| - 1], net); }
  }

  lemma JoinPast(a: seq<Session>, b: seq<Session>)
    requires AllAccounted(a) && AllAccounted(b)
    ensures AllAccounted(a + b)
  {
    forall i | 0 <= i < |a + b| ensures Accounted((a + b)[i]) {
      if i < |a| { assert (a + b)[i] == a[i]; } else { assert (a + b)[i] == b[i - |a|]; }
    }
  }

  lemma PollAccounted(ss: seq<Session>, net: seq<Recv>, cap: nat)
    requires |net| >= |ss| && AllAccounted(ss) && AllLegal(net)
    ensures AllAccounted(Poll(ss, net, cap).sessions) && AllAccounted(Poll(ss, net, cap).gone)
  {
    var m := FirstHit(ss, net, cap);
    StayedAccounted(ss[..m], net, cap);
    LeftAccounted(ss[..m], net, cap);
    if m < |ss| {
      var front, hit := Stayed(ss[..m], net, cap), VisitClient(ss[m], net[m], cap).after.session;
      VisitKeepsAccount(ss[m], net[m], cap);
      JoinAccounted(front, hit, true);
      JoinPast(front + [hit], ss[m + 1..]);
    }
  }

  lemma StepAccounted(s: Server, op: Op)
    requires Possible(s.live, op) && AllAccounted(s.live) && AllAccounted(s.past)
    ensures AllAccounted(Step(s, op).live) && AllAccounted(Step(s, op).past)
  {
    match op
    case Accept(socks) => AcceptedAccounted(s.live, socks);
    case SendFrame(results) => ReachedAccounted(s.live, results);
      JoinPast(s.past, Unreached(s.live, results));
    case PollInput(net, cap) => PollAccounted(s.live, net, cap);
      JoinPast(s.past, Poll(s.live, net, cap).gone);
  }

  ghost predicate PossibleRun(s: Server, ops: seq<Op>)
    decreases |ops|
  {
    ops != [] ==> Possible(s.live, ops[0]) && PossibleRun(Step(s, ops[0]), ops[1..])
  }

  ghost function Run(s: Server, ops: seq<Op>): Server
    requires PossibleRun(s, ops)
    decreases |ops|
  {
    if ops == [] then s else Run(Step(s, ops[0]), ops[1..])
  }

  /** Over every run of accept, poll and send, every client, live or removed, is accounted for. */
  lemma {:induction false} RunAccounted(s: Server, ops: seq<Op>)
    requires PossibleRun(s, ops) && AllAccounted(s.live) && AllAccounted(s.past)
    ensures AllAccounted(Run(s, ops).live) && AllAccounted(Run(s, ops).past)
    decreases |ops|
  {
    if ops != [] {
      StepAccounted(s, ops[0]);
      RunAccounted(Step(s, ops[0]), ops[1..]);
    }
  }

  // ---------------------------------------------------------------- refinement of splitting

  /** The newline-separated fields of a stream; the last one is the incomplete line. */
  function Split(s: string): (r: seq<string>)
    ensures |r| >= 1
    decreases |s|
  {
    var k := Find(s, '\n');
    if k == |s| then [s] else [s[..k]] + Split(s[k + 1..])
  }

  function Texts(ps: seq<Piece>): seq<string>
    requires AllLines(ps)
  {
    if ps == [] then [] else Texts(ps[..|ps| - 1]) + [ps[|ps| - 1].text]
  }

  lemma SplitHead(t: string, tail: string)
    requires '\n' !in t
    ensures Split(t + ['\n'] + tail) == [t] + Split(tail)
  {
    var s := t + ['\n'] + tail;
    Assoc(t, ['\n'], tail);
    Parts(t, ['\n'] + tail);
    Parts(t + ['\n'], tail);
    FindIs(s, '\n', |t|);
  }

  lemma {:induction false} SplitLines(ps: seq<Piece>, tail: string)
    requires AllLines(ps) && NoNewlines(ps)
    ensures Split(AllBytes(ps) + tail) == Texts(ps) + Split(tail)
  {
    if ps == [] {
      assert AllBytes(ps) + tail == tail;
      assert Texts(ps) + Split(tail) == Split(tail);
    } else {
      var m := |ps| - 1;
      var t := ps[m].text;
      Assoc(AllBytes(ps[..m]), Bytes(ps[m]), tail);
      SplitLines(ps[..m], Bytes(ps[m]) + tail);
      SplitHead(t, tail);
      Assoc(Texts(ps[..m]), [t], Split(tail));
    }
  }

  /** Until an overflow reset, the lines taken from a client are exactly the leading fields of its
      stream split on newline; what is still buffered splits into the remaining fields. */
  lemma RefinesSplit(s: Session)
    requires Accounted(s) && AllLines(s.pieces)
    ensures Split(s.received) == Texts(s.pieces) + Split(s.buf)
  {
    SplitLines(s.pieces, s.buf);
  }

  /** The recognised lines among `lines`, in order and with the right kind. */
  function Recognised(lines: seq<string>, cap: nat): seq<Message> {
    if lines == [] then []
    else Recognised(lines[..|lines| - 1], cap) + DeliveredBy(Line(lines[|lines| - 1], cap))
  }

  /** A client polled with one buffer size gets delivered exactly the recognised lines among the
      consumed fields of its own stream. */
  lemma {:induction false} DeliversRecognised(ps: seq<Piece>, cap: nat)
    requires AllLines(ps) && SameCap(ps, cap)
    ensures |Texts(ps)| == |ps| && Deliveries(ps) == Recognised(Texts(ps), cap)
  {
    if ps != [] {
      var m := |ps| - 1;
      DeliversRecognised(ps[..m], cap);
      assert Texts(ps)[..m] == Texts(ps[..m]);
      assert ps[m] == Line(ps[m].text, cap);
    }
  }

  lemma DeliveredIsRecognisedStream(s: Session, cap: nat)
    requires Accounted(s) && AllLines(s.pieces) && SameCap(s.pieces, cap)
    ensures |s.pieces| < |Split(s.received)|
    ensures s.delivered == Recognised(Split(s.received)[..|s.pieces|], cap)
  {
    RefinesSplit(s);
    DeliversRecognised(s.pieces, cap);
    assert Split(s.received)[..|s.pieces|] == Texts(s.pieces);
  }

  // ---------------------------------------------------------------- what a close loses

  /** The complete lines of a stream. */
  function Complete(s: string): seq<string> {
    Split(s)[..|Split(s)| - 1]
  }

  lemma {:induction false} RecognisedConcat(a: seq<string>, b: seq<string>, cap: nat)
    ensures Recognised(a + b, cap) == Recognised(a, cap) + Recognised(b, cap)
  {
    if b == [] {
      Unit(a);
      Unit(Recognised(a, cap));
    } else {
      var m := |b| - 1;
      assert (a + b)[..|a + b| - 1] == a + b[..m];
      RecognisedConcat(a, b[..m], cap);
      Assoc(Recognised(a, cap), Recognised(b[..m], cap), DeliveredBy(Line(b[m], cap)));
    }
  }

  lemma CompleteOfStream(s: Session)
    requires Accounted(s) && AllLines(s.pieces)
    ensures Complete(s.received) == Texts(s.pieces) + Complete(s.buf)
  {
    RefinesSplit(s);
    var front, back := Texts(s.pieces), Split(s.buf);
    assert (front + back)[..|front + back| - 1] == front + back[..|back| - 1];
  }

  /** A client has had every complete recognised line it sent delivered if and only if none is in its
      buffer. */
  lemma DeliveredAll(s: Session, cap: nat)
    requires Accounted(s) && AllLines(s.pieces) && SameCap(s.pieces, cap)
    ensures s.delivered == Recognised(Complete(s.received), cap) <==> Recognised(Complete(s.buf), cap) == []
  {
    DeliversRecognised(s.pieces, cap);
    CompleteOfStream(s);
    RecognisedConcat(Texts(s.pieces), Complete(s.buf), cap);
    var a, b := s.delivered, Recognised(Complete(s.buf), cap);
    if b == [] { Unit(a); }
    if a == a + b { assert |a| == |a + b|; }
  }

  /** A client that goes in the poll, at the end of its stream or by a hard error, has had every complete
      recognised line delivered if and only if none was in its buffer before that visit. */
  lemma CloseDeliversAll(s: Session, r: Recv, cap: nat)
    requires Accounted(s) && AllLines(s.pieces) && SameCap(s.pieces, cap) && Legal(r) && VisitClient(s, r, cap).gone
    ensures VisitClient(s, r, cap).after.session.delivered == Recognised(Complete(s.received), cap)
      <==> Recognised(Complete(s.buf), cap) == []
  {
    VisitAccounted(s, r, cap);
    DeliveredAll(s, cap);
  }

  /** A client that a frame cannot be sent to goes with its buffer: it has had every complete recognised
      line delivered if and only if none was buffered, even at the front. */
  lemma BrokenSendDeliversAll(ss: seq<Session>, net: seq<Sent>, i: nat, cap: nat)
    requires i < |ss| <= |net| && net[i].Broken?
    requires Accounted(ss[i]) && AllLines(ss[i].pieces) && SameCap(ss[i].pieces, cap)
    ensures ss[i] in Unreached(ss, net)
    ensures ss[i].delivered == Recognised(Complete(ss[i].received), cap) <==> Recognised(Complete(ss[i].buf), cap) == []
  {
    BrokenGoes(ss, net, i);
    DeliveredAll(ss[i], cap);
  }

  lemma {:induction false} BrokenGoes(ss: seq<Session>, net: seq<Sent>, i: nat)
    requires i < |ss| <= |net| && net[i].Broken?
    ensures ss[i] in Unreached(ss, net)
  {
    var m := |ss| - 1;
    if i < m { BrokenGoes(ss[..m], net, i); }
  }

  lemma ExtractEmptyLine(s: Session, more: string, cap: nat)
    requires s.buf == ['\n'] + more
    ensures var e := Extract(s, cap);
      e.kind == 0 && e.session == s.(buf := more, pieces := s.pieces + [Line([], cap)])
  {
    assert s.buf[0] == '\n' && s.buf[..0] == [] && s.buf[1..] == more;
    FindIs(s.buf, '\n', 0);
  }

  /** `k` behind two empty lines. */
  function BehindTwo(k: string): string {
    ['\n'] + (['\n'] + (k + ['\n']))
  }

  lemma SplitBehindTwo(k: string)
    requires '\n' !in k
    ensures Complete(BehindTwo(k)) == [[], [], k]
  {
    var rest := k + ['\n'];
    Unit(rest);
    SplitHead(k, []);
    assert Split(rest) == [k] + Split([]);
    EmptyHead(rest);
    EmptyHead(['\n'] + rest);
    var nothing: seq<string> := [[]];
    assert Split([]) == nothing;
    assert Split(BehindTwo(k)) == [[]] + ([[]] + ([k] + nothing));
  }

  lemma EmptyHead(tail: string)
    ensures Split(['\n'] + tail) == [[]] + Split(tail)
  {
    assert [] + ['\n'] + tail == ['\n'] + tail;
    SplitHead([], tail);
  }

  /** One visit takes the chunk and the first empty line. */
  lemma FirstVisit(k: string, cap: nat)
    requires |k| + 3 <= RECV_MAX
    ensures var v := VisitClient(Opened(7), Chunk(BehindTwo(k)), cap);
      && v.after.kind == 0 && !v.gone
      && v.after.session == Session(7, ['\n'] + (k + ['\n']), BehindTwo(k), [Line([], cap)], [])
  {
    var s, data := Opened(7), BehindTwo(k);
    assert Find(s.buf, '\n') == 0 && Extract(s, cap) == Extracted(s, 0, []);
    assert [] + data == data;
    ExtractEmptyLine(Append(s, data), ['\n'] + (k + ['\n']), cap);
    Unit([Line([], cap)]);
  }

  /** Any recognised line is lost behind two empty ones, if the client closes right after sending. */
  lemma LineLostAtClose(k: string, cap: nat)
    requires '\n' !in k && 0 < |k| < cap && Kind(k) != 0 && |k| + 3 <= RECV_MAX
    ensures var v := VisitClient(Opened(7), Chunk(BehindTwo(k)), cap);
      var w := VisitClient(v.after.session, Closed, cap);
      && v.after.kind == 0 && !v.gone && w.gone && w.after.session.delivered == []
      && Complete(w.after.session.received) == [[], [], k]
  {
    FirstVisit(k, cap);
    SplitBehindTwo(k);
    ExtractEmptyLine(VisitClient(Opened(7), Chunk(BehindTwo(k)), cap).after.session, k + ['\n'], cap);
  }
}
