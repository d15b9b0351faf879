/** The reconnecting WebSocket client: a queue that is handed to one socket after another. */
module CrpSocket {
  import opened Options

  /** Ready states only move forward (section 3 of the WHATWG WebSockets standard). */
  datatype Ready = Connecting | Open | Closing | Closed

  /** A socket ever created: its ready state, its promise's `settled` flag, and the generation of
      the connect loop that made it. */
  datatype Socket = Socket(ready: Ready, settled: bool, generation: nat)

  /** Where the running `_connectLoop` is suspended. */
  datatype Phase = Awaiting(id: nat) | Rejected | Backoff | Resolved

  /** `made` counts the sockets this loop has created. */
  datatype Loop = Idle | Running(generation: nat, attempt: nat, phase: Phase, made: nat)

  /** The client's fields, every socket it ever made, and the two histories since the last
      `close()`: what was passed to `send` and what was handed to any socket. */
  datatype Client = Client(
    retries: nat,
    sockets: seq<Socket>, socket: Option<nat>, queue: seq<string>, closed: bool, generation: nat, loop: Loop,
    sent: seq<string>, handed: seq<string>)

  datatype Event =
    | Connect
    | OpenEvent(id: nat, room: nat)   // `room`: sends until the socket leaves Open
    | ErrorEvent(id: nat)
    | CloseEvent(id: nat)
    | Leaves(id: nat)                 // the peer starts closing
    | LoopResumes                     // promise settled, or the backoff timer fired
    | Send(value: string)
    | Close

  predicate Possible(c: Client, e: Event) {
    match e
    case OpenEvent(id, _) => id < |c.sockets| && c.sockets[id].ready == Connecting
    case ErrorEvent(id) => id < |c.sockets| && c.sockets[id].ready != Closed
    case CloseEvent(id) => id < |c.sockets|
    case Leaves(id) => id < |c.sockets| && c.sockets[id].ready == Open
    case LoopResumes => c.loop.Running? && !c.loop.phase.Awaiting?
    case _ => true
  }

  function Initial(retries: nat): Client {
    Client(retries, [], None, [], false, 0, Idle, [], [])
  }

  /** The head of the loop: give up quietly, or make a socket and wait for it. */
  function Attempt(c: Client): Client
    requires c.loop.Running?
  {
    if c.closed || c.loop.generation != c.generation then c.(loop := Idle)
    else c.(sockets := c.sockets + [Socket(Connecting, false, c.loop.generation)],
            socket := Some(|c.sockets|),
            loop := c.loop.(phase := Awaiting(|c.sockets|), made := c.loop.made + 1))
  }

  function DoConnect(c: Client): Client {
    if c.loop.Running? then c
    else Attempt(c.(closed := false, generation := c.generation + 1, loop := Running(c.generation + 1, 0, Backoff, 0)))
  }

  predicate AwaitedBy(c: Client, id: nat) {
    c.loop.Running? && c.loop.phase == Awaiting(id)
  }

  function Settle(c: Client, id: nat, ready: Ready): Client
    requires id < |c.sockets|
  {
    c.(sockets := c.sockets[id := c.sockets[id].(ready := ready, settled := true)])
  }

  function OnOpen(c: Client, id: nat, room: nat): Client
    requires id < |c.sockets|
  {
    if c.sockets[id].settled then c.(sockets := c.sockets[id := c.sockets[id].(ready := Open)])
    else
      var n := if room < |c.queue| then room else |c.queue|;
      var d := Settle(c, id, if room < |c.queue| then Closing else Open)
        .(queue := c.queue[n..], handed := c.handed + c.queue[..n]);
      if AwaitedBy(c, id) then d.(loop := d.loop.(attempt := 0, phase := Resolved)) else d
  }

  function OnError(c: Client, id: nat): Client
    requires id < |c.sockets|
  {
    var d := Settle(c, id, Closed);
    if !c.sockets[id].settled && AwaitedBy(c, id) then d.(loop := d.loop.(phase := Rejected)) else d
  }

  function OnClose(c: Client, id: nat): Client
    requires id < |c.sockets|
  {
    var d := c.(sockets := c.sockets[id := c.sockets[id].(ready := Closed)],
                socket := if c.socket == Some(id) then None else c.socket);
    if !d.closed && d.sockets[id].generation == d.generation then DoConnect(d) else d
  }

  function Resume(c: Client): Client
    requires c.loop.Running? && !c.loop.phase.Awaiting?
  {
    match c.loop.phase
    case Resolved => c.(loop := Idle)
    case Backoff => Attempt(c)
    case Rejected =>
      if c.closed || c.loop.generation != c.generation || c.loop.attempt >= c.retries then c.(loop := Idle)
      else c.(loop := c.loop.(attempt := c.loop.attempt + 1, phase := Backoff))
  }

  predicate CanSend(c: Client) {
    c.socket.Some? && c.socket.value < |c.sockets| && c.sockets[c.socket.value].ready == Open
  }

  function DoSend(c: Client, v: string): Client {
    var d := c.(sent := c.sent + [v]);
    if CanSend(c) then d.(handed := c.handed + [v]) else d.(queue := c.queue + [v])
  }

  function DoClose(c: Client): Client {
    var d := c.(closed := true, generation := c.generation + 1, queue := [], socket := None, sent := [], handed := []);
    if c.socket.Some? && c.socket.value < |c.sockets| && !c.sockets[c.socket.value].ready.Closed?
    then d.(sockets := c.sockets[c.socket.value := c.sockets[c.socket.value].(ready := Closing)])
    else d
  }

  function Step(c: Client, e: Event): Client
    requires Possible(c, e)
  {
    match e
    case Connect => DoConnect(c)
    case OpenEvent(id, room) => OnOpen(c, id, room)
    case ErrorEvent(id) => OnError(c, id)
    case CloseEvent(id) => OnClose(c, id)
    case Leaves(id) => c.(sockets := c.sockets[id := c.sockets[id].(ready := Closing)])
    case LoopResumes => Resume(c)
    case Send(v) => DoSend(c, v)
    case Close => DoClose(c)
  }

  /** The inductive invariant: hand-off is first in, first out; a socket that can take a value
      directly leaves nothing queued; a socket still connecting has not settled; and the running
      loop has made at most one socket per attempt allowed. */
  ghost predicate Inv(c: Client) {
    && c.handed + c.queue == c.sent
    && (CanSend(c) ==> c.queue == [])
    && (c.socket.Some? ==> c.socket.value < |c.sockets|)
    && (forall i | 0 <= i < |c.sockets| && c.sockets[i].ready == Connecting :: !c.sockets[i].settled)
    && (c.loop.Running? ==>
      && c.loop.made <= c.retries + 1
      && match c.loop.phase
         case Awaiting(id) => id < |c.sockets| && c.loop.made == c.loop.attempt + 1
         case Rejected => c.loop.made == c.loop.attempt + 1
         case Backoff => c.loop.made == c.loop.attempt <= c.retries
         case Resolved => true)
  }

  lemma AttemptInv(c: Client)
    requires Inv(c) && c.loop.Running? && c.loop.phase.Backoff?
    ensures Inv(Attempt(c))
  {
  }

  lemma ConnectInv(c: Client)
    requires Inv(c)
    ensures Inv(DoConnect(c))
  {
    if !c.loop.Running? {
      var d := c.(closed := false, generation := c.generation + 1, loop := Running(c.generation + 1, 0, Backoff, 0));
      assert CanSend(d) == CanSend(c);
      AttemptInv(d);
    }
  }

  lemma OpenInv(c: Client, id: nat, room: nat)
    requires Inv(c) && id < |c.sockets| && c.sockets[id].ready == Connecting
    ensures Inv(OnOpen(c, id, room))
  {
    var n := if room < |c.queue| then room else |c.queue|;
    assert c.handed + c.queue[..n] + c.queue[n..] == c.handed + c.queue;
  }

  lemma CloseEventInv(c: Client, id: nat)
    requires Inv(c) && id < |c.sockets|
    ensures Inv(OnClose(c, id))
  {
    var d := c.(sockets := c.sockets[id := c.sockets[id].(ready := Closed)],
                socket := if c.socket == Some(id) then None else c.socket);
    assert Inv(d);
    ConnectInv(d);
  }

  lemma StepInv(c: Client, e: Event)
    requires Inv(c) && Possible(c, e)
    ensures Inv(Step(c, e))
  {
    match e
    case Connect => ConnectInv(c);
    case OpenEvent(id, room) => OpenInv(c, id, room);
    case ErrorEvent(id) =>
    case CloseEvent(id) => CloseEventInv(c, id);
    case Leaves(id) =>
    case LoopResumes => if c.loop.phase.Backoff? { AttemptInv(c); }
    case Send(v) => assert c.handed + c.queue + [v] == c.handed + (c.queue + [v]);
    case Close =>
  }

  ghost predicate PossibleRun(c: Client, es: seq<Event>)
    decreases |es|
  {
    es != [] ==> Possible(c, es[0]) && PossibleRun(Step(c, es[0]), es[1..])
  }

  ghost function Run(c: Client, es: seq<Event>): Client
    requires PossibleRun(c, es)
    decreases |es|
  {
    if es == [] then c else Run(Step(c, es[0]), es[1..])
  }

  lemma {:induction false} RunInv(c: Client, es: seq<Event>)
    requires Inv(c) && PossibleRun(c, es)
    ensures Inv(Run(c, es))
    decreases |es|
  {
    if es != [] {
      StepInv(c, es[0]);
      RunInv(Step(c, es[0]), es[1..]);
    }
  }

  /** What a run passed to `send` after its last `close`, appended to what was there before. */
  function SentBy(es: seq<Event>, before: seq<string>): seq<string> {
    if es == [] then before
    else match es[0]
      case Send(v) => SentBy(es[1..], before + [v])
      case Close => SentBy(es[1..], [])
      case _ => SentBy(es[1..], before)
  }

  lemma {:induction false} SentIsSentBy(c: Client, es: seq<Event>)
    requires PossibleRun(c, es)
    ensures Run(c, es).sent == SentBy(es, c.sent)
    decreases |es|
  {
    if es != [] { SentIsSentBy(Step(c, es[0]), es[1..]); }
  }

  /** FIFO hand-off across reconnects: in every interleaving, what any socket was handed since the
      last `close()`, followed by the queue, is what was passed to `send`, in order; so no value is
      handed over twice, and none is lost or reordered between sockets.  No connect loop makes more
      than retries + 1 sockets. */
  lemma FifoHandOff(retries: nat, es: seq<Event>)
    requires PossibleRun(Initial(retries), es)
    ensures var c := Run(Initial(retries), es);
      && c.handed + c.queue == SentBy(es, [])
      && (CanSend(c) ==> c.queue == [])
      && (c.loop.Running? ==> c.loop.made <= retries + 1)
  {
    RunInv(Initial(retries), es);
    SentIsSentBy(Initial(retries), es);
    RunRetries(Initial(retries), es);
  }

  lemma {:induction false} RunRetries(c: Client, es: seq<Event>)
    requires PossibleRun(c, es)
    ensures Run(c, es).retries == c.retries
    decreases |es|
  {
    if es != [] { RunRetries(Step(c, es[0]), es[1..]); }
  }

  /** A call of connect starts a loop exactly when none is running: then there is one more socket, in a
      new generation; else nothing changes. */
  lemma ConnectStartsIfIdle(c: Client)
    ensures var d := DoConnect(c);
      && (|d.sockets| > |c.sockets| <==> !c.loop.Running?) && (c.loop.Running? ==> d == c)
      && (!c.loop.Running? ==> !d.closed && d.socket == Some(|c.sockets|) && d.generation == c.generation + 1)
  {
  }

  /** A loop is running before each of the events. */
  predicate RunningThroughout(c: Client, es: seq<Event>)
    requires PossibleRun(c, es)
    decreases |es|
  {
    es != [] ==> c.loop.Running? && RunningThroughout(Step(c, es[0]), es[1..])
  }

  /** After a close, as long as the old loop is pending, no event makes a socket or reopens the client,
      whatever is called. */
  lemma {:induction false} ClosedWhilePending(c: Client, es: seq<Event>)
    requires c.closed && PossibleRun(c, es) && RunningThroughout(c, es)
    ensures Run(c, es).closed && |Run(c, es).sockets| == |c.sockets|
    decreases |es|
  {
    if es != [] { ClosedWhilePending(Step(c, es[0]), es[1..]); }
  }

  /** After a close, and until connect is called again, no event makes a socket. */
  lemma {:induction false} ClosedStaysClosed(c: Client, es: seq<Event>)
    requires c.closed && PossibleRun(c, es) && forall i | 0 <= i < |es| :: es[i] != Connect
    ensures Run(c, es).closed && |Run(c, es).sockets| == |c.sockets|
    decreases |es|
  {
    if es != [] {
      assert es[0] != Connect && forall i | 0 <= i < |es| - 1 :: es[1..][i] == es[i + 1];
      ClosedStaysClosed(Step(c, es[0]), es[1..]);
    }
  }

  /** In every run, a loop that learns of a failed attempt gives up exactly when it has made retries + 1
      sockets; else it goes on to its backoff with one attempt more. */
  lemma GivesUpExact(retries: nat, es: seq<Event>)
    requires PossibleRun(Initial(retries), es)
    requires var c := Run(Initial(retries), es);
      c.loop.Running? && c.loop.phase == Rejected && !c.closed && c.loop.generation == c.generation
    ensures var c := Run(Initial(retries), es);
      var d := Step(c, LoopResumes);
      && (d.loop == Idle <==> c.loop.made == retries + 1)
      && (d.loop != Idle ==> d.loop == c.loop.(attempt := c.loop.attempt + 1, phase := Backoff))
  {
    RunInv(Initial(retries), es);
    RunRetries(Initial(retries), es);
  }

  lemma RunOf(c: Client, e: Event, es: seq<Event>)
    ensures PossibleRun(c, [e] + es) <==> Possible(c, e) && PossibleRun(Step(c, e), es)
    ensures PossibleRun(c, [e] + es) ==> Run(c, [e] + es) == Run(Step(c, e), es)
  {
    var all := [e] + es;
    assert all[0] == e && all[1..] == es;
  }

  /** Every attempt of the loop fails, with `n` more to come; each backoff runs out. */
  function Failing(n: nat, id: nat): seq<Event> {
    [ErrorEvent(id)] + ([LoopResumes] + if n == 0 then [] else [LoopResumes] + Failing(n - 1, id + 1))
  }

  lemma {:induction false} FailingRun(c: Client, n: nat, id: nat)
    requires !c.closed && c.loop.Running? && c.loop.generation == c.generation && c.loop.phase == Awaiting(id)
    requires c.loop.attempt + n == c.retries && id + 1 == |c.sockets|
    requires c.sockets[id].ready == Connecting && !c.sockets[id].settled
    ensures PossibleRun(c, Failing(n, id))
    ensures var d := Run(c, Failing(n, id)); |d.sockets| == |c.sockets| + n && d.loop == Idle
    decreases n
  {
    var failed := Step(c, ErrorEvent(id));
    assert failed.loop == c.loop.(phase := Rejected) && |failed.sockets| == |c.sockets|;
    var resumed := Step(failed, LoopResumes);
    var more: seq<Event> := if n == 0 then [] else [LoopResumes] + Failing(n - 1, id + 1);
    if n > 0 {
      FailingRun(Step(resumed, LoopResumes), n - 1, id + 1);
      RunOf(resumed, LoopResumes, Failing(n - 1, id + 1));
    }
    RunOf(failed, LoopResumes, more);
    RunOf(c, ErrorEvent(id), [LoopResumes] + more);
  }

  /** A loop whose attempts all fail makes exactly retries + 1 sockets and gives up. */
  lemma AllAttemptsFail(retries: nat)
    ensures var es := [Connect] + Failing(retries, 0);
      PossibleRun(Initial(retries), es)
      && |Run(Initial(retries), es).sockets| == retries + 1 && Run(Initial(retries), es).loop == Idle
  {
    FailingRun(Step(Initial(retries), Connect), retries, 0);
    RunOf(Initial(retries), Connect, Failing(retries, 0));
  }

  /** The loop fails to connect and waits out its backoff; the client is closed and told to connect
      again, and ends closed, idle and without a socket. */
  lemma LostSteps() returns (c1: Client, c2: Client, c3: Client, c4: Client)
    ensures c1 == Step(Initial(3), Connect) && |c1.sockets| == 1 && c1.sockets[0].ready == Connecting
    ensures c2 == Step(c1, ErrorEvent(0)) && c2.loop.Running? && c2.loop.phase == Rejected
    ensures c3 == Step(c2, LoopResumes) && c4 == Step(c3, Close) && c4.loop.Running? && c4.loop.phase == Backoff
    ensures Step(c4, Connect) == c4
    ensures var c := Step(c4, LoopResumes); c.closed && c.loop == Idle && c.socket == None
  {
    c1 := Step(Initial(3), Connect);
    c2 := Step(c1, ErrorEvent(0));
    c3 := Step(c2, LoopResumes);
    c4 := Step(c3, Close);
  }

  /** So a connect after a close can be lost. */
  lemma ConnectAfterCloseIsLost()
    ensures var es := [Connect] + ([ErrorEvent(0)] + ([LoopResumes] + ([Close] + ([Connect] + ([LoopResumes] + [])))));
      PossibleRun(Initial(3), es)
      && var c := Run(Initial(3), es); c.closed && c.loop == Idle && c.socket == None
  {
    var c1, c2, c3, c4 := LostSteps();
    var e5: seq<Event> := [LoopResumes] + [];
    var e4 := [Connect] + e5;
    var e3 := [Close] + e4;
    var e2 := [LoopResumes] + e3;
    RunOf(c4, LoopResumes, []);
    RunOf(c4, Connect, e5);
    RunOf(c3, Close, e4);
    RunOf(c2, LoopResumes, e3);
    RunOf(c1, ErrorEvent(0), e2);
    RunOf(Initial(3), Connect, [ErrorEvent(0)] + e2);
  }

  // ---------------------------------------------------------------- the object and its handlers

  /** A close event starts a new loop, with all its retries, exactly when no loop is running, the client
      is not closed and the socket is of the current generation: also when the loop of that generation
      has given up before.  So `retries` bounds the sockets of one loop only. */
  lemma CloseEventReconnects(c: Client, id: nat)
    requires id < |c.sockets|
    ensures var d := OnClose(c, id);
      && (|d.sockets| > |c.sockets| <==> c.loop.Idle? && !c.closed && c.sockets[id].generation == c.generation)
      && (|d.sockets| > |c.sockets| ==> d.loop == Running(c.generation + 1, 0, Awaiting(|c.sockets|), 1))
  {
  }

  lemma GivenUpSteps() returns (c1: Client, c2: Client, c3: Client)
    ensures c1 == Step(Initial(0), Connect) && |c1.sockets| == 1 && c1.sockets[0].ready == Connecting
    ensures c2 == Step(c1, ErrorEvent(0)) && c2.loop.Running? && c2.loop.phase == Rejected && |c2.sockets| == 1
    ensures c3 == Step(c2, LoopResumes) && c3.loop == Idle && |c3.sockets| == 1
    ensures var c := Step(c3, CloseEvent(0)); |c.sockets| == 2 && c.loop.Running?
  {
    c1 := Step(Initial(0), Connect);
    c2 := Step(c1, ErrorEvent(0));
    c3 := Step(c2, LoopResumes);
  }

  /** With no retries at all, one call of connect leads to a second socket. */
  lemma GivenUpLoopRestarts()
    ensures var gaveUp := [Connect] + ([ErrorEvent(0)] + ([LoopResumes] + []));
      PossibleRun(Initial(0), gaveUp) && Run(Initial(0), gaveUp).loop == Idle
    ensures var es := [Connect] + ([ErrorEvent(0)] + ([LoopResumes] + ([CloseEvent(0)] + [])));
      PossibleRun(Initial(0), es) && |Run(Initial(0), es).sockets| == 2 && Run(Initial(0), es).loop.Running?
  {
    var c1, c2, c3 := GivenUpSteps();
    var last: seq<Event> := [CloseEvent(0)] + [];
    RunOf(c3, CloseEvent(0), []);
    RunOf(c2, LoopResumes, []);
    RunOf(c2, LoopResumes, last);
    RunOf(c1, ErrorEvent(0), [LoopResumes] + []);
    RunOf(c1, ErrorEvent(0), [LoopResumes] + last);
    RunOf(Initial(0), Connect, [ErrorEvent(0)] + ([LoopResumes] + []));
    RunOf(Initial(0), Connect, [ErrorEvent(0)] + ([LoopResumes] + last));
  }

  lemma HandStep(before: seq<string>, all: seq<string>, n: nat)
    requires n < |all|
    ensures before + all[..n] + [all[n]] == before + all[..n + 1] && all[n..][1..] == all[n + 1..]
      && all[n..][0] == all[n]
  {
  }

  class CrpWebSocketClient {
    const retries: nat
    var sockets: seq<Socket>
    var socket: Option<nat>
    var queue: seq<string>
    var closed: bool
    var generation: nat
    var loop: Loop
    ghost var sent: seq<string>
    ghost var handed: seq<string>

    constructor (retries: nat)
      ensures State() == Initial(retries)
    {
      this.retries := retries;
      sockets, socket, queue, closed, generation, loop := [], None, [], false, 0, Idle;
      sent, handed := [], [];
    }

    ghost function State(): Client
      reads this
    {
      Client(retries, sockets, socket, queue, closed, generation, loop, sent, handed)
    }

    /** One turn of the `while` in `_connectLoop`, up to its await. */
    method TryOnce()
      requires loop.Running?
      modifies this
      ensures State() == Attempt(old(State()))
    {
      if closed || loop.generation != generation {
        loop := Idle;
        return;
      }
      var id := |sockets|;
      sockets := sockets + [Socket(Connecting, false, loop.generation)];
      socket := Some(id);
      loop := loop.(phase := Awaiting(id), made := loop.made + 1);
    }

    method Connect()
      modifies this
      ensures State() == DoConnect(old(State()))
    {
      if loop.Running? { return; }
      closed := false;
      generation := generation + 1;
      loop := Running(generation, 0, Backoff, 0);
      TryOnce();
    }

    /** The hand-over loop: the socket leaves the open state behind `room` sends. */
    method DrainQueue(id: nat, room: nat)
      requires id < |sockets| && sockets[id].ready == Open
      modifies `sockets, `queue, `handed
      ensures var n := if room < |old(queue)| then room else |old(queue)|;
        && queue == old(queue)[n..] && handed == old(handed) + old(queue)[..n]
        && sockets == old(sockets)[id := old(sockets)[id].(ready := if room < |old(queue)| then Closing else Open)]
    {
      ghost var all, socks, before := queue, sockets, handed;
      var n := 0;
      assert all[0..] == all && before + all[..0] == before;
      while |queue| > 0 && sockets[id].ready == Open
        invariant 0 <= n <= |all| && n <= room && queue == all[n..] && handed == before + all[..n]
        invariant |sockets| == |socks| && sockets == socks[id := socks[id].(ready := sockets[id].ready)]
        invariant sockets[id].ready == Open || (sockets[id].ready == Closing && n == room < |all|)
        decreases |queue|, if sockets[id].ready == Open then 1 else 0
      {
        if n == room {
          sockets := sockets[id := sockets[id].(ready := Closing)];
        } else {
          HandStep(before, all, n);
          handed := handed + [queue[0]];
          queue := queue[1..];
          n := n + 1;
        }
      }
    }

    /** The `open` listener: hand the queue over, oldest first, while the socket stays open. */
    method OnOpenEvent(id: nat, room: nat)
      requires id < |sockets| && Inv(State()) && sockets[id].ready == Connecting
      modifies this
      ensures State() == OnOpen(old(State()), id, room) && Inv(State())
    {
      ghost var was := State();
      assert !was.sockets[id].settled;
      OpenInv(was, id, room);
      sockets := sockets[id := Socket(Open, true, sockets[id].generation)];
      DrainQueue(id, room);
      ghost var last := if room < |was.queue| then Closing else Open;
      assert sockets == was.sockets[id := was.sockets[id].(ready := last, settled := true)];
      if loop.Running? && loop.phase == Awaiting(id) {
        loop := loop.(attempt := 0, phase := Resolved);
      }
    }

    method OnErrorEvent(id: nat)
      requires id < |sockets|
      modifies this
      ensures State() == OnError(old(State()), id)
    {
      var settled := sockets[id].settled;
      sockets := sockets[id := sockets[id].(ready := Closed, settled := true)];
      if !settled && loop.Running? && loop.phase == Awaiting(id) {
        loop := loop.(phase := Rejected);
      }
    }

    method OnCloseEvent(id: nat)
      requires id < |sockets|
      modifies this
      ensures State() == OnClose(old(State()), id)
    {
      sockets := sockets[id := sockets[id].(ready := Closed)];
      if socket == Some(id) { socket := None; }
      if !closed && sockets[id].generation == generation { Connect(); }
    }

    /** The continuation of `_connectLoop` after its await, and the `finally` of `connect`. */
    method ResumeLoop()
      requires loop.Running? && !loop.phase.Awaiting?
      modifies this
      ensures State() == Resume(old(State()))
    {
      if loop.phase == Resolved {
        loop := Idle;
      } else if loop.phase == Backoff {
        TryOnce();
      } else if closed || loop.generation != generation || loop.attempt >= retries {
        loop := Idle;
      } else {
        loop := loop.(attempt := loop.attempt + 1, phase := Backoff);
      }
    }

    method SendData(data: string)
      requires socket.Some? ==> socket.value < |sockets|
      modifies this
      ensures State() == DoSend(old(State()), data)
    {
      sent := sent + [data];
      if socket.Some? && sockets[socket.value].ready == Open {
        handed := handed + [data];
      } else {
        queue := queue + [data];
      }
    }

    method CloseClient()
      requires socket.Some? ==> socket.value < |sockets|
      modifies this
      ensures State() == DoClose(old(State()))
    {
      closed := true;
      generation := generation + 1;
      queue := [];
      sent, handed := [], [];
      if socket.Some? && sockets[socket.value].ready != Closed {
        sockets := sockets[socket.value := sockets[socket.value].(ready := Closing)];
      }
      socket := None;
    }
  }
}
