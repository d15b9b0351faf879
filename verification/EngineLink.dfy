/** The bridge's link to the engine: a reconnect state machine on a 32-bit millisecond tick.
    Times are unbounded integers; the code only ever sees them modulo 2^32.  Sockets the link opens and
    closes are recorded, so that its soundness is a law over every run, and each timing rule is stated
    for the wrapped comparison the code makes. */
module EngineLink {

  const WRAP := 0x1_0000_0000
  const HALF := 0x8000_0000

  function Tick(time: int): (t: nat)
    ensures t < WRAP
  {
    time % WRAP
  }

  /** `(int)(a - b)` on two 32-bit unsigned values. */
  function Gap(a: nat, b: nat): int {
    var d := (a - b) % WRAP;
    if d < HALF then d else d - WRAP
  }

  /** The tick arithmetic is exact if and only if the two times are less than half a wrap apart. */
  lemma GapExact(time: int, mark: int)
    ensures Gap(Tick(time), Tick(mark)) == time - mark <==> -HALF <= time - mark < HALF
  {
    var q, r := time / WRAP, mark / WRAP;
    var d := Tick(time) - Tick(mark);
    assert time - mark == d + WRAP * (q - r);
    assert -WRAP < d < WRAP;
    assert d % WRAP == if d >= 0 then d else d + WRAP;
  }

  /** `due` and `began` are the times behind the two ticks; `attempts` pairs the time of every
      connect with the deadline it had to wait for. */
  datatype Link = Link(
    valid: bool, ready: bool, retryAt: nat, connectT0: nat,
    due: int, began: int, opens: nat, closes: nat, attempts: seq<(int, int)>)

  datatype Connect = NoSocket | Connected | InProgress | Failed

  datatype Recv = Bytes | Closed | WouldBlock | Error

  /** One pass of the main loop, as the world answers it.  `now` is read once, before select;
      `t1` to `t3` are the later clock reads. */
  datatype Pass = Pass(
    now: int, connect: Connect, t1: int, selectFails: bool,
    writable: bool, soError: bool, t2: int, readable: bool, recv: Recv, t3: int)

  function Initial(): Link {
    Link(false, false, 0, 0, 0, 0, 0, 0, [])
  }

  function RetryAt(l: Link, time: int): Link {
    l.(retryAt := Tick(time), due := time)
  }

  function Drop(l: Link, retry: int): Link {
    RetryAt(l, retry).(valid := false, ready := false, closes := l.closes + 1)
  }

  /** `engine_start_connect` on an invalid socket. */
  function StartConnect(l: Link, now: int, c: Connect, t: int): Link {
    var tried := l.(attempts := l.attempts + [(now, l.due)]);
    match c
    case NoSocket => RetryAt(tried, t + 1000)
    case Connected => tried.(valid := true, ready := true, connectT0 := Tick(t), began := t, opens := l.opens + 1)
    case InProgress => tried.(valid := true, ready := false, connectT0 := Tick(t), began := t, opens := l.opens + 1)
    case Failed => RetryAt(tried, t + 1000).(opens := l.opens + 1, closes := l.closes + 1)
  }

  function MaybeConnect(l: Link, p: Pass): Link {
    if !l.valid && Gap(Tick(p.now), l.retryAt) >= 0 then StartConnect(l, p.now, p.connect, p.t1) else l
  }

  function FinishConnect(l: Link, p: Pass): Link {
    if !(l.valid && !l.ready) then l
    else if Gap(Tick(p.now), l.connectT0) > 3000 then Drop(l, p.now + 100)
    else if !p.writable then l
    else if p.soError then Drop(l, p.t2 + 1000)
    else l.(ready := true)
  }

  /** `watched` says that the socket was in the read set when select was called. */
  function Receive(l: Link, watched: bool, p: Pass): Link {
    if l.valid && l.ready && watched && p.readable && (p.recv.Closed? || p.recv.Error?) then Drop(l, p.t3 + 500) else l
  }

  function Step(l: Link, p: Pass): Link {
    var a := MaybeConnect(l, p);
    if p.selectFails then a else Receive(FinishConnect(a, p), a.valid && a.ready, p)
  }

  function Run(l: Link, ps: seq<Pass>): Link
    decreases |ps|
  {
    if ps == [] then l else Run(Step(l, ps[0]), ps[1..])
  }

  /** Sockets opened minus closed is one or none, ready implies valid, and the ticks are the
      images of the recorded times. */
  ghost predicate Sound(l: Link) {
    && l.opens == l.closes + (if l.valid then 1 else 0)
    && (l.ready ==> l.valid)
    && l.retryAt == Tick(l.due)
    && (l.valid ==> l.connectT0 == Tick(l.began))
  }

  lemma StepSound(l: Link, p: Pass)
    requires Sound(l)
    ensures Sound(Step(l, p))
  {
    assert Sound(MaybeConnect(l, p));
    assert Sound(FinishConnect(MaybeConnect(l, p), p));
  }

  /** Link safety: in every run, with any clock at all. */
  lemma {:induction false} RunSound(l: Link, ps: seq<Pass>)
    requires Sound(l)
    ensures Sound(Run(l, ps))
    decreases |ps|
  {
    if ps != [] {
      StepSound(l, ps[0]);
      RunSound(Step(l, ps[0]), ps[1..]);
    }
  }

  /** The clock never runs backwards. */
  ghost predicate Monotone(ps: seq<Pass>, floor: int)
    decreases |ps|
  {
    ps != [] ==> floor <= ps[0].now <= ps[0].t1 <= ps[0].t2 <= ps[0].t3 && Monotone(ps[1..], ps[0].t3)
  }

  /** While the clock is less than half a wrap away from the deadline, a pass connects exactly when
      there is no socket and the backoff has elapsed, wherever the tick wraps. */
  lemma ConnectsExactlyWhenDue(l: Link, p: Pass)
    requires Sound(l) && -HALF <= p.now - l.due < HALF
    ensures Step(l, p).attempts == l.attempts + if !l.valid && p.now >= l.due then [(p.now, l.due)] else []
  {
    GapExact(p.now, l.due);
    assert l.attempts + [] == l.attempts;
  }

  /** A connect that is not more than half a wrap before its deadline is not before it at all. */
  lemma NotEarly(l: Link, p: Pass)
    requires Sound(l) && -HALF <= p.now - l.due
    ensures forall a | a in Step(l, p).attempts :: a in l.attempts || (a.0 >= a.1 && a == (p.now, l.due))
  {
    if p.now < l.due { GapExact(p.now, l.due); }
  }

  /** No reconnect starts before its backoff has elapsed, in every run on a clock that does not
      run backwards, however often the tick wraps and however long a pass takes. */
  lemma {:induction false} NeverEarly(l: Link, ps: seq<Pass>, floor: int)
    requires Sound(l) && Monotone(ps, floor) && l.due <= floor + 1000
    requires forall a | a in l.attempts :: a.0 >= a.1
    ensures forall a | a in Run(l, ps).attempts :: a.0 >= a.1
    decreases |ps|
  {
    if ps != [] {
      NotEarly(l, ps[0]);
      StepSound(l, ps[0]);
      NeverEarly(Step(l, ps[0]), ps[1..], ps[0].t3);
    }
  }

  /** The other half of exactness needs its condition: half a wrap after the deadline the link stays down. */
  lemma LateClockStaysDown(l: Link, p: Pass)
    requires Sound(l) && !l.valid && HALF <= p.now - l.due < WRAP
    ensures Step(l, p).attempts == l.attempts
  {
    var d := Tick(p.now) - Tick(l.due);
    var q, r := p.now / WRAP, l.due / WRAP;
    assert p.now - l.due == d + WRAP * (q - r);
    assert (p.now - l.due) % WRAP == p.now - l.due;
    assert q - r == 0 || q - r == 1;
    assert d % WRAP == p.now - l.due;
  }

  /** The initial deadline is the tick 0, not a time: the first pass connects if and only if the
      host's tick is in its first half. */
  lemma FirstPassConnects(p: Pass)
    ensures Step(Initial(), p).attempts != [] <==> Tick(p.now) < HALF
  {
    assert Gap(Tick(p.now), 0) >= 0 <==> Tick(p.now) < HALF;
  }

  /** A pending connect is given up exactly when it is more than three seconds old, also when it
      began after `now` was read. */
  lemma TimeoutExact(l: Link, p: Pass)
    requires Sound(l) && l.valid && !l.ready && -HALF <= p.now - l.began < HALF && p.now <= p.t2
    ensures FinishConnect(l, p) == Drop(l, p.now + 100) <==> p.now - l.began > 3000
  {
    GapExact(p.now, l.began);
  }

  // ---------------------------------------------------------------- the globals of the bridge

  class Engine {
    var valid: bool
    var ready: bool
    var retryAt: nat
    var connectT0: nat
    ghost var due: int
    ghost var began: int
    ghost var opens: nat
    ghost var closes: nat
    ghost var attempts: seq<(int, int)>

    ghost function State(): (l: Link)
      reads this
    {
      Link(valid, ready, retryAt, connectT0, due, began, opens, closes, attempts)
    }

    constructor ()
      ensures State() == Initial()
    {
      valid, ready, retryAt, connectT0 := false, false, 0, 0;
      due, began, opens, closes, attempts := 0, 0, 0, 0, [];
    }

    method SetRetry(time: int)
      modifies `retryAt, `due
      ensures State() == RetryAt(old(State()), time)
    {
      retryAt := Tick(time);
      due := time;
    }

    method CloseAndRetry(time: int)
      requires valid
      modifies this
      ensures State() == Drop(old(State()), time)
    {
      closes := closes + 1;
      valid, ready := false, false;
      SetRetry(time);
    }

    method Connect(now: int, c: Connect, t: int)
      requires !valid && !ready
      modifies this
      ensures State() == StartConnect(old(State()), now, c, t)
    {
      attempts := attempts + [(now, due)];
      if c == NoSocket { SetRetry(t + 1000); return; }
      opens := opens + 1;
      valid := true;
      if c == Connected {
        ready := true;
        connectT0, began := Tick(t), t;
        return;
      }
      if c == InProgress {
        ready := false;
        connectT0, began := Tick(t), t;
        return;
      }
      closes := closes + 1;
      valid := false;
      SetRetry(t + 1000);
    }

    /** One pass of the main loop, as far as the engine socket goes. */
    method OnePass(p: Pass)
      requires Sound(State())
      modifies this
      ensures State() == Step(old(State()), p) && Sound(State())
    {
      StepSound(State(), p);
      if !valid && Gap(Tick(p.now), retryAt) >= 0 {
        Connect(p.now, p.connect, p.t1);
      }
      var watched := valid && ready;
      if p.selectFails { return; }
      if valid && !ready {
        if Gap(Tick(p.now), connectT0) > 3000 {
          CloseAndRetry(p.now + 100);
        } else if p.writable {
          if !p.soError { ready := true; } else { CloseAndRetry(p.t2 + 1000); }
        }
      }
      if valid && ready && watched && p.readable {
        if p.recv == Closed || p.recv == Error { CloseAndRetry(p.t3 + 500); }
      }
    }
  }
}
