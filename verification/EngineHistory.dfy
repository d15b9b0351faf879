/** The engine link told from the answers alone: which connect the present socket comes from, when it
    became ready, and why and until when there is none. */
module EngineHistory {
  import opened EngineLink

  /** The link behind the first `n` passes. */
  function After(ps: seq<Pass>, n: nat): Link
    requires n <= |ps|
  {
    Run(Initial(), ps[..n])
  }

  lemma {:induction false} RunSnoc(l: Link, ps: seq<Pass>, p: Pass)
    ensures Run(l, ps + [p]) == Step(Run(l, ps), p)
    decreases |ps|
  {
    if ps == [] {
      assert (ps + [p])[0] == p && (ps + [p])[1..] == [];
    } else {
      assert (ps + [p])[0] == ps[0] && (ps + [p])[1..] == ps[1..] + [p];
      RunSnoc(Step(l, ps[0]), ps[1..], p);
    }
  }

  lemma AfterNext(ps: seq<Pass>, n: nat)
    requires n < |ps|
    ensures After(ps, n + 1) == Step(After(ps, n), ps[n])
  {
    RunSnoc(Initial(), ps[..n], ps[n]);
    assert ps[..n + 1] == ps[..n] + [ps[n]];
  }

  /** A connect is tried in pass `k`. */
  predicate Tries(ps: seq<Pass>, k: nat)
    requires k < |ps|
  {
    |After(ps, k + 1).attempts| > |After(ps, k).attempts|
  }

  /** The last connect before pass `n` is tried in pass `j`. */
  predicate LastTry(ps: seq<Pass>, j: nat, n: nat)
    requires j < n <= |ps|
  {
    Tries(ps, j) && forall i | j < i < n :: !Tries(ps, i)
  }

  // ---------------------------------------------------------------- what one pass says

  predicate Closing(p: Pass) {
    !p.selectFails && p.readable && (p.recv == Closed || p.recv == Error)
  }

  /** What a pass says of a connect that is pending since `t0`. */
  predicate TimesOut(p: Pass, t0: int) {
    !p.selectFails && Gap(Tick(p.now), Tick(t0)) > 3000
  }

  predicate Refuses(p: Pass, t0: int) {
    !p.selectFails && Gap(Tick(p.now), Tick(t0)) <= 3000 && p.writable && p.soError
  }

  predicate Completes(p: Pass, t0: int) {
    !p.selectFails && Gap(Tick(p.now), Tick(t0)) <= 3000 && p.writable && !p.soError
  }

  predicate Quiet(p: Pass, t0: int) {
    p.selectFails || (Gap(Tick(p.now), Tick(t0)) <= 3000 && !p.writable)
  }

  /** The connect tried in pass `j` is still pending before pass `n`. */
  predicate Waits(ps: seq<Pass>, j: nat, n: nat)
    requires j <= n <= |ps| && j < |ps|
  {
    ps[j].connect == InProgress && forall i | j <= i < n :: Quiet(ps[i], ps[j].t1)
  }

  /** The connect tried in pass `j` was accepted in pass `u`: at once, or after waiting. */
  predicate Accepted(ps: seq<Pass>, j: nat, u: nat)
    requires j <= u < |ps|
  {
    (ps[j].connect == Connected && u == j) || (Waits(ps, j, u) && Completes(ps[u], ps[j].t1))
  }

  /** No pass from the acceptance on closes the socket; the pass that completes a pending connect does not
      receive. */
  predicate Stays(ps: seq<Pass>, j: nat, u: nat, n: nat)
    requires j <= u < |ps| && n <= |ps|
  {
    forall i | u <= i < n :: (i == u && ps[j].connect == InProgress) || !Closing(ps[i])
  }

  predicate Up(ps: seq<Pass>, j: nat, u: nat, n: nat)
    requires j <= u < n <= |ps|
  {
    Accepted(ps, j, u) && Stays(ps, j, u, n)
  }

  /** The socket of the connect tried in pass `j` is gone in pass `e`, and the next try is due at `d`. */
  predicate Ends(ps: seq<Pass>, j: nat, e: nat, d: int)
    requires j <= e < |ps|
  {
    || ((ps[j].connect == NoSocket || ps[j].connect == Failed) && e == j && d == ps[j].t1 + 1000)
    || (Waits(ps, j, e) && TimesOut(ps[e], ps[j].t1) && d == ps[e].now + 100)
    || (Waits(ps, j, e) && Refuses(ps[e], ps[j].t1) && d == ps[e].t2 + 1000)
    || (Closing(ps[e]) && d == ps[e].t3 + 500
        && exists u | j <= u <= e ::
          Accepted(ps, j, u) && Stays(ps, j, u, e) && !(u == e && ps[j].connect == InProgress))
  }

  // ---------------------------------------------------------------- every run

  ghost predicate NeverTried(ps: seq<Pass>, n: nat)
    requires n <= |ps|
  {
    forall i | 0 <= i < n :: !Tries(ps, i)
  }

  ghost predicate Pending(ps: seq<Pass>, n: nat)
    requires n <= |ps|
  {
    exists j | 0 <= j < n :: LastTry(ps, j, n) && Waits(ps, j, n)
  }

  ghost predicate Ready(ps: seq<Pass>, n: nat)
    requires n <= |ps|
  {
    exists j, u | 0 <= j <= u < n :: LastTry(ps, j, n) && Up(ps, j, u, n)
  }

  ghost predicate Gone(ps: seq<Pass>, n: nat, d: int)
    requires n <= |ps|
  {
    exists j, e | 0 <= j <= e < n :: LastTry(ps, j, n) && Ends(ps, j, e, d)
  }

  /** The four lives of the link. */
  ghost predicate Lives(ps: seq<Pass>, n: nat)
    requires n <= |ps|
  {
    var l := After(ps, n);
    if l.valid then
      if l.ready then Ready(ps, n)
      else exists j | 0 <= j < n :: LastTry(ps, j, n) && Waits(ps, j, n) && l.connectT0 == Tick(ps[j].t1)
    else !l.ready && (Gone(ps, n, l.due) || (NeverTried(ps, n) && l.due == 0))
  }

  /** Whether the next pass tries, from the state. */
  lemma TriesIs(ps: seq<Pass>, n: nat)
    requires n < |ps|
    ensures Tries(ps, n) <==> !After(ps, n).valid && Gap(Tick(ps[n].now), After(ps, n).retryAt) >= 0
  {
    AfterNext(ps, n);
  }

  lemma TryLives(ps: seq<Pass>, n: nat)
    requires n < |ps| && Tries(ps, n) && !After(ps, n).ready
    ensures Lives(ps, n + 1)
  {
    var p, l := ps[n], After(ps, n + 1);
    AfterNext(ps, n);
    TriesIs(ps, n);
    assert LastTry(ps, n, n + 1);
    if p.connect == NoSocket || p.connect == Failed {
      assert Ends(ps, n, n, l.due);
    } else if p.connect == Connected {
      assert Accepted(ps, n, n);
      if Closing(p) {
        assert Stays(ps, n, n, n);
        assert Ends(ps, n, n, l.due);
      } else {
        assert Up(ps, n, n, n + 1);
      }
    } else {
      assert Waits(ps, n, n);
      if Quiet(p, p.t1) {
        assert Waits(ps, n, n + 1);
      } else if Completes(p, p.t1) {
        assert Up(ps, n, n, n + 1);
      } else {
        assert Ends(ps, n, n, l.due);
      }
    }
  }

  lemma LastTryOn(ps: seq<Pass>, j: nat, n: nat)
    requires j < n < |ps| && LastTry(ps, j, n) && !Tries(ps, n)
    ensures LastTry(ps, j, n + 1)
  {
  }

  lemma PendingLives(ps: seq<Pass>, n: nat, j: nat)
    requires j < n < |ps| && After(ps, n).valid && !After(ps, n).ready
    requires LastTry(ps, j, n) && Waits(ps, j, n) && After(ps, n).connectT0 == Tick(ps[j].t1)
    ensures Lives(ps, n + 1)
  {
    var p, l := ps[n], After(ps, n + 1);
    AfterNext(ps, n);
    TriesIs(ps, n);
    LastTryOn(ps, j, n);
    if Quiet(p, ps[j].t1) {
      assert Waits(ps, j, n + 1);
    } else if Completes(p, ps[j].t1) {
      assert Accepted(ps, j, n) && Up(ps, j, n, n + 1);
    } else {
      assert Ends(ps, j, n, l.due);
    }
  }

  lemma ReadyLives(ps: seq<Pass>, n: nat, j: nat, u: nat)
    requires j <= u < n < |ps| && After(ps, n).valid && After(ps, n).ready && LastTry(ps, j, n) && Up(ps, j, u, n)
    ensures Lives(ps, n + 1)
  {
    var p, l := ps[n], After(ps, n + 1);
    AfterNext(ps, n);
    TriesIs(ps, n);
    LastTryOn(ps, j, n);
    if Closing(p) {
      assert Ends(ps, j, n, l.due);
    } else {
      assert Up(ps, j, u, n + 1);
    }
  }

  lemma IdleLives(ps: seq<Pass>, n: nat)
    requires n < |ps| && Lives(ps, n) && !After(ps, n).valid && !Tries(ps, n)
    ensures Lives(ps, n + 1)
  {
    var l := After(ps, n);
    AfterNext(ps, n);
    TriesIs(ps, n);
    if Gone(ps, n, l.due) {
      var j, e :| 0 <= j <= e < n && LastTry(ps, j, n) && Ends(ps, j, e, l.due);
      LastTryOn(ps, j, n);
    }
  }

  lemma {:induction false} RunLives(ps: seq<Pass>, n: nat)
    requires n <= |ps|
    ensures Lives(ps, n)
  {
    if n == 0 {
      assert After(ps, 0) == Initial();
    } else {
      var m, l := n - 1, After(ps, n - 1);
      RunLives(ps, m);
      if l.valid {
        if l.ready {
          var j, u :| 0 <= j <= u < m && LastTry(ps, j, m) && Up(ps, j, u, m);
          ReadyLives(ps, m, j, u);
        } else {
          var j :| 0 <= j < m && LastTry(ps, j, m) && Waits(ps, j, m) && l.connectT0 == Tick(ps[j].t1);
          PendingLives(ps, m, j);
        }
      } else if Tries(ps, m) {
        TryLives(ps, m);
      } else {
        IdleLives(ps, m);
      }
    }
  }

  // ---------------------------------------------------------------- the four lives exclude each other

  lemma OneLastTry(ps: seq<Pass>, j: nat, k: nat, n: nat)
    requires j < n <= |ps| && k < n && LastTry(ps, j, n) && LastTry(ps, k, n)
    ensures j == k
  {
  }

  lemma UpIsNotPending(ps: seq<Pass>, j: nat, u: nat, n: nat)
    requires j <= u < n <= |ps| && Up(ps, j, u, n)
    ensures !Waits(ps, j, n)
  {
    assert Waits(ps, j, n) ==> Quiet(ps[u], ps[j].t1);
  }

  lemma OneAcceptance(ps: seq<Pass>, j: nat, u: nat, v: nat)
    requires j <= u < |ps| && j <= v < |ps| && Accepted(ps, j, u) && Accepted(ps, j, v)
    ensures u == v
  {
  }

  lemma UpIsNotGone(ps: seq<Pass>, j: nat, u: nat, n: nat, e: nat, d: int)
    requires j <= u < n <= |ps| && Up(ps, j, u, n) && j <= e < n
    ensures !Ends(ps, j, e, d)
  {
    forall v | j <= v <= e && Accepted(ps, j, v) && !(v == e && ps[j].connect == InProgress)
      ensures !Closing(ps[e])
    {
      OneAcceptance(ps, j, u, v);
    }
  }

  lemma PendingIsNotGone(ps: seq<Pass>, j: nat, n: nat, e: nat, d: int)
    requires j < n <= |ps| && Waits(ps, j, n) && j <= e < n
    ensures !Ends(ps, j, e, d)
  {
    assert Quiet(ps[e], ps[j].t1);
    forall v | j <= v <= e ensures !Accepted(ps, j, v) { assert Quiet(ps[v], ps[j].t1); }
  }

  lemma EndsOnce(ps: seq<Pass>, j: nat, e: nat, c: int, f: nat, d: int)
    requires j <= e < |ps| && j <= f < |ps| && Ends(ps, j, e, c) && Ends(ps, j, f, d)
    ensures c == d
  {
  }

  lemma GoneOnce(ps: seq<Pass>, n: nat, c: int, d: int)
    requires n <= |ps| && Gone(ps, n, c) && Gone(ps, n, d)
    ensures c == d
  {
    var j, e :| 0 <= j <= e < n && LastTry(ps, j, n) && Ends(ps, j, e, c);
    var k, f :| 0 <= k <= f < n && LastTry(ps, k, n) && Ends(ps, k, f, d);
    OneLastTry(ps, j, k, n);
    EndsOnce(ps, j, e, c, f, d);
  }

  lemma ReadyApart(ps: seq<Pass>, n: nat)
    requires n <= |ps| && Ready(ps, n)
    ensures !Pending(ps, n) && !NeverTried(ps, n) && forall d :: !Gone(ps, n, d)
  {
    var j, u :| 0 <= j <= u < n && LastTry(ps, j, n) && Up(ps, j, u, n);
    UpIsNotPending(ps, j, u, n);
    forall k | 0 <= k < n && LastTry(ps, k, n) ensures k == j { OneLastTry(ps, j, k, n); }
    forall e, d | j <= e < n ensures !Ends(ps, j, e, d) { UpIsNotGone(ps, j, u, n, e, d); }
  }

  lemma PendingApart(ps: seq<Pass>, n: nat)
    requires n <= |ps| && Pending(ps, n)
    ensures !NeverTried(ps, n) && forall d :: !Gone(ps, n, d)
  {
    var j :| 0 <= j < n && LastTry(ps, j, n) && Waits(ps, j, n);
    forall k | 0 <= k < n && LastTry(ps, k, n) ensures k == j { OneLastTry(ps, j, k, n); }
    forall e, d | j <= e < n ensures !Ends(ps, j, e, d) { PendingIsNotGone(ps, j, n, e, d); }
  }

  /** The link after any number of passes, from the answers alone.  It is ready if and only if the last
      connect answered at once, or answered in progress and a later pass within the timeout found it
      writable without an error, and no receive since found it closed.  It is pending if and only if that
      connect is in progress and every pass since was within the timeout and not writable.  Without a
      socket, the next try is due 1000 after a connect that failed or was refused, 100 after a timeout,
      500 after a close. */
  lemma LinkExact(ps: seq<Pass>, n: nat)
    requires n <= |ps|
    ensures var l := After(ps, n);
      && (l.ready <==> Ready(ps, n))
      && (l.valid && !l.ready <==> Pending(ps, n))
      && (!l.valid <==> NeverTried(ps, n) || exists d :: Gone(ps, n, d))
      && (forall d | Gone(ps, n, d) :: l.due == d)
  {
    RunLives(ps, n);
    if Ready(ps, n) {
      ReadyApart(ps, n);
    } else if Pending(ps, n) {
      PendingApart(ps, n);
    } else if Gone(ps, n, After(ps, n).due) {
      forall d | Gone(ps, n, d) ensures After(ps, n).due == d { GoneOnce(ps, n, After(ps, n).due, d); }
    }
  }
}
