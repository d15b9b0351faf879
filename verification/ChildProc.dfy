/** The child process registry: 64 slots edited in sections under one lock.  A section is atomic;
    between opening a process and registering it, the handle belongs to nobody's table. */
module ChildProc {
  import opened Text

  const CHILD_PROC_MAX := 64
  const CMD_LEN := 512
  const TAG_LEN := 64

  type Handle = nat   // 0 is NULL

  datatype Entry = Entry(inUse: bool, process: Handle, pid: nat, cmd: string, tag: string, startMs: nat)

  const ZERO := Entry(false, 0, 0, "", "", 0)

  /** What a spawn registers. */
  datatype Child = Child(pid: nat, cmd: string, tag: string, startMs: nat)

  /** The entry of a child: snprintf cuts the command line and the tag. */
  function Registered(h: Handle, c: Child): Entry {
    Entry(true, h, c.pid, Clip(c.cmd, CMD_LEN - 1), Clip(c.tag, TAG_LEN - 1), c.startMs)
  }

  // ---------------------------------------------------------------- tables

  /** How often a (non-null) handle sits in a slot, in a table, in a list. */
  function In(e: Entry, h: Handle): nat {
    if e.process == h && h != 0 then 1 else 0
  }

  function Held(t: seq<Entry>, h: Handle): nat {
    if t == [] then 0 else Held(t[..|t| - 1], h) + In(t[|t| - 1], h)
  }

  function Times(s: seq<Handle>, h: Handle): nat {
    if s == [] then 0 else Times(s[..|s| - 1], h) + if s[|s| - 1] == h then 1 else 0
  }

  lemma {:induction false} HeldUpdate(t: seq<Entry>, i: nat, e: Entry, h: Handle)
    requires i < |t|
    ensures Held(t[i := e], h) + In(t[i], h) == Held(t, h) + In(e, h)
  {
    var m := |t| - 1;
    if i == m {
      assert t[i := e][..m] == t[..m];
    } else {
      assert t[i := e][..m] == t[..m][i := e];
      HeldUpdate(t[..m], i, e, h);
    }
  }

  lemma {:induction false} TimesAppend(a: seq<Handle>, b: seq<Handle>, h: Handle)
    ensures Times(a + b, h) == Times(a, h) + Times(b, h)
  {
    if b == [] {
      assert a + b == a;
    } else {
      assert (a + b)[..|a + b| - 1] == a + b[..|b| - 1];
      TimesAppend(a, b[..|b| - 1], h);
    }
  }

  lemma {:induction false} TimesIn(s: seq<Handle>, h: Handle)
    ensures h in s <==> Times(s, h) > 0
  {
    if s != [] { TimesIn(s[..|s| - 1], h); }
  }

  /** A slot is in use exactly when its process is non-null. */
  predicate Coherent(t: seq<Entry>) {
    forall i | 0 <= i < |t| :: t[i].inUse <==> t[i].process != 0
  }

  /** The two loops that clear slots: dead processes, and tags with a prefix. */
  datatype Condition = Dead(alive: set<Handle>) | Tagged(prefix: string)

  predicate Doomed(e: Entry, c: Condition) {
    e.inUse && match c
      case Dead(alive) => e.process !in alive
      case Tagged(prefix) => prefix == "" || prefix <= e.tag
  }

  function Sweep(t: seq<Entry>, c: Condition): (r: seq<Entry>)
    ensures |r| == |t|
  {
    if t == [] then []
    else
      var m := |t| - 1;
      Sweep(t[..m], c) + [if Doomed(t[m], c) then ZERO else t[m]]
  }

  /** The handles such a loop closes, in slot order. */
  function SweptHandles(t: seq<Entry>, c: Condition): seq<Handle> {
    if t == [] then []
    else
      var m := |t| - 1;
      SweptHandles(t[..m], c) + if Doomed(t[m], c) then [t[m].process] else []
  }

  /** How many of the handles are in `ok`. */
  function CountIn(hs: seq<Handle>, ok: set<Handle>): nat {
    if hs == [] then 0 else CountIn(hs[..|hs| - 1], ok) + if hs[|hs| - 1] in ok then 1 else 0
  }

  lemma SweepSnoc(t: seq<Entry>, c: Condition, i: nat, ok: set<Handle>, before: seq<Handle>)
    requires i < |t|
    ensures Sweep(t[..i + 1], c) == Sweep(t[..i], c) + [if Doomed(t[i], c) then ZERO else t[i]]
    ensures before + SweptHandles(t[..i + 1], c)
      == before + SweptHandles(t[..i], c) + if Doomed(t[i], c) then [t[i].process] else []
    ensures CountIn(SweptHandles(t[..i + 1], c), ok)
      == CountIn(SweptHandles(t[..i], c), ok) + if Doomed(t[i], c) && t[i].process in ok then 1 else 0
  {
    assert t[..i + 1][..i] == t[..i];
    var hs := SweptHandles(t[..i], c);
    assert (hs + [t[i].process])[..|hs|] == hs && hs + [] == hs;
  }

  lemma {:induction false} SweepAt(t: seq<Entry>, c: Condition, i: nat)
    requires i < |t|
    ensures Sweep(t, c)[i] == if Doomed(t[i], c) then ZERO else t[i]
  {
    var m := |t| - 1;
    if i < m { SweepAt(t[..m], c, i); }
  }

  lemma {:induction false} SweepConserves(t: seq<Entry>, c: Condition, h: Handle)
    requires Coherent(t)
    ensures Held(Sweep(t, c), h) + Times(SweptHandles(t, c), h) == Held(t, h)
  {
    if t != [] {
      var m := |t| - 1;
      SweepConserves(t[..m], c, h);
      assert Sweep(t, c)[..m] == Sweep(t[..m], c);
      if Doomed(t[m], c) {
        var s := SweptHandles(t, c);
        assert s[..|s| - 1] == SweptHandles(t[..m], c);
      } else {
        assert SweptHandles(t, c) == SweptHandles(t[..m], c);
      }
    }
  }

  function FirstFree(t: seq<Entry>): (k: nat)
    ensures k <= |t| && (k < |t| ==> !t[k].inUse) && forall i | 0 <= i < k :: t[i].inUse
  {
    if t == [] || !t[0].inUse then 0
    else
      var k := FirstFree(t[1..]);
      assert forall i | 1 <= i < |t| :: t[i] == t[1..][i - 1];
      k + 1
  }

  function FindPid(t: seq<Entry>, pid: nat): (k: nat)
    ensures k <= |t| && (k < |t| ==> t[k].inUse && t[k].pid == pid)
    ensures forall i | 0 <= i < k :: !(t[i].inUse && t[i].pid == pid)
  {
    if t == [] || (t[0].inUse && t[0].pid == pid) then 0
    else
      var k := FindPid(t[1..], pid);
      assert forall i | 1 <= i < |t| :: t[i] == t[1..][i - 1];
      k + 1
  }

  // ---------------------------------------------------------------- the registry as a machine

  /** `inFlight` holds the handles between `im_process_spawn` and their registration; `closed` is
      every close in order; `opens` every open in order. */
  datatype Registry = Registry(table: seq<Entry>, inFlight: multiset<Handle>, closed: seq<Handle>, opens: seq<Handle>)

  datatype Section =
    | Prune(alive: set<Handle>)
    | Spawned(h: Handle)
    | Register(h: Handle, child: Child)
    | Kill(pid: nat)
    | KillTag(prefix: string)

  predicate Possible(r: Registry, s: Section) {
    match s
    case Spawned(h) => h != 0 && h !in r.opens
    case Register(h, _) => h in r.inFlight && |r.table| == CHILD_PROC_MAX
    case _ => true
  }

  function Clear(r: Registry, c: Condition): Registry {
    r.(table := Sweep(r.table, c), closed := r.closed + SweptHandles(r.table, c))
  }

  function DoRegister(r: Registry, h: Handle, child: Child): Registry
    requires |r.table| == CHILD_PROC_MAX
  {
    var free := FirstFree(r.table);
    var slot := if free == |r.table| then 0 else free;
    var was := r.table[slot].process;
    r.(table := r.table[slot := Registered(h, child)],
       inFlight := r.inFlight - multiset{h},
       closed := if was != 0 then r.closed + [was] else r.closed)
  }

  function DoKill(r: Registry, pid: nat): Registry {
    var k := FindPid(r.table, pid);
    if pid == 0 || k == |r.table| then r
    else r.(table := r.table[k := ZERO], closed := r.closed + [r.table[k].process])
  }

  function Step(r: Registry, s: Section): Registry
    requires Possible(r, s)
  {
    match s
    case Prune(alive) => Clear(r, Dead(alive))
    case Spawned(h) => r.(inFlight := r.inFlight + multiset{h}, opens := r.opens + [h])
    case Register(h, c) => DoRegister(r, h, c)
    case Kill(pid) => DoKill(r, pid)
    case KillTag(prefix) => Clear(r, Tagged(prefix))
  }

  function Places(r: Registry, h: Handle): nat {
    Held(r.table, h) + r.inFlight[h] + Times(r.closed, h)
  }

  /** Every handle ever opened is in exactly one place: in the table, in flight, or closed once. */
  ghost predicate Conserved(r: Registry) {
    && |r.table| == CHILD_PROC_MAX && Coherent(r.table)
    && (forall h :: Places(r, h) == Times(r.opens, h) <= 1)
    && 0 !in r.opens
  }

  lemma ClearConserved(r: Registry, c: Condition)
    requires Conserved(r)
    ensures Conserved(Clear(r, c))
  {
    var n := Clear(r, c);
    forall i | 0 <= i < |n.table| ensures n.table[i].inUse <==> n.table[i].process != 0 {
      SweepAt(r.table, c, i);
    }
    forall h ensures Places(n, h) == Times(n.opens, h) <= 1 {
      assert Places(r, h) == Times(r.opens, h);
      SweepConserves(r.table, c, h);
      TimesAppend(r.closed, SweptHandles(r.table, c), h);
    }
  }

  /** Putting an entry in a slot and closing what was there. */
  lemma SlotConserved(t: seq<Entry>, slot: nat, e: Entry, closed: seq<Handle>, h: Handle)
    requires slot < |t|
    ensures var was := t[slot].process;
      Held(t[slot := e], h) + Times(if was != 0 then closed + [was] else closed, h)
        == Held(t, h) + In(e, h) + Times(closed, h)
  {
    HeldUpdate(t, slot, e, h);
    assert (closed + [t[slot].process])[..|closed|] == closed;
  }

  lemma RegisterConserved(r: Registry, h: Handle, child: Child)
    requires Conserved(r) && h in r.inFlight
    ensures Conserved(DoRegister(r, h, child))
  {
    var free := FirstFree(r.table);
    var slot := if free == |r.table| then 0 else free;
    var e := Registered(h, child);
    var n := DoRegister(r, h, child);
    TimesIn(r.opens, h);
    assert Places(r, h) == Times(r.opens, h);
    assert h != 0;
    forall x ensures Places(n, x) == Times(n.opens, x) <= 1 {
      assert Places(r, x) == Times(r.opens, x);
      SlotConserved(r.table, slot, e, r.closed, x);
    }
  }

  lemma KillConserved(r: Registry, pid: nat)
    requires Conserved(r)
    ensures Conserved(DoKill(r, pid))
  {
    var k := FindPid(r.table, pid);
    var n := DoKill(r, pid);
    if pid != 0 && k < |r.table| {
      forall x ensures Places(n, x) == Times(n.opens, x) <= 1 {
        assert Places(r, x) == Times(r.opens, x);
        SlotConserved(r.table, k, ZERO, r.closed, x);
      }
    }
  }

  lemma SpawnConserved(r: Registry, h: Handle)
    requires Conserved(r) && h != 0 && h !in r.opens
    ensures Conserved(Step(r, Spawned(h)))
  {
    var n := Step(r, Spawned(h));
    forall x ensures Places(n, x) == Times(n.opens, x) <= 1 {
      assert Places(r, x) == Times(r.opens, x);
      TimesIn(r.opens, x);
      assert n.opens[..|r.opens|] == r.opens;
    }
  }

  lemma StepConserved(r: Registry, s: Section)
    requires Conserved(r) && Possible(r, s)
    ensures Conserved(Step(r, s))
  {
    match s
    case Prune(alive) => ClearConserved(r, Dead(alive));
    case Spawned(h) => SpawnConserved(r, h);
    case Register(h, child) => RegisterConserved(r, h, child);
    case Kill(pid) => KillConserved(r, pid);
    case KillTag(prefix) => ClearConserved(r, Tagged(prefix));
  }

  ghost predicate PossibleRun(r: Registry, ss: seq<Section>)
    decreases |ss|
  {
    ss != [] ==> Possible(r, ss[0]) && PossibleRun(Step(r, ss[0]), ss[1..])
  }

  ghost function Run(r: Registry, ss: seq<Section>): Registry
    requires PossibleRun(r, ss)
    decreases |ss|
  {
    if ss == [] then r else Run(Step(r, ss[0]), ss[1..])
  }

  /** Handle conservation, in every interleaving of the locked sections. */
  lemma {:induction false} RunConserved(r: Registry, ss: seq<Section>)
    requires Conserved(r) && PossibleRun(r, ss)
    ensures Conserved(Run(r, ss))
    decreases |ss|
  {
    if ss != [] {
      StepConserved(r, ss[0]);
      RunConserved(Step(r, ss[0]), ss[1..]);
    }
  }

  /** After `kill_tag(p)` no entry's tag starts with `p`, and every other entry is untouched. */
  lemma KillTagExact(r: Registry, prefix: string, i: nat)
    requires i < |r.table|
    ensures var e := Clear(r, Tagged(prefix)).table[i];
      && !(e.inUse && prefix <= e.tag)
      && (!(r.table[i].inUse && prefix <= r.table[i].tag) ==> e == r.table[i])
  {
    SweepAt(r.table, Tagged(prefix), i);
  }

  /** After a prune exactly the entries whose process is alive remain, untouched. */
  lemma PruneExact(r: Registry, alive: set<Handle>, i: nat)
    requires i < |r.table|
    ensures var e := Clear(r, Dead(alive)).table[i];
      && (e.inUse <==> r.table[i].inUse && r.table[i].process in alive)
      && (e.inUse || !r.table[i].inUse ==> e == r.table[i])
  {
    SweepAt(r.table, Dead(alive), i);
  }

  /** A child takes the first slot not in use, and nothing is closed; only a full table gives up the
      entry in slot 0 and closes its process.  The other slots stay as they are, and the entry holds at
      most 511 characters of the command line and 63 of the tag. */
  lemma RegisterExact(r: Registry, h: Handle, child: Child, slot: nat)
    requires Conserved(r) && slot < 64
    requires forall i | 0 <= i < slot :: r.table[i].inUse
    requires !r.table[slot].inUse || (slot == 0 && forall i | 0 <= i < 64 :: r.table[i].inUse)
    ensures var n := DoRegister(r, h, child);
      && n.table == r.table[slot := n.table[slot]] && n.table[slot].inUse && n.table[slot].process == h
      && n.table[slot].pid == child.pid && n.table[slot].startMs == child.startMs
      && n.table[slot].cmd == (if |child.cmd| < 512 then child.cmd else child.cmd[..511])
      && n.table[slot].tag == (if |child.tag| < 64 then child.tag else child.tag[..63])
      && n.closed == r.closed + if r.table[slot].inUse then [r.table[slot].process] else []
  {
    var free := FirstFree(r.table);
    assert r.table[slot].inUse ==> free == |r.table|;
    assert !r.table[slot].inUse ==> free == slot;
    assert r.closed + [] == r.closed;
  }

  /** A kill clears the first entry in use with that pid and closes its process, and does nothing when
      there is none or the pid is 0. */
  lemma KillExact(r: Registry, pid: nat, k: nat)
    requires k <= |r.table| && forall i | 0 <= i < k :: !(r.table[i].inUse && r.table[i].pid == pid)
    requires k < |r.table| ==> r.table[k].inUse && r.table[k].pid == pid
    ensures DoKill(r, pid) == if pid == 0 || k == |r.table| then r
      else r.(table := r.table[k := ZERO], closed := r.closed + [r.table[k].process])
  {
    assert FindPid(r.table, pid) == k;
  }

  /** A child registered under a tag is reached by `kill_tag` of that same tag exactly when the tag
      fits the entry; a longer one was cut and no longer starts with itself. */
  lemma OwnTagReaches(h: Handle, child: Child)
    ensures Doomed(Registered(h, child), Tagged(child.tag)) <==> |child.tag| < TAG_LEN
  {
  }

  lemma {:induction false} AllClearHoldsNothing(t: seq<Entry>, h: Handle)
    requires forall i | 0 <= i < |t| :: t[i].process == 0
    ensures Held(t, h) == 0
  {
    if t != [] { AllClearHoldsNothing(t[..|t| - 1], h); }
  }

  /** `child_proc_shutdown` when no spawn is under way: every handle has been closed exactly once. */
  lemma ShutdownClosesAll(r: Registry, h: Handle)
    requires Conserved(r) && r.inFlight == multiset{}
    ensures Times(Clear(r, Tagged("")).closed, h) == if h in r.opens then 1 else 0
  {
    var c := Clear(r, Tagged(""));
    ClearConserved(r, Tagged(""));
    forall i | 0 <= i < |c.table| ensures c.table[i].process == 0 {
      SweepAt(r.table, Tagged(""), i);
    }
    AllClearHoldsNothing(c.table, h);
    assert Places(c, h) == Times(c.opens, h);
    TimesIn(r.opens, h);
  }

  /** Registering closes somebody else's handle exactly when all 64 slots are in use. */
  lemma FullTableEvicts(r: Registry, h: Handle, child: Child)
    requires Conserved(r) && h in r.inFlight
    ensures DoRegister(r, h, child).closed != r.closed <==> forall i | 0 <= i < |r.table| :: r.table[i].inUse
  {
    var free := FirstFree(r.table);
    assert r.closed + [r.table[0].process] != r.closed;
  }

  // ---------------------------------------------------------------- the global table

  class Table {
    const slots: array<Entry>
    ghost var inFlight: multiset<Handle>
    ghost var closed: seq<Handle>
    ghost var opens: seq<Handle>

    constructor ()
      ensures fresh(slots) && State() == Registry(seq(CHILD_PROC_MAX, _ => ZERO), multiset{}, [], [])
        && Conserved(State())
    {
      slots := new Entry[CHILD_PROC_MAX](_ => ZERO);
      inFlight, closed, opens := multiset{}, [], [];
      new;
      assert slots[..] == seq(CHILD_PROC_MAX, _ => ZERO);
      forall h ensures Held(slots[..], h) == 0 { AllClearHoldsNothing(slots[..], h); }
    }

    ghost function State(): Registry
      reads this, slots
    {
      Registry(slots[..], inFlight, closed, opens)
    }

    /** `child_proc_kill_tag` and `child_proc_prune`; `killed` is the number of cleared entries whose
        kill succeeds (`child_proc_prune` does not use it). */
    method ClearWhere(c: Condition, killOk: set<Handle>) returns (killed: nat)
      requires Conserved(State())
      modifies this, slots
      ensures State() == Clear(old(State()), c) && Conserved(State())
      ensures killed == CountIn(SweptHandles(old(slots[..]), c), killOk)
    {
      ClearConserved(State(), c);
      killed := ClearLoop(c, killOk);
    }

    /** The loop of both. */
    method ClearLoop(c: Condition, killOk: set<Handle>) returns (killed: nat)
      requires slots.Length == CHILD_PROC_MAX
      modifies slots, `closed
      ensures slots[..] == Sweep(old(slots[..]), c) && closed == old(closed) + SweptHandles(old(slots[..]), c)
      ensures killed == CountIn(SweptHandles(old(slots[..]), c), killOk)
    {
      ghost var t, before := slots[..], closed;
      killed := 0;
      var i := 0;
      assert t[..0] == [] && closed == before + [];
      while i < CHILD_PROC_MAX
        invariant 0 <= i <= CHILD_PROC_MAX
        invariant slots[..i] == Sweep(t[..i], c)
        invariant forall k | i <= k < CHILD_PROC_MAX :: slots[k] == t[k]
        invariant closed == before + SweptHandles(t[..i], c) && killed == CountIn(SweptHandles(t[..i], c), killOk)
      {
        SweepSnoc(t, c, i, killOk, before);
        var ok := ClearSlot(i, c, killOk);
        if ok { killed := killed + 1; }
        i := i + 1;
      }
      assert t[..CHILD_PROC_MAX] == t && slots[..CHILD_PROC_MAX] == slots[..];
    }

    /** The loop body: kill, close and zero one slot. */
    method ClearSlot(i: nat, c: Condition, killOk: set<Handle>) returns (ok: bool)
      requires slots.Length == CHILD_PROC_MAX && i < CHILD_PROC_MAX
      modifies slots, `closed
      ensures slots[..i + 1] == old(slots[..i]) + [if Doomed(old(slots[i]), c) then ZERO else old(slots[i])]
      ensures forall k | i < k < CHILD_PROC_MAX :: slots[k] == old(slots[k])
      ensures closed == old(closed) + if Doomed(old(slots[i]), c) then [old(slots[i]).process] else []
      ensures ok == (Doomed(old(slots[i]), c) && old(slots[i]).process in killOk)
    {
      ok := false;
      if Doomed(slots[i], c) {
        ok := slots[i].process in killOk;
        closed := closed + [slots[i].process];
        slots[i] := ZERO;
      }
    }

    /** The locked part of `child_proc_spawn`. */
    method Register(h: Handle, child: Child) returns (result: nat)
      requires Conserved(State()) && h in inFlight
      modifies this, slots
      ensures State() == DoRegister(old(State()), h, child) && Conserved(State())
      ensures result == child.pid
    {
      RegisterConserved(State(), h, child);
      ghost var t := slots[..];
      var i := 0;
      while i < CHILD_PROC_MAX && slots[i].inUse
        invariant 0 <= i <= CHILD_PROC_MAX && forall k | 0 <= k < i :: t[k].inUse
      {
        i := i + 1;
      }
      assert FirstFree(t) == i;
      var slot := if i == CHILD_PROC_MAX then 0 else i;
      if slots[slot].process != 0 { closed := closed + [slots[slot].process]; }
      slots[slot] := Registered(h, child);
      inFlight := inFlight - multiset{h};
      assert slots[..] == t[slot := Registered(h, child)];
      result := child.pid;
    }

    /** `child_proc_kill`: the first entry with this pid. */
    method KillPid(pid: nat, killOk: set<Handle>) returns (killed: bool)
      requires Conserved(State())
      modifies this, slots
      ensures State() == DoKill(old(State()), pid) && Conserved(State())
      ensures killed == (pid != 0 &&
        var k := FindPid(old(slots[..]), pid); k < CHILD_PROC_MAX && old(slots[..])[k].process in killOk)
    {
      KillConserved(State(), pid);
      killed := false;
      if pid == 0 { return; }
      ghost var t := slots[..];
      var i := 0;
      while i < CHILD_PROC_MAX && !(slots[i].inUse && slots[i].pid == pid)
        invariant 0 <= i <= CHILD_PROC_MAX && forall k | 0 <= k < i :: !(t[k].inUse && t[k].pid == pid)
      {
        i := i + 1;
      }
      assert FindPid(t, pid) == i;
      if i < CHILD_PROC_MAX {
        killed := slots[i].process in killOk;
        closed := closed + [slots[i].process];
        slots[i] := ZERO;
        assert slots[..] == t[i := ZERO];
      }
    }
  }
}
