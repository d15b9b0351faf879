/** The package cache of the CRP client: an insertion-ordered map, a byte counter that is not
    always lowered, and an eviction loop driven by that counter. */
module PackageCache {

  datatype Entry = Entry(id: string, data: string)

  /** The map in insertion order, the counter, and the bytes the counter holds too many. */
  datatype Cache = Cache(max: nat, entries: seq<Entry>, counter: int, leaked: nat)

  function Total(es: seq<Entry>): nat {
    if es == [] then 0 else |es[0].data| + Total(es[1..])
  }

  predicate Has(es: seq<Entry>, id: string) {
    exists i | 0 <= i < |es| :: es[i].id == id
  }

  predicate DistinctIds(es: seq<Entry>) {
    forall i, j | 0 <= i < j < |es| :: es[i].id != es[j].id
  }

  /** `Map.set`: a known key keeps its place and gets the new value, a new one goes last. */
  function Put(es: seq<Entry>, id: string, data: string): seq<Entry> {
    if es == [] then [Entry(id, data)]
    else if es[0].id == id then [Entry(id, data)] + es[1..]
    else [es[0]] + Put(es[1..], id, data)
  }

  function Remove(es: seq<Entry>, id: string): seq<Entry> {
    if es == [] then [] else if es[0].id == id then es[1..] else [es[0]] + Remove(es[1..], id)
  }

  /** Bytes stored under `id`, or 0. */
  function SizeOf(es: seq<Entry>, id: string): nat {
    if es == [] then 0 else if es[0].id == id then |es[0].data| else SizeOf(es[1..], id)
  }

  /** How many of the oldest entries the eviction loop drops. */
  function Evicted(es: seq<Entry>, counter: int, len: nat, max: nat): (k: nat)
    ensures k <= |es|
  {
    if es == [] || counter + len <= max then 0 else 1 + Evicted(es[1..], counter - |es[0].data|, len, max)
  }

  /** The synchronous tail of `downloadPackage`, behind its last await. */
  function Store(c: Cache, id: string, data: string): Cache {
    if |data| > c.max then c
    else
      var k := Evicted(c.entries, c.counter, |data|, c.max);
      var rest := c.entries[k..];
      Cache(c.max, Put(rest, id, data), c.counter - Total(c.entries[..k]) + |data|, c.leaked + SizeOf(rest, id))
  }

  function Delete(c: Cache, id: string): Cache {
    c.(entries := Remove(c.entries, id), leaked := c.leaked + SizeOf(c.entries, id))
  }

  function Clear(c: Cache): Cache {
    c.(entries := [], counter := 0, leaked := 0)
  }

  /** The inductive invariant: the counter is the true sum plus what was leaked, and the true sum
      is within the bound. */
  ghost predicate Inv(c: Cache) {
    c.counter == Total(c.entries) + c.leaked && Total(c.entries) <= c.max && DistinctIds(c.entries)
  }

  lemma {:induction false} TotalSplit(es: seq<Entry>, k: nat)
    requires k <= |es|
    ensures Total(es) == Total(es[..k]) + Total(es[k..])
  {
    if k > 0 {
      TotalSplit(es[1..], k - 1);
      assert es[..k][1..] == es[1..][..k - 1] && es[k..] == es[1..][k - 1..];
    } else {
      assert es[..0] == [] && es[0..] == es;
    }
  }

  lemma TotalSnoc(es: seq<Entry>, k: nat)
    requires k < |es|
    ensures Total(es[..k + 1]) == Total(es[..k]) + |es[k].data| && es[k..][1..] == es[k + 1..] && es[k..][0] == es[k]
  {
    TotalSplit(es, k);
    TotalSplit(es, k + 1);
    assert es[k..][1..] == es[k + 1..];
  }

  /** The loop stops with an empty map or with room for the new package; no earlier. */
  lemma {:induction false} EvictionStops(es: seq<Entry>, counter: int, len: nat, max: nat)
    ensures var k := Evicted(es, counter, len, max);
      && (k == |es| || counter - Total(es[..k]) + len <= max)
      && forall j | 0 <= j < k :: counter - Total(es[..j]) + len > max
  {
    if es != [] && counter + len > max {
      var k := Evicted(es, counter, len, max);
      EvictionStops(es[1..], counter - |es[0].data|, len, max);
      assert forall j | 1 <= j <= k :: es[..j][1..] == es[1..][..j - 1];
      assert es[..0] == [];
    } else {
      assert es[..0] == [];
    }
  }

  lemma {:induction false} PutTotal(es: seq<Entry>, id: string, data: string)
    requires DistinctIds(es)
    ensures Total(Put(es, id, data)) == Total(es) - SizeOf(es, id) + |data|
    ensures DistinctIds(Put(es, id, data)) && SizeOf(es, id) <= Total(es)
    ensures forall x :: Has(Put(es, id, data), x) <==> Has(es, x) || x == id
    ensures Entry(id, data) in Put(es, id, data)
  {
    var ps := Put(es, id, data);
    if es == [] {
      assert ps[1..] == [];
      assert ps[0].id == id;
    } else if es[0].id == id {
      assert ps[1..] == es[1..];
      HasCons(es);
      HasCons(ps);
    } else {
      PutTotal(es[1..], id, data);
      assert ps[1..] == Put(es[1..], id, data);
      HasCons(es);
      HasCons(ps);
      assert !Has(es[1..], es[0].id);
      DistinctCons(ps);
    }
  }

  lemma HasCons(es: seq<Entry>)
    requires es != []
    ensures forall x :: Has(es, x) <==> es[0].id == x || Has(es[1..], x)
    ensures DistinctIds(es) ==> !Has(es[1..], es[0].id)
  {
    assert forall i | 1 <= i < |es| :: es[i] == es[1..][i - 1];
  }

  lemma DistinctCons(es: seq<Entry>)
    requires es != [] && DistinctIds(es[1..]) && !Has(es[1..], es[0].id)
    ensures DistinctIds(es)
  {
    assert forall i | 1 <= i < |es| :: es[i] == es[1..][i - 1];
  }

  lemma {:induction false} RemoveTotal(es: seq<Entry>, id: string)
    requires DistinctIds(es)
    ensures Total(Remove(es, id)) == Total(es) - SizeOf(es, id)
    ensures DistinctIds(Remove(es, id))
    ensures forall x :: Has(Remove(es, id), x) <==> Has(es, x) && x != id
  {
    if es != [] {
      HasCons(es);
      if es[0].id != id {
        RemoveTotal(es[1..], id);
        var rs := Remove(es, id);
        assert rs[1..] == Remove(es[1..], id);
        HasCons(rs);
        DistinctCons(rs);
      }
    }
  }

  lemma StoreInv(c: Cache, id: string, data: string)
    requires Inv(c)
    ensures Inv(Store(c, id, data))
  {
    if |data| <= c.max {
      var k := Evicted(c.entries, c.counter, |data|, c.max);
      EvictionStops(c.entries, c.counter, |data|, c.max);
      TotalSplit(c.entries, k);
      PutTotal(c.entries[k..], id, data);
    }
  }

  lemma DeleteInv(c: Cache, id: string)
    requires Inv(c)
    ensures Inv(Delete(c, id))
  {
    RemoveTotal(c.entries, id);
  }

  // ---------------------------------------------------------------- interleavings

  /** The atomic sections: the tail of a download, a delete, a clear.  Everything a download does
      before its last await leaves the cache alone. */
  datatype Op = DoStore(id: string, data: string) | DoDelete(id: string) | DoClear

  function Step(c: Cache, op: Op): Cache {
    match op
    case DoStore(id, data) => Store(c, id, data)
    case DoDelete(id) => Delete(c, id)
    case DoClear => Clear(c)
  }

  function Run(c: Cache, ops: seq<Op>): Cache
    decreases |ops|
  {
    if ops == [] then c else Run(Step(c, ops[0]), ops[1..])
  }

  lemma {:induction false} RunInv(c: Cache, ops: seq<Op>)
    requires Inv(c)
    ensures Inv(Run(c, ops)) && Run(c, ops).max == c.max
    decreases |ops|
  {
    if ops != [] {
      match ops[0] {
        case DoStore(id, data) => StoreInv(c, id, data);
        case DoDelete(id) => DeleteInv(c, id);
        case DoClear =>
      }
      RunInv(Step(c, ops[0]), ops[1..]);
    }
  }

  /** The memory bound: in every interleaving the bytes really held never exceed the maximum, and
      the counter exceeds them by exactly the bytes deleted or overwritten since the last clear. */
  lemma MemoryBound(max: nat, ops: seq<Op>)
    ensures var c := Run(Cache(max, [], 0, 0), ops);
      Total(c.entries) <= max && c.counter - Total(c.entries) == c.leaked
  {
    RunInv(Cache(max, [], 0, 0), ops);
  }

  /** A package that fits is cached by its download, whatever had to go for it. */
  lemma StoredIsCached(c: Cache, id: string, data: string)
    requires Inv(c) && |data| <= c.max
    ensures Entry(id, data) in Store(c, id, data).entries && Has(Store(c, id, data).entries, id)
  {
    StoreInv(c, id, data);
    var k := Evicted(c.entries, c.counter, |data|, c.max);
    PutTotal(c.entries[k..], id, data);
  }

  /** The price of the leak: once leaked bytes and the new package together exceed the maximum,
      every download throws away everything else. */
  lemma LeakEmptiesCache(c: Cache, id: string, data: string)
    requires Inv(c) && |data| <= c.max && c.leaked + |data| > c.max
    ensures Store(c, id, data).entries == [Entry(id, data)]
  {
    var k := Evicted(c.entries, c.counter, |data|, c.max);
    EvictionStops(c.entries, c.counter, |data|, c.max);
    TotalSplit(c.entries, k);
  }

  lemma HasAt(es: seq<Entry>, k: nat, j: nat)
    requires k <= |es| && j < |es| && DistinctIds(es)
    ensures Has(es[k..], es[j].id) <==> k <= j
  {
    if k <= j { assert es[k..][j - k].id == es[j].id; }
  }

  /** Exactly which entries survive a download: those that fit together with everything younger, the
      new package and the leak. */
  lemma DropExact(c: Cache, id: string, data: string, j: nat)
    requires Inv(c) && |data| <= c.max && j < |c.entries| && c.entries[j].id != id
    ensures Has(Store(c, id, data).entries, c.entries[j].id) <==> Total(c.entries[j..]) + c.leaked + |data| <= c.max
  {
    var es := c.entries;
    var k := Evicted(es, c.counter, |data|, c.max);
    EvictionStops(es, c.counter, |data|, c.max);
    TotalSplit(es, j);
    TotalSplit(es, k);
    HasAt(es, k, j);
    PutTotal(es[k..], id, data);
    if k <= j {
      TotalSplit(es[k..], j - k);
      assert es[k..][j - k..] == es[j..];
    }
  }

  /** Entry `j` could stay: with everything younger it fits beside the new package, which takes the
      place of an older version of itself. */
  predicate CouldStay(c: Cache, id: string, data: string, j: nat)
    requires j < |c.entries|
  {
    c.entries[j].id != id && Total(c.entries[j..]) - SizeOf(c.entries[j..], id) + |data| <= c.max
  }

  /** A download throws out an entry that could stay. */
  ghost predicate Wastes(c: Cache, id: string, data: string) {
    exists j | 0 <= j < |c.entries| :: CouldStay(c, id, data, j) && !Has(Store(c, id, data).entries, c.entries[j].id)
  }

  /** That happens exactly when, for some entry that could stay, the leak and the old version of the
      package, which the counter still holds, tip it over. */
  lemma WasteExact(c: Cache, id: string, data: string)
    requires Inv(c) && |data| <= c.max
    ensures Wastes(c, id, data) <==> exists j | 0 <= j < |c.entries| ::
      CouldStay(c, id, data, j) && Total(c.entries[j..]) + c.leaked + |data| > c.max
  {
    forall j | 0 <= j < |c.entries| && c.entries[j].id != id
      ensures Has(Store(c, id, data).entries, c.entries[j].id) <==> Total(c.entries[j..]) + c.leaked + |data| <= c.max
    {
      DropExact(c, id, data, j);
    }
  }

  lemma {:induction false} SizeOfUnknown(es: seq<Entry>, id: string)
    requires !Has(es, id)
    ensures SizeOf(es, id) == 0
  {
    if es != [] {
      HasCons(es);
      SizeOfUnknown(es[1..], id);
    }
  }

  /** Without a leak only the replaced version of the package can cause waste: a package that is not
      cached yet throws out nothing that could stay. */
  lemma NoLeakNoWaste(c: Cache, id: string, data: string)
    requires Inv(c) && |data| <= c.max && c.leaked == 0
    ensures Wastes(c, id, data) <==> exists j | 0 <= j < |c.entries| ::
      CouldStay(c, id, data, j) && Total(c.entries[j..]) + |data| > c.max
    ensures Wastes(c, id, data) ==> Has(c.entries, id)
  {
    WasteExact(c, id, data);
    if !Has(c.entries, id) {
      forall j | 0 <= j < |c.entries| ensures SizeOf(c.entries[j..], id) == 0 {
        SizeOfUnknown(c.entries[j..], id);
      }
    }
  }

  /** Two downloads of `p` that overlap at their awaits: the second replaces 4 bytes by 5, throws out
      `x` although 8 bytes would fit into 10, and nothing was leaked before. */
  lemma OverwriteWastes()
    ensures var c := Run(Cache(10, [], 0, 0), [DoStore("x", "xxx"), DoStore("p", "pppp")]);
      && c == Cache(10, [Entry("x", "xxx"), Entry("p", "pppp")], 7, 0) && CouldStay(c, "p", "qqqqq", 0)
      && Store(c, "p", "qqqqq").entries == [Entry("p", "qqqqq")]
  {
  }

  /** A run from the empty cache that wastes: 4 bytes are stored and deleted, 2 are stored, and 5 more
      throw them away although 7 fit into 10. */
  lemma LeakWastes()
    ensures var c := Run(Cache(10, [], 0, 0), [DoStore("a", "aaaa"), DoDelete("a"), DoStore("b", "bb")]);
      && c == Cache(10, [Entry("b", "bb")], 6, 4) && Total(c.entries) + 5 <= c.max
      && Store(c, "c", "ccccc").entries == [Entry("c", "ccccc")]
  {
  }

  // ---------------------------------------------------------------- the object

  class CrpClient {
    const maxCacheBytes: nat
    var packageCache: seq<Entry>
    var cacheBytes: int
    ghost var leaked: nat

    constructor (max: nat)
      ensures State() == Cache(max, [], 0, 0)
    {
      maxCacheBytes, packageCache, cacheBytes, leaked := max, [], 0, 0;
    }

    ghost function State(): Cache
      reads this
    {
      Cache(maxCacheBytes, packageCache, cacheBytes, leaked)
    }

    /** Whatever was leaked before, nothing is cached now and the counter is exact again. */
    method ClearPackageCache()
      modifies this
      ensures State() == Clear(old(State())) && Inv(State())
      ensures (forall x :: !Has(packageCache, x)) && cacheBytes == Total(packageCache) == 0
    {
      packageCache := [];
      cacheBytes := 0;
      leaked := 0;
    }

    /** Exactly the named package goes, and the counter keeps its bytes: what is held falls by its
        size, what is counted does not. */
    method DeletePackage(id: string)
      requires Inv(State())
      modifies this
      ensures State() == Delete(old(State()), id) && Inv(State())
      ensures forall x :: Has(packageCache, x) <==> Has(old(packageCache), x) && x != id
      ensures cacheBytes == old(cacheBytes)
        && Total(packageCache) == Total(old(packageCache)) - SizeOf(old(packageCache), id)
    {
      RemoveTotal(packageCache, id);
      leaked := leaked + SizeOf(packageCache, id);
      packageCache := Remove(packageCache, id);
    }

    /** The eviction loop: drop the oldest entry while the counter leaves no room. */
    method EvictFor(len: nat)
      modifies `packageCache, `cacheBytes
      ensures var k := Evicted(old(packageCache), old(cacheBytes), len, maxCacheBytes);
        && packageCache == old(packageCache)[k..]
        && cacheBytes == old(cacheBytes) - Total(old(packageCache)[..k])
    {
      ghost var es := packageCache;
      ghost var k := 0;
      while cacheBytes + len > maxCacheBytes && |packageCache| > 0
        invariant k <= |es| && packageCache == es[k..]
        invariant cacheBytes == old(cacheBytes) - Total(es[..k])
        invariant k + Evicted(packageCache, cacheBytes, len, maxCacheBytes)
          == Evicted(es, old(cacheBytes), len, maxCacheBytes)
        decreases |packageCache|
      {
        TotalSnoc(es, k);
        cacheBytes := cacheBytes - |packageCache[0].data|;
        packageCache := packageCache[1..];
        k := k + 1;
      }
    }

    /** What happens once the bytes have arrived and passed their checks. */
    method Arrived(id: string, data: string)
      requires Inv(State())
      modifies this
      ensures State() == Store(old(State()), id, data) && Inv(State())
    {
      StoreInv(State(), id, data);
      if |data| <= maxCacheBytes {
        EvictFor(|data|);
        leaked := leaked + SizeOf(packageCache, id);
        packageCache := Put(packageCache, id, data);
        cacheBytes := cacheBytes + |data|;
      }
    }
  }
}
