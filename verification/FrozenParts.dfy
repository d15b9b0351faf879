/** The parts of the frozen-identity check: three groups of paths are made one character longer, each on
    its own, and their effects on the delta should sum to the slope. */
module FrozenParts {
  import opened FrozenDelta

  /** The group's inner loop: every string directly in the object that lies under the root grows. */
  function Longer(gs: seq<Member>, root: string): (r: seq<Member>)
    ensures |r| == |gs|
  {
    if gs == [] then []
    else
      var v := gs[0].value;
      [Member(gs[0].key, if v.Str? && Under(v.s, root) then Str(v.s + "x") else v)] + Longer(gs[1..], root)
  }

  /** Which members of an object a group selects: all of them, or those with one of the names. */
  datatype Selection = All | Named(names: seq<string>)

  predicate Selects(sel: Selection, key: string) {
    sel.All? || key in sel.names
  }

  /** The selected members are objects, which the inner loop can walk over. */
  predicate Objects(ms: seq<Member>, sel: Selection) {
    forall i | 0 <= i < |ms| && Selects(sel, ms[i].key) :: ms[i].value.Obj?
  }

  /** The group's outer loop. */
  function LongerIn(ms: seq<Member>, sel: Selection, root: string): (r: seq<Member>)
    requires Objects(ms, sel)
    ensures |r| == |ms|
  {
    if ms == [] then []
    else
      var v := ms[0].value;
      [Member(ms[0].key, if Selects(sel, ms[0].key) then Obj(Longer(v.members, root)) else v)]
      + LongerIn(ms[1..], sel, root)
  }

  /** The object with another value under a key it has. */
  function With(ms: seq<Member>, key: string, v: Value): (r: seq<Member>)
    ensures |r| == |ms|
  {
    if ms == [] then []
    else [if ms[0].key == key then Member(key, v) else ms[0]] + With(ms[1..], key, v)
  }

  /** What a group adds to the delta. */
  function Part(ms: seq<Member>, ks: Keys, key: string, v: Value): int {
    Delta(With(ms, key, v), ks) - Delta(ms, ks)
  }

  // ---------------------------------------------------------------- counting

  /** Strings under the root directly in an object, and those deeper in it. */
  function Direct(gs: seq<Member>, root: string): nat {
    if gs == [] then 0
    else (if gs[0].value.Str? && Under(gs[0].value.s, root) then 1 else 0) + Direct(gs[1..], root)
  }

  function Deeper(gs: seq<Member>, root: string): nat {
    if gs == [] then 0
    else (if gs[0].value.Str? then 0 else |UnderRoot(gs[0].value, root)|) + Deeper(gs[1..], root)
  }

  /** Strings under the root that a group reaches, and those it does not. */
  function Reached(ms: seq<Member>, sel: Selection, root: string): nat
    requires Objects(ms, sel)
  {
    if ms == [] then 0
    else
      (if Selects(sel, ms[0].key) then Direct(ms[0].value.members, root) else 0) + Reached(ms[1..], sel, root)
  }

  function Stray(ms: seq<Member>, sel: Selection, root: string): nat
    requires Objects(ms, sel)
  {
    if ms == [] then 0
    else
      (if Selects(sel, ms[0].key) then Deeper(ms[0].value.members, root) else |UnderRoot(ms[0].value, root)|)
      + Stray(ms[1..], sel, root)
  }

  lemma {:induction false} DirectAndDeeper(gs: seq<Member>, root: string)
    ensures |UnderMembers(gs, root)| == Direct(gs, root) + Deeper(gs, root)
  {
    if gs != [] { DirectAndDeeper(gs[1..], root); }
  }

  lemma {:induction false} ReachedAndStray(ms: seq<Member>, sel: Selection, root: string)
    requires Objects(ms, sel)
    ensures |UnderMembers(ms, root)| == Reached(ms, sel, root) + Stray(ms, sel, root)
  {
    if ms != [] {
      if Selects(sel, ms[0].key) { DirectAndDeeper(ms[0].value.members, root); }
      ReachedAndStray(ms[1..], sel, root);
    }
  }

  // ---------------------------------------------------------------- what a longer path weighs

  lemma OneLonger(s: string)
    ensures Weight(s + "x") == Weight(s) + 1
  {
    WeightConcat(s, "x");
    WeightOfPlain("x");
    LettersArePlain("x");
  }

  lemma {:induction false} LongerBytes(gs: seq<Member>, root: string, level: nat)
    ensures MemberBytes(Longer(gs, root), level) == MemberBytes(gs, level) + Direct(gs, root)
  {
    if gs != [] {
      LongerBytes(gs[1..], root, level);
      var r, v := Longer(gs, root), gs[0].value;
      assert r[1..] == Longer(gs[1..], root);
      if v.Str? { OneLonger(v.s); }
    }
  }

  lemma ObjectBytes(gs: seq<Member>, root: string, level: nat)
    ensures Bytes(Obj(Longer(gs, root)), level) == Bytes(Obj(gs), level) + Direct(gs, root)
  {
    LongerBytes(gs, root, level + 1);
  }

  lemma {:induction false} LongerInBytes(ms: seq<Member>, sel: Selection, root: string, level: nat)
    requires Objects(ms, sel)
    ensures MemberBytes(LongerIn(ms, sel, root), level) == MemberBytes(ms, level) + Reached(ms, sel, root)
  {
    if ms != [] {
      LongerInBytes(ms[1..], sel, root, level);
      assert LongerIn(ms, sel, root)[1..] == LongerIn(ms[1..], sel, root);
      if Selects(sel, ms[0].key) { ObjectBytes(ms[0].value.members, root, level); }
    }
  }

  lemma GroupBytes(ms: seq<Member>, sel: Selection, root: string)
    requires Objects(ms, sel)
    ensures Bytes(Obj(LongerIn(ms, sel, root)), 1) == Bytes(Obj(ms), 1) + Reached(ms, sel, root)
  {
    LongerInBytes(ms, sel, root, 2);
  }

  // ---------------------------------------------------------------- one group at a time

  lemma {:induction false} WithKeeps(ms: seq<Member>, key: string, v: Value, k: string)
    requires Distinct(ms) && Has(ms, key)
    ensures Distinct(With(ms, key, v)) && (Has(With(ms, key, v), k) <==> Has(ms, k))
    ensures Has(ms, k) ==> Get(With(ms, key, v), k) == if k == key then v else Get(ms, k)
  {
    var r := With(ms, key, v);
    forall i | 0 <= i < |ms| ensures r[i].key == ms[i].key { SameKey(ms, key, v, i); }
    HasTail(ms, key);
    HasTail(ms, k);
    HasTail(r, k);
    assert r[1..] == With(ms[1..], key, v);
    if ms[0].key == key {
      Untouched(ms[1..], key, v);
    } else {
      WithKeeps(ms[1..], key, v, k);
    }
  }

  lemma {:induction false} SameKey(ms: seq<Member>, key: string, v: Value, i: nat)
    requires i < |ms|
    ensures With(ms, key, v)[i].key == ms[i].key
  {
    if i > 0 {
      SameKey(ms[1..], key, v, i - 1);
      assert With(ms, key, v)[i] == With(ms[1..], key, v)[i - 1] && ms[i] == ms[1..][i - 1];
    }
  }

  lemma {:induction false} Untouched(ms: seq<Member>, key: string, v: Value)
    requires !Has(ms, key)
    ensures With(ms, key, v) == ms
  {
    if ms != [] {
      assert ms[0].key != key && forall i | 0 <= i < |ms| - 1 :: ms[1..][i] == ms[i + 1];
      Untouched(ms[1..], key, v);
      assert ms == [ms[0]] + ms[1..];
    }
  }

  predicate Product(ms: seq<Member>, ks: Keys) {
    ks.Valid() && Distinct(ms) && Has(ms, ks.frozen) && Has(ms, ks.fourPiece)
  }

  /** A group moves the delta by the bytes of its value if the value is one of the two that only the
      second dump has, and not at all otherwise. */
  lemma PartIs(ms: seq<Member>, ks: Keys, key: string, v: Value)
    requires Product(ms, ks) && Has(ms, key)
    ensures Part(ms, ks, key, v)
      == if key == ks.frozen || key == ks.fourPiece then Bytes(v, 1) - Bytes(Get(ms, key), 1) else 0
  {
    WithKeeps(ms, key, v, ks.frozen);
    WithKeeps(ms, key, v, ks.fourPiece);
    DeltaIsShares(ms, ks);
    DeltaIsShares(With(ms, key, v), ks);
  }

  lemma {:induction false} UnderFirst(ms: seq<Member>, ks: Keys, root: string)
    requires Distinct(ms) && ks.frozen != ks.fourPiece
    ensures |UnderMembers(ms, root)| - |UnderMembers(First(ms, ks), root)|
      == (if Has(ms, ks.fourPiece) then |UnderRoot(Get(ms, ks.fourPiece), root)| else 0)
       + (if Has(ms, ks.frozen) then |UnderRoot(Get(ms, ks.frozen), root)| else 0)
  {
    if ms != [] {
      UnderFirst(ms[1..], ks, root);
      HasTail(ms, ks.fourPiece);
      HasTail(ms, ks.frozen);
      assert ms[0].key != ks.fourPiece ==> First(ms, ks)[1..] == First(ms[1..], ks);
    }
  }

  // ---------------------------------------------------------------- the sum

  const CRITERIA := "criteria_file"
  const SIDES := Named(["pre", "post"])

  /** A product the loop over the groups can walk: each group consists of objects. */
  predicate Grouped(ms: seq<Member>, ks: Keys) {
    && Product(ms, ks) && CRITERIA != ks.frozen && CRITERIA != ks.fourPiece
    && Has(ms, CRITERIA) && Get(ms, CRITERIA).Obj?
    && Get(ms, ks.frozen).Obj? && Objects(Get(ms, ks.frozen).members, All)
    && Get(ms, ks.fourPiece).Obj? && Objects(Get(ms, ks.fourPiece).members, SIDES)
  }

  /** The three parts of the report, each measured on its own copy. */
  function PartsSum(ms: seq<Member>, ks: Keys, root: string): int
    requires Grouped(ms, ks)
  {
    Part(ms, ks, CRITERIA, Obj(Longer(Get(ms, CRITERIA).members, root)))
    + Part(ms, ks, ks.frozen, Obj(LongerIn(Get(ms, ks.frozen).members, All, root)))
    + Part(ms, ks, ks.fourPiece, Obj(LongerIn(Get(ms, ks.fourPiece).members, SIDES, root)))
  }

  /** The parts sum to the slope if and only if every path under the root in the two values that only the
      second dump has stands directly in an entry of `frozen` or in `pre` or `post` of `four_piece`; the
      criteria file counts for nothing in either. */
  lemma PartsExact(ms: seq<Member>, ks: Keys, root: string)
    requires Grouped(ms, ks)
    ensures var frozen, four := Get(ms, ks.frozen).members, Get(ms, ks.fourPiece).members;
      && PartsSum(ms, ks, root) == Slope(ms, ks, root) - Stray(frozen, All, root) - Stray(four, SIDES, root)
      && (PartsSum(ms, ks, root) == Slope(ms, ks, root) <==> Stray(frozen, All, root) == 0 == Stray(four, SIDES, root))
  {
    var frozen, four := Get(ms, ks.frozen).members, Get(ms, ks.fourPiece).members;
    PartIs(ms, ks, CRITERIA, Obj(Longer(Get(ms, CRITERIA).members, root)));
    PartIs(ms, ks, ks.frozen, Obj(LongerIn(frozen, All, root)));
    PartIs(ms, ks, ks.fourPiece, Obj(LongerIn(four, SIDES, root)));
    GroupBytes(frozen, All, root);
    GroupBytes(four, SIDES, root);
    ReachedAndStray(frozen, All, root);
    ReachedAndStray(four, SIDES, root);
    UnderFirst(ms, ks, root);
  }
}
