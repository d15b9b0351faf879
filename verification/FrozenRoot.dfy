/** Which strings the frozen-identity check counts and renames, said of the strings themselves. */
module FrozenRoot {
  import opened FrozenDelta
  import opened Seqs

  /** Every string of a value, in serialization order. */
  function Strings(v: Value): seq<string>
    decreases v, 1
  {
    match v
    case Atom(_) => []
    case Str(s) => [s]
    case Arr(vs) => ItemStrings(vs)
    case Obj(ms) => MemberStrings(ms)
  }

  function ItemStrings(vs: seq<Value>): seq<string>
    decreases vs, 0
  {
    if vs == [] then [] else Strings(vs[0]) + ItemStrings(vs[1..])
  }

  function MemberStrings(ms: seq<Member>): seq<string>
    decreases ms, 0
  {
    if ms == [] then [] else assert ms[0].value < ms[0]; Strings(ms[0].value) + MemberStrings(ms[1..])
  }

  /** The value with every string emptied: its shape, keys and atoms. */
  function Emptied(v: Value): Value
    decreases v, 1
  {
    match v
    case Atom(_) => v
    case Str(_) => Str("")
    case Arr(vs) => Arr(ItemsEmptied(vs))
    case Obj(ms) => Obj(MembersEmptied(ms))
  }

  function ItemsEmptied(vs: seq<Value>): (r: seq<Value>)
    decreases vs, 0
  {
    if vs == [] then [] else [Emptied(vs[0])] + ItemsEmptied(vs[1..])
  }

  function MembersEmptied(ms: seq<Member>): (r: seq<Member>)
    decreases ms, 0
  {
    if ms == [] then []
    else assert ms[0].value < ms[0]; [Member(ms[0].key, Emptied(ms[0].value))] + MembersEmptied(ms[1..])
  }

  function Where(ss: seq<string>, p: string -> bool): seq<string> {
    if ss == [] then [] else (if p(ss[0]) then [ss[0]] else []) + Where(ss[1..], p)
  }

  function Map(ss: seq<string>, f: string -> string): (r: seq<string>)
    ensures |r| == |ss| && forall i | 0 <= i < |ss| :: r[i] == f(ss[i])
  {
    if ss == [] then [] else [f(ss[0])] + Map(ss[1..], f)
  }

  lemma {:induction false} WhereAppend(a: seq<string>, b: seq<string>, p: string -> bool)
    ensures Where(a + b, p) == Where(a, p) + Where(b, p)
  {
    if a == [] {
      Unit(b);
      Unit(Where(b, p));
    } else {
      Headed(a, b);
      WhereAppend(a[1..], b, p);
      Assoc(if p(a[0]) then [a[0]] else [], Where(a[1..], p), Where(b, p));
    }
  }

  lemma {:induction false} MapAppend(a: seq<string>, b: seq<string>, f: string -> string)
    ensures Map(a + b, f) == Map(a, f) + Map(b, f)
  {
    if a == [] {
      Unit(b);
      Unit(Map(b, f));
    } else {
      Headed(a, b);
      MapAppend(a[1..], b, f);
      Assoc([f(a[0])], Map(a[1..], f), Map(b, f));
    }
  }

  lemma Headed<T>(a: seq<T>, b: seq<T>)
    requires a != []
    ensures (a + b)[0] == a[0] && (a + b)[1..] == a[1..] + b
  {
  }

  // ---------------------------------------------------------------- one string

  /** At the root or below it: the root itself, or the root, a slash and anything. */
  lemma UnderExact(s: string, root: string)
    ensures Under(s, root) <==> s == root || exists t: string :: s == root + "/" + t
  {
    if root + "/" <= s {
      var t := s[|root| + 1..];
      assert s == root + "/" + t;
    }
  }

  function Renamed(s: string, old_: string, new_: string): string {
    if Under(s, old_) then new_ + s[|old_|..] else s
  }

  lemma RenamedExact(s: string, old_: string, new_: string)
    ensures s == old_ ==> Renamed(s, old_, new_) == new_
    ensures forall t: string | s == old_ + "/" + t :: Renamed(s, old_, new_) == new_ + "/" + t
    ensures s != old_ && !(exists t: string :: s == old_ + "/" + t) ==> Renamed(s, old_, new_) == s
  {
    UnderExact(s, old_);
    forall t: string | s == old_ + "/" + t ensures Renamed(s, old_, new_) == new_ + "/" + t {
      Behind(s, old_, new_, t);
    }
    if s == old_ {
      assert s[|old_|..] == [];
      Unit(new_);
    }
  }

  lemma Behind(s: string, old_: string, new_: string, t: string)
    requires s == old_ + "/" + t
    ensures old_ + "/" <= s && new_ + s[|old_|..] == new_ + "/" + t
  {
    assert s[|old_|..] == "/" + t;
  }

  // ---------------------------------------------------------------- the whole tree

  lemma {:induction false} UnderIsWhere(v: Value, root: string, p: string -> bool)
    requires forall s: string :: p(s) <==> Under(s, root)
    ensures UnderRoot(v, root) == Where(Strings(v), p)
    decreases v, 1
  {
    match v
    case Atom(_) =>
    case Str(s) => assert [s][1..] == [];
    case Arr(vs) => UnderItemsWhere(vs, root, p);
    case Obj(ms) => UnderMembersWhere(ms, root, p);
  }

  lemma {:induction false} UnderItemsWhere(vs: seq<Value>, root: string, p: string -> bool)
    requires forall s: string :: p(s) <==> Under(s, root)
    ensures UnderItems(vs, root) == Where(ItemStrings(vs), p)
    decreases vs, 0
  {
    if vs != [] {
      UnderIsWhere(vs[0], root, p);
      UnderItemsWhere(vs[1..], root, p);
      WhereAppend(Strings(vs[0]), ItemStrings(vs[1..]), p);
    }
  }

  lemma {:induction false} UnderMembersWhere(ms: seq<Member>, root: string, p: string -> bool)
    requires forall s: string :: p(s) <==> Under(s, root)
    ensures UnderMembers(ms, root) == Where(MemberStrings(ms), p)
    decreases ms, 0
  {
    if ms != [] {
      assert ms[0].value < ms[0];
      UnderIsWhere(ms[0].value, root, p);
      UnderMembersWhere(ms[1..], root, p);
      WhereAppend(Strings(ms[0].value), MemberStrings(ms[1..]), p);
    }
  }

  /** The counted strings are exactly those of the tree that are the root, or the root, a slash and
      anything, each as often as it occurs, in serialization order. */
  lemma UnderRootExact(v: Value, root: string)
    ensures UnderRoot(v, root) == Where(Strings(v), s => s == root || exists t: string :: s == root + "/" + t)
  {
    var p: string -> bool := s => s == root || exists t: string :: s == root + "/" + t;
    forall s: string ensures p(s) <==> Under(s, root) { UnderExact(s, root); }
    UnderIsWhere(v, root, p);
  }

  lemma {:induction false} RegrowIsMap(v: Value, old_: string, new_: string, f: string -> string)
    requires forall s: string :: f(s) == Renamed(s, old_, new_)
    ensures Strings(Regrow(v, old_, new_)) == Map(Strings(v), f)
    ensures Emptied(Regrow(v, old_, new_)) == Emptied(v)
    decreases v, 1
  {
    match v
    case Atom(_) =>
    case Str(s) => assert [s][1..] == [];
    case Arr(vs) => RegrowItemsMap(vs, old_, new_, f);
    case Obj(ms) => RegrowMembersMap(ms, old_, new_, f);
  }

  lemma {:induction false} RegrowItemsMap(vs: seq<Value>, old_: string, new_: string, f: string -> string)
    requires forall s: string :: f(s) == Renamed(s, old_, new_)
    ensures ItemStrings(RegrowItems(vs, old_, new_)) == Map(ItemStrings(vs), f)
    ensures ItemsEmptied(RegrowItems(vs, old_, new_)) == ItemsEmptied(vs)
    decreases vs, 0
  {
    if vs != [] {
      RegrowIsMap(vs[0], old_, new_, f);
      RegrowItemsMap(vs[1..], old_, new_, f);
      assert RegrowItems(vs, old_, new_)[1..] == RegrowItems(vs[1..], old_, new_);
      MapAppend(Strings(vs[0]), ItemStrings(vs[1..]), f);
    }
  }

  lemma {:induction false} RegrowMembersMap(ms: seq<Member>, old_: string, new_: string, f: string -> string)
    requires forall s: string :: f(s) == Renamed(s, old_, new_)
    ensures MemberStrings(RegrowMembers(ms, old_, new_)) == Map(MemberStrings(ms), f)
    ensures MembersEmptied(RegrowMembers(ms, old_, new_)) == MembersEmptied(ms)
    decreases ms, 0
  {
    if ms != [] {
      assert ms[0].value < ms[0];
      RegrowIsMap(ms[0].value, old_, new_, f);
      RegrowMembersMap(ms[1..], old_, new_, f);
      assert RegrowMembers(ms, old_, new_)[1..] == RegrowMembers(ms[1..], old_, new_);
      MapAppend(Strings(ms[0].value), MemberStrings(ms[1..]), f);
    }
  }

  /** Renaming the root turns each string that is the old root into the new one, each that is the old
      root, a slash and `t` into the new root, a slash and `t`, and leaves every other string, the
      keys, the atoms and the shape as they are. */
  lemma RegrowExact(v: Value, old_: string, new_: string)
    ensures Emptied(Regrow(v, old_, new_)) == Emptied(v) && |Strings(Regrow(v, old_, new_))| == |Strings(v)|
    ensures forall i | 0 <= i < |Strings(v)| ::
      var a, b := Strings(v)[i], Strings(Regrow(v, old_, new_))[i];
      && (a == old_ ==> b == new_)
      && (forall t: string | a == old_ + "/" + t :: b == new_ + "/" + t)
      && (a != old_ && !(exists t: string :: a == old_ + "/" + t) ==> b == a)
  {
    var f := s => Renamed(s, old_, new_);
    RegrowIsMap(v, old_, new_, f);
    forall i | 0 <= i < |Strings(v)|
      ensures var a, b := Strings(v)[i], Strings(Regrow(v, old_, new_))[i];
        && (a == old_ ==> b == new_)
        && (forall t: string | a == old_ + "/" + t :: b == new_ + "/" + t)
        && (a != old_ && !(exists t: string :: a == old_ + "/" + t) ==> b == a)
    {
      RenamedExact(Strings(v)[i], old_, new_);
    }
  }
}
