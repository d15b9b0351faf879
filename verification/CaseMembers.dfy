/** The string literals of a line, and the bounded list of members a `case` has covered. */
module CaseMembers {
  import opened Seqs
  import opened Text

  const MEMBERS := 32
  const LENGTH := 95

  predicate Quote(c: char) {
    c == '"' || c == '\''
  }

  /** The text behind a literal of length `k`, and behind its closing quote if there is one. */
  function Behind(body: string, k: nat, q: char): (r: string)
    requires k <= |body|
    ensures |r| <= |body|
  {
    if k < |body| && body[k] == q then body[k + 1..] else body[k..]
  }

  /** Every non-empty string literal of a line, in order; an open one runs to the end. */
  function Literals(s: string): seq<string>
    decreases |s|
  {
    if s == [] then []
    else if !Quote(s[0]) then Literals(s[1..])
    else
      var body := s[1..];
      var k := Find(body, s[0]);
      (if k > 0 then [body[..k]] else []) + Literals(Behind(body, k, s[0]))
  }

  function Short(k: nat): nat {
    if k <= LENGTH then k else LENGTH
  }

  /** `lint_extract_quoted`: at most `cap` literals of at most 95 characters; a longer one is cut
      and the scan goes on inside it. */
  function Extract(s: string, cap: nat): (r: seq<string>)
    ensures |r| <= cap
    decreases |s|
  {
    if s == [] || cap == 0 then []
    else if !Quote(s[0]) then Extract(s[1..], cap)
    else
      var body := s[1..];
      var k := Short(Find(body, s[0]));
      if k > 0 then [body[..k]] + Extract(Behind(body, k, s[0]), cap - 1) else Extract(Behind(body, k, s[0]), cap)
  }

  predicate AllShort(ls: seq<string>) {
    forall l | l in ls :: |l| <= LENGTH
  }

  /** Every literal is read exactly when there is room for each of them and for all of them. */
  lemma {:induction false} ExtractExact(s: string, cap: nat)
    ensures Extract(s, cap) == Literals(s) <==> |Literals(s)| <= cap && AllShort(Literals(s))
    decreases |s|
  {
    if s == [] || cap == 0 {
    } else if !Quote(s[0]) {
      ExtractExact(s[1..], cap);
    } else {
      var body, q := s[1..], s[0];
      var k := Find(body, q);
      if k == 0 {
        ExtractExact(Behind(body, k, q), cap);
        Unit(Literals(Behind(body, k, q)));
      } else if k <= LENGTH {
        ExtractExact(Behind(body, k, q), cap - 1);
        Parts([body[..k]], Literals(Behind(body, k, q)));
        Parts([body[..k]], Extract(Behind(body, k, q), cap - 1));
      } else {
        assert Literals(s)[0] == body[..k] && Extract(s, cap)[0] == body[..LENGTH];
        assert |Literals(s)[0]| != |Extract(s, cap)[0]|;
      }
    }
  }

  /** The inner loop: one literal, cut at 95 characters, and the step over its closing quote. */
  method TakeLiteral(s: string, i0: nat, q: char) returns (word: string, i: nat)
    requires i0 <= |s|
    ensures i0 <= i <= |s|
    ensures var body := s[i0..]; var k := Short(Find(body, q)); word == body[..k] && s[i..] == Behind(body, k, q)
  {
    ghost var body := s[i0..];
    word, i := [], i0;
    while i < |s| && s[i] != q && |word| < LENGTH
      invariant i0 <= i <= |s| && |word| == i - i0 <= LENGTH && word == body[..|word|] && q !in word
      decreases |s| - i
    {
      Longer(body, |word|);
      word := word + [s[i]];
      i := i + 1;
    }
    ghost var k := |word|;
    FindFrom(body, q, k);
    DropDrop(s, i0, k);
    if i < |s| && s[i] == q {
      DropDrop(s, i, 1);
      i := i + 1;
    }
  }

  lemma FindFrom(body: string, q: char, k: nat)
    requires k <= |body| && q !in body[..k] && (k < LENGTH && k < |body| ==> body[k] == q) && k <= LENGTH
    ensures k == Short(Find(body, q))
  {
    forall j | 0 <= j < k ensures body[j] != q {
      assert body[..k][j] == body[j];
    }
    if k < LENGTH { FindIs(body, q, k); }
  }

  method ExtractQuoted(s: string, cap: nat) returns (out: seq<string>)
    ensures out == Extract(s, cap)
  {
    var i := 0;
    out := [];
    assert s[0..] == s;
    Unit(Extract(s, cap));
    while i < |s| && |out| < cap
      invariant i <= |s| && |out| <= cap
      invariant Extract(s, cap) == out + Extract(s[i..], cap - |out|)
      decreases |s| - i
    {
      ghost var rest := s[i..];
      DropDrop(s, i, 1);
      if !Quote(s[i]) {
        i := i + 1;
      } else {
        var word;
        word, i := TakeLiteral(s, i + 1, s[i]);
        if |word| > 0 {
          Assoc(out, [word], Extract(s[i..], cap - |out| - 1));
          out := out + [word];
        }
      }
    }
    Unit(out);
  }

  // ---------------------------------------------------------------- the covered members

  /** `lint_add_member`: no duplicates, at most 32. */
  function Add(covered: seq<string>, m: string): seq<string> {
    if |covered| >= MEMBERS || m in covered then covered else covered + [m]
  }

  function Cover(covered: seq<string>, found: seq<string>): seq<string> {
    if found == [] then covered else Add(Cover(covered, found[..|found| - 1]), found[|found| - 1])
  }

  lemma {:induction false} CoverFull(covered: seq<string>, found: seq<string>)
    requires |covered| >= MEMBERS
    ensures Cover(covered, found) == covered
  {
    if found != [] { CoverFull(covered, found[..|found| - 1]); }
  }

  /** Once the list is full, the rest of the found members no longer matters. */
  lemma {:induction false} CoverStops(covered: seq<string>, found: seq<string>, i: nat)
    requires i <= |found| && |Cover(covered, found[..i])| >= MEMBERS
    ensures Cover(covered, found) == Cover(covered, found[..i])
    decreases |found|
  {
    if i == |found| {
      assert found[..i] == found;
    } else {
      var front := found[..|found| - 1];
      assert front[..i] == found[..i];
      CoverStops(covered, front, i);
    }
  }

  function Elements(s: seq<string>): set<string> {
    set m | m in s
  }

  predicate Distinct(s: seq<string>) {
    forall i, j | 0 <= i < j < |s| :: s[i] != s[j]
  }

  lemma ElementsSnoc(s: seq<string>, m: string)
    ensures Elements(s + [m]) == Elements(s) + {m}
  {
    assert forall x :: x in s + [m] <==> x in s || x == m;
  }

  lemma {:induction false} DistinctSize(s: seq<string>)
    requires Distinct(s)
    ensures |Elements(s)| == |s|
  {
    if s != [] {
      var front, m := s[..|s| - 1], s[|s| - 1];
      DistinctSize(front);
      assert s == front + [m];
      ElementsSnoc(front, m);
      assert m !in front;
    }
  }

  lemma SubsetFull(a: set<string>, b: set<string>)
    requires a <= b
    ensures |a| <= |b| && (|a| == |b| ==> a == b)
  {
    var d := b - a;
    assert b == a + d && a !! d;
  }

  /** As long as there are at most 32 different members, covering is set union. */
  lemma {:induction false} CoverIsUnion(covered: seq<string>, found: seq<string>)
    requires Distinct(covered) && |Elements(covered) + Elements(found)| <= MEMBERS
    ensures Distinct(Cover(covered, found)) && Elements(Cover(covered, found)) == Elements(covered) + Elements(found)
    decreases |found|
  {
    if found == [] {
      assert Elements(found) == {};
    } else {
      var front, m := found[..|found| - 1], found[|found| - 1];
      assert found == front + [m];
      ElementsSnoc(front, m);
      SubsetFull(Elements(covered) + Elements(front), Elements(covered) + Elements(found));
      CoverIsUnion(covered, front);
      AddIsInsert(Cover(covered, front), m, Elements(covered) + Elements(found));
    }
  }

  lemma AddIsInsert(c: seq<string>, m: string, all: set<string>)
    requires Distinct(c) && Elements(c) + {m} == all && |all| <= MEMBERS
    ensures Distinct(Add(c, m)) && Elements(Add(c, m)) == all
  {
    DistinctSize(c);
    SubsetFull(Elements(c), all);
    if m in c {
      assert all == Elements(c);
    } else {
      ElementsSnoc(c, m);
    }
  }
}
