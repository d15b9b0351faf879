/** What the two kinds of a headless input line mean, and that every delivered line has its kind. */
module Recognition {
  import opened Seqs
  import opened Sessions
  import opened Text

  /** The word stands in the text in front of the first NUL. */
  ghost predicate Says(t: string, word: string) {
    exists a: string :: a + word <= t && '\0' !in a + word
  }

  /** 2 for a mouse line, 1 for a key line that is no mouse line, 0 for a line that is neither. */
  ghost predicate Announces(kind: nat, t: string) {
    && (kind == 2 <==> Says(t, "\"mouse\""))
    && (kind == 1 <==> Says(t, "\"key\"") && !Says(t, "\"mouse\""))
    && kind <= 2
  }

  lemma SaysFound(t: string, word: string, a: string)
    requires a + word <= t && '\0' !in a + word
    ensures Contains(CString(t), word)
  {
    var c, n := CString(t), |a + word|;
    assert |c| >= n;
    assert c[|a|..] == t[|a|..|c|];
    assert t[..n] == a + word;
    assert c[|a|..][..|word|] == t[|a|..n] == word;
    ContainsAt(c, word, |a|);
  }

  lemma SaysExact(t: string, word: string)
    requires '\0' !in word
    ensures Contains(CString(t), word) <==> Says(t, word)
  {
    var c := CString(t);
    if Contains(c, word) {
      var i :| 0 <= i <= |c| && word <= c[i..];
      assert c[..i] + word <= c;
      assert c[..i] + word <= t && '\0' !in c[..i] + word;
    }
    if Says(t, word) {
      var a: string :| a + word <= t && '\0' !in a + word;
      SaysFound(t, word, a);
    }
  }

  lemma KindAnnounces(t: string)
    ensures Announces(Kind(t), t)
  {
    SaysExact(t, "\"mouse\"");
    SaysExact(t, "\"key\"");
  }

  /** A consumed line is delivered exactly when it fits the caller's buffer and says one of the words. */
  lemma DeliveredExact(t: string, cap: nat)
    ensures DeliveredBy(Line(t, cap))
      == if |t| >= cap then []
         else if Says(t, "\"mouse\"") then [Message(2, t)]
         else if Says(t, "\"key\"") then [Message(1, t)]
         else []
  {
    KindAnnounces(t);
  }

  /** What a poll returns. */
  lemma PollAnnounces(ss: seq<Session>, net: seq<Recv>, cap: nat)
    requires |net| >= |ss|
    ensures var p := Poll(ss, net, cap); p.kind != 0 ==> Announces(p.kind, p.line)
  {
    var m := FirstHit(ss, net, cap);
    FirstHitExact(ss, net, cap);
    if m < |ss| { VisitAnnounces(ss[m], net[m], cap); }
  }

  lemma ExtractAnnounces(s: Session, cap: nat)
    ensures Extract(s, cap).kind != 0 ==> Announces(Extract(s, cap).kind, Extract(s, cap).line)
  {
    KindAnnounces(Extract(s, cap).line);
  }

  lemma VisitAnnounces(s: Session, r: Recv, cap: nat)
    ensures var e := VisitClient(s, r, cap).after; e.kind != 0 ==> Announces(e.kind, e.line)
  {
    ExtractAnnounces(s, cap);
    if r.Chunk? { ExtractAnnounces(Append(Extract(s, cap).session, r.data), cap); }
  }

  ghost predicate AllAnnounced(ms: seq<Message>) {
    forall i | 0 <= i < |ms| :: ms[i].kind != 0 && Announces(ms[i].kind, ms[i].text)
  }

  lemma {:induction false} DeliveriesAnnounced(ps: seq<Piece>)
    ensures AllAnnounced(Deliveries(ps))
  {
    if ps != [] {
      var p := ps[|ps| - 1];
      DeliveriesAnnounced(ps[..|ps| - 1]);
      if p.Line? { KindAnnounces(p.text); }
    }
  }

  /** Over every run, every message any client got has kind 2 if and only if its text says `"mouse"` in
      front of the first NUL, and kind 1 if and only if it says `"key"` there and not `"mouse"`; a line
      that says neither is delivered to nobody. */
  lemma RunAnnounces(s: Server, ops: seq<Op>, t: Session)
    requires PossibleRun(s, ops) && AllAccounted(s.live) && AllAccounted(s.past)
    requires t in Run(s, ops).live || t in Run(s, ops).past
    ensures AllAnnounced(t.delivered)
  {
    RunAccounted(s, ops);
    DeliveriesAnnounced(t.pieces);
  }

  // ---------------------------------------------------------------- who leaves

  /** A visit removes a client exactly when it found no recognised line and recv reported the end of the
      stream or a hard error; a recv that would block removes nobody and adds nothing. */
  lemma VisitRemovesExact(s: Session, r: Recv, cap: nat)
    ensures var v := VisitClient(s, r, cap);
      && (v.gone <==> v.after.kind == 0 && (r == Closed || r == HardError))
      && (r == WouldBlock ==> v.after.session.received == s.received)
  {
  }

  lemma {:induction false} LeftAt(ss: seq<Session>, net: seq<Recv>, cap: nat, i: nat)
    requires i < |ss| <= |net|
    ensures var v := VisitClient(ss[i], net[i], cap);
      v.after.session in if v.gone then Left(ss, net, cap) else Stayed(ss, net, cap)
  {
    var m := |ss| - 1;
    assert ss[..m + 1] == ss;
    StayedSnoc(ss, net, cap, m);
    if i < m {
      LeftAt(ss[..m], net, cap, i);
      assert ss[..m][i] == ss[i];
    }
  }

  /** In a poll, each client that is visited is in the list of the removed ones if its recv reported the
      end of the stream or a hard error, and in the table otherwise. */
  lemma PollRemovesExact(ss: seq<Session>, net: seq<Recv>, cap: nat, i: nat)
    requires i < |ss| <= |net| && i < FirstHit(ss, net, cap)
    ensures var p, s := Poll(ss, net, cap), VisitClient(ss[i], net[i], cap).after.session;
      s in if net[i] == Closed || net[i] == HardError then p.gone else p.sessions
  {
    var m := FirstHit(ss, net, cap);
    FirstHitExact(ss, net, cap);
    VisitRemovesExact(ss[i], net[i], cap);
    LeftAt(ss[..m], net, cap, i);
  }

  /** A frame removes exactly the clients whose send is broken; a full send buffer keeps the client. */
  lemma {:induction false} SendRemovesExact(ss: seq<Session>, net: seq<Sent>, i: nat)
    requires i < |ss| <= |net|
    ensures ss[i] in if net[i] == Broken then Unreached(ss, net) else Reached(ss, net)
    ensures |Unreached(ss, net)| + |Reached(ss, net)| == |ss|
  {
    var m := |ss| - 1;
    if m > 0 { SendRemovesExact(ss[..m], net, if i < m then i else 0); }
  }

  // ---------------------------------------------------------------- who joins

  /** New clients join in order, with empty accounts, until there are eight. */
  lemma {:induction false} AcceptExact(ss: seq<Session>, socks: seq<int>)
    requires |ss| <= 8
    ensures var r, n := Accepted(ss, socks), if |ss| + |socks| <= 8 then |socks| else 8 - |ss|;
      && |r| == |ss| + n && r[..|ss|] == ss
      && forall i | 0 <= i < n :: r[|ss| + i] == Session(socks[i], "", "", [], [])
    decreases |socks|
  {
    if socks != [] && |ss| < 8 {
      var more := ss + [Opened(socks[0])];
      AcceptExact(more, socks[1..]);
      var r := Accepted(ss, socks);
      assert r[..|ss|] == r[..|more|][..|ss|] == ss;
      assert r[|ss|] == r[..|more|][|ss|];
      forall i | 1 <= i < |r| - |ss| ensures r[|ss| + i] == Session(socks[i], "", "", [], []) {
        assert r[|more| + (i - 1)] == Session(socks[1..][i - 1], "", "", [], []);
      }
    } else {
      assert ss[..|ss|] == ss;
    }
  }
}
