/** The chat log: a JSON file that is extended by editing its text before the last bracket. */
module ChatLog {
  import opened Json
  import opened Seqs
  import opened Text

  const TEXT_BUF := 2048
  const ESC_BUF := 4096
  const ENTRY_BUF := 4096
  const READ_BUF := 65536
  const FILE_BUF := 70000

  /** snprintf and fread into a fixed buffer: what fits besides the NUL. */
  function Fit(s: string, buf: nat): (r: string)
    requires buf > 0
    ensures |r| < buf
  {
    Clip(s, buf - 1)
  }

  /** `json_esc`, in one pass over the input with a running output index. */
  method JsonEsc(src: string, out: array<char>, cap: nat) returns (n: nat)
    requires 1 <= cap <= out.Length
    modifies out
    ensures n < cap && out[n] == '\0'
    ensures exists k | 0 <= k <= |src| :: out[..n] == Escape(src[..k]) && (k == |src| || n + 2 >= cap)
    ensures forall k | cap <= k < out.Length :: out[k] == old(out[k])
  {
    var oi, p := 0, 0;
    while p < |src| && oi + 2 < cap
      invariant 0 <= p <= |src| && oi < cap && out[..oi] == Escape(src[..p])
      invariant forall k | cap <= k < out.Length :: out[k] == old(out[k])
    {
      EscapeSnoc(src[..p], src[p]);
      assert src[..p + 1] == src[..p] + [src[p]];
      ghost var before := out[..oi];
      if src[p] == '"' || src[p] == '\\' {
        if oi + 2 < cap { out[oi] := '\\'; oi := oi + 1; }
      }
      out[oi] := src[p];
      oi := oi + 1;
      assert out[..oi] == before + EscapeChar(src[p]);
      p := p + 1;
    }
    out[oi] := '\0';
    n := oi;
    assert out[..n] == Escape(src[..p]);
  }

  lemma {:induction false} EscapePrefix(s: string, k: nat)
    requires k <= |s|
    ensures |Escape(s[..k])| <= 2 * k
  {
  }

  /** A message text of the route never fills the escape buffer, so it is escaped completely. */
  lemma TextEscapesCompletely(text: string, k: nat, n: nat)
    requires |text| < TEXT_BUF && k <= |text|
    requires n == |Escape(text[..k])| && (k == |text| || n + 2 >= ESC_BUF)
    ensures k == |text|
  {
    EscapePrefix(text, k);
  }

  // ---------------------------------------------------------------- the log as a list

  datatype Message = Message(from: string, text: string, ts: int)

  function MessageJson(m: Message): Json {
    Obj([Member("from", Str(m.from)), Member("text", Str(m.text)), Member("ts", Num(m.ts))])
  }

  function MessagesJson(ms: seq<Message>): (r: seq<Json>)
    ensures |r| == |ms|
  {
    if ms == [] then [] else MessagesJson(ms[..|ms| - 1]) + [MessageJson(ms[|ms| - 1])]
  }

  function LogJson(peer: string, ms: seq<Message>): Json {
    Obj([Member("peer", Str(peer)), Member("msgs", Arr(MessagesJson(ms)))])
  }

  /** No file yet, or the compact rendering of the list. */
  function LogFile(peer: string, ms: seq<Message>): string {
    if ms == [] then "" else Write(LogJson(peer, ms))
  }

  // ---------------------------------------------------------------- the text edit

  /** Ids are pasted into the text without escaping. */
  predicate PlainId(s: string) {
    forall i | 0 <= i < |s| :: s[i] != '"' && s[i] != '\\'
  }

  /** `"key":"raw"` with nothing escaped. */
  function Field(key: string, raw: string): string {
    "\"" + (key + ("\"" + (":" + ("\"" + (raw + "\"")))))
  }

  /** The format `{"from":"%s","text":"%s","ts":%ld}`. */
  function EntryText(m: Message): string {
    "{" + (Field("from", m.from)
      + ("," + (Field("text", Escape(m.text)) + ("," + ("\"" + ("ts" + ("\"" + (":" + WriteNum(m.ts)))))))) + "}")
  }

  /** The format `{"peer":"%s","msgs":[%s]}`, up to the entries. */
  function Opening(peer: string): string {
    "{" + (Field("peer", peer) + ("," + "\"msgs\":["))
  }

  const CLOSING := "]}"

  function FreshText(peer: string, entry: string): string {
    Opening(peer) + entry + CLOSING
  }

  /** The edit of `POST /api/chat`. */
  function PostChat(file: string, peer: string, m: Message): string {
    var old_ := Fit(file, READ_BUF);
    var entry := Fit(EntryText(m), ENTRY_BUF);
    if !Contains(old_, "\"msgs\"") then Fit(FreshText(peer, entry), FILE_BUF)
    else
      var cl := FindLast(old_, ']');
      if cl == 0 then Fit(FreshText(peer, entry), FILE_BUF)
      else Fit(old_[..cl - 1] + "," + entry + old_[cl - 1..], FILE_BUF)
  }

  function PostAll(file: string, peer: string, ms: seq<Message>): string {
    if ms == [] then file else PostChat(PostAll(file, peer, ms[..|ms| - 1]), peer, ms[|ms| - 1])
  }

  lemma {:induction false} PlainEscape(s: string)
    ensures Escape(s) == s <==> PlainId(s)
  {
    if s != [] {
      PlainEscape(s[1..]);
      assert s == [s[0]] + s[1..];
      assert forall i | 1 <= i < |s| :: s[i] == s[1..][i - 1];
      if Escape(s) == s {
        assert |Escape(s[1..])| >= |s[1..]|;
        assert EscapeChar(s[0]) == [s[0]];
        assert Escape(s)[1..] == Escape(s[1..]);
      }
    }
  }

  lemma StringMember(key: string, s: string)
    requires PlainId(key)
    ensures WriteMember(Member(key, Str(s))) == Field(key, Escape(s))
  {
    PlainEscape(key);
  }

  lemma TwoMembers(a: Member, b: Member)
    ensures Write(Obj([a, b])) == "{" + (WriteMember(a) + ("," + WriteMember(b)) + "}")
  {
    assert [a, b][1..] == [b];
    assert WriteMembers([b]) == WriteMember(b);
    assert WriteMembers([a, b]) == WriteMember(a) + ("," + WriteMember(b));
  }

  lemma ThreeMembers(a: Member, b: Member, c: Member)
    ensures Write(Obj([a, b, c])) == "{" + (WriteMember(a) + ("," + (WriteMember(b) + ("," + WriteMember(c)))) + "}")
  {
    assert [a, b, c][1..] == [b, c] && [b, c][1..] == [c];
    assert WriteMembers([c]) == WriteMember(c);
    assert WriteMembers([b, c]) == WriteMember(b) + ("," + WriteMember(c));
    assert WriteMembers([a, b, c]) == WriteMember(a) + ("," + WriteMembers([b, c]));
  }

  /** An entry is the rendering of its message when the sender's id needs no escaping. */
  lemma EntryIsRendering(m: Message)
    requires PlainId(m.from)
    ensures EntryText(m) == Write(MessageJson(m))
  {
    PlainEscape(m.from);
    ThreeMembers(Member("from", Str(m.from)), Member("text", Str(m.text)), Member("ts", Num(m.ts)));
    StringMember("from", m.from);
    StringMember("text", m.text);
    PlainEscape("ts");
    assert WriteMember(Member("ts", Num(m.ts))) == "\"" + ("ts" + ("\"" + (":" + WriteNum(m.ts))));
  }

  lemma LogIsRendering(peer: string, ms: seq<Message>)
    requires PlainId(peer)
    ensures Write(LogJson(peer, ms)) == Opening(peer) + WriteItems(MessagesJson(ms)) + CLOSING
  {
    PlainEscape(peer);
    PlainEscape("msgs");
    var items := MessagesJson(ms);
    var p := Member("peer", Str(peer));
    var l := Member("msgs", Arr(items));
    TwoMembers(p, l);
    StringMember("peer", peer);
    var body := WriteItems(items) + "]";
    assert WriteMember(l) == "\"" + ("msgs" + ("\"" + (":" + ("[" + body))));
    MsgsKey(body);
    Regroup(WriteMember(p), WriteItems(items));
  }

  lemma MsgsKey(body: string)
    ensures "\"" + ("msgs" + ("\"" + (":" + ("[" + body)))) == "\"msgs\":[" + body
  {
  }

  lemma Regroup(p: string, items: string)
    ensures "{" + (p + ("," + ("\"msgs\":[" + (items + "]"))) + "}") == "{" + (p + ("," + "\"msgs\":[")) + items + "]}"
  {
    var m := "\"msgs\":[";
    assert "]" + "}" == "]}";
    assert p + ("," + (m + (items + "]"))) + "}" == p + ("," + m) + (items + "]}");
  }

  lemma {:induction false} ItemsSnoc(vs: seq<Json>, v: Json)
    requires vs != []
    ensures WriteItems(vs + [v]) == WriteItems(vs) + "," + Write(v)
  {
    var all := vs + [v];
    if |vs| == 1 {
      assert all[1..] == [v];
    } else {
      assert all[1..] == vs[1..] + [v];
      ItemsSnoc(vs[1..], v);
      var a, b := Write(vs[0]), WriteItems(vs[1..]);
      assert a + ("," + (b + "," + Write(v))) == a + ("," + b) + "," + Write(v);
    }
  }

  /** Where the edit finds its marks in a rendering, whatever the messages contain. */
  lemma Marks(peer: string, items: string)
    ensures var f := Opening(peer) + items + CLOSING;
      Contains(f, "\"msgs\"") && FindLast(f, ']') == |f| - 1
  {
    var f := Opening(peer) + items + CLOSING;
    var at := |Opening(peer)| - 8;
    var m := "\"msgs\"";
    assert Opening(peer)[at..] == "\"msgs\":[";
    assert f[at..] == "\"msgs\":[" + (items + CLOSING);
    assert f[at..][..6] == m;
    ContainsAt(f, m, at);
    assert f[|f| - 1] == '}' && f[|f| - 2] == ']';
    var init := f[..|f| - 1];
    assert init[|init| - 1] == ']';
  }

  /** What a chat needs to be recorded faithfully: the old file and the new entry fit. */
  predicate Fits(file: string, m: Message) {
    |file| < READ_BUF && |EntryText(m)| < ENTRY_BUF
  }

  /** The edit of a rendering that was read completely. */
  lemma EditRendering(peer: string, items: string, m: Message)
    requires |Opening(peer) + items + CLOSING| < READ_BUF
    ensures PostChat(Opening(peer) + items + CLOSING, peer, m)
      == Opening(peer) + (items + "," + Fit(EntryText(m), ENTRY_BUF)) + CLOSING
  {
    var f, entry := Opening(peer) + items + CLOSING, Fit(EntryText(m), ENTRY_BUF);
    Marks(peer, items);
    var k := |f| - 2;
    assert f[..k] == Opening(peer) + items && f[k..] == CLOSING;
    assert f[..k] + "," + entry == Opening(peer) + (items + "," + entry);
  }

  /** A file that is not read completely loses bytes for good. */
  lemma EditTooLong(file: string, peer: string, m: Message)
    requires |file| >= READ_BUF && |peer| < 256
    ensures |PostChat(file, peer, m)| < |file| + 1 + |EntryText(m)|
  {
    assert |Opening(peer)| < 300;
  }

  /** The edit is list append on the rendering exactly when the file and the entry fit. */
  lemma PostIsAppend(peer: string, ms: seq<Message>, m: Message)
    requires PlainId(peer) && PlainId(m.from) && |peer| < 256
    ensures PostChat(LogFile(peer, ms), peer, m) == LogFile(peer, ms + [m]) <==> Fits(LogFile(peer, ms), m)
  {
    var file, entry := LogFile(peer, ms), Fit(EntryText(m), ENTRY_BUF);
    var more := ms + [m];
    assert more[..|ms|] == ms && MessagesJson(more) == MessagesJson(ms) + [MessageJson(m)];
    EntryIsRendering(m);
    LogIsRendering(peer, more);
    if ms == [] {
      assert MessagesJson(ms) == [] && MessagesJson(more) == [MessageJson(m)];
      assert WriteItems(MessagesJson(more)) == EntryText(m);
      assert !Contains(file, "\"msgs\"");
      assert |Opening(peer)| < 300;
    } else {
      LogIsRendering(peer, ms);
      ItemsSnoc(MessagesJson(ms), MessageJson(m));
      if |file| < READ_BUF {
        EditRendering(peer, WriteItems(MessagesJson(ms)), m);
      } else {
        EditTooLong(file, peer, m);
      }
    }
  }

  /** Every chat of the run fitted when it was posted. */
  predicate AllFit(peer: string, ms: seq<Message>) {
    ms != [] ==>
      var init := ms[..|ms| - 1];
      Fits(LogFile(peer, init), ms[|ms| - 1]) && AllFit(peer, init)
  }

  predicate PlainIds(peer: string, ms: seq<Message>) {
    if ms == [] then PlainId(peer) && |peer| < 256
    else PlainIds(peer, ms[..|ms| - 1]) && PlainId(ms[|ms| - 1].from)
  }

  predicate ControlFreeLog(peer: string, ms: seq<Message>) {
    ControlFree(peer) && forall i | 0 <= i < |ms| :: ControlFree(ms[i].from) && ControlFree(ms[i].text)
  }

  /** After any run of chats that fit, the file is the rendering of the messages in order. */
  lemma {:induction false} LogRefinesList(peer: string, ms: seq<Message>)
    requires PlainIds(peer, ms) && AllFit(peer, ms)
    ensures PostAll("", peer, ms) == LogFile(peer, ms) && PlainId(peer) && |peer| < 256
  {
    if ms != [] {
      var init, m := ms[..|ms| - 1], ms[|ms| - 1];
      Longer(ms, |ms| - 1);
      assert ms[..|ms|] == ms;
      LogRefinesList(peer, init);
      PostIsAppend(peer, init, m);
    }
  }

  lemma {:induction false} CleanMessages(ms: seq<Message>)
    ensures Clean(Arr(MessagesJson(ms))) <==> forall i | 0 <= i < |ms| ::
      ControlFree(ms[i].from) && ControlFree(ms[i].text)
  {
    if ms != [] {
      var n := |ms| - 1;
      CleanMessages(ms[..n]);
      var vs := MessagesJson(ms);
      assert forall i | 0 <= i < n :: vs[i] == MessagesJson(ms[..n])[i];
      var fields := [Member("from", Str(ms[n].from)), Member("text", Str(ms[n].text)), Member("ts", Num(ms[n].ts))];
      assert vs[n] == Obj(fields);
      assert Clean(Obj(fields)) <==> Clean(fields[0].value) && Clean(fields[1].value) by {
        assert ControlFree("from") && ControlFree("text") && ControlFree("ts") && Clean(fields[2].value);
      }
      assert forall i | 0 <= i < n :: ms[..n][i] == ms[i];
    }
  }

  lemma CleanLog(peer: string, ms: seq<Message>)
    ensures Clean(LogJson(peer, ms)) <==> ControlFreeLog(peer, ms)
  {
    CleanMessages(ms);
    var fields := [Member("peer", Str(peer)), Member("msgs", Arr(MessagesJson(ms)))];
    assert LogJson(peer, ms) == Obj(fields);
    assert ControlFree("peer") && ControlFree("msgs");
    assert Clean(Obj(fields)) <==> Clean(fields[0].value) && Clean(fields[1].value);
  }

  /** A JSON reader gets back exactly the messages, in order, whatever quotes, backslashes or
      brackets they contain, if and only if no string holds a control character. */
  lemma LogReads(peer: string, ms: seq<Message>)
    requires PlainIds(peer, ms) && AllFit(peer, ms)
    requires ms != []
    ensures ReadValue(PostAll("", peer, ms)) == Ok(LogJson(peer, ms), "")
      <==> ControlFreeLog(peer, ms)
  {
    LogRefinesList(peer, ms);
    var v := LogJson(peer, ms);
    assert Write(v) + "" == Write(v);
    ValueReads(v, "");
    CleanLog(peer, ms);
  }

  lemma {:induction false} MessageAt(ms: seq<Message>, i: nat)
    requires i < |ms|
    ensures MessagesJson(ms)[i] == MessageJson(ms[i])
  {
    if i < |ms| - 1 { MessageAt(ms[..|ms| - 1], i); }
  }

  /** What the reader gets: the peer's id, and for each message the sender under `from`, the text under
      `text` and the time under `ts`. */
  lemma LogMeans(peer: string, ms: seq<Message>)
    requires PlainIds(peer, ms) && AllFit(peer, ms) && ms != [] && ControlFreeLog(peer, ms)
    ensures exists items: seq<Json> ::
      && ReadValue(PostAll("", peer, ms)) == Ok(Obj([Member("peer", Str(peer)), Member("msgs", Arr(items))]), "")
      && |items| == |ms|
      && forall i | 0 <= i < |ms| ::
        items[i] == Obj([Member("from", Str(ms[i].from)), Member("text", Str(ms[i].text)), Member("ts", Num(ms[i].ts))])
  {
    LogReads(peer, ms);
    var items := MessagesJson(ms);
    forall i | 0 <= i < |ms| ensures items[i] == MessageJson(ms[i]) { MessageAt(ms, i); }
    assert LogJson(peer, ms) == Obj([Member("peer", Str(peer)), Member("msgs", Arr(items))]);
  }
}
