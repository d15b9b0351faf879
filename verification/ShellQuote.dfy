/** The shell command `isolate_run` composes, and the POSIX shell reading it back
    (sections 2.2 and 2.3 of the Shell Command Language volume of POSIX.1-2017). */
module ShellQuote {
  import opened Numerals
  import opened Options
  import opened Seqs

  // ---------------------------------------------------------------- the printer

  function Escape(s: string): (r: string)
    ensures |r| >= |s|
  {
    if s == [] then []
    else Escape(s[..|s| - 1]) + Piece(s[|s| - 1])
  }

  function Quoted(s: string): string {
    "'" + Escape(s) + "'"
  }

  lemma {:induction false} EscapeMonotone(s: string, k: nat)
    requires k <= |s|
    ensures |Escape(s[..k])| + (|s| - k) <= |Escape(s)|
    decreases |s| - k
  {
    if k == |s| {
      assert s[..k] == s;
    } else {
      EscapeMonotone(s, k + 1);
      assert s[..k + 1][..k] == s[..k];
    }
  }

  lemma EscapeStep(s: string, p: nat)
    requires p < |s|
    ensures Escape(s[..p + 1]) == Escape(s[..p]) + Piece(s[p])
  {
    Longer(s, p);
  }

  function Piece(c: char): (r: string)
    ensures 1 <= |r| <= 4
  {
    if c == '\'' then "'\\''" else [c]
  }

  /** The loop body: one character's piece goes in if it and the closing bytes may still fit. */
  method PutPiece(dst: array<char>, cap: nat, n: nat, c: char) returns (ok: bool)
    requires n < cap <= dst.Length
    modifies dst
    ensures ok <==> n + |Piece(c)| < cap
    ensures ok ==> dst[..n + |Piece(c)|] == old(dst[..n]) + Piece(c)
    ensures forall k | cap <= k < dst.Length :: dst[k] == old(dst[k])
  {
    if c == '\'' {
      if n + 4 >= cap { return false; }
      dst[n], dst[n + 1], dst[n + 2], dst[n + 3] := '\'', '\\', '\'', '\'';
    } else {
      if n + 1 >= cap { return false; }
      dst[n] := c;
    }
    return true;
  }

  /** `iso_shell_quote`: succeeds exactly when the quoted word and its NUL fit, and never writes
      at or beyond `cap`. */
  method IsoShellQuote(dst: array?<char>, cap: nat, src: string) returns (r: int)
    requires dst != null ==> cap <= dst.Length
    modifies if dst == null then {} else {dst}
    ensures r == 0 <==> dst != null && |Escape(src)| + 3 <= cap
    ensures r == 0 || r == -1
    ensures dst != null && r == 0 ==> dst[..|Quoted(src)|] == Quoted(src) && dst[|Quoted(src)|] == '\0'
    ensures dst != null ==> forall k | cap <= k < dst.Length :: dst[k] == old(dst[k])
  {
    if dst == null || cap < 3 { return -1; }
    dst[0] := '\'';
    var n, p := 1, 0;
    assert dst[..n] == "'" + Escape(src[..p]);
    while p < |src|
      invariant 0 <= p <= |src| && n == 1 + |Escape(src[..p])| < cap
      invariant dst[..n] == "'" + Escape(src[..p])
      invariant forall k | cap <= k < dst.Length :: dst[k] == old(dst[k])
    {
      EscapeMonotone(src, p + 1);
      EscapeStep(src, p);
      Assoc("'", Escape(src[..p]), Piece(src[p]));
      var ok := PutPiece(dst, cap, n, src[p]);
      if !ok { return -1; }
      n := n + |Piece(src[p])|;
      p := p + 1;
    }
    assert src[..p] == src;
    if n + 2 > cap { return -1; }
    ghost var before := dst[..n];
    dst[n] := '\'';
    n := n + 1;
    dst[n] := '\0';
    assert dst[..n] == before + "'";
    return 0;
  }

  // ---------------------------------------------------------------- the shell's tokenizer

  /** Characters that stand for themselves outside quotes wherever they occur in a word. */
  predicate Plain(c: char) {
    'a' <= c <= 'z' || 'A' <= c <= 'Z' || '0' <= c <= '9' || c == '-' || c == '_' || c == '.' || c == '/'
  }

  predicate AllPlain(s: string) {
    forall i | 0 <= i < |s| :: Plain(s[i])
  }

  predicate Blank(c: char) {
    c == ' ' || c == '\t'
  }

  datatype Mode = Between | InWord | InQuotes

  /** Token recognition with quote removal.  `word` is the word read so far.  The result is None
      where the input leaves simple words: an unquoted special character, an unfinished quote,
      or a trailing backslash. */
  function Tokens(s: string, mode: Mode, word: string): (r: Option<seq<string>>)
    decreases |s|
  {
    if s == [] then
      match mode
      case Between => Some([])
      case InWord => Some([word])
      case InQuotes => None
    else
      var c, rest := s[0], s[1..];
      match mode
      case InQuotes => if c == '\'' then Tokens(rest, InWord, word) else Tokens(rest, InQuotes, word + [c])
      case _ =>
        if c == '\'' then Tokens(rest, InQuotes, word)
        else if c == '\\' then
          if rest == [] then None
          else if rest[0] == '\n' then Tokens(rest[1..], mode, word)
          else Tokens(rest[1..], InWord, word + [rest[0]])
        else if Blank(c) then
          if mode.Between? then Tokens(rest, Between, [])
          else match Tokens(rest, Between, [])
            case None => None
            case Some(ws) => Some([word] + ws)
        else if Plain(c) then Tokens(rest, InWord, word + [c])
        else None
  }

  function Tokenize(s: string): Option<seq<string>> {
    Tokens(s, Between, [])
  }

  /** The escaped text between the quotes reads back as the text itself. */
  lemma {:induction false} EscapeReads(s: string, rest: string, word: string)
    ensures Tokens(Escape(s) + rest, InQuotes, word) == Tokens(rest, InQuotes, word + s)
    decreases |s|
  {
    if s == [] {
      assert Escape(s) + rest == rest && word + s == word;
    } else {
      var init, c := s[..|s| - 1], s[|s| - 1];
      Assoc(Escape(init), Piece(c), rest);
      EscapeReads(init, Piece(c) + rest, word);
      PieceReads(c, rest, word + init);
      assert word + init + [c] == word + s;
    }
  }

  lemma PieceReads(c: char, rest: string, word: string)
    ensures Tokens(Piece(c) + rest, InQuotes, word) == Tokens(rest, InQuotes, word + [c])
  {
    if c == '\'' {
      var a := "'\\''" + rest;
      var b := "\\''" + rest;
      var d := "'" + rest;
      assert a[1..] == b && b[2..] == d && d[1..] == rest && b[1..][0] == '\'' && b[1..][1..] == d;
      assert Tokens(a, InQuotes, word) == Tokens(b, InWord, word);
      assert Tokens(b, InWord, word) == Tokens(d, InWord, word + ['\'']);
      assert Tokens(d, InWord, word + ['\'']) == Tokens(rest, InQuotes, word + ['\'']);
    } else {
      assert ([c] + rest)[1..] == rest;
    }
  }

  /** A quoted word is one word, whatever it contains and whatever follows. */
  lemma QuotedReads(s: string, rest: string)
    ensures Tokens(Quoted(s) + rest, Between, []) == Tokens(rest, InWord, s)
  {
    var a := Quoted(s) + rest;
    assert a[1..] == Escape(s) + ("'" + rest);
    EscapeReads(s, "'" + rest, []);
    assert [] + s == s;
    assert ("'" + rest)[1..] == rest;
  }

  lemma {:induction false} PlainReads(s: string, rest: string, word: string)
    requires s != [] && AllPlain(s)
    ensures Tokens(s + rest, InWord, word) == Tokens(rest, InWord, word + s)
    ensures word == [] ==> Tokens(s + rest, Between, word) == Tokens(rest, InWord, s)
    decreases |s|
  {
    var c, tail := s[0], s[1..];
    assert (s + rest)[1..] == tail + rest;
    assert Plain(s[0]) && word + [c] + tail == word + s;
    assert forall i | 0 <= i < |tail| :: tail[i] == s[i + 1];
    assert [] + s == s;
    if tail == [] {
      assert tail + rest == rest && word + [c] == word + s && s == [c];
    } else {
      PlainReads(tail, rest, word + [c]);
    }
  }

  lemma EndOfWord(rest: string, word: string)
    ensures var r := Tokens(rest, Between, []);
      Tokens(" " + rest, InWord, word) == if r.None? then None else Some([word] + r.value)
  {
    assert (" " + rest)[1..] == rest;
  }

  /** A plain word in front of a tail that reads as the rest of `args`. */
  lemma WordThen(args: seq<string>, i: nat, rest: string)
    requires i < |args| && args[i] != [] && AllPlain(args[i])
    requires Tokens(rest, Between, []) == Some(args[i + 1..])
    ensures Tokens(args[i] + (" " + rest), Between, []) == Some(args[i..])
  {
    PlainReads(args[i], " " + rest, []);
    EndOfWord(rest, args[i]);
    assert [args[i]] + args[i + 1..] == args[i..];
  }

  // ---------------------------------------------------------------- any command of quoted words

  function Line(ws: seq<string>): string
    requires ws != []
  {
    if |ws| == 1 then Quoted(ws[0]) else Quoted(ws[0]) + " " + Line(ws[1..])
  }

  /** Printer and tokenizer are inverse on every nonempty list of words. */
  lemma {:induction false} LineReads(ws: seq<string>)
    requires ws != []
    ensures Tokenize(Line(ws)) == Some(ws)
  {
    if |ws| == 1 {
      QuotedReads(ws[0], []);
      assert ws == [ws[0]];
      assert Quoted(ws[0]) + [] == Quoted(ws[0]);
    } else {
      var rest := Line(ws[1..]);
      assert Line(ws) == Quoted(ws[0]) + (" " + rest);
      QuotedReads(ws[0], " " + rest);
      EndOfWord(rest, ws[0]);
      LineReads(ws[1..]);
      assert [ws[0]] + ws[1..] == ws;
    }
  }

  // ---------------------------------------------------------------- the command of isolate_run

  const EXE_BUF := 2048
  const SCRIPT_BUF := 8192
  const CMD_BUF := 12288

  /** The time limit in seconds: timeouts below 100 ms are raised to 100 ms first. */
  function Seconds(timeout: int): (s: nat)
    ensures s >= 1
  {
    (if timeout < 100 then 100 else timeout) / 1000 + 1
  }

  /** The least number of seconds that is longer than the timeout. */
  lemma SecondsExact(timeout: int)
    ensures var ms := if timeout < 100 then 100 else timeout;
      (Seconds(timeout) - 1) * 1000 <= ms < Seconds(timeout) * 1000
  {
  }

  /** The words of the format string, separated by single spaces. */
  function Join(ws: seq<string>): string
    requires ws != []
  {
    if |ws| == 1 then ws[0] else ws[0] + (" " + Join(ws[1..]))
  }

  function Command(exe: string, seconds: nat, script: string): string {
    Join([Quoted(exe), "--safe", "--low-config", "--time-limit", Decimal(seconds), Quoted(script)])
  }

  /** Shell quoting is undone by the shell: the child's argument vector is exactly the intended one. */
  lemma CommandReads(exe: string, seconds: nat, script: string)
    ensures Tokenize(Command(exe, seconds, script)) ==
      Some([exe, "--safe", "--low-config", "--time-limit", Decimal(seconds), script])
  {
    var ws := [Quoted(exe), "--safe", "--low-config", "--time-limit", Decimal(seconds), Quoted(script)];
    var args := [exe, "--safe", "--low-config", "--time-limit", Decimal(seconds), script];
    assert Tokens(Join(ws[5..]), Between, []) == Some(args[5..]) by {
      QuotedReads(script, []);
      Unit(Quoted(script));
      assert Join(ws[5..]) == Quoted(script);
    }
    WordThen(args, 4, Join(ws[5..]));
    JoinStep(ws, 4);
    WordThen(args, 3, Join(ws[4..]));
    JoinStep(ws, 3);
    WordThen(args, 2, Join(ws[3..]));
    JoinStep(ws, 2);
    WordThen(args, 1, Join(ws[2..]));
    JoinStep(ws, 1);
    FirstWord(args, Join(ws[1..]));
  }

  lemma JoinStep(ws: seq<string>, i: nat)
    requires i + 1 < |ws|
    ensures Join(ws[i..]) == ws[i] + (" " + Join(ws[i + 1..]))
  {
    DropDrop(ws, i, 1);
  }

  lemma FirstWord(args: seq<string>, rest: string)
    requires args != [] && Tokens(rest, Between, []) == Some(args[1..])
    ensures Tokens(Quoted(args[0]) + (" " + rest), Between, []) == Some(args)
  {
    QuotedReads(args[0], " " + rest);
    EndOfWord(rest, args[0]);
    assert [args[0]] + args[1..] == args;
  }

  /** Whatever passes the two quoters also fits the command buffer, so snprintf never truncates. */
  lemma CommandFits(exe: string, timeout: int, script: string)
    requires |Escape(exe)| + 3 <= EXE_BUF && |Escape(script)| + 3 <= SCRIPT_BUF
    requires timeout < 0x8000_0000
    ensures |Command(exe, Seconds(timeout), script)| < CMD_BUF
  {
    assert Pow10(3) == 1000 && Pow10(7) == Pow10(4) * 1000;
    DecimalShort(Seconds(timeout), 7);
    var ws := [Quoted(exe), "--safe", "--low-config", "--time-limit", Decimal(Seconds(timeout)), Quoted(script)];
    assert ws[1..][1..] == ws[2..] && ws[2..][1..] == ws[3..] && ws[3..][1..] == ws[4..] && ws[4..][1..] == ws[5..];
    assert Join(ws[5..]) == ws[5];
    assert |Join(ws[3..])| == |ws[3]| + |ws[4]| + |ws[5]| + 2;
    assert |Join(ws[1..])| == |ws[1]| + |ws[2]| + |Join(ws[3..])| + 2;
  }
}
