/** The two loops that collect the output of an isolated child: the POSIX loop around a
    non-blocking pipe, and the Windows reader with its growing buffer. */
module OutputCapture {
  import opened Seqs
  import opened Text

  const CAP := 65536
  const CHUNK := 4096

  // ---------------------------------------------------------------- the POSIX loop

  /** One turn of the loop, as the world sees it: what the child writes before the read and between
      the read and the wait, whether the wait finds it gone, and whether its time is up. */
  datatype Round = Round(before: string, behind: string, exited: bool, late: bool)

  /** What the parent holds, and what is still in the pipe when the loop ends. */
  datatype Captured = Captured(text: string, left: string, timedOut: bool)

  function Capture(text: string, pipe: string, rounds: seq<Round>): Captured
    decreases |rounds|
  {
    if rounds == [] then Captured(text, pipe, false)
    else
      var r, full := rounds[0], pipe + rounds[0].before;
      var chunk := Clip(full, CHUNK);
      var text' := text + Clip(chunk, if |text| <= CAP then CAP - |text| else 0);
      var pipe' := full[|chunk|..] + r.behind;
      if r.exited then Captured(text', pipe', false)
      else if r.late then Captured(text', pipe', true)
      else Capture(text', pipe', rounds[1..])
  }

  /** Everything the child wrote while the loop ran. */
  function Written(rounds: seq<Round>): string
    decreases |rounds|
  {
    if rounds == [] then []
    else
      var r := rounds[0];
      r.before + r.behind + if r.exited || r.late then [] else Written(rounds[1..])
  }

  /** The loop runs out of time exactly when it ends with a late turn that does not find the child gone. */
  lemma {:induction false} TimedOutExact(text: string, pipe: string, rounds: seq<Round>)
    ensures Capture(text, pipe, rounds).timedOut <==>
      exists k | 0 <= k < |rounds| ::
        && rounds[k].late && !rounds[k].exited
        && forall j | 0 <= j < k :: !rounds[j].late && !rounds[j].exited
    decreases |rounds|
  {
    if rounds != [] {
      var r, full := rounds[0], pipe + rounds[0].before;
      var chunk := Clip(full, CHUNK);
      TimedOutExact(text + Clip(chunk, if |text| <= CAP then CAP - |text| else 0), full[|chunk|..] + r.behind,
        rounds[1..]);
      assert forall i | 0 <= i < |rounds| - 1 :: rounds[1..][i] == rounds[i + 1];
      if !r.exited && !r.late && Capture(text, pipe, rounds).timedOut {
        var k :| 0 <= k < |rounds| - 1 && rounds[1..][k].late && !rounds[1..][k].exited
          && forall j | 0 <= j < k :: !rounds[1..][j].late && !rounds[1..][j].exited;
        assert rounds[k + 1].late;
      }
    }
  }

  lemma PipeMoves(got: string, pipe: string, before: string, behind: string, more: string)
    ensures var full, chunk := pipe + before, Clip(pipe + before, CHUNK);
      got + chunk + (full[|chunk|..] + behind + more) == got + (pipe + (before + behind + more))
  {
    var full, chunk := pipe + before, Clip(pipe + before, CHUNK);
    var tail := full[|chunk|..];
    assert full == chunk + tail;
    Assoc(got, chunk, tail + behind + more);
    Assoc(tail, behind, more);
    Assoc(chunk, tail, behind + more);
    Assoc(pipe, before, behind + more);
    Assoc(before, behind, more);
  }

  /** Nothing is reordered or invented: what was taken, clipped at the capacity, is the front of
      what was written, and the rest is in the pipe. */
  lemma {:induction false} CaptureConserves(got: string, pipe: string, rounds: seq<Round>) returns (taken: string)
    ensures var c := Capture(Clip(got, CAP), pipe, rounds);
      got <= taken && taken + c.left == got + (pipe + Written(rounds)) && c.text == Clip(taken, 65536)
    decreases |rounds|
  {
    if rounds == [] {
      taken := got;
      Unit(pipe);
    } else {
      var r, full := rounds[0], pipe + rounds[0].before;
      var chunk := Clip(full, CHUNK);
      var pipe' := full[|chunk|..] + r.behind;
      var more := if r.exited || r.late then [] else Written(rounds[1..]);
      ClipAppend(got, chunk, CAP);
      PipeMoves(got, pipe, r.before, r.behind, more);
      if r.exited || r.late {
        taken := got + chunk;
        Unit(pipe');
      } else {
        taken := CaptureConserves(got + chunk, pipe', rounds[1..]);
      }
    }
  }

  // ---------------------------------------------------------------- when nothing is lost

  /** The number of turns the loop takes: up to the first that finds the child gone or late. */
  function Turns(rounds: seq<Round>): (n: nat)
    ensures n <= |rounds| && (rounds != [] ==> n > 0)
    decreases |rounds|
  {
    if rounds == [] then 0 else if rounds[0].exited || rounds[0].late then 1 else 1 + Turns(rounds[1..])
  }

  function Behind(rounds: seq<Round>, i: nat): nat
    requires i <= |rounds|
  {
    if i == 0 then 0 else |rounds[i - 1].behind|
  }

  /** By how much the bytes that came for the reads of turns `j` to `n - 1` exceed a chunk for each. */
  function Excess(rounds: seq<Round>, j: nat, n: nat): int
    requires j <= n <= |rounds|
  {
    if j == n then 0 else Excess(rounds, j, n - 1) + Behind(rounds, n - 1) + |rounds[n - 1].before| - CHUNK
  }

  /** The loop keeps up with the child: nothing is written behind its last read, and no stretch of
      turns up to the last one brings more than a chunk a turn. */
  predicate KeepsUp(rounds: seq<Round>) {
    var n := Turns(rounds);
    Behind(rounds, n) == 0 && forall j | 0 <= j < n :: Excess(rounds, j, n) <= 0
  }

  /** What `n` reads leave in the pipe. */
  function Backlog(rounds: seq<Round>, n: nat): nat
    requires n <= |rounds|
  {
    if n == 0 then 0
    else
      var full := Backlog(rounds, n - 1) + Behind(rounds, n - 1) + |rounds[n - 1].before|;
      if full <= CHUNK then 0 else full - CHUNK
  }

  /** What is left is the largest excess of any stretch of turns up to the last one, or nothing. */
  lemma {:induction false} BacklogIsExcess(rounds: seq<Round>, n: nat) returns (worst: nat)
    requires n <= |rounds|
    ensures worst <= n && Excess(rounds, worst, n) == Backlog(rounds, n)
    ensures forall j | 0 <= j <= n :: Excess(rounds, j, n) <= Backlog(rounds, n)
  {
    if n == 0 {
      worst := 0;
    } else {
      worst := BacklogIsExcess(rounds, n - 1);
      var full := Backlog(rounds, n - 1) + Behind(rounds, n - 1) + |rounds[n - 1].before|;
      forall j | 0 <= j <= n ensures Excess(rounds, j, n) <= Backlog(rounds, n) {
        if j < n { assert Excess(rounds, j, n - 1) <= Backlog(rounds, n - 1); }
      }
      if full <= CHUNK { worst := n; }
    }
  }

  lemma {:induction false} LeftIsBacklog(text: string, pipe: string, rounds: seq<Round>, i: nat)
    requires i <= |rounds| && |pipe| == Backlog(rounds, i) + Behind(rounds, i)
    ensures var n := i + Turns(rounds[i..]);
      |Capture(text, pipe, rounds[i..]).left| == Backlog(rounds, n) + Behind(rounds, n)
    decreases |rounds| - i
  {
    if i < |rounds| {
      var r, full := rounds[i], pipe + rounds[i].before;
      var chunk := Clip(full, CHUNK);
      DropDrop(rounds, i, 1);
      assert |full[|chunk|..] + r.behind| == Backlog(rounds, i + 1) + Behind(rounds, i + 1);
      if !r.exited && !r.late {
        LeftIsBacklog(text + Clip(chunk, if |text| <= CAP then CAP - |text| else 0), full[|chunk|..] + r.behind,
          rounds, i + 1);
      }
    }
  }

  lemma DrainedExact(rounds: seq<Round>)
    ensures Capture([], [], rounds).left == [] <==> KeepsUp(rounds)
  {
    var n := Turns(rounds);
    assert rounds[0..] == rounds;
    LeftIsBacklog([], [], rounds, 0);
    assert |Capture([], [], rounds).left| == Backlog(rounds, n) + Behind(rounds, n);
    var worst := BacklogIsExcess(rounds, n);
    if KeepsUp(rounds) && worst < n { assert Excess(rounds, worst, n) <= 0; }
  }

  /** The captured text is the whole output exactly when the loop keeps up with the child and the
      output fits; in every case it is a front part of the output. */
  lemma CaptureComplete(rounds: seq<Round>)
    ensures var c := Capture([], [], rounds);
      c.text <= Written(rounds) && |c.text| <= 65536
      && (c.text == Written(rounds) <==> KeepsUp(rounds) && |Written(rounds)| <= 65536)
  {
    var c := Capture([], [], rounds);
    assert Clip([], CAP) == [];
    var taken := CaptureConserves([], [], rounds);
    assert [] + ([] + Written(rounds)) == Written(rounds);
    DrainedExact(rounds);
    if c.left == [] { Unit(taken); }
    if c.text == Written(rounds) { assert |taken + c.left| == |c.text|; }
  }

  /** A child that is gone by the first wait leaves at most 4096 bytes of whatever it wrote. */
  lemma FastChildIsCut(r: Round)
    requires r.exited
    ensures Capture([], [], [r]).text == Clip(r.before, CHUNK)
  {
    Unit(r.before);
    Unit(Clip(r.before, CHUNK));
  }

  /** Five thousand bytes, written at once by a child that exits: 4096 arrive, and the output would fit. */
  lemma FastChildLoses()
    ensures var out := seq(5000, _ => 'x');
      var rounds := [Round(out, [], true, false)];
      && Written(rounds) == out && |out| <= CAP && !KeepsUp(rounds)
      && Capture([], [], rounds).text == out[..CHUNK] && out[..CHUNK] != out
  {
    var out := seq(5000, _ => 'x');
    var r := Round(out, [], true, false);
    FastChildIsCut(r);
    assert out + [] + [] == out;
    assert Turns([r]) == 1 && Excess([r], 0, 1) == 5000 - CHUNK;
  }

  /** The loop itself, on a zeroed buffer one longer than the capacity. */
  method CaptureLoop(rounds: seq<Round>) returns (buf: array<char>, len: nat, left: string, timedOut: bool)
    ensures buf.Length == CAP + 1 && len <= CAP && buf[len] == '\0'
    ensures Captured(buf[..len], left, timedOut) == Capture([], [], rounds)
  {
    buf := new char[CAP + 1](_ => '\0');
    len, timedOut, left := 0, false, [];
    var i, done := 0, false;
    assert rounds[0..] == rounds && buf[..0] == [];
    while i < |rounds| && !done
      invariant i <= |rounds| && len <= CAP && buf[len] == '\0'
      invariant Capture([], [], rounds)
        == if done then Captured(buf[..len], left, timedOut) else Capture(buf[..len], left, rounds[i..])
      invariant !done ==> !timedOut
      decreases |rounds| - i
    {
      DropDrop(rounds, i, 1);
      var r := rounds[i];
      var full := left + r.before;
      var chunk := Clip(full, CHUNK);
      len := TakeChunk(buf, len, chunk);
      left := full[|chunk|..] + r.behind;
      if r.exited {
        done := true;
      } else if r.late {
        done, timedOut := true, true;
      }
      i := i + 1;
    }
  }

  /** Copies what still fits and terminates the text. */
  method TakeChunk(buf: array<char>, len0: nat, chunk: string) returns (len: nat)
    requires len0 <= CAP && buf.Length == CAP + 1
    modifies buf
    ensures len <= CAP && buf[..len] == old(buf[..len0]) + Clip(chunk, CAP - len0)
    ensures buf[len] == if len > len0 then '\0' else old(buf[len0])
  {
    var take := if |chunk| > CAP - len0 then CAP - len0 else |chunk|;
    len := len0;
    if take > 0 {
      var k := 0;
      while k < take
        invariant k <= take && buf[..len0] == old(buf[..len0])
        invariant buf[len0..len0 + k] == chunk[..k]
      {
        buf[len0 + k] := chunk[k];
        k := k + 1;
      }
      assert buf[..len0 + take] == buf[..len0] + buf[len0..len0 + take];
      len := len0 + take;
      buf[len] := '\0';
    }
  }

  // ---------------------------------------------------------------- the growing buffer

  /** The capacity after a read of `rd` bytes: doubled once if they do not fit, never above 65536. */
  function Grown(len: nat, cap: nat, rd: nat): nat {
    if len + rd + 1 <= cap then cap
    else
      var nc := if cap == 0 then CHUNK else cap * 2;
      if nc > CAP then CAP else nc
  }

  /** How much of a read of `rd` bytes is copied: room is left for the terminator. */
  function Room(len: nat, cap: nat, rd: nat): nat {
    if len + rd + 1 <= cap then rd else if cap <= len then 0 else cap - len - 1
  }

  /** What the reader has when it stops: at the end of the pipe, or at the first read it has to cut. */
  function Collect(text: string, cap: nat, chunks: seq<string>): string
    decreases |chunks|
  {
    if chunks == [] || chunks[0] == [] then text
    else
      var nc := Grown(|text|, cap, |chunks[0]|);
      var take := Room(|text|, nc, |chunks[0]|);
      var text' := text + Clip(chunks[0], take);
      if take < |chunks[0]| then text' else Collect(text', nc, chunks[1..])
  }

  /** The bytes of the pipe, up to its end. */
  function Stream(chunks: seq<string>): string {
    if chunks == [] || chunks[0] == [] then [] else chunks[0] + Stream(chunks[1..])
  }

  predicate ChunkSized(chunks: seq<string>) {
    forall i | 0 <= i < |chunks| :: |chunks[i]| <= CHUNK
  }

  /** Once the buffer exists, one doubling is always enough, up to the maximum. */
  lemma {:induction false} CollectClips(text: string, cap: nat, chunks: seq<string>)
    requires ChunkSized(chunks) && CHUNK <= cap <= CAP && |text| + 1 <= cap
    ensures Collect(text, cap, chunks) == Clip(text + Stream(chunks), CAP - 1)
    decreases |chunks|
  {
    if chunks == [] || chunks[0] == [] {
      Unit(text);
    } else {
      var rd, nc := chunks[0], Grown(|text|, cap, |chunks[0]|);
      ClipAppend(text + rd, Stream(chunks[1..]), CAP - 1);
      Assoc(text, rd, Stream(chunks[1..]));
      if |text| + |rd| + 1 <= nc {
        CollectClips(text + rd, nc, chunks[1..]);
      } else {
        ClipAppend(text, rd, CAP - 1);
        Unit(Clip(text + rd, CAP - 1));
      }
    }
  }

  /** What the reader keeps, for every sequence of chunks: all of the output up to 65535 bytes, unless
      the first read fills the whole 4096-byte chunk: then its first 4095 bytes are all there is. */
  lemma ReaderExact(chunks: seq<string>)
    requires ChunkSized(chunks)
    ensures Collect([], 0, chunks) ==
      if chunks != [] && |chunks[0]| == CHUNK then chunks[0][..CHUNK - 1] else Clip(Stream(chunks), CAP - 1)
  {
    if chunks != [] && chunks[0] != [] {
      var rd := chunks[0];
      assert [] + rd == rd;
      if |rd| < CHUNK {
        CollectClips(rd, CHUNK, chunks[1..]);
      } else {
        assert [] + rd[..CHUNK - 1] == rd[..CHUNK - 1];
      }
    }
  }

  class IsoCtx {
    var buf: array<char>
    var len: nat

    ghost predicate Valid()
      reads this
    {
      len <= buf.Length && (len > 0 ==> len < buf.Length)
    }

    constructor ()
      ensures Valid() && fresh(buf) && len == 0 && buf.Length == 0
    {
      buf := new char[0];
      len := 0;
    }

    /** realloc: the text is kept. */
    method Grow(nc: nat)
      requires Valid() && nc > len
      modifies this`buf
      ensures Valid() && fresh(buf) && buf.Length == nc && buf[..len] == old(buf[..len])
    {
      var nb := new char[nc];
      var k := 0;
      while k < len
        invariant k <= len && nb[..k] == buf[..k]
        modifies nb
      {
        nb[k] := buf[k];
        k := k + 1;
      }
      buf := nb;
    }

    /** memcpy behind the text. */
    method Take(chunk: string, take: nat)
      requires Valid() && take <= |chunk| && len + take < buf.Length
      modifies this`len, buf
      ensures Valid() && len == old(len) + take && buf[..len] == old(buf[..len]) + chunk[..take]
    {
      var k := 0;
      while k < take
        invariant k <= take && buf[..len] == old(buf[..len]) && buf[len..len + k] == chunk[..k]
        invariant len == old(len)
        modifies buf
      {
        buf[len + k] := chunk[k];
        k := k + 1;
      }
      assert buf[..len + take] == buf[..len] + buf[len..len + take];
      len := len + take;
    }

    /** One read: grow if needed, copy what fits. */
    method OneRead(chunk: string) returns (cut: bool)
      requires Valid() && buf.Length <= CAP && 0 < |chunk| <= CHUNK
      modifies this, buf
      ensures Valid() && (buf == old(buf) || fresh(buf))
      ensures buf.Length == Grown(old(len), old(buf.Length), |chunk|) && 0 < len + 1 <= buf.Length <= CAP
      ensures buf[..len] == old(buf[..len]) + Clip(chunk, Room(old(len), buf.Length, |chunk|))
      ensures cut == (Room(old(len), buf.Length, |chunk|) < |chunk|)
    {
      var rd := |chunk|;
      if len + rd + 1 > buf.Length { Grow(Grown(len, buf.Length, rd)); }
      var take := Room(len, buf.Length, rd);
      Take(chunk, take);
      cut := take < rd;
    }

    /** `iso_read_thread`. */
    method ReadThread(chunks: seq<string>)
      requires Valid() && len == 0 && buf.Length == 0 && ChunkSized(chunks)
      modifies this, buf
      ensures Valid() && buf[..len] == Collect([], 0, chunks)
    {
      var i, cut := 0, false;
      assert chunks[0..] == chunks && buf[..0] == [];
      while i < |chunks| && |chunks[i]| > 0 && !cut
        invariant i <= |chunks| && Valid() && buf.Length <= CAP && (buf == old(buf) || fresh(buf))
        invariant Collect([], 0, chunks) == if cut then buf[..len] else Collect(buf[..len], buf.Length, chunks[i..])
        decreases |chunks| - i
      {
        DropDrop(chunks, i, 1);
        cut := OneRead(chunks[i]);
        i := i + 1;
      }
    }
  }
}
