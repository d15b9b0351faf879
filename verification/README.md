# Verified model of the bridge, server, quoting, desugaring and client kernels

This project models the stateful kernels of the Inimerse repository and proves what they keep over
whole runs.  `dafny verify dfyconfig.toml` checks it.  Each kernel has a specification (datatypes and
functions whose laws are proved) and, where the code works in place, the same arrays, indices and
loops as methods of a class proved equal to that specification.

| part | modules |
|---|---|
| WebSocket bridge, `hl_bridge.c` | `Bytes`, `Frames`, `WireFormat`, `WsClient`, `ClientTable`, `TableStreams`, `EngineLink`, `EngineHistory`, `QueryParam`, `Json`, `ChatLog` |
| headless input server, `src/headless_server_posix.c` | `Sessions`, `Recognition`, `HeadlessServer` |
| shell quoting and output capture, `src/isolate_mod.c` | `ShellQuote`, `OutputCapture` |
| desugarer, `src/desugar_mod.c` | `Desugar`, `DesugarRules`, `DesugarScan`, `DesugarFull`, `DesugarBuffer` |
| reconnecting client and package cache, `tools/` | `CrpSocket`, `PackageCache` |
| frozen identity delta, `tools/check_frozen_identity_delta.py` | `FrozenDelta`, `FrozenRoot`, `FrozenParts` |
| child registry, `src/child_proc.c` | `ChildProc` |
| option splice, `src/main.c` | `ArgSplice` |
| case coverage linter, `src/lint_mod.c` | `CaseMembers`, `CaseLint`, `CaseEnds`, `CaseLinter` |
| shared | `Seqs`, `Text`, `Numerals`, `Options`, `Compaction` |

External calls (send, recv, accept, spawn, kill, wait, the clock, network events) are parameters:
every result they may give is covered by the for-all in front of the theorem.  Handles, sends and
deliveries are recorded in fields that stand for the outside world.

## What the proofs found

Each of these is a lemma below; the code is modelled as it is.

- An engine chunk of 65536 octets, the size of the engine's receive buffer, is one more than the frame
  writer accepts: it drops every WebSocket client (`ClientTable.FullChunkDropsEveryone`).
- A short send is no error, so a client can stay in the table with a broken stream
  (`ClientTable.TornExact`, `ClientTable.ShortHeaderStays`).
- The frame reader reports an empty frame like a starved buffer, so the frames behind it wait for the
  next recv; exactly then the cutting of the stream matters (`Frames.CutMattersForEmptyFrames`).  Only empty frames
  can fill the buffer (`Frames.StarvedIsShort`, `Frames.EmptyFramesPileUp`), which ends the connection.
- The first reconnect deadline is tick 0, not a time: on a host whose tick counter is in its upper half
  the first pass does not connect (`EngineLink.FirstPassConnects`).
- The frozen-delta check predicts in characters but measures bytes; its slope check passes exactly when
  the slope is 0 or the root is plain ASCII (`FrozenDelta.PredictionExact`).  The comment in the script
  promises a function of the product's real paths; the code's condition is followed here.
- A child tag of 64 or more characters is cut when stored, and `kill_tag` with that same tag does not
  reach it (`ChildProc.OwnTagReaches`); a full table silently gives up slot 0 (`ChildProc.FullTableEvicts`).
- `deletePackage` leaks its bytes into the cache counter.  The memory bound still holds, but once leak and
  new package exceed the maximum each download empties the cache (`PackageCache.LeakEmptiesCache`), and
  below that it throws out entries that could stay, exactly as `PackageCache.WasteExact` says; an older
  version of the same package has the same effect (`PackageCache.OverwriteWastes`).
- In code, `//[` becomes `#[`: the desugared line then opens a block comment that the source did not
  (`DesugarScan.ProtectedRegionsKept` is an if-and-only-if).
- Without space around them `&&` and double bars join their operands to one word (`DesugarRules.OperandsMerge`), and the
  call that `say@` opens is closed inside a trailing comment (`DesugarRules.SayRewritten`).
- A full output line of the desugarer can put its terminator into the cell behind the buffer, although a
  comment promises bounded writes (`DesugarFull.TerminatorExact`, `DesugarFull.FullLinesAtCodeSize`).
- The POSIX capture loop does not drain the pipe after the child's exit: what it keeps is exact in
  `OutputCapture.CaptureComplete`, and `OutputCapture.FastChildLoses` is a loss.  The Windows reader stops at 4095 bytes when its first read fills the chunk, although its comment names
  the 65536-byte cap as the only reason (`OutputCapture.ReaderExact`).
- A one-line `{ ... }` branch ends a linted case, so a member quoted only behind it is reported missing
  (`CaseEnds.OneLineBranchEndsCase`, `CaseEnds.FalseWarning`).  Exact coverage also needs at most 32
  literals on a line, counted with repetition, and none above 95 characters (`CaseMembers.ExtractExact`).
- A case nested in a branch of another takes its place, and the outer one never reports
  (`CaseEnds.NestedCaseSilences`, `CaseEnds.MissingWarning`).
- The close listener reconnects after the connect loop has given up, so `retries` bounds one loop only
  (`CrpSocket.CloseEventReconnects`, `CrpSocket.GivenUpLoopRestarts`).
- `connect()` after `close()` is swallowed while the old connect loop is pending
  (`CrpSocket.ClosedWhilePending`, `CrpSocket.ConnectAfterCloseIsLost`).
- A headless client that closes loses recognised lines buffered behind an unrecognised one
  (`Sessions.CloseDeliversAll`, `Sessions.LineLostAtClose`), and a failed send loses all of them
  (`Sessions.BrokenSendDeliversAll`).

## Model

| member | source | states |
|---|---|---|
| `Bytes.XorInvolution` | hl_bridge.c:141 | unmasking with the key that masked restores the octet (XOR written out in arithmetic) |
| `Frames.ParseEncode` | hl_bridge.c:129-148 | the reader returns exactly the payload of any well-formed frame, masked or not, in either length form, and consumes exactly its octets, whatever follows |
| `Frames.ParsePrefix` | hl_bridge.c:130-138 | no proper prefix of a frame is taken for a frame or refused |
| `Frames.ParseMonotone` | hl_bridge.c:129-148 | once the reader has a frame or a refusal, later bytes never change it |
| `Frames.TextFrameIsMinimal` | hl_bridge.c:118-122 | the written frame is the shortest of all frames with that payload, and only the unmasked frame in the minimal length form of section 5.2 of RFC 6455 is as short |
| `Frames.PumpAppend` | hl_bridge.c:157-170 | pumping, receiving more and pumping again equals one pump of everything, as long as the first pump only starved |
| `Frames.FeedIsPump` | hl_bridge.c:157-170 | for any byte stream whose one-shot pump starves, every way of cutting it into recv chunks gives the same output and rest |
| `Frames.ChunkIndependence` | hl_bridge.c:129-170 | whole frames with payloads of 1 to 4095 octets and an incomplete one, cut anyhow: the engine gets the unmasked payloads in order, each with a newline, and the buffer holds exactly the incomplete frame, which is short |
| `Frames.ConsumedInOneChunk` | hl_bridge.c:157-170 | one chunk of frames is fully consumed if and only if no frame but the last is empty |
| `Frames.EveryCutIsPump` | hl_bridge.c:157-170 | a stream whose only empty frame may be the last is read as if it had come in one chunk, however it is cut |
| `Frames.CutMattersForEmptyFrames` | hl_bridge.c:157-170 | every way recv may cut a stream of frames sends the same lines and leaves the same bytes if and only if no frame before the last is empty |
| `Frames.StarvedIsShort` | hl_bridge.c:129-170 | for every byte stream, a pump that starves leaves fewer than 65543 octets |
| `Frames.EmptyFramesPileUp` | hl_bridge.c:157-170 | of `n` recvs of `k` empty frames each, all but `n` frames stay in the buffer |
| `WireFormat.XorBits` | hl_bridge.c:141 | each binary digit of the combined octet is 1 if and only if the digits differ |
| `WireFormat.FrameBytes` | hl_bridge.c:131-142 | the octets of every frame in its four forms: length in seven bits, or 126 and two octets with the high one first; mask bit, key, and each payload octet combined with its own key octet |
| `WireFormat.WrittenBytes` | hl_bridge.c:118-124 | what is written for a text of up to 125 octets is 0x81, its length and the text; for a longer one 0x81, 126, the two length octets and the text |
| `WireFormat.RefusedExact` | hl_bridge.c:129-139 | the reader refuses a buffer if and only if it shows the 64-bit length form or starts with a whole frame whose payload is longer than the capacity |
| `WireFormat.PayloadLimit` | hl_bridge.c:157-163 | the pump refuses a whole frame if and only if its payload is longer than 4095 octets |
| `WsClient.CopyOut` | hl_bridge.c:140-142 | the copy loop yields the unmasked payload |
| `WsClient.Slide` | hl_bridge.c:145 | the overlapping move towards the front keeps the bytes moved |
| `WsClient.Client.ParseBuf` | hl_bridge.c:129-148 | on the client's buffer: return value, payload, terminator and remaining bytes are those of the functional reader in all three outcomes |
| `WsClient.Client.PumpOne` | hl_bridge.c:160-167 | one turn of the pump takes at most one frame and forwards its payload and newline only to a valid, ready engine |
| `WsClient.Client.PumpWs` | hl_bridge.c:157-170 | the pump loop forwards exactly the lines of the functional pump to a ready engine, keeps exactly its rest, and fails exactly when it meets a refused frame |
| `WsClient.Client.OnReadable` | hl_bridge.c:1683-1691 | receiving a chunk and pumping acts on the old bytes followed by the chunk |
| `WsClient.Engine.Forward` | hl_bridge.c:165-166 | payload and newline reach the engine in this order by one send or two |
| `WsClient.WsSendText` | hl_bridge.c:118-125 | 65536 octets or more are refused with nothing sent; otherwise the socket gets what the first send took of the header, then, unless that was an error, what the second took of the data, and the result is the second send's |
| `WsClient.WireComplete` | hl_bridge.c:118-125 | what is on the wire is the text frame if and only if both sends are complete |
| `WsClient.WriteThenRead` | hl_bridge.c:118-148 | what the writer sends for 1 to 4095 octets reads back as that payload, and the bytes behind it are pumped as if it had not been there |
| `ClientTable.BroadcastConserves` | hl_bridge.c:150-178 | each socket of the table is afterwards kept or closed, never both and never twice |
| `ClientTable.FullChunkDropsEveryone` | hl_bridge.c:122-178 | when all sends succeed nobody is dropped if and only if the chunk is below 65536 octets or there is no WebSocket client; at 65536 all of them are |
| `ClientTable.AttemptsReachAll` | hl_bridge.c:173-178 | the sockets tried are those of the WebSocket clients, in table order |
| `ClientTable.TornExact` | hl_bridge.c:118-178 | a client stays with a frame that did not go out whole exactly when neither of its sends was an error and one was short |
| `ClientTable.BroadcastWhole` | hl_bridge.c:118-178 | a broadcast leaves no broken stream if and only if no send to a WebSocket client is short without an error |
| `ClientTable.ShortHeaderStays` | hl_bridge.c:118-178 | one octet of the header and three of 1000 behind it go out, and the client stays |
| `ClientTable.SweepConserves` | hl_bridge.c:1680-1694 | a sweep keeps or closes each client once, and a kept slot still carries its own socket |
| `ClientTable.FullBufferGetsNothing` | hl_bridge.c:1683-1690 | a client whose buffer is full gets no more data: it stays as it is or is closed |
| `TableStreams.StreamIsFed` | hl_bridge.c:1680-1694 | over any run of sweeps, broadcasts and new connections, what goes to the engine for a WebSocket client and what stays in its buffer are what its own chunks yield behind the bytes already there; it is closed if and only if its peer quits, a send to it fails or a frame of the stream is refused |
| `TableStreams.TableReadsFrames` | hl_bridge.c:129-170 | so a client whose stream is whole frames and an incomplete one has exactly their payload lines forwarded and the incomplete frame buffered, however its chunks were cut and whatever happened between them |
| `TableStreams.HttpKeepsBytes` | hl_bridge.c:1491-1513 | in its HTTP phase a client keeps every byte behind those it has and sends nothing; an upgrade starts its stream with the bytes left over |
| `ClientTable.Table.Accept` | hl_bridge.c:1671-1676 | a client is appended with an empty buffer, or its socket closed when the table is full |
| `ClientTable.Table.Close` | hl_bridge.c:150-154 | closing by shifting removes exactly that client and keeps the order of the others |
| `ClientTable.Table.SendOne` | hl_bridge.c:175-176 | a failed attempt removes exactly the client at the index, so the index then names its successor; the attempt is recorded with what went out |
| `ClientTable.Table.VisitOne` | hl_bridge.c:1681-1693 | a visit runs the client's own pump on its slot's bytes and replaces the slot or closes it; no other slot changes |
| `ClientTable.Table.PumpBytes` | hl_bridge.c:1683-1692 | the pump loop of the client object, on a slot's bytes and a chunk, keeps and forwards what the table's specification says |
| `ClientTable.Table.Broadcast` | hl_bridge.c:173-178 | iterating while compacting is a filter: one attempt per WebSocket client present at the start, in order, each with what its two sends put on the wire; what stays is the old table minus exactly those whose attempt failed |
| `ClientTable.Table.Sweep` | hl_bridge.c:1680-1694 | the sweep that deletes under its own index visits every client once with its own event and forwards bytes in table order |
| `EngineLink.GapExact` | hl_bridge.c:1606 | the signed 32-bit tick difference is the true difference if and only if that lies in [-2^31, 2^31) |
| `EngineLink.RunSound` | hl_bridge.c:1517-1659 | over every run and any clock, sockets opened minus closed is 1 exactly when the engine socket is valid, and ready implies valid |
| `EngineLink.ConnectsExactlyWhenDue` | hl_bridge.c:1605-1606 | within half a wrap of the deadline, a pass connects exactly when there is no socket and the backoff has elapsed |
| `EngineLink.NeverEarly` | hl_bridge.c:1517-1659 | over every run on a clock that does not run backwards no reconnect starts before its backoff has elapsed, across any number of wraps |
| `EngineLink.LateClockStaysDown` | hl_bridge.c:1606 | from half a wrap after the deadline to a full one, the pass does not connect |
| `EngineLink.FirstPassConnects` | hl_bridge.c:1605-1606 | the very first pass connects if and only if the tick is below 2^31 |
| `EngineLink.TimeoutExact` | hl_bridge.c:1629-1635 | within half a wrap of the moment it began, a pending connect is given up exactly when it is more than 3000 ms old, also when it began after `now` was read |
| `EngineHistory.LinkExact` | hl_bridge.c:1517-1659 | after any run of passes, from the answers alone: the link is ready if and only if the last connect answered at once, or answered in progress and a later pass within 3000 ms found it writable without an error, and no receive since found it closed; it is pending if and only if every pass since was within the time and not writable; without a socket the next try is due 1000 ms after a connect that failed or was refused, 100 after a timeout, 500 after a close |
| `EngineLink.Engine.Connect` | hl_bridge.c:1517-1533 | a connect attempt opens one socket and leaves it pending, ready, or closed with a deadline |
| `EngineLink.Engine.OnePass` | hl_bridge.c:1605-1659 | one pass over the globals is the link's step and keeps it sound |
| `QueryParam.DecodeInPlace` | hl_bridge.c:278-289 | the two-index loop that overwrites its own input computes the functional percent-decoder of the original slice (section 2.1 of RFC 3986, and plus as space) and touches nothing behind it |
| `Numerals.HexExact` | hl_bridge.c:282-285 | each hexadecimal digit has its place as its value, in either case, and no other character has one |
| `QueryParam.DecodeRules` | hl_bridge.c:278-289 | a plus is a space, a percent sign and two digits in either case are the character with that value, everything else, also an unfinished triplet, stands for itself |
| `QueryParam.LoadRaw` | hl_bridge.c:269-277 | the buffer holds the slice from behind the key to the first delimiter, cut to the capacity, and a NUL |
| `QueryParam.QParam` | hl_bridge.c:268-290 | the parameter is the decoding of the raw slice behind the first `key=`, cut to the buffer; empty if there is none; nothing beyond the capacity changes |
| `QueryParam.DecodeEncode` | hl_bridge.c:278-289 | percent-encode, then decode, is the identity on every octet string |
| `QueryParam.QueryRoundTrip` | hl_bridge.c:268-290 | an encoded value placed in a request comes back unchanged if its encoding fits and nothing in front looks like the key |
| `Json.StringReads` | hl_bridge.c:291-298 | a text escaped by the bridge reads back as a JSON string (section 7 of RFC 8259) if and only if it has no control character |
| `Json.ValueReads` | hl_bridge.c:1237-1242 | the reader undoes the compact rendering of any value if and only if its strings and keys have no control character |
| `ChatLog.JsonEsc` | hl_bridge.c:291-298 | the output is the escape of a prefix of the input, all of it unless the buffer is full; it never leaves the capacity |
| `ChatLog.TextEscapesCompletely` | hl_bridge.c:1230-1236 | a text that fits the route's buffer is always escaped completely |
| `ChatLog.PostIsAppend` | hl_bridge.c:1234-1245 | inserting before the last `]` turns the rendering of a list into that of the list with the message appended if and only if the file and the entry fit their buffers |
| `ChatLog.LogRefinesList` | hl_bridge.c:1229-1245 | after any run of chats that fit, the file is the rendering of the messages in order |
| `ChatLog.LogReads` | hl_bridge.c:1225-1245 | a JSON reader gets back exactly the messages, whatever quotes, backslashes or brackets they contain, if and only if no string holds a control character |
| `ChatLog.LogMeans` | hl_bridge.c:1225-1245 | what the reader gets has the id under `peer` and, for each message in order, the sender under `from`, the text under `text` and the time under `ts` |
| `Sessions.VisitAccounted` | src/headless_server_posix.c:87-109 | one visit adds exactly what recv returned, keeps every byte accounted for, and delivers exactly what it reports |
| `Sessions.FirstHitExact` | src/headless_server_posix.c:101-110 | the poll stops at the first client, in table order, whose visit yields a recognised line |
| `Sessions.RunAccounted` | src/headless_server_posix.c:22-112 | over every run of accept, poll and send, with removals, each client's received bytes are its consumed lines and overflow drops in order, then its own buffer, and its deliveries are exactly its consumed lines that fit the caller's buffer and name mouse or key |
| `Sessions.RefinesSplit` | src/headless_server_posix.c:87-112 | until an overflow reset the lines consumed are the leading fields of the stream split on newline; the buffer splits into the rest |
| `Sessions.DeliveredIsRecognisedStream` | src/headless_server_posix.c:87-112 | a client polled with one buffer size gets delivered exactly the recognised lines among the consumed fields of its own stream |
| `Sessions.CloseDeliversAll` | src/headless_server_posix.c:98-110 | a client that goes has had every complete recognised line delivered if and only if none was buffered before that visit |
| `Sessions.BrokenSendDeliversAll` | src/headless_server_posix.c:79-82 | a client removed by a failed send has had every complete recognised line delivered if and only if none was buffered, even at the front |
| `Sessions.LineLostAtClose` | src/headless_server_posix.c:98-110 | any recognised line behind two empty ones is lost when the client closes right after sending |
| `Recognition.DeliveredExact` | src/headless_server_posix.c:87-97 | a consumed line is delivered if and only if it fits the caller's buffer and says `"mouse"`, then with kind 2, or else `"key"`, then with kind 1, in front of its first NUL |
| `Recognition.PollAnnounces` | src/headless_server_posix.c:94-112 | the kind a poll returns is 2 if and only if the line it returns says `"mouse"`, and 1 if and only if it says `"key"` and not `"mouse"` |
| `Recognition.RunAnnounces` | src/headless_server_posix.c:64-112 | over every run, every message any client got has the kind its text says, and a line that says neither word is delivered to nobody |
| `Recognition.PollRemovesExact` | src/headless_server_posix.c:101-110 | a client that is visited without a recognised line goes if and only if its recv reported the end of the stream or a hard error |
| `Recognition.SendRemovesExact` | src/headless_server_posix.c:79-82 | a frame removes exactly the clients whose send is broken |
| `Recognition.AcceptExact` | src/headless_server_posix.c:64-72 | new clients join in order, with empty accounts, until there are eight |
| `HeadlessServer.Server.Remove` | src/headless_server_posix.c:22-31 | shifting three parallel arrays removes exactly one client; every other keeps its socket paired with its buffer |
| `HeadlessServer.Server.Store` | src/headless_server_posix.c:105-107 | a chunk that would fill the buffer replaces its content, any other is appended; no other client's buffer changes |
| `HeadlessServer.Server.ExtractLine` | src/headless_server_posix.c:87-97 | one line leaves the buffer, or nothing; the caller's buffer spells the line when a kind is returned |
| `HeadlessServer.Server.Serve` | src/headless_server_posix.c:101-110 | the loop body on one client is one visit of that client; when it goes, the others keep their order and buffers |
| `HeadlessServer.Server.PollInput` | src/headless_server_posix.c:98-112 | the poll over arrays and shifting indices has the result, the sessions and the last client index of the functional poll |
| `HeadlessServer.Server.SendFrame` | src/headless_server_posix.c:74-84 | exactly the clients with a hard error go, the others stay in order with their own buffers |
| `HeadlessServer.Server.Accept` | src/headless_server_posix.c:64-72 | pending connections join with empty accounts until eight clients are there |
| `ShellQuote.IsoShellQuote` | src/isolate_mod.c:267-283 | succeeds if and only if the escaped length plus 3 is within the capacity; then the buffer holds the quoted word and a NUL; nothing at or beyond the capacity is ever written |
| `ShellQuote.PutPiece` | src/isolate_mod.c:272-278 | a character's piece is written in full or refused, exactly by whether it fits with the closing bytes |
| `ShellQuote.QuotedReads` | src/isolate_mod.c:267-283 | the shell reads a quoted text as exactly that text and continues the word behind it (XCU sections 2.2.1, 2.2.2 and 2.3 of POSIX.1-2017) |
| `ShellQuote.LineReads` | src/isolate_mod.c:267-283 | tokenizing any nonempty list of quoted words joined by spaces gives back the list |
| `ShellQuote.CommandReads` | src/isolate_mod.c:301-303 | the composed command tokenizes to exactly exe, --safe, --low-config, --time-limit, N, script |
| `ShellQuote.CommandFits` | src/isolate_mod.c:289-303 | whatever passes both quoters also fits the command buffer, for every timeout |
| `ShellQuote.SecondsExact` | src/isolate_mod.c:289-301 | the time limit is the least number of seconds longer than the timeout, which is at least 100 ms |
| `OutputCapture.CaptureConserves` | src/isolate_mod.c:307-315 | over every run of the loop, what was read followed by what is left in the pipe is what the child wrote, and the text is the clip of what was read |
| `OutputCapture.CaptureComplete` | src/isolate_mod.c:307-315 | the captured text is a prefix of the output within 65536 bytes, and all of it if and only if the output fits and the loop keeps up: nothing is written behind its last read, and no stretch of turns up to the last brings more than 4096 bytes a turn |
| `OutputCapture.FastChildIsCut` | src/isolate_mod.c:307-315 | a child gone by the first wait leaves at most 4096 bytes of whatever it wrote |
| `OutputCapture.FastChildLoses` | src/isolate_mod.c:307-315 | of 5000 bytes written at once by a child that exits, 4096 are captured |
| `OutputCapture.TimedOutExact` | src/isolate_mod.c:307-315 | a run is reported as timed out if and only if the loop ends with a late turn that does not find the child gone |
| `OutputCapture.CaptureLoop` | src/isolate_mod.c:307-315 | the loop over the zeroed buffer computes that capture and leaves it terminated |
| `OutputCapture.ReaderExact` | src/isolate_mod.c:33-53 | for every sequence of reads: the output up to 65535 bytes, except when the first read fills the chunk, then 4095 bytes |
| `OutputCapture.IsoCtx.ReadThread` | src/isolate_mod.c:33-53 | the reader with its reallocated buffer collects exactly that text |
| `DesugarScan.RewriteTurn` | src/desugar_mod.c:82-121 | a rewriting turn replaces characters that open no string and no comment by others that open none |
| `DesugarScan.TailIsTrimmed` | src/desugar_mod.c:132-140 | the trimmed line is the output without exactly the last code semicolon |
| `DesugarScan.Simulate` | src/desugar_mod.c:49-131 | simulation over the whole loop: the rest that will be written scans like the rest that will be read if and only if the scan meets no code-mode `//[`; the block mode at the end is the scanner's |
| `DesugarScan.ProtectedRegionsKept` | src/desugar_mod.c:26-147 | for a fitting line without `unless` and `say@`, rescanning the written line gives the same string, line-comment and block-comment bytes as the source if and only if no code-mode `//[` is read; the block state handed on is the scanner's |
| `DesugarScan.FileKept` | src/desugar_mod.c:149-168 | over whole files, block comments across lines included, the protected bytes are kept |
| `DesugarFull.FullExact` | src/desugar_mod.c:49-131 | the output takes the last cell if and only if some turn stands two cells before the end, in front of `#[` outside a block or of a code semicolon that closes a `say@` call |
| `DesugarFull.TerminatorExact` | src/desugar_mod.c:26-147 | for every line, the terminator is written outside the buffer if and only if a turn stands two cells before the end in front of `#[`, or the loop stops one cell before the end in an open `say@` call with a space written last |
| `DesugarFull.FullLinesAtCodeSize` | src/desugar_mod.c:19-160 | two lines that one read returns, `&&`, letters and `#[`, and `say@a`, letters and a space, whose terminators go to the cell behind the 16384-byte buffer |
| `DesugarBuffer.EmitTo` | src/desugar_mod.c:21-23 | appends what fits below the capacity minus one |
| `DesugarBuffer.Prologue` | src/desugar_mod.c:35-48 | the leading `unless` is rewritten and the loop is started behind it |
| `DesugarBuffer.ExpandIncrement` | src/desugar_mod.c:99-121 | taking the word back and writing it again leaves the output as it was, followed by the expansion |
| `DesugarBuffer.CopyLine` | src/desugar_mod.c:64 | a comment is copied up to the line end or until the output is full |
| `DesugarBuffer.OneTurn` | src/desugar_mod.c:49-131 | one turn on the fixed buffer, in every mode and branch, is one step of the rewriter and writes no cell outside it |
| `DesugarBuffer.RunLoop` | src/desugar_mod.c:35-131 | prologue and loop on a buffer of exactly the capacity compute the functional loop and never leave the buffer |
| `DesugarBuffer.Trim` | src/desugar_mod.c:132-140 | the semicolon is removed in place if and only if just space follows it |
| `DesugarBuffer.CloseSay` | src/desugar_mod.c:141-145 | with room left the closing parenthesis goes in front of the trailing space; without, it replaces the first trailing space; the length is counted up whenever it is written |
| `DesugarBuffer.DesugarLineTo` | src/desugar_mod.c:26-147 | on a buffer of exactly the capacity, every line whose terminator stays inside is written as the functional rewriter says, cut or not, and the block state is handed on |
| `DesugarRules.RulesApplied` | src/desugar_mod.c:26-147 | a line of words, characters, strings, block comments, semicolons and sugar tokens, ended by space, a semicolon or a comment, is rewritten token by token: `&&` to `and`, double bars to `or`, `w++` to `w = w + 1`, `w--` to `w = w - 1`, `print` to `say`, `fn` to `func`, a double slash to `#`; a semicolon at the end goes and everything else stays |
| `DesugarRules.RuleBetween` | src/desugar_mod.c:82-97 | each of the four replaced words between arbitrary plain code, with that code unchanged |
| `DesugarRules.WordIncremented` | src/desugar_mod.c:98-121 | for every word of fewer than 250 characters that fits, `w++` becomes `w = w + 1` and `w--` becomes `w = w - 1` |
| `DesugarRules.UnlessRewritten` | src/desugar_mod.c:35-48 | `unless c {` in front of any tokens becomes `if !( c ) {`, with the tokens rewritten |
| `DesugarRules.SayRewritten` | src/desugar_mod.c:75-80 | `say@t x` becomes `say_target("t", x)`, closed in front of a trailing semicolon or space, but behind a comment |
| `DesugarRules.BlockContinues` | src/desugar_mod.c:49-54 | a block comment carried over is copied up to its bracket, and the tokens behind it are rewritten |
| `DesugarRules.BlockStaysOpen` | src/desugar_mod.c:49-55 | a line inside a block comment, or one that opens it, is carried to the next line |
| `DesugarRules.OperandsMerge` | src/desugar_mod.c:96-97 | `a&&b` becomes `aandb` |
| `CrpSocket.StepInv` | tools/crp_ws_client.js:4-21 | every event keeps the invariant |
| `CrpSocket.FifoHandOff` | tools/crp_ws_client.js:4-21 | in every interleaving of connect, open, error, close-event, send and close: what any socket was handed since the last close, then the queue, is what was passed to send, in order and once; the queue is empty while the socket can send; one connect loop makes at most retries + 1 sockets |
| `CrpSocket.ConnectStartsIfIdle` | tools/crp_ws_client.js:4 | connect makes a socket in a new generation if and only if no loop is running; else it changes nothing |
| `CrpSocket.ClosedWhilePending` | tools/crp_ws_client.js:4-21 | after a close, as long as the old loop is pending, no sequence of events makes a socket or reopens the client |
| `CrpSocket.ClosedStaysClosed` | tools/crp_ws_client.js:4-21 | after a close, and until connect is called again, no event makes a socket |
| `CrpSocket.GivesUpExact` | tools/crp_ws_client.js:5-18 | in every run, a loop that learns of a failed attempt gives up if and only if it has made retries + 1 sockets |
| `CrpSocket.AllAttemptsFail` | tools/crp_ws_client.js:4-19 | a loop whose attempts all fail makes exactly retries + 1 sockets and gives up |
| `CrpSocket.ConnectAfterCloseIsLost` | tools/crp_ws_client.js:4-21 | closed in its backoff and told to connect again, the client ends closed, idle and without a socket |
| `CrpSocket.CloseEventReconnects` | tools/crp_ws_client.js:14 | a close event starts a new loop, with all its retries, if and only if none is running, the client is not closed and the socket is of the current generation, given up or not |
| `CrpSocket.GivenUpLoopRestarts` | tools/crp_ws_client.js:4-19 | with no retries, one connect gives up and its close event makes a second socket |
| `CrpSocket.CrpWebSocketClient.Connect` | tools/crp_ws_client.js:4-10 | a second connect during a running loop changes nothing; otherwise one loop starts in a new generation |
| `CrpSocket.CrpWebSocketClient.TryOnce` | tools/crp_ws_client.js:7-10 | the loop makes one more socket, or ends when closed or overtaken by a newer generation |
| `CrpSocket.CrpWebSocketClient.OnOpenEvent` | tools/crp_ws_client.js:12 | the queue is handed over oldest first until it is empty or the socket leaves the open state |
| `CrpSocket.CrpWebSocketClient.OnCloseEvent` | tools/crp_ws_client.js:14 | only the current socket is forgotten, and only the current generation reconnects |
| `CrpSocket.CrpWebSocketClient.ResumeLoop` | tools/crp_ws_client.js:5-19 | what follows the loop's await: finish, retry or give up |
| `CrpSocket.CrpWebSocketClient.SendData` | tools/crp_ws_client.js:20 | a value is handed to an open socket or queued behind the others |
| `CrpSocket.CrpWebSocketClient.CloseClient` | tools/crp_ws_client.js:21 | close empties the queue, ends the generation and starts a new account |
| `PackageCache.EvictionStops` | tools/crp_client.js:69 | eviction drops the fewest oldest entries after which the counter leaves room or the map is empty |
| `PackageCache.MemoryBound` | tools/crp_client.js:55-70 | over every interleaving of arrivals, deletes and clears, the bytes really held never exceed the maximum, and the counter exceeds them by exactly the leaked bytes |
| `PackageCache.StoredIsCached` | tools/crp_client.js:69 | a package that fits the cache is in it after its download |
| `PackageCache.LeakEmptiesCache` | tools/crp_client.js:60-69 | once leak and new package exceed the maximum, only the new package remains |
| `PackageCache.DropExact` | tools/crp_client.js:60-69 | an entry survives a download if and only if it fits together with everything younger, the new package and the leak |
| `PackageCache.WasteExact` | tools/crp_client.js:60-69 | a download throws out an entry that could stay if and only if for some entry it, everything younger and the new package fit, the old version of that package taken off, and with that version and the leak on top they do not |
| `PackageCache.LeakWastes` | tools/crp_client.js:60-69 | a run from the empty cache after which 5 bytes throw out 2 although 7 fit into 10 |
| `PackageCache.OverwriteWastes` | tools/crp_client.js:61-69 | two overlapping downloads of one package: the second throws out 3 bytes although 8 fit into 10, with no leak before |
| `PackageCache.NoLeakNoWaste` | tools/crp_client.js:69 | without a leak waste comes only from the old version of the package itself: a package that is not cached yet throws out nothing that could stay |
| `PackageCache.CrpClient.EvictFor` | tools/crp_client.js:69 | the while loop removes exactly the entries the specification names, and their sizes from the counter |
| `PackageCache.CrpClient.Arrived` | tools/crp_client.js:69 | storing after the last await acts on the state it finds then and keeps the invariant |
| `PackageCache.CrpClient.DeletePackage` | tools/crp_client.js:60 | exactly the named package is no longer cached; what is held falls by its size and the counter does not; the invariant holds |
| `PackageCache.CrpClient.ClearPackageCache` | tools/crp_client.js:58 | nothing is cached and the counter is again exactly what is held, whatever was leaked before |
| `FrozenDelta.DumpSize` | tools/check_frozen_identity_delta.py:53-54 | bytes and line breaks computed on the tree are those of the indented dump itself |
| `FrozenDelta.NestingAddsBreaks` | tools/check_frozen_identity_delta.py:202-206 | nesting any value one level deeper adds exactly its number of lines minus one |
| `FrozenRoot.UnderRootExact` | tools/check_frozen_identity_delta.py:68-88 | the counted strings are exactly those of the tree that are the root, or the root, a slash and anything, in serialization order |
| `FrozenRoot.RegrowExact` | tools/check_frozen_identity_delta.py:101-124 | renaming turns the old root into the new one, the old root, a slash and `t` into the new root, a slash and `t`, and leaves every other string, the keys, the atoms and the shape as they are |
| `FrozenDelta.RegrowMoves` | tools/check_frozen_identity_delta.py:68-120 | for every tree and every pair of roots, renaming moves the dump by the number of strings under the root times the difference of the roots' dumped sizes |
| `FrozenDelta.DeltaIsDumpDifference` | tools/check_frozen_identity_delta.py:57-65 | the delta of the tree computation is the length difference of the two dumps |
| `FrozenDelta.SlopeTheorem` | tools/check_frozen_identity_delta.py:152-171 | for every product object the delta moves by slope times change of the root's dumped size |
| `FrozenDelta.PredictionExact` | tools/check_frozen_identity_delta.py:163-171 | the check's prediction, which counts characters, holds at a root length if and only if the slope is 0 or the recorded root is ASCII without escapes |
| `FrozenDelta.MeasureSlope` | tools/check_frozen_identity_delta.py:160-169 | the loop over the root lengths reports ok exactly then |
| `FrozenParts.PartsExact` | tools/check_frozen_identity_delta.py:173-192 | the three parts sum to the expected slope if and only if every path under the root in `frozen` and `four_piece` stands directly in an entry of `frozen` or in `pre` or `post`; what is missing is the number of the others |
| `FrozenDelta.ClosureTheorem` | tools/check_frozen_identity_delta.py:194-217 | for every product with both keys the nine terms sum to the delta |
| `FrozenDelta.ProductKeys` | tools/check_frozen_identity_delta.py:198-199 | the key texts and the placeholder of the closure are the literals the script measures |
| `ChildProc.RunConserved` | src/child_proc.c:9-17 | in every interleaving of the locked sections each handle ever opened is in exactly one place: table, in flight, or closed once; a slot is in use exactly when its process is non-null |
| `ChildProc.KillTagExact` | src/child_proc.c:15 | after kill_tag no entry's tag starts with the prefix, and every other entry is untouched |
| `ChildProc.PruneExact` | src/child_proc.c:17 | after a prune exactly the entries whose process is alive remain, untouched |
| `ChildProc.RegisterExact` | src/child_proc.c:12 | a child takes the first free slot and nothing is closed; only a full table gives up slot 0 and closes its process; the entry holds at most 511 characters of the command line and 63 of the tag |
| `ChildProc.KillExact` | src/child_proc.c:14 | a kill clears the first entry in use with the pid and closes its process, and does nothing for pid 0 or without one |
| `ChildProc.OwnTagReaches` | src/child_proc.c:12-15 | an entry is reached by its own tag if and only if the tag has fewer than 64 characters |
| `ChildProc.ShutdownClosesAll` | src/child_proc.c:10-15 | after a quiescent shutdown every handle has been closed exactly once |
| `ChildProc.FullTableEvicts` | src/child_proc.c:12 | registering closes another handle if and only if all 64 slots are in use |
| `ChildProc.Table.ClearWhere` | src/child_proc.c:15-17 | the clearing loop yields the swept table, closes exactly the cleared handles in slot order, and counts the successful kills |
| `ChildProc.Table.Register` | src/child_proc.c:12 | the first free slot is taken, slot 0 if there is none; the entry holds handle, pid, start time and the command line and tag cut to their sizes |
| `ChildProc.Table.KillPid` | src/child_proc.c:14 | the first entry with the pid goes; the result says whether its kill succeeded |
| `ArgSplice.SpliceOptions` | src/main.c:1025-1045 | the loop terminates and leaves in the array exactly what the functional splice leaves |
| `ArgSplice.CommandAnywhere` | src/main.c:1025-1045 | for well-formed options before and after the command and a rest that starts with none, argv ends as program, command, rest, and the settings are those of all options in order |
| `ArgSplice.FlagSets` | src/main.c:1035-1041 | each of the eight flag words sets its own setting and no other |
| `ArgSplice.ValueSets` | src/main.c:1033-1034 | the two options with a value set theirs to the next word, and stay in argv when there is none |
| `ArgSplice.OptionsMayMove` | src/main.c:1025-1045 | moving every option behind the command changes nothing |
| `ArgSplice.NothingLeft` | src/main.c:1025-1045 | for every command line, what is left does not start with a recognised option |
| `CaseMembers.ExtractExact` | src/lint_mod.c:40-52 | the bounded extractor returns every literal of a line if and only if there are at most `cap` of them and none is above 95 characters |
| `CaseMembers.ExtractQuoted` | src/lint_mod.c:40-52 | the two nested loops compute that extraction |
| `CaseMembers.CoverIsUnion` | src/lint_mod.c:123-128 | with at most 32 different members, adding without duplicates is set union |
| `CaseLint.BodyCovers` | src/lint_mod.c:318-394 | over a quiet body the covered members are exactly the strings quoted on branch lines |
| `CaseLint.MissingReportExact` | src/lint_mod.c:275-482 | a non-try case without wildcard, `in` branch or nested case, and with at most 32 different quoted strings, ends with one report, exactly when a member is quoted on no branch line, listing exactly those members in type order |
| `CaseLint.ReportInFull` | src/lint_mod.c:179-195 | a report that fits the log line is written out in full |
| `CaseEnds.OneLineBranchEndsCase` | src/lint_mod.c:395-495 | a branch line with a closing brace ends the case; the report is then the true one, over the branch lines up to the real end of the case, if and only if every member that a later branch line covers is quoted up to that line too |
| `CaseEnds.FalseWarning` | src/lint_mod.c:318-482 | a case that quotes both members of its type on branch lines and is reported to miss one |
| `CaseEnds.FalseWarningText` | src/lint_mod.c:469-482 | the text of that warning, with the line, the type's name and the member |
| `CaseEnds.WildcardReportsNothing` | src/lint_mod.c:318-482 | the line that ends a case with a `_:` or `else:` branch logs only what it would log as a branch |
| `CaseEnds.FindTypeExact` | src/lint_mod.c:54-57 | the type an `in` branch finds is the first registered with that name |
| `CaseEnds.NestedCaseSilences` | src/lint_mod.c:275-495 | a case in a branch of an open case replaces it, so the outer one never reports; the log is the right one if and only if the outer case's branch lines cover its whole type |
| `CaseEnds.MissingWarning` | src/lint_mod.c:275-482 | a case that quotes one of two members, with a nested case in that branch: nothing is logged |
| `CaseLint.MembershipCompletes` | src/lint_mod.c:364-383 | a recognised `in T:` branch with room for the members of T leaves nothing missing |
| `CaseLinter.Linter.AddMembers` | src/lint_mod.c:384-393 | the covering loops on the fixed array compute the bounded union |
| `CaseLinter.Linter.Branch` | src/lint_mod.c:318-394 | one branch line of a non-try case on the linter's variables is one branch of the state machine |
| `CaseLinter.Linter.MissingText` | src/lint_mod.c:470-476 | appending item by item into the fixed buffer yields the cut listing of exactly the uncovered members |
| `CaseLinter.Linter.Close` | src/lint_mod.c:395-495 | the end of a non-try case adds exactly the reports of the state machine and resets the variables |
| `CaseLinter.Linter.ScanLine` | src/lint_mod.c:275-495 | for a line outside `case try`, one line on the linter's variables is one step of the coverage state machine |
| `CaseLinter.Linter.ScanLines` | src/lint_mod.c:242-560 | the coverage of a file without `case try` is the run of that machine |

## Left out

- ClientTable.Table: client slots are values in an array, copied as the C code copies structs; what the HTTP phase of a connection decides is given per event.
- TableStreams.StreamIsFed: the engine is taken as connected; while it is not, the code reads the frames and sends nothing (`WsClient.Client.PumpOne`).
- ClientTable.TornExact: -1 is taken as the only negative result of a send.
- WsClient.Engine: the results of sends to the engine are ignored by the code, so the log holds what was handed to send; partial sends are not distinguished.
- EngineLink.Engine: engine data, select readiness and log output are reduced to the outcomes of connect, getsockopt and recv, given per pass.
- QueryParam.QParam: the 128-byte pattern buffer is taken to hold the key; the source passes short literals only.
- Json.ValueReads: the reader accepts the compact form the bridge writes, without white space, fractions, exponents or surrogate pairs.
- ChatLog.LogReads: the peer's profile text, directories and the P2P forwarding are not part of this model; a file edited by other routes is not considered.
- Sessions.RunAccounted: the recv results are given per client, the listener's generation counter, the enable flag and shutdown are not modelled, and the frame text that is sent is not (it is cut at 131070 bytes).
- HeadlessServer.Server.CopyLine: the caller's buffer is specified only when a kind is returned; the code also leaves unrecognised lines there.
- ShellQuote.CommandReads: the tokenizer covers words, blanks, single quotes and backslashes, which is all the quoter emits; expansion of other characters outside quotes is refused rather than modelled.
- OutputCapture.IsoCtx.Grow: realloc always succeeds; the job object, the timeouts of the Windows waits and the exit code are not modelled.
- DesugarBuffer.DesugarLineTo: a line whose terminator leaves the buffer is excluded, since the code's own write is then undefined; `DesugarFull.TerminatorExact` says exactly which lines these are.
- DesugarRules.RulesApplied: a string that is still open at the end of its line is not among the tokens; `DesugarScan.ProtectedRegionsKept` covers it.
- DesugarScan.ProtectedRegionsKept: lines with a leading `unless` or with `say@` are modelled in the rewriter but not covered by the theorem, since their expansion is meant to change the text.
- Desugar.WordChar: letters and digits are those of the C locale.
- DesugarScan.FileKept: the cutting of long lines by fgets is not modelled; a file is a list of lines.
- CrpSocket.FifoHandOff: a socket's ready state only moves forward, a throwing WebSocket constructor and the message event are not modelled, and backoff times are any times.
- PackageCache.CrpClient.Arrived: the early return for a cached package, the hash and size checks and the network are in front of this step and do not change the cache.
- FrozenDelta.RegrowMoves: the in-place rewriting of the tree is modelled as a function to a new tree; floats and dictionaries with non-string keys are not.
- FrozenDelta.MeasureSlope: the reading of the root from the product and the text of the report are not modelled.
- FrozenParts.PartsExact: a group that is not made of objects stops the script with an error and is not modelled.
- ChildProc.Table.Register: the spawning of the process, its pid, the clock and the listing are outside the model.
- ArgSplice.SpliceOptions: the loop for leading flags in front of it and the value of atoi are left out.
- CaseLint.MissingReportExact: the cleaned text of a line and the type its subject is declared with are given with the line.
- CaseLinter.Linter.Branch: the coverage of `case try` branches is not modelled, as the missing-member report for string types does not use it.
- CaseLinter.Linter.Close: the reports that end a `case try` are not modelled.
- CaseLinter.Linter.ScanLine: types are registered before the scan, and the other rules, which share the 64 lines of the log, write nothing.
- CaseLinter.Linter.ScanLines: as for one line.
- The HTTP routing chain, embedded pages, room spawning, peer lists and friend deletion of the bridge.
- The Windows headless server, whose send loop moves sockets without their buffers.
- Hashes, the virtual machine, parser, compiler, bytecode and archive extraction.
- The linter's performance hints and the doc-sweep scripts, one branch or one regular expression each.
