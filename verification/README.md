# Verified model of smap

smap answers map queries over sockets: a client sends a line `map key`, a server looks the key up and replies with a
line. This project models the four parts of it that keep state, in Dafny, and proves what they promise. The command
`dafny verify dfyconfig.toml` checks all of it.

- **The sockmap wire protocol** (`lib/sockmapstr.c`): lines travel as `<len>:<payload>,`, the form of netstrings
  (section 2 of D. J. Bernstein's "Netstrings") except that length 0 prints as no digits. `Decimal` has the number
  arithmetic, `Sockmap` the writer and the resumable reader over a wire that fragments its bytes at will, `Channels`
  that wire.
- **The buffered stream layer** (`lib/stream.c`): `Streams` is the stream object with its buffer, cursor, level and
  flags, over a transport (`Transports`) that may transfer any non-empty part of a request. `StreamRuns` has whole
  runs of writes and flushes, `PairedStreams` the two-way sockmap stream and the line reader that works on either
  kind. `LineText` has the facts about lines. `Session` puts client and server together, from the printed query to
  `dispatch_query` and back.
- **The server manager** (`src/srvman.c`): `ServerManager` has the doubly linked list of servers, their pid tables,
  the counters and the event loop. The kernel is modelled by nondeterministic steps: fork returns a fresh pid, any
  children exit at the start of a round, while select or pause waits, between two waits of a cleanup and after the last
  one (an exit during the pass over the servers shows at the start of the next round), select returns any subset of what
  it polls, accept and the access lists may fail. An exit makes a cleanup due, and pause returns after a signal.
- **The word splitter and the quoters** (`lib/wordsplit.c`): `Quoting` has the C-style quoter and the two unquoters on
  arrays, `Splitting` says what words a text has, `WordSplit` is the algorithm on the mutable node list and is proved
  to return those words. `Printing` and `PlainSplitting` have the theorems about printing and parsing back, and about
  delimiters; `Rereading` runs the algorithm on printed words.

## How to read it

Operations that update fields in C are methods of classes with the same fields. Their contracts tie the new state to a
function of the old one, and lemmas state what is promised about those functions. `Errno` gives the error codes. One of
them, `Overrun`, is not in C: it marks undefined behaviour, after which nothing that is stated applies to the C code.
The frame reader comes to it where the subtraction of the kept bytes wraps around (`lib/sockmapstr.c:300`): when it has
received more bytes behind a prefix that ends within its number buffer than the frame needs, and when it is read again
after an overlong prefix, whose 19 kept bytes it then takes for the body of an empty frame. The copy before it leaves
the caller's memory only if more bytes are kept than that has room for. The frame writer comes to it when it is given
more than 10^19 bytes. `Sockmap.InputDevice.Read` and `Transports.Transport.Write` say when; a session never does:
`Session.RunSession` has no such failure, and a reader in lockstep delivers its line or asks for room
(`Transports.ReadLine`).

Memory past the end of a text reads as NUL in the unquoters (`Quoting.Peek`), as it does behind a C string.

Ghost state used by the invariants: `Manager.orphaned` counts the children of freed servers, because freeing a server
leaves the global counter alone, and `Manager.lostPids` has the pids of those that have not been waited for, so that
every process is in exactly one pid table or lost; `Manager.peak` is the largest value of that counter;
`Manager.polls` records what each select polled and what it should have polled, `Manager.calls` what the kernel, the
idle hook, the access lists and the handlers have been asked for; `Manager.freed` has the descriptors of servers freed
since the set was computed; `OutputDevice.frames` records the payloads written; `Transport.failed` says that a write
has failed other than by `Overrun`, `Transport.faults` counts the reads that have failed, `Transport.lost` says that a
frame reader has dropped the bytes received with an invalid digit, or has run past its memory, so that it is not known
where on the wire it is; `Stream.phantom` counts the bytes that failed fills have added to `level`. A ghost result
`failed` says that a fill has failed during a read that may still return code 0.

## Where the code and its promise differ

- A flush of a full-buffered stream without `all` sends the buffer and keeps it. `Streams.Stream.FlushBufferFull`
  proves that bytes are conserved if and only if `all` is set or nothing is buffered. Writes are therefore proved for
  line-buffered streams, the only kind that smap writes to.
- A fill of a full-buffered stream adds the count that the read reports to `level` whether the read has succeeded or not
  (`lib/stream.c:97`), and the count of a failed read is whatever its variable holds. `Streams.Stream.FillTry` proves
  that nothing is lost or invented and `bytes_in` is right if and only if the read has succeeded or reported no bytes;
  `Streams.Stream.Read` and `StreamRuns.RunReads` carry this over whole runs. A frame without its final comma is the
  sure case: its body is handed out with code 0 by the read that follows the failure (`StreamRuns.ReadSpoiled`, and
  `StreamRuns.SpoiledExample` for the wire `1:aX`). Successful reads, line mode, and readers in lockstep are not
  affected. A count beyond the room that the read had would make `level` pass the buffer; the model lets an
  uninitialised count be anything up to that room.
- The expanding return of the flush (`lib/stream.c:231-232`) skips the compaction. `Streams.Stream.FrontAfterFlush`
  gives the exact condition under which the buffered bytes are left where the next write expects them, and
  `StreamRuns.GapExample` a stream on which they are not. `Streams.NoGap` says which data never
  lead there: those during which the buffer, whenever it fills up, ends with a newline or has none. That is what
  `Streams.Stream.WriteLines` asks for when the buffer is expandable; a newline only at the end always meets it.
- The line reader compares a signed `char` with the delimiter: `PairedStreams.GetDelim` proves that it stops at the
  first delimiter if and only if that is below 128 or there is none before the last byte of the data.
- `%XX` codes are not read back: `Quoting.HexRoundTrip` says exactly which strings survive `quote_hex` 1.
- The digit test of the unquoter accepts NUL, so a numeric escape cut short by the end of a string takes the NUL for a
  digit (`Quoting.CutShortMisread`). `Quoting.IndependentExactly` says for which texts the result does not depend on
  what follows them in memory. What the quoter writes is always such a text (`Quoting.QuotedIsComplete`).
- Unquoting in a buffer of the text's length plus one can need one byte more: `Quoting.CUnquoteFits` gives the exact
  condition, and `WordSplit.RoomExactly` the one for a whole run of the splitter, which is what the splitter asks for.
  The NUL behind a C string always meets it.
- The result of a cleanup replaces a pending request for a new descriptor set (`src/srvman.c:609-612`).
  `ServerManager.Manager.Refresh` says exactly when a request is lost. If it was made because a server had been closed
  and freed, the closed descriptor is polled again (`ServerManager.StaleExample`), select fails, and the loop ends for
  all servers. `ServerManager.Manager.Run` proves that a computed set has descriptors of attached servers only exactly
  when no server was freed since. It never misses a server that could accept.
- The same replacement on the first round leaves the set uncomputed, and the first select polls whatever it holds:
  `ServerManager.UncomputedExample`. A run that starts without children and without a due cleanup always computes it
  first.
- The global limit of children can be exceeded by up to one less than the number of servers, because one pass adds a
  child for each server after a single check: `ServerManager.LimitExample` comes to that bound for every limit and every
  number of servers. With one server the limit is kept.
- The children of a freed server stay in the global counter for good. Once they alone reach the global limit, no select
  is made again, however many rounds follow, although no child may be left (`ServerManager.Manager.Round`, `Run` and
  `OnlyOrphans`).
- A word that closes a quote which is also a delimiter ends at that quote, and a segment that ends before it begins is
  added (`lib/wordsplit.c:1036-1051`). `Splitting.SafeExactly` proves that a scan which does not fail adds such a
  segment if and only if some word does that, and `Splitting.TornExample` shows one. The splitter is asked for texts
  whose scan fails or has none; if no quote is a delimiter every text is such.

## Model

| member | source | states |
|---|---|---|
| Decimal.FormatLen | lib/sockmapstr.c:49-61 | for every number below 10^19 the digits end up right-aligned in the buffer before a NUL; the index never leaves the buffer and the rest of it is untouched |
| Decimal.ValueOfDigits | lib/sockmapstr.c:272-284 | the reader's digit arithmetic recovers every length that the writer prints |
| Decimal.NoLeadingZero | lib/sockmapstr.c:56-59 | no leading zero, and no digits at all exactly for length 0 |
| Decimal.DigitCount | lib/sockmapstr.c:51-60 | at most k digits exactly for numbers below 10^k, which is what bounds the buffer index |
| Decimal.NoWrap | lib/sockmapstr.c:272-284 | the reader's size_t multiplication and addition cannot wrap for a prefix that fits its buffer |
| Sockmap.ParsePrefix | lib/sockmapstr.c:210-242 | bounds of an accepted prefix: the body starts within the number buffer and its size has at most 19 digits |
| Sockmap.PrefixDecided | lib/sockmapstr.c:263-285 | once a colon has been received the verdict on the prefix no longer depends on later bytes |
| Sockmap.FrameParses | lib/sockmapstr.c:63-102 | every frame, whatever follows it, parses as its own length and payload, is complete, and is followed by exactly the rest; this includes the empty payload |
| Sockmap.InputDevice.ReadPayloadLength | lib/sockmapstr.c:210-242 | under every fragmentation: received bytes are kept, the colon is the first one, EOF and an overlong prefix are told apart; nlen stays 0 on EOF |
| Sockmap.InputDevice.ParseDigits | lib/sockmapstr.c:272-284 | accepts exactly prefixes of digits and computes their value although it works modulo 2^64 |
| Sockmap.InputDevice.LoadPrefix | lib/sockmapstr.c:257-285 | a kept prefix and a freshly received one lead to the same verdict on the unread bytes; nothing unread is lost, except what was received with an invalid digit; an overlong prefix leaves a full number buffer that the next read takes for length 0 |
| Sockmap.InputDevice.FetchBody | lib/sockmapstr.c:295-318 | kept bytes then wire bytes are delivered in order under every fragmentation; EIO exactly when the wire ends early; Overrun exactly when more bytes are kept than the frame needs, which is when the subtraction of the kept bytes wraps around |
| Sockmap.InputDevice.Deliver | lib/sockmapstr.c:295-336 | after the body the reader is at a frame boundary with nlen, cp and reqsz 0; the comma becomes a newline, any other byte is a protocol error with the count set; after EIO the prefix and what was received with it are kept; Overrun exactly when the subtraction of the kept bytes wraps around |
| Sockmap.InputDevice.Read | lib/sockmapstr.c:246-336 | the complete outcome of a read as a function of the unread bytes and the room, independent of how the wire is fragmented, including the state and the count variable that every failure leaves behind; ERANGE consumes nothing and reports the needed size; Overrun needs bytes of a further frame and a first frame that ends within the number buffer, or an overlong prefix met by an earlier read |
| Sockmap.InputDevice.ReadAgain | lib/sockmapstr.c:288-293 | after any number of reads with too little room, a read with enough room gives the bytes, the rest of the wire and the state of a single such read |
| Sockmap.OutputDevice.Write | lib/sockmapstr.c:63-102 | the frame buffer holds exactly digits, colon, payload, comma and NUL, and on success exactly that frame is on the wire; a partial write is EIO and leaves a proper part of the frame there |
| Sockmap.OutputDevice.FillBuffer | lib/sockmapstr.c:69-91 | n+3+len bytes suffice for the frame and its NUL, and the buffer contains just them at its front |
| Transports.FrameIsLine | lib/sockmapstr.c:246-336 | a frame on the wire is one complete line for the reader |
| Transports.ReadLine | lib/sockmapstr.c:246-336 | whatever is on the wire: a line delivered is the next of its lines; a failed read takes none, unless the reader loses its place (an invalid digit, Overrun); a whole frame without its comma fails with its body stored and counted; in lockstep the line is delivered whole or room is asked for |
| Transports.TookThen | lib/stream.c:811-848 | deliveries of consecutive operations add up, in order |
| Transports.OnRawWire | lib/stream.c:547-599 | on a plain transport the delivered bytes are the concatenation of the calls |
| Transports.Transport.Read | lib/sockmapstr.c:246-336 | a successful read delivers the next of what was pending; a failed one takes nothing of it, unless a frame reader loses its place, but may report any count within its room; room is asked for with the size of the frame |
| Transports.Transport.Write | lib/sockmapstr.c:63-102 | a plain transport takes a non-empty part of the data, a frame writer exactly one frame for the whole call; a frame writer fails only when a proper part of the frame has gone out, and only data of more than 10^19 bytes runs below the number buffer |
| LineText.LinesAndTail | lib/stream.c:211-225 | cutting bytes into complete lines and a tail loses and reorders nothing |
| LineText.LinesAppend | lib/stream.c:211-225 | the complete lines of a text are those found incrementally as it grows |
| LineText.FlushConserves | lib/stream.c:211-239 | a flush conserves bytes: calls made and bytes kept are what was buffered |
| LineText.TailIsAll | lib/stream.c:211-225 | only a text without newlines consists of its tail |
| Streams.Stream.constructor | lib/stream.c:460-488 | a new stream is empty and well-formed; size 0 turns buffering off |
| Streams.Stream.SetError | lib/stream.c:34-49 | a permanent error sticks unless it is EAGAIN or EINPROGRESS; any code is remembered |
| Streams.Stream.ReallocBuffer | lib/stream.c:51-73 | growing keeps the content; doubling saturates at SIZE_MAX and fails only there |
| Streams.Stream.ReadFully | lib/stream.c:515-533 | the full read stops short only at the end of the source or at a failure, which the transport, a flag or a sticky error excuses |
| Streams.Stream.ReadUnbuffered | lib/stream.c:490-545 | on success the bytes are the next of the source and are counted in bytes_in; fails only if the transport does, the stream cannot read or an error was remembered, and always in the last two cases; the code is remembered, and sticks when it is permanent and the read a partial one |
| Streams.Stream.FillTry | lib/stream.c:80-100 | source before = buffered bytes + source after and bytes_in grows by level, if and only if the read succeeded or reported no bytes (unless a frame reader lost its place); when the transport asks for room the buffer grows to just the pending frame and no byte is consumed |
| Streams.Stream.FillFull | lib/stream.c:75-101 | the fill loop ends after at most one reallocation; a successful fill loses and invents no byte, a failed one adds exactly level phantom bytes; a live lockstep reader always succeeds |
| Streams.Stream.FillLine | lib/stream.c:103-130 | the filled bytes are the next of the source and hold a newline only as their last byte; a successful fill gets a whole line or all there is, however long, unless the buffer is full and not expandable; nothing is lost or invented, failed reads included |
| Streams.Stream.FillBuffer | lib/stream.c:132-151 | for every buffering mode: source before = buffered bytes + source after, except that a failed fill of a full-buffered stream adds level phantom bytes, exactly those |
| Streams.Stream.Read | lib/stream.c:601-641 | on every transport and in every mode: nothing is lost or invented if and only if no failed fill has added phantom bytes; a buffered stream hands out exactly the next bytes, as many as asked for or all there are (in line mode through the first newline), unless a fill has failed; and a fill fails only if the transport does, a flag or a sticky error is set, or the buffer cannot grow |
| Streams.Stream.ReadBuffered | lib/stream.c:611-640 | if no fill fails the bytes are exactly the next ones: as many as asked for or all there are, in line mode at most through the first newline; a failed fill leaves what has been read before it, with code 0 unless that is nothing |
| Streams.Stream.ScanDelim | lib/stream.c:643-678 | the piece is the next bytes with the delimiter at most at its end, and it stops short of the room only at the delimiter or the end; one byte of room is EOVERFLOW |
| Streams.Stream.WriteFully | lib/stream.c:572-585 | over any partial transfers a successful full write delivers the data as one call's worth of bytes; it fails only if the transport has failed or 10^19 bytes are to be framed; bytes_out counts what was taken |
| Streams.Stream.WriteUnbuffered | lib/stream.c:547-599 | success delivers what is reported, all of it in a full write, and counts it in bytes_out; a stream that is blocked by a flag or a sticky error always fails; the code is remembered and sticks when it is permanent |
| Streams.Stream.SendFront | lib/stream.c:217-224 | the front of the buffer goes out as one call and the rest stays in order |
| Streams.Stream.FlushLines | lib/stream.c:211-225 | the loop sends exactly the complete lines, one call each, in order, and keeps exactly the tail |
| Streams.Stream.Compact | lib/stream.c:241-248 | compaction keeps the buffered bytes and brings cur to the front |
| Streams.Stream.FlushBufferLine | lib/stream.c:208-248 | which calls a flush makes, what stays buffered, where cur ends and when the buffer doubles |
| Streams.Stream.FlushBufferFull | lib/stream.c:201-207 | a full-buffered flush conserves bytes if and only if all is set or nothing is buffered: without all it sends the buffer and keeps it too |
| Streams.Stream.FlushBuffer | lib/stream.c:185-250 | the effect of a flush on every kind of stream; with all set nothing stays behind |
| Streams.Stream.FrontAfterFlush | lib/stream.c:230-248 | a flush without all leaves cur at the front of the buffer if and only if it does not take the expanding return, or cur was there and the buffer holds no newline |
| StreamRuns.GapExample | lib/stream.c:230-233 | a concrete stream on which the expanding return leaves cur behind the front, so that the next write of as many bytes as it counts free would end two bytes behind the buffer |
| Streams.Stream.FlushIfFull | lib/stream.c:825-827 | the guard and the flush before each copy: afterwards there is room and no newline is buffered; an expandable buffer has sent exactly its complete lines and doubles exactly when it was full without a newline |
| Streams.Stream.WriteRound | lib/stream.c:824-842 | one round of the write loop conserves bytes and, with an expandable buffer, sends exactly the lines that are complete |
| Streams.Stream.WriteLines | lib/stream.c:811-848 | a successful write takes all the data: delivered bytes followed by the buffered ones are those before plus the data; the buffer ends with room and without newline. With EXPBUF each complete line goes out in one call and the incomplete one is kept, for all data during which the buffer, whenever it fills up, ends with a newline or has none. It fails only if the stream was blocked, the transport has failed, the buffer cannot grow, or 10^19 bytes are to be framed |
| Streams.Stream.Flush | lib/stream.c:859-873 | after a flush the buffer is empty and what was in it went out in one call; it fails only as a write does |
| StreamRuns.RunWrites | lib/stream.c:811-873 | over every run of writes and flushes on a line-buffered stream without EXPBUF: delivered bytes followed by the buffered ones equal the accepted ones, in order; after a flush nothing is buffered; a run fails only as a write does |
| StreamRuns.RunChunks | lib/stream.c:185-250 | over every run of writes with EXPBUF and newlines only at their ends: the transport gets exactly one call for each complete line, in order, however lines are cut into writes; a run fails only as above |
| PairedStreams.PairedStream.Read | lib/sockmapstr.c:419-425 | the pair reads through its input stream with the same books, and exactly what comes next unless a fill fails; an error of the input becomes an error of the pair and sticks like one, the end sticks, and bytes_in counts what is handed out |
| PairedStreams.PairedStream.Write | lib/sockmapstr.c:411-417 | the pair writes through its output stream: with EXPBUF one call for each complete line, bytes are conserved and counted; the input side is untouched, and a sticky error lets nothing through |
| PairedStreams.MakeRoom | lib/stream.c:757-783 | the memory grows only when the next byte and the final NUL do not fit, to twice its size and one, or SSIZE_MAX+1; it keeps its content and fails only there |
| PairedStreams.Handle.NextPiece | lib/stream.c:777-785 | each way of fetching the next piece returns the next available bytes, with the delimiter only at their end |
| PairedStreams.GetDelim | lib/stream.c:731-802 | on success the line is what comes next and exactly the rest stays available, for every buffering mode, buffer size, initial memory and split of transfers. It is the bytes through the first delimiter, or to the end, if and only if the delimiter is below 128 or there is none before the end; else it is everything up to the end. A live lockstep reader always succeeds; a failure keeps the books. The memory has 120 bytes at first if the caller has none, and grows only when the line needs it |
| PairedStreams.GotLineIs | lib/stream.c:786-799 | the loop's stopping condition characterises a whole line, and for a delimiter that the signed comparison misses the end of the data |
| Session.QueryRoundTrip | src/smapd.c:121-139 | the server takes apart exactly the map and the key that the client put together |
| Session.SendFrame | src/smapc.c:110 | printing a line in any number of pieces puts exactly one frame on the wire |
| Session.SendLine | lib/sockmapstr.c:411-417 | what one end writes is what the other end can read, and only the wire is shared |
| Session.ReceiveLine | lib/stream.c:804-809 | getline returns exactly the line and leaves the reader at a frame boundary with nothing buffered |
| Session.Transfer | lib/sockmapstr.c:411-425 | one line travels whole from one end to the other and both ends come to rest |
| Session.RunExchange | src/smapd.c:121-139 | query and reply of one exchange arrive unchanged |
| Session.RunSession | src/smapd.c:117-140 | over every run of exchanges dispatch_query sees exactly the queries sent and the client exactly the replies made; after each exchange both readers are at a frame boundary with nothing left over; a run fails only after a failed write or when a buffer cannot grow, never by Overrun |
| Session.Connect | lib/sockmapstr.c:478-519 | two sockmap streams over one socket start connected and at rest |
| ServerManager.RegisterAdds | src/srvman.c:139-165 | exactly one free slot gets the new pid and every entry stays where it was; the table grows only when it is full, to 64 slots or to twice its size |
| ServerManager.GrowAdds | src/srvman.c:148-161 | growing keeps every entry and adds free slots only: 64 to an empty table, else as many as there are |
| ServerManager.SlotClear | src/srvman.c:201-225 | clearing a slot removes exactly that pid and lowers the count of used slots by one |
| ServerManager.Server.Register | src/srvman.c:139-164 | the loop of register_child computes that table and counts the child |
| ServerManager.Server.Find | src/srvman.c:207-217 | the scan finds the slot of a pid if and only if the table has it |
| ServerManager.Manager.RegisterChild | src/srvman.c:139-164 | the invariant is kept for the pids in use plus the new one; both counters go up by one |
| ServerManager.Manager.FindChild | src/srvman.c:206-217 | the nested loops find the server and slot of a pid, or no table has it |
| ServerManager.Manager.UnregisterChild | src/srvman.c:201-225 | exactly the one slot of the pid is cleared, in one server; both counters go down by one; the result is whether that server was busy before; a pid that no table holds is that of a freed server and changes no table and no counter |
| ServerManager.Manager.ReapOne | src/srvman.c:227-238 | waiting for a child and unregistering it keeps the invariant; the answer is whether a server stopped being busy |
| ServerManager.Manager.ChildrenCleanup | src/srvman.c:227-238 | every child that had exited when it starts has been waited for when it ends, and one that exits later makes another cleanup due; counters only go down, a new descriptor set is asked for exactly when some server stopped being busy, and if no child is left the global counter has just the children of freed servers |
| ServerManager.Manager.AttachServer | src/srvman.c:398-408 | the list stays doubly linked and ends with the new server |
| ServerManager.Manager.AttachedStill | src/srvman.c:398-408 | attaching a server without children keeps the accounting |
| ServerManager.Manager.ServerRemove | src/srvman.c:241-256 | the list stays doubly linked and loses exactly that server |
| ServerManager.Manager.ServerFree | src/srvman.c:310-320 | the global counter is not touched: the children of the freed server become the orphaned term that keeps the sum exact, and their pids lost ones; its descriptor is recorded as freed |
| ServerManager.Manager.ComputeFdset | src/srvman.c:565-580 | the set is exactly the descriptors of the servers that are not busy, none above maxfd, and none of a freed server is left |
| ServerManager.Manager.ServerRun | src/srvman.c:456-510 | an admitted connection is handled, or forked for just once, and the child is registered: the processes, the table and both counters grow by just that one, and by none if the connection is denied or fork fails |
| ServerManager.Manager.ServerAccept | src/srvman.c:515-549 | a server that is busy or without descriptor is not served, any other by one accept and then just what that calls for; the server is freed exactly if it has no descriptor or accept fails, other than by an interrupt; a new descriptor set is asked for exactly when it has been freed or was busy; keeps the invariant |
| ServerManager.Manager.ConnectionLoop | src/srvman.c:551-563 | one pass accepts on exactly the descriptors of the servers that are ready and not busy, once each and in the order of the list, adds at most one child for each and keeps the list walk valid while servers free themselves; a new descriptor set is asked for exactly when a server has been freed or a busy one was ready |
| ServerManager.Manager.CoveredLater | src/srvman.c:551-563 | a descriptor set that was good before a pass is good after it |
| ServerManager.Manager.CleanUp | src/srvman.c:609-612 | a due cleanup replaces the pending request: a set is then asked for exactly when some server stopped being busy; otherwise the request stays; without one the old set still covers every server that is not busy. No signal is lost: a child that has exited and not been waited for still means that a cleanup is due |
| ServerManager.Manager.Refresh | src/srvman.c:604-617 | a set is computed exactly when a due cleanup asks for it, or none is due and the request was pending; otherwise the old set, with the descriptors of freed servers in it, is kept. A computed set covers every attached server that is not busy |
| ServerManager.Manager.Round | src/srvman.c:604-650 | one round of the event loop keeps the whole invariant; a select is made if and only if there is a descriptor to poll, the global limit is not reached and the hook does not break the loop; that is never so once the children of freed servers reach the limit, and their number never goes down; what had exited before a due cleanup has been waited for |
| ServerManager.Manager.Run | src/srvman.c:582-654 | over every run from every valid state: each round makes a select if and only if there is something to poll and the global limit is not reached, unless the hook breaks the loop, and the loop ends early only with an empty list, a stop signal, the hook or a failed select; each select, once a set was computed, polls every attached server that is not busy, and polls only attached servers exactly when none was freed since; a run that starts without children and without a due cleanup computes the set before its first select; num_children never exceeds max_children - 1 plus the number of servers, or what it was at the start, so a single server keeps the global limit; no select is made once the children of freed servers reach that limit, however many rounds follow; no server has more processes than its own limit, and the processes there are and the counters differ by exactly the reaped children of freed servers; no exit is forgotten |
| Quoting.LettersAreInverse | lib/wordsplit.c:1055-1080 | each escape letter is read back as the byte it was written for and is never taken for a number |
| Quoting.CQuotedLength | lib/wordsplit.c:1099-1125 | the length is exactly that of what the quoter writes, for either quote_hex; quote is set exactly for a space or a double quote |
| Quoting.CQuoteCopy | lib/wordsplit.c:1189-1220 | writes exactly the quoted text, no terminating NUL, and nothing beyond it |
| Quoting.QuoteRoundTrip | lib/wordsplit.c:1140-1220 | with quote_hex 0 unquoting restores every string, wherever the quoted text lies in memory |
| Quoting.HexRoundTrip | lib/wordsplit.c:1189-1220 | with quote_hex 1 unquoting restores exactly the strings that needed no %XX code |
| Quoting.OctalNumber | lib/wordsplit.c:1085-1097 | three octal digits of a byte are read back as that byte |
| Quoting.XToNum | lib/wordsplit.c:1085-1097 | the digit loop computes the number and how many digits it took, NUL taken for a digit included |
| Quoting.Escape | lib/wordsplit.c:1146-1180 | which bytes an escape stores and where reading goes on, in every branch |
| Quoting.CUnquoteCopy | lib/wordsplit.c:1140-1187 | for any overlap of dst and src, in place included, dst receives what separate buffers would get, a NUL, and nothing else changes |
| Quoting.ShUnquoteCopy | lib/wordsplit.c:1127-1138 | the same for the shell-like unquoter |
| Quoting.CUnquoteFits | lib/wordsplit.c:1140-1187 | the result is at most one byte longer than its source, and is so exactly when no escape shrinks, the text ends with a lone backslash, and the byte behind it is an x or a digit |
| Quoting.CUnquoteOverflows | lib/wordsplit.c:1146-1166 | for every such byte, a lone backslash in front of it makes two bytes out of one |
| Quoting.ShUnquoteFits | lib/wordsplit.c:1127-1138 | the shell-like result is never longer than its source |
| Splitting.ScanRestInOrder | lib/wordsplit.c:975-1053 | the segments of a word are ordered, disjoint and within the word |
| Splitting.WordsInOrder | lib/wordsplit.c:1239-1245 | in a safe text the segments of all words are ordered, disjoint and within the text, and every word has one |
| Splitting.SkipDelim | lib/wordsplit.c:925-941 | each new start is strictly greater than the end of the word before, so scanning ends |
| Splitting.ScanPlainText | lib/wordsplit.c:990-1040 | a scan is the plain text up to a quote or delimiter followed by the scan from there |
| Splitting.ScanQuoted | lib/wordsplit.c:947-973 | a quote opens a segment up to its closing quote, or the scan fails at it; if the quote is a delimiter the word ends there |
| Splitting.WordsSound | lib/wordsplit.c:947-1053 | no segment of a safe text ends in the middle of a backslash pair unless it ends with the text |
| Splitting.SoundFits | lib/wordsplit.c:462-474 | quote removal of a scanned segment overruns the buffer of its own length plus one exactly when the segment ends with the text, is full and the byte behind the text goes on with it |
| Printing.ReadBack | lib/wordsplit.c:1222-1299 | for every list of words, each written as any mix of bare text with any bytes escaped, double-quoted text with escapes, text as the quoter writes it, and single-quoted text, and any delimiter of ws_delim behind each word (any number of them, also in front, if delimiters are squeezed; empty words if not), splitting gives back the words: the chunks' texts joined |
| Printing.PrintParse | lib/wordsplit.c:1222-1299 | for every list of NUL-free words, empty ones included: quote each, wrap it in double quotes, join with spaces, split with the default flags, and the same list results |
| Printing.QuotedTextRead | lib/wordsplit.c:947-973 | a quoted text never closes the double quotes around it |
| Printing.ScanWritten | lib/wordsplit.c:975-1053 | the scanner finds exactly the chunks a word was written with |
| PlainSplitting.SqueezeDropsGaps | lib/wordsplit.c:925-941 | for every text and every quoting, squeezing yields the same words without the unquoted empty ones, and fails on the same quote |
| PlainSplitting.SqueezeKeepsNonEmpty | lib/wordsplit.c:925-941 | without quoting, squeezing yields exactly the non-empty words, in order |
| PlainSplitting.PlainSplit | lib/wordsplit.c:975-1053 | for every text and every ws_delim, without quoting and squeezing: no word holds a byte of ws_delim or NUL, the words with the delimiters of the text between them are the text, and no other list of words and delimiters is |
| WordSplit.Splitter.Append | lib/wordsplit.c:284-294 | the list stays doubly linked and ends with the node |
| WordSplit.Splitter.Remove | lib/wordsplit.c:296-316 | the list stays doubly linked and loses exactly that node; only a new tail loses its JOIN flag |
| WordSplit.Splitter.AddSegm | lib/wordsplit.c:348-364 | one node for the segment is added at the end, or none for an empty segment without EMPTYOK |
| WordSplit.Splitter.ScanQString | lib/wordsplit.c:947-973 | adds the node of the quoted segment, or reports the unclosed quote and where it is |
| WordSplit.Splitter.QuotedPart | lib/wordsplit.c:1014-1030 | plain text and quoted text are added and joined to what the word already has |
| WordSplit.Splitter.ScanWord | lib/wordsplit.c:975-1053 | the list grows by exactly the nodes of the next word, all but its last joined; end index, result code and error as specified |
| WordSplit.Splitter.SkipDelim | lib/wordsplit.c:925-941 | the loop computes the next start |
| WordSplit.Splitter.NextWord | lib/wordsplit.c:1239-1241 | every step of scanning keeps the nodes of the words so far, torn ones included; as long as all their segments fit, the list is of ordered, disjoint segments in which each JOIN node has its successor in the same word |
| WordSplit.Splitter.ScanAll | lib/wordsplit.c:1239-1245 | the nodes are those of the words of the text, or the error is that of its unclosed quote |
| WordSplit.Splitter.Unquote | lib/wordsplit.c:466-475 | the new buffer holds the unquoted text and is never overrun |
| WordSplit.Splitter.QuoteRemoval | lib/wordsplit.c:446-478 | exactly the nodes that may be expanded become unquoted words; list and flags stay |
| WordSplit.Splitter.CoalesceSegment | lib/wordsplit.c:399-444 | the chain becomes one node with the concatenation of its texts; all other nodes stay |
| WordSplit.Splitter.Coalesce | lib/wordsplit.c:480-491 | one node is left for each JOIN chain |
| WordSplit.WhatIsLeft | lib/wordsplit.c:1281-1296 | removing quotes and coalescing leaves one node for each word, and its text is the word's |
| WordSplit.Splitter.Finish | lib/wordsplit.c:493-526 | the node texts are appended to the word vector in order |
| WordSplit.Splitter.WordsplitLen | lib/wordsplit.c:1222-1299 | the list algorithm returns exactly the words that the text has, or the unclosed quote, and frees its list; it is asked of texts whose scan fails or tears no word, and has room for its segments |
| Channels.Channel.Recv | lib/sockmapstr.c:225-232 | a receive takes any non-empty part of what is on the wire, and nothing only at its end |
| Channels.Channel.Send | lib/sockmapstr.c:93-100 | a send puts any non-empty prefix of the data on the wire |
| Sockmap.WriteAndRead | lib/sockmapstr.c:246-336 | for every payload: payload and newline written as a frame are read back as the same bytes with count len+1, under every fragmentation, and the reader is at a frame boundary with an empty wire |
| Sockmap.PrintLength | lib/sockmapstr.c:49-61 | the printed prefix is the digits of the length |
| Streams.Stream.ClearError | lib/stream.c:335-340 | forgets the error |
| Streams.Stream.ReadOnce | lib/stream.c:534-544 | one call of the transport: a successful one takes the next bytes of the source and counts them in bytes_in, a failed one takes and counts none whatever count it reports; eof exactly at the end; the size the transport asks for |
| Streams.Stream.FillByte | lib/stream.c:108-126 | fetches the next byte into its place and doubles an expandable buffer that is full without a newline, so that the next one has room; nothing is lost or invented, failed reads included |
| Streams.Stream.Refill | lib/stream.c:614-620 | an empty buffer is refilled: on success nothing is lost or invented, and a failure of a full-buffered stream adds level phantom bytes |
| Streams.Stream.ReadSome | lib/stream.c:613-636 | one round hands out the front of the buffer and nothing else; what is buffered is handed out without a read; a failed fill adds its phantom bytes and hands out nothing |
| Streams.Stream.ScanSome | lib/stream.c:651-674 | one round fills the room, empties the buffer or ends with the first delimiter; on success nothing is lost or invented |
| Streams.Stream.Append | lib/stream.c:831-838 | as much of the data as fits is added behind the buffered bytes |
| StreamRuns.RunReads | lib/stream.c:601-641 | over every series of reads, failed ones included, on every transport: the pieces are consecutive parts of what could be read, with nothing lost or invented, if and only if no failed fill added phantom bytes (unless a frame reader lost its place); if no fill fails, the pieces of a buffered stream are exactly those that the sizes cut out of what there is to read; bytes_in and the phantom bytes count the pieces and what is buffered; in line mode there are none and no piece goes past a newline |
| Session.SendPieces | lib/sockmapstr.c:411-417 | any number of writes to one end makes one call for each complete line, in order |
| Session.QueryLineIsLine | src/smapc.c:110 | the printed query is one line, with its newline at the end only |
| ServerManager.FirstFree | src/srvman.c:145-147 | the scan finds the first free slot or the end of the table |
| ServerManager.Manager.ClearSlot | src/srvman.c:209-216 | the slot is cleared, both counters go down, and the invariant holds for the other pids |
| ServerManager.Manager.Fork | src/srvman.c:482-510 | a child gets a pid that no live or unwaited child has |
| ServerManager.Manager.WaitPid | src/srvman.c:227-238 | some exited child is taken, if there is one |
| ServerManager.Manager.Visit | src/srvman.c:551-563 | one server is served if it is ready, and the walk goes on with the server after it even if that one has freed itself; a new set is asked for exactly when it has, or was ready and busy |
| ServerManager.Manager.Select | src/srvman.c:639-646 | records what is polled and what should be; only polled descriptors are ready; a closed descriptor makes it fail; an interrupt leaves a cleanup due or the loop to be stopped |
| ServerManager.Manager.Serve | src/srvman.c:637-650 | select, then a pass just if it succeeds; the loop goes on unless select fails for another reason than an interrupt; a set with the descriptor of a freed server ends it; the whole invariant is kept |
| ServerManager.Manager.StillCovered | src/srvman.c:609-612 | a cleanup after which no server stopped being busy leaves the descriptor set good |
| ServerManager.Manager.RemovedStill | src/srvman.c:310-320 | taking a server off the list with its children counted as orphans keeps the accounting |
| Quoting.CUnquoteChar | lib/wordsplit.c:1057-1067 | the table search finds what an escape letter stands for, by its values, and any other byte unchanged |
| Quoting.CQuoteChar | lib/wordsplit.c:1069-1080 | the backward table search finds a letter if and only if it stands for the byte |
| Quoting.QuoteOne | lib/wordsplit.c:1192-1218 | every branch of the quoter's loop writes the code of its byte |
| Quoting.QuotedByte | lib/wordsplit.c:1140-1187 | where the quoter wrote one byte the unquoter reads that byte and goes on behind it |
| Splitting.PlainEndStops | lib/wordsplit.c:990-1040 | plain text stops at a quote, a delimiter or the end |
| Printing.PrintParseIn | lib/wordsplit.c:1301-1305 | printing and parsing back on a C string with more memory behind it |
| Rereading.Reread | lib/wordsplit.c:1301-1305 | wordsplit run on a C string of printed words returns exactly those words |
| WordSplit.Splitter.ScanText | lib/wordsplit.c:997-1040 | the loop of scan_word finds the pieces of the word, with their nodes in the list, or the unclosed quote |
| WordSplit.Splitter.LastPart | lib/wordsplit.c:1046-1050 | the rest of the word is added, joined if there is any, and an empty word gets its node; behind a closing quote that is a delimiter the segment that ends before it begins is added |
| WordSplit.Splitter.JoinTail | lib/wordsplit.c:1046-1047 | only the tail's JOIN flag changes |
| WordSplit.Splitter.FindQuote | lib/wordsplit.c:955-957 | the loop finds the closing quote, skipping escaped bytes in double quotes only |
| WordSplit.Splitter.UnjoinTail | lib/wordsplit.c:1242-1244 | clearing the tail's JOIN flag changes nothing, for it is never set |
| WordSplit.Splitter.ChainLast | lib/wordsplit.c:406-411 | the loop finds the last node of the chain |
| WordSplit.Splitter.MergeOne | lib/wordsplit.c:418-430 | one turn copies the text of a node and removes just that node |
| WordSplit.Splitter.GatherChain | lib/wordsplit.c:399-431 | the buffer has the concatenated texts and the other nodes of the chain are gone |
| WordSplit.Splitter.RemoveAndCoalesce | lib/wordsplit.c:1281-1294 | quote removal and coalescing leave the texts of the words |
| WordSplit.AllViewsIn | lib/wordsplit.c:1239-1245 | in the node list of complete words the last node is never joinable |
| ServerManager.Manager.StaleExactly | src/srvman.c:604-647 | the set has no closed descriptor, and none but those of attached servers, exactly when no server was freed since it was computed |
| ServerManager.Manager.AcceptFailed | src/srvman.c:533-542 | the descriptor is closed, the server is freed, and what is polled is still accounted for |
| ServerManager.Manager.TrackedFreed | src/srvman.c:533-542 | after a polled server is freed each polled descriptor belongs to an attached or to a freed server |
| ServerManager.Manager.Recompute | src/srvman.c:614-617 | the set is computed exactly when that is asked for |
| ServerManager.Manager.Pass | src/srvman.c:648-650 | the pass keeps the loop invariant, serves exactly the servers that are ready and not busy, and asks for a new set exactly when one was freed or a busy one ready |
| ServerManager.Manager.Turn | src/srvman.c:551-563 | one turn of the pass keeps the walk and the exact meaning of its answer |
| ServerManager.LostRequest | src/srvman.c:609-612 | in every loop state without busy servers, a pending request is lost when a cleanup falls due |
| ServerManager.StaleExample | src/srvman.c:533-542 | a state in which the set polled next has the closed descriptor of a freed server |
| ServerManager.UncomputedExample | src/srvman.c:604-639 | a run with one server attached that starts with a cleanup due: its first select polls whatever the uncomputed set and maxfd hold, while the server's descriptor is wanted |
| Quoting.UnquoteRoom | lib/wordsplit.c:1140-1187 | the same for a text and whatever follows it in memory; the condition on the text does not depend on what follows |
| Quoting.ShrunkBefore | lib/wordsplit.c:1146-1153 | an escape that shrinks before such a backslash leaves room |
| Quoting.IndependentExactly | lib/wordsplit.c:1140-1187 | what unquoting yields does not depend on the bytes behind the text if and only if no lone backslash and no numeric escape with digits still to take reaches its end |
| Quoting.IncompleteDiffers | lib/wordsplit.c:1140-1187 | for every other text there are two continuations in memory with different results |
| Quoting.CompleteAgrees | lib/wordsplit.c:1140-1187 | a complete text is unquoted alike in any two memories that hold it |
| Quoting.CutShortMisread | lib/wordsplit.c:1085-1097 | a hexadecimal code with one digit at the end of a C string reads as another byte than the same code before a space |
| Quoting.QuotedIsComplete | lib/wordsplit.c:1189-1220 | what the quoter writes with quote_hex 0 is always complete |
| Splitting.WellFormedText | lib/wordsplit.c:1014-1036 | if no quote is a delimiter every text is safe |
| WordSplit.RoomExactly | lib/wordsplit.c:446-478 | all buffers of quote removal suffice if and only if no segment overflows into the byte behind the text |
| WordSplit.StringEnds | lib/wordsplit.c:1301-1305 | with a NUL behind the text no segment overflows |
| ServerManager.LimitExample | src/srvman.c:551-563 | for every global limit and every number of servers: a state that passes the check, and a pass from it that ends at max_children - 1 plus the number of servers |
| Transports.LinesInNext | lib/sockmapstr.c:246-336 | a wire that begins with a frame delivers its payload as a line and then what the rest of the wire delivers |
| Streams.DrawnExactly | lib/stream.c:80-100 | between two states of the books of a reader, nothing is lost or invented if and only if no failed read has added bytes to level |
| Streams.DrawnThen | lib/stream.c:611-640 | the books of consecutive reads add up, failed ones included |
| Streams.Stream.ReadPart | lib/stream.c:534-544 | the partial read: as its one call, with the error remembered |
| Streams.Stream.ReadIntoBuffer | lib/stream.c:86-89 | what a fill finds in the buffer after a successful read is what the read took from the source |
| Streams.Stream.TakeSome | lib/stream.c:623-631 | the front of the buffer is handed out, as much as asked for or buffered, and the rest stays in order |
| StreamRuns.ReadSpoiled | lib/stream.c:84-97 | for every frame without its final comma that fits the buffer: the first read fails with EPROTO, the next ones hand out the body and the byte in the place of the comma with code 0, and bytes_in counts none of them |
| StreamRuns.SpoiledExample | lib/sockmapstr.c:325-333 | the wire 1:aX, which delivers nothing: the first read fails, the second returns aX with code 0 while bytes_in is 0 |
| Streams.Stream.FlushLine | lib/stream.c:213-225 | one turn of the loop: the line goes out as one call, and the lines and the tail of what is left are the others of before |
| Streams.OnlyLastNoGap | lib/stream.c:226-239 | a write with a newline at most at its end never leaves a gap, whatever the buffer holds |
| Streams.Stream.FlushRound | lib/stream.c:825-827 | after the flush of a round the lines of the whole write are those sent so far and those of what is buffered and to come, and what is to come leaves no gap |
| ServerManager.Manager.UnregisterReaped | src/srvman.c:201-238 | a child that was waited for leaves its table, if its server is attached; the answer is whether that server was busy |
| ServerManager.Manager.OnlyOrphans | src/srvman.c:310-320 | without a child left in any table, the global counter is exactly the number of children that freed servers had |
| ServerManager.RefreshNothing | src/srvman.c:609-617 | from every loop state without busy servers, a due cleanup computes no set, whether one was asked for or not |
| ServerManager.AcceptAll | src/srvman.c:551-563 | a pass in which every server accepts and forks adds one child for each server |
| Splitting.SafeExactly | lib/wordsplit.c:1036-1051 | a scan that does not fail adds a segment that ends before it begins, or outside the text, if and only if some word closes a quote that is also a delimiter |
| Splitting.TornExample | lib/wordsplit.c:1036-1051 | with the double quote in ws_delim the text of one letter and two double quotes gets the segment (3, 2) |
| Sockmap.FrameExample | lib/sockmapstr.c:63-102 | the frames of the three bytes abc and of nothing, byte by byte |
| Sockmap.InputDevice.FetchKept | lib/sockmapstr.c:295-318 | what is kept in the reader when the body cannot be fetched: the prefix and what was received with it |
| LineText.EachIsALine | lib/stream.c:211-225 | each of the complete lines ends with its only newline |
| LineText.NextIs | lib/stream.c:611-640 | what makes bytes the next ones to hand out: as many as asked for, or all there are, or in line mode up to the first newline |
| Streams.Stream.FillEmpty | lib/stream.c:132-151 | each kind of fill finds in the buffer what was drawn from the source |
| Streams.Stream.ReadRound | lib/stream.c:613-636 | one round and what becomes of its result: it goes on unless a fill has failed, nothing was left, or a line has ended |
| Streams.Stream.ReadLoop | lib/stream.c:611-640 | the loop stops only with as many bytes as asked for, nothing left to read, a newline in line mode, or a failed fill, which costs no byte that has been read |
| Streams.Stream.TakeThrough | lib/stream.c:662-674 | one round takes the buffered bytes through the first delimiter, or all of them, as far as there is room |
| Streams.Stream.WriteOut | lib/stream.c:567-595 | the write loop delivers everything or the transport has failed; one call of the write pointer delivers what it reports |
| StreamRuns.CutMore | lib/stream.c:601-641 | one read more cuts one piece more off what is left |
| PairedStreams.PairedStream.ReadInput | lib/sockmapstr.c:419-425 | the read of the input stream, with the pair's own counter, end and error flags |
| Session.ParseExactly | src/smapd.c:121-139 | every line is taken apart at its first space, with or without its newline, and a line without a space is no query |
| Session.QueryExample | src/smapc.c:110 | the query of the map m and the key k x, byte by byte |
| ServerManager.AllUsed | src/srvman.c:139-165 | a table has a free slot exactly when fewer of its slots are used than it has |
| ServerManager.PidCount | src/srvman.c:139-165 | a table without duplicates has as many pids as used slots |
| ServerManager.ApartCount | src/srvman.c:139-225 | the number of processes is the sum of the counters and the number of lost pids: no child is in two tables, and none is in no table unless its server was freed |
| ServerManager.ApartRegister | src/srvman.c:139-165 | registering a new pid keeps the tables apart, and every process accounted for |
| ServerManager.ApartClear | src/srvman.c:201-225 | clearing the slot of a reaped pid keeps the tables apart, and every other process accounted for |
| ServerManager.Manager.ForgetPid | src/srvman.c:201-225 | a reaped pid that no table holds is one of a freed server |
| ServerManager.Manager.ReapMore | src/srvman.c:227-238 | one more child is waited for, and the answers add up |
| ServerManager.ServingAccepts | src/srvman.c:515-549 | serving a ready server calls accept just once, on its descriptor |
| ServerManager.Manager.Pause | src/srvman.c:619-632 | returns with a cleanup due or the loop to be stopped |
| ServerManager.Manager.Await | src/srvman.c:619-650 | from every loop state: it pauses if and only if there is no descriptor to poll or the global limit is reached, and else it asks the idle hook, and selects unless that breaks the loop; a pause asks for a new set just in the first case |
| ServerManager.Manager.RoundsMore | src/srvman.c:604-650 | one round more of a run: only its last round may leave the loop |
| ServerManager.Manager.Processes | src/srvman.c:139-225 | in every valid state: each server has as many processes as it counts, is busy if and only if they use up its limit, and is polled if and only if not; the global counter is the number of processes and of the reaped children of freed servers |
| Quoting.EscapeLetters | lib/wordsplit.c:1055-1080 | the escape letters are those of C for 7 to 13 and the backslash, in both directions, and every other byte stands for itself and has none: an if-and-only-if over all pairs of bytes |
| Quoting.QuoteForms | lib/wordsplit.c:1192-1218 | how every byte is quoted, with and without quote_hex: as it is, with a backslash, as a letter, in three octal digits or as a percent code with two upper-case digits |
| Quoting.TokensRead | lib/wordsplit.c:1140-1187 | every text made of plain bytes, C letters, hexadecimal codes of one or two digits, octal codes of one to three and backslashes before anything else is unquoted to the concatenation of what these mean |
| Quoting.DigitsRead | lib/wordsplit.c:1085-1097 | a number is read up to its last possible digit or the first other byte, and has its positional value |
| Quoting.ShRoundTrip | lib/wordsplit.c:1127-1138 | shell-like unquoting undoes putting a backslash before any bytes that include all backslashes |
| Splitting.NulEndsText | lib/wordsplit.c:446-478 | an unquoted or joined text ends at its first NUL, and a lone piece that is not unquoted is copied whole |
| Printing.ReadUnclosed | lib/wordsplit.c:947-973 | the other outcome, for every text that begins with such words: a quote that nothing closes makes the scan fail and is reported at its index |
| Printing.ScanWrittenWords | lib/wordsplit.c:1239-1241 | the words that were written are the words that are scanned, and the scan goes on behind them |
| Printing.MarkedText | lib/wordsplit.c:1127-1187 | text with any of its bytes escaped is unquoted to the text, with C letters or shell-like |
| Printing.MarkedRead | lib/wordsplit.c:955-957 | escaped quotes do not close double quotes |
| Printing.SplitExample | lib/wordsplit.c:1222-1299 | a line with both kinds of quotes, an escaped space, two spaces, a tab and a newline, byte by byte, under the default flags |
| PlainSplitting.FieldsAreUnique | lib/wordsplit.c:975-1053 | there is at most one way to see a text as words free of delimiters with delimiters between them, for every set of delimiters |

## Left out

- WordSplit.Splitter.WordsplitLen: models WRDSF_NOVAR and WRDSF_NOCMD with WRDSF_QUOTE, WRDSF_SQUEEZE_DELIMS, WRDSF_CESCAPES and WRDSF_DELIM in any combination; variable expansion, comments, sed expressions, WRDSF_RETURN_DELIMS, WRDSF_WS, WRDSF_NOSPLIT, WRDSF_REUSE and WRDSF_DOOFFS are not modelled. It asks that no segment overflows (WordSplit.TextEnds) and that a scan which does not fail has torn no word (Splitting.ScansSafely): otherwise the C code leaves its buffers
- WordSplit.Splitter.Unquote: the text of a word node is kept as the C string that its buffer holds
- WordSplit.Splitter.Finish: the word vector is an unbounded sequence, so the capacity steps of alloc_space are not modelled
- Streams.Stream.WriteLines: what a failed write has delivered is not stated, only why it failed and that the stream stays well-formed; on an expandable stream it asks for data that leave no gap (Streams.NoGap), since the next write of the C code can leave its buffer otherwise
- Streams.Stream.FlushBufferFull: the write loop of smap_stream_write is not modelled for full-buffered streams, which nothing in smap writes to
- StreamRuns.RunWrites: says what a run of successful operations delivers; a run stops at its first failure
- PairedStreams.PairedStream.Write: asks, like Streams.Stream.WriteLines, for data that leave no gap
- StreamRuns.RunChunks: a run of writes to an expandable buffer, like those of a session, has newlines only at the ends of its pieces, which never leaves a gap
- PairedStreams.GetDelim: char is taken to be signed
- Streams.Stream.Read: the count handed back by a failed read of an unbuffered stream is not part of the result
- Channels.Channel.Recv: a wire holds its bytes in order and does not fail (see Sockmap.InputDevice.Read for what a failure would do); how they are cut up is arbitrary
- Sockmap.InputDevice.Read: whether a pipelined first frame that ends within the number buffer is overrun depends on how many bytes arrive with its prefix; the outcome Overrun then says nothing about the bytes. Errors of recv are not modelled: in the prefix they drop what was received of it, and in the body, where the result of recv is unsigned, they step the position backwards
- Sockmap.OutputDevice.Write: a short write(2) makes the C code return whatever errno holds, possibly 0; the model always reports EIO then
- Session.RunSession: the lookup between a query and its reply is a parameter, the reply, since dispatch_query goes on into the loaded database modules; what follows the first failed exchange is not stated, only why it failed
- ServerManager.Manager.Run: covers every finite number of rounds, so that the model needs no non-terminating loop; what C polls before a set was ever computed is an arbitrary set here; that the loop ends is stated only with a reason for it, not when
- ServerManager.Manager.ServerRun: access lists, TCP wrappers and hooks are one nondeterministic answer, and the handler and the code of the child process do nothing here; the child itself is only a pid
- ServerManager.Manager.ComputeFdset: descriptors are integers and a descriptor set is a set of them, without FD_SETSIZE
- ServerManager.Server.Register: the pid table is a sequence that grows, like the stream buffer and the frame buffer; realloc failure is not modelled
- Seeking, skipping input, truncating, shutting down, waiting and ioctl in lib/stream.c, and the flush callback: not used on the modelled paths, or plain delegation
- Memory exhaustion, debug and error output, syslog, and signal handler installation
- src/query.c, src/cfg.c, src/module.c and modules/: configuration, table lookups and calls into foreign libraries
