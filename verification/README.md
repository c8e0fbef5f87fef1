# A verified model of haven-daemon

haven-daemon keeps terminal sessions alive behind a Unix socket, stores what they print in an encrypted,
self-truncating log, and lets clients attach, page and search. This project models the parts of it in
which state, arithmetic or interleaving matter, and proves what they keep. `dafny verify dfyconfig.toml`
checks all of it.

| file | models |
|---|---|
| `Bytes.dfy` | bytes, big-endian words, flattened lists |
| `LengthPrefixed.dfy` | streams of length-prefixed records, shared by the transcript file and the wire protocol |
| `Aead.dfy` | the cipher, by its laws (section 2.8 of RFC 8439); nonces are arbitrary |
| `ChunkCodec.dfy` | the transcript file as a list of sealed chunks: round trip, torn files, damaged chunks |
| `Retention.dfy` | what `append` keeps when the file outgrows its cap, over whole runs: suffix, exact cap bound, conservation, amortised cost |
| `Pager.dfy` | `read_tail_before`, and the client that pages back with it |
| `TranscriptWriter.dfy` | the `TranscriptWriter` class: append, truncate and every read path, on the bytes of the file |
| `Utf8.dfy`, `AnsiStripper.dfy` | `strip_ansi` with its slices of UTF-8 text |
| `Search.dfy` | literal search |
| `Chords.dfy`, `StdinTask.dfy` | the chord-key parser as a class refining a Mealy machine, and the task that drives it |
| `FrameCodec.dfy` | frames and streams of frames |
| `ParentWatch.dfy` | the watch over the parent process with its grace window |
| `Attach.dfy`, `AttachClient.dfy` | broadcast ring, transcript task, attach handler, forwarder, frame channel and client, as one transition system |
| `RingLag.dfy`, `Progress.dfy` | what the ring of 512 messages can lose, and that nothing gets stuck |
| `Connection.dfy` | the request loop and the order of responses |

An object whose methods update it (`TranscriptWriter`, `ChordParser`, `ParentWatchState`) is a class; its
methods are proved against functions of values, and the lemmas are about those functions. The concurrent
parts (`session.rs`, `pty.rs`, the connection handler) are state machines: a run is any sequence of enabled
steps, and the theorems are about every run. A panic is a result (`None` or `Panic`), so it can be reasoned
about.

## Results that a reader may not expect

* The size cap of a transcript holds over all runs exactly when every payload is at most 2,995,932 bytes
  (`Retention.CapIff`); PTY reads are at most 8192 bytes.
* `strip_ansi` panics exactly on lines with an escape before a code point that is not ASCII, outside other
  sequences (`AnsiStripper.PanicIff`); so does a search whose preview is such a line.
* `read_range` panics exactly when the offset is inside the text and offset plus length overflows 64 bits
  (`Transcript.TranscriptWriter.ReadRange`, `Transcript.OverflowExample`).
* Paging back reaches the start exactly when pages are longer than every record but the first and as long
  as that (`Pager.WholeLogPaged`).
* An attach loses exactly the messages published before the subscription that the transcript had not yet
  appended when the history was read (`Attach.LossIsExact`, `Attach.LossExample`).
* An attach with a history of more than 16 MiB fails, because the daemon sends it as one frame and the client
  refuses longer frames; otherwise every byte is shown (`AttachClient.AttachShowsAllIff`,
  `AttachClient.LongHistoryExample`).
* An exit event that overtakes the response to the attach is dropped by the client
  (`AttachClient.ExitReportedIff`, `AttachClient.ExitDroppedExample`).
* The daemon can end while its parent watch is paused, exactly when the pause arrives between a sample and
  its probe (`ParentWatch.ExitWhilePausedIff`, `ParentWatch.PauseRaceExample`).
* A pause whose grace overflows the clock keeps the deadline of an earlier one, which can resume the watch
  (`ParentWatch.SampleMatchesAnnouncements`, `ParentWatch.StaleDeadlineExample`).

## Where code and comments differ (the code is modelled)

* `read_tail_before` (haven-daemon/src/history.rs:242-247) says that a window starting mid-record is trimmed;
  the code also trims a window that starts exactly on a record.
* The watch task (haven-daemon/src/daemon.rs:173-176) says that the next poll probes the resumed process; the
  code probes it in the same tick.
* `search` (haven-daemon/src/history.rs:314-316) says that escape sequences are scrubbed for matching; the code
  matches the raw text and strips only the previews.

## Model

| member | source | states |
|---|---|---|
| LengthPrefixed.ReadBack | haven-daemon/src/history.rs:403-425 | records written one after another are read back in order, and reading then continues with what follows |
| LengthPrefixed.ReadBackIff | haven-daemon/src/history.rs:201-204 | a record is read back as itself if and only if its length is in the accepted range, cut to 32 bits or not |
| LengthPrefixed.WholeRecordsFit | haven-daemon/src/history.rs:403-425 | the counted records end at or before the cut and the next one would end behind it |
| LengthPrefixed.CutStream | haven-daemon/src/history.rs:403-425 | a stream cut at any byte yields exactly the records wholly before the cut and never looks like a bad length |
| LengthPrefixed.StopsAt | haven-daemon/src/history.rs:403-425 | reading stops at a length outside the range or at a record that is cut short, with everything before it read |
| Aead.Seal | haven-daemon/src/history.rs:195-198 | a sealed payload is 16 bytes longer and opens to the payload |
| Aead.Open | haven-daemon/src/history.rs:430-436 | what opens is the sealing of its plaintext |
| ChunkCodec.ChunkBytes | haven-daemon/src/history.rs:195-204 | the bytes of a chunk by value: length, nonce, sealed payload |
| ChunkCodec.FileRoundTrip | haven-daemon/src/history.rs:390-440 | the chunks of a clean file are the payloads appended to it |
| ChunkCodec.GarbageTail | haven-daemon/src/history.rs:403-425 | what follows a clean file and does not start with a complete chunk of at least 28 bytes neither hides nor adds a payload |
| ChunkCodec.ChunkRoundTripIff | haven-daemon/src/history.rs:196-204 | one chunk reads back as its payload if and only if its length fits the 32-bit prefix |
| ChunkCodec.TornFile | haven-daemon/src/history.rs:403-425 | cutting a clean file at any byte leaves exactly the chunks wholly before the cut |
| ChunkCodec.CorruptBodies | haven-daemon/src/history.rs:427-436 | damaging any set of chunk bodies so that they fail to open leaves exactly the other chunks, in order |
| ChunkCodec.DecodedFit | haven-daemon/src/history.rs:473-493 | whatever a file contains, the payloads read from it can be written again |
| Retention.KeepPoint | haven-daemon/src/history.rs:459-471 | the kept chunks are the shortest non-empty run of newest chunks with at least half of the plaintext, halved with integer division |
| Retention.KeepPointUnique | haven-daemon/src/history.rs:459-471 | no other start has that property |
| Retention.NewestHalfMeaning | haven-daemon/src/history.rs:459-471 | what a truncation keeps: a run of newest chunks with at least half of the bytes, and less than half without its first chunk |
| Retention.AppendByCases | haven-daemon/src/history.rs:206-211 | an append adds its payload, or leaves the newest half when the file would have more than 104,857,600 bytes |
| Retention.AppendKeepsCap | haven-daemon/src/history.rs:206-211 | an append to a file within the cap leaves it within the cap, for payloads up to the exact bound |
| Retention.RunKeepsCap | haven-daemon/src/history.rs:185-214 | so does any run of appends and reopens |
| Retention.TightCounterexample | haven-daemon/src/history.rs:206-211 | a log with payloads one byte over the bound that an append leaves one byte over the cap |
| Retention.CapIff | haven-daemon/src/history.rs:82-86 | the cap holds after all runs with payloads of at most B bytes if and only if B is at most 2,995,932 |
| Retention.RunKeepsSuffix | haven-daemon/src/history.rs:453-496 | over any run only whole chunks are lost, oldest first, and the log never loses its newest chunk |
| Retention.PlaintextIsSuffix | haven-daemon/src/history.rs:185-214 | over any run the readable plaintext is a suffix of everything appended and ends with the newest payload whole |
| Retention.RunStartsOnRecord | haven-daemon/src/session.rs:227-237 | a log of newline-terminated appends always starts on a record boundary |
| Retention.BytesConserved | haven-daemon/src/history.rs:206-211 | over any run the bytes that entered the file are those in it plus those that truncations removed |
| Retention.TruncationRemoves | haven-daemon/src/history.rs:459-471 | each truncation removes at least MAX/66 minus the payload bound |
| Retention.TruncationsCounted | haven-daemon/src/history.rs:206-211 | the truncations of a run are its appends that find the file full |
| Retention.Amortised | haven-daemon/src/history.rs:206-211 | the number of truncations times that constant is at most the bytes appended |
| Retention.PtyTruncationsAreRare | haven-daemon/src/pty.rs:285-291 | a PTY transcript is rewritten at most once per 1,580,559 bytes appended |
| Transcript.TranscriptWriter.constructor | haven-daemon/src/history.rs:118-163 | opening takes the file as it is, or empties it when the key file is corrupt, and counts its bytes |
| Transcript.TranscriptWriter.Append | haven-daemon/src/history.rs:185-214 | on any file the exact bytes written or the rewritten log; on a clean file the payload is added, or the newest half remains when the file would exceed 100 MiB; the byte count is the file length |
| Transcript.TranscriptWriter.Truncate | haven-daemon/src/history.rs:453-509 | the file is replaced by a clean one that holds exactly the newest half of the log |
| Transcript.CleanAppend | haven-daemon/src/history.rs:185-214 | an append keeps a clean file clean and changes its log as the policy says |
| Transcript.DecodeChunks | haven-daemon/src/history.rs:390-440 | the reading loop yields every payload that can be recovered from any file |
| Transcript.FindKeepPoint | haven-daemon/src/history.rs:459-471 | the two loops of `truncate` find the keep point |
| Transcript.Reseal | haven-daemon/src/history.rs:473-496 | rewriting under new nonces gives a clean file with the same payloads |
| Transcript.TranscriptWriter.ReadAllPlaintext | haven-daemon/src/history.rs:443-450 | the concatenation of all payloads |
| Transcript.GatherLast | haven-daemon/src/history.rs:220-235 | gathering chunks from the back and trimming gives the last n bytes |
| Transcript.TranscriptWriter.ReadLast | haven-daemon/src/history.rs:217-236 | the last min(n, total) bytes of the plaintext |
| Transcript.TranscriptWriter.ReadRange | haven-daemon/src/history.rs:278-288 | the range of the plaintext, cut at its end; panics exactly on 64-bit overflow with the offset inside |
| Transcript.ReadAdjacent | haven-daemon/src/history.rs:278-288 | two adjacent ranges read what the combined range reads |
| Transcript.CutPage | haven-daemon/src/history.rs:254-274 | the page cut out of a plaintext: all of the window that lies behind its first newline, or the whole window when it reaches back to 0 |
| Transcript.TranscriptWriter.ReadTailBefore | haven-daemon/src/history.rs:248-275 | that page of the log's plaintext, with its start and the total |
| Transcript.TranscriptWriter.SearchText | haven-daemon/src/history.rs:302-387 | a search of any log answers for its decoded plaintext, which is the plaintext itself when that is UTF-8 |
| Transcript.Live | haven-daemon/src/history.rs:118-214 | over any series of appends and reopens the real file is clean, holds the log of the run, is counted right and keeps the cap |
| Transcript.RunKeepsRecords | haven-daemon/src/session.rs:227-237 | a log to which only records are appended consists of records after any run, truncations included |
| Transcript.PageFromTail | haven-protocol/src/message.rs:88-92 | a client that pages the real log from its tail reads all of it if and only if the pages have room for the records |
| Transcript.OverflowExample | haven-daemon/src/history.rs:278-288 | a range on two bytes of text that panics |
| Pager.PageStart | haven-daemon/src/history.rs:257-270 | a page has at most the requested bytes and starts at 0 or behind the first newline of its window |
| Pager.PageUnique | haven-daemon/src/history.rs:248-275 | there is only one such page |
| Pager.PageHoldsMost | haven-daemon/src/history.rs:257-270 | on a log of records, a page holds as many whole records as leave room for the newline in front of them |
| Pager.PagesTile | haven-protocol/src/message.rs:88-92 | on any log the pages of a walk are non-empty and, oldest first, are the log from where it stopped |
| Pager.PageAtBoundary | haven-daemon/src/history.rs:257-273 | a page that ends on a record boundary starts on one, and exactly when it is empty |
| Pager.WalkFromBoundary | haven-protocol/src/message.rs:88-92 | pages are whole records, and the walk reaches 0 if and only if every record fits |
| Pager.WholeLogPaged | haven-protocol/src/message.rs:88-92 | paging from the tail covers the whole log if and only if pages are longer than every record but the first and as long as that |
| Pager.LiveWalkIsSnapshot | haven-protocol/src/message.rs:88-92 | appends between requests leave the walk that of the log at the first request |
| Utf8.EncodedIsChar | haven-daemon/src/history.rs:66-80 | the encoding of every code point is one, by its lead byte and continuation bytes |
| Utf8.CharIsEncoded | haven-daemon/src/history.rs:66-80 | and nothing else is |
| AnsiStripper.StripAnsi | haven-daemon/src/history.rs:15-64 | the loops compute the stripped text, or the panic of an illegal slice |
| AnsiStripper.SkipOsc | haven-daemon/src/history.rs:34-47 | the OSC loop ends behind the terminator, and takes a BEL behind a string terminator too |
| AnsiStripper.StripItem | haven-daemon/src/history.rs:19-62 | one item in front of any text is kept or removed and does not affect the rest |
| AnsiStripper.StripRendered | haven-daemon/src/history.rs:13-14 | stripping is a left inverse of decoration: exactly the kept text of any list of items remains |
| AnsiStripper.Parse | haven-daemon/src/history.rs:19-62 | every line is a list of items followed by one of five endings |
| AnsiStripper.StripEnding | haven-daemon/src/history.rs:21-53 | unterminated sequences vanish; an escape before a non-ASCII code point panics |
| AnsiStripper.PanicIff | haven-daemon/src/history.rs:48-58 | the program panics if and only if such an escape follows a series of complete items |
| AnsiStripper.AsciiEscapesAreSafe | haven-daemon/src/history.rs:48-58 | a line with no escape before a non-ASCII byte is stripped safely |
| AnsiStripper.PanicExample | haven-daemon/src/history.rs:48-58 | three bytes on which it panics |
| AnsiStripper.StripIdempotent | haven-daemon/src/history.rs:15-64 | stripping twice is stripping once |
| Search.GreedyCovers | haven-daemon/src/history.rs:371-379 | repeated leftmost finding gives disjoint occurrences that every occurrence starts inside |
| Search.CoverIsGreedy | haven-daemon/src/history.rs:371-379 | and nothing else has that property |
| Search.OccurrenceOnBoundaries | haven-daemon/src/history.rs:328-332 | an occurrence of text in text starts and ends between code points, so the slices are legal |
| Search.MatchMeaning | haven-daemon/src/history.rs:322-342 | the line runs from behind the last newline before the match to the first newline behind it; its number is one plus the newlines before the match; the preview is its stripped text |
| Search.NewlinesCounted | haven-daemon/src/history.rs:336 | line numbers count the newlines |
| Search.Scan | haven-daemon/src/history.rs:371-379 | the loop records the first matches up to the limit and counts up to four times the limit plus one |
| Search.SearchLiteral | haven-daemon/src/history.rs:302-387 | offsets, total and truncation flag of a literal search, and when it panics |
| Search.UntruncatedIsComplete | haven-daemon/src/history.rs:382-386 | when not truncated, every occurrence starts inside a reported match |
| Chords.DocumentedChords | haven-client/src/keys.rs:100-108 | the documented chords after either prefix; an unbound key is dropped with the prefix |
| Chords.FirstKey | haven-client/src/keys.rs:87-99 | of single keys, 0x1c and 0x02 are held and any other byte is delivered |
| Chords.RunConcat | haven-client/src/keys.rs:73-123 | splitting the input anywhere does not change outputs or state |
| Chords.ChordParser.Feed | haven-client/src/keys.rs:73-123 | the events mean what the Mealy machine outputs; ranges are non-empty, in order, disjoint, maximal and in bounds; there is one `Pending` for each prefix that is held |
| Chords.FlushRun | haven-client/src/keys.rs:77-83 | flushing turns the open run into a maximal range |
| Chords.FeedAll | haven-client/src/keys.rs:73-123 | feeding any list of chunks is feeding their concatenation |
| Chords.ChordParser.CancelPending | haven-client/src/keys.rs:132-136 | a held prefix is dropped |
| Chords.EscapeIsTransparent | haven-client/src/keys.rs:105-106 | with prefix bytes doubled, any bytes reach the session unchanged, nothing else happens and nothing is pending |
| StdinTask.HandleEvents | haven-client/src/attach.rs:309-365 | events become writes and help screens up to the first that ends the task |
| StdinTask.TakeInput | haven-client/src/attach.rs:289-366 | one chunk or timeout |
| StdinTask.Drive | haven-client/src/attach.rs:287-366 | the session is sent exactly the bytes delivered before the first Detach, Switch or New, in non-empty writes |
| StdinTask.TimeoutDropsPrefix | haven-client/src/attach.rs:297-305 | a timeout discards exactly the held prefix and no other byte |
| StdinTask.TimeoutInInput | haven-client/src/attach.rs:297-305 | a prefix that is held when the timeout strikes is dropped, and the text around it is sent |
| StdinTask.ClosedEndsInput | haven-client/src/attach.rs:289-296 | nothing behind the end of input is sent |
| StdinTask.EscapedInputArrives | haven-client/src/attach.rs:309-365 | a text with its prefix bytes doubled is sent as it is, in any chunking, with no help screen and no exit |
| StdinTask.ChordEndsTask | haven-client/src/attach.rs:322-333 | Detach, Switch and New end the task with the text before the chord sent and nothing behind it |
| StdinTask.ChordGoesOn | haven-client/src/attach.rs:334-362 | help shows one screen and sends nothing, a doubled prefix is sent once, an unbound key does nothing; the text behind the chord is sent |
| FrameCodec.Encode | haven-protocol/src/lib.rs:163-172 | the buffer is the length-prefixed body |
| FrameCodec.EncodedBytes | haven-protocol/src/lib.rs:163-172 | the first nine bytes by value, then the payload |
| FrameCodec.TypeOf | haven-protocol/src/lib.rs:138-151 | exactly 1, 2 and 3 are frame types |
| FrameCodec.DecodeInvertsBody | haven-protocol/src/lib.rs:175-189 | decoding inverts encoding |
| FrameCodec.ReadFrameBytes | haven-daemon/src/daemon.rs:226-243 | what is read from any bytes: a disconnect, an error, or the frame with its fields and the rest |
| FrameCodec.FrameRoundTripIff | haven-daemon/src/daemon.rs:226-243 | a frame is read back as itself if and only if its body is at most 16 MiB |
| FrameCodec.StreamRoundTrip | haven-daemon/src/daemon.rs:226-243 | a stream of frames parses to the list of frames, and reading continues behind it |
| FrameCodec.StreamPrefix | haven-daemon/src/daemon.rs:226-243 | any prefix of the stream parses to a prefix of the list |
| FrameCodec.WholeFramesFit | haven-daemon/src/daemon.rs:226-243 | those frames end at or before the cut and the next one would end behind it |
| FrameCodec.StreamPrefixEnd | haven-daemon/src/daemon.rs:228-240 | a cut inside a length counts as a disconnect, a cut inside a body as an error |
| FrameCodec.PrefixFree | haven-protocol/src/lib.rs:163-172 | no encoding is the start of another frame's encoding |
| FrameCodec.StreamInjective | haven-protocol/src/lib.rs:163-172 | equal streams come from equal lists |
| FrameCodec.ReadFrames | haven-daemon/src/daemon.rs:334-338 | the reading loop yields the parse of the stream |
| ParentWatch.ParentWatchState.constructor | haven-daemon/src/daemon.rs:31-37 | the initial pid is watched and remembered |
| ParentWatch.ParentWatchState.SetParentWatch | haven-daemon/src/daemon.rs:588-602 | the whole new state after an announcement; a deadline that overflows the clock panics after the pid is stored and leaves the old deadline |
| ParentWatch.ParentWatchState.Sample | haven-daemon/src/daemon.rs:171-190 | the whole new state after a sample, and the pid it returns |
| ParentWatch.SampleSeesWatched | haven-daemon/src/daemon.rs:163-190 | the process that any tick of any run probes |
| ParentWatch.SampleMatchesAnnouncements | haven-daemon/src/daemon.rs:163-190 | a tick probes the process that the announcements say to watch if and only if no overflowing pause has left a due deadline behind |
| ParentWatch.SampleWithoutOverflow | haven-daemon/src/daemon.rs:594 | so it always does when the last announcement fits the clock |
| ParentWatch.StaleDeadlineExample | haven-daemon/src/daemon.rs:588-594 | a run in which a tick probes a process during a pause because its announcement overflowed |
| ParentWatch.WatchedWasNamed | haven-daemon/src/daemon.rs:588-594 | a watched process is the last one announced |
| ParentWatch.GraceWindow | haven-daemon/src/daemon.rs:14-22 | during the grace nothing is probed; the first tick at or after the deadline probes the last named process at once; after an overflow the earlier deadline decides |
| ParentWatch.PauseWithoutGrace | haven-protocol/src/message.rs:117-123 | a pause without grace lasts until the next announcement |
| ParentWatch.ExitIsJustified | haven-daemon/src/daemon.rs:192-208 | every exit follows a sample that was to probe that process, and a probe in the same tick that found it dead |
| ParentWatch.ExitWhilePausedIff | haven-daemon/src/daemon.rs:171-198 | the daemon exits while paused if and only if the last announcement between sample and probe is a pause |
| ParentWatch.PauseRaceExample | haven-daemon/src/daemon.rs:171-198 | such a run |
| Attach.Receive | haven-daemon/src/pty.rs:280 | a receiver at most 512 messages behind gets the next message, one further behind skips to the oldest of the last 512, and the end comes only when drained |
| RingLag.OnlyOverwrittenMissed | haven-daemon/src/daemon.rs:411-425 | over runs: a message that the forwarder passed over has been overwritten by 512 newer ones |
| RingLag.OnlyOverwrittenUnlogged | haven-daemon/src/session.rs:121-134 | over runs: so has a message that the transcript task passed over |
| Attach.RunKeepsInv | haven-daemon/src/session.rs:117-141 | after every run the log, the history, the forwarder and the frames on their way agree with the published stream |
| Attach.HistoryText | haven-daemon/src/daemon.rs:390-399 | over runs: the history of an attach is the end of the log when it was taken, with as many bytes as were asked for or all of it |
| AttachClient.HistoryShownFirst | haven-daemon/src/daemon.rs:390-399 | the output of an attach that was answered starts with those bytes |
| Attach.ChannelBounded | haven-daemon/src/daemon.rs:315 | the frame channel holds at most 256 frames, and the forwarder waits only when it is full |
| Attach.HistoryBeforeLive | haven-daemon/src/daemon.rs:390-440 | what is shown comes from messages at strictly increasing indices, history before live |
| Attach.ClientSeesSubsequence | haven-daemon/src/daemon.rs:390-440 | in every interleaving the bytes sent are the published bytes at strictly increasing positions: nothing duplicated or reordered |
| Attach.LossIsExact | haven-daemon/src/daemon.rs:390-408 | without lag and truncation the messages missed, among those up to the next one the forwarder receives, are exactly those published before the subscription and not yet appended at the snapshot |
| RingLag.LossWithoutLag | haven-daemon/src/daemon.rs:390-440 | the same for runs in which no receiver is ever more than 512 behind and everything published fits 100 MiB and the request |
| RingLag.TranscriptIsStream | haven-daemon/src/session.rs:117-134 | in such runs the log is the published stream up to what is in flight |
| Attach.WholeStreamIff | haven-daemon/src/daemon.rs:390-408 | over whole runs: a client that has caught up has been sent the whole stream if and only if nothing was in flight during the attach |
| Progress.WholeStreamReachable | haven-daemon/src/daemon.rs:390-440 | from any point within the ring, an attach with nothing in flight can go on to show the whole stream |
| Progress.CatchUp | haven-daemon/src/daemon.rs:411-425 | a client can always be sent everything published since it subscribed |
| Progress.LogAll | haven-daemon/src/session.rs:119-137 | the transcript task can always log everything published |
| Progress.SendExit | haven-daemon/src/daemon.rs:426-435 | when the session has ended, the exit event can always be sent |
| Progress.AttachCompletes | haven-daemon/src/daemon.rs:381-445 | a request to attach can always be answered |
| Attach.LossExample | haven-daemon/src/daemon.rs:390-408 | a run in which a stored message is never shown |
| Attach.ExitComesLast | haven-daemon/src/daemon.rs:426-435 | after an exit event only responses follow, and a forwarder that never lagged has sent everything since the subscription |
| Attach.TranscriptWithinCap | haven-daemon/src/session.rs:119-128 | in every run with PTY-sized messages the transcript is within its cap |
| AttachClient.ReadableFrames | haven-client/src/client.rs:139-151 | on the bytes of the socket, a client reads the frames before the first that is longer than 16 MiB, and that one is an error |
| AttachClient.CaptureHistory | haven-client/src/client.rs:111-135 | history is all output up to the first response; a frame that is too long before it is a failure |
| AttachClient.ReadLive | haven-client/src/attach.rs:169-222 | live output is all output up to the first exit event or the first frame that is too long |
| AttachClient.RunAttach | haven-client/src/attach.rs:93-123 | what an attach shows and how it ends |
| AttachClient.UnansweredShowsNothing | haven-client/src/client.rs:118-134 | without a response that can be read, the attach fails and shows nothing |
| AttachClient.ShownIsSubsequence | haven-client/src/attach.rs:103-222 | whatever happens, what is shown are published bytes at strictly increasing positions of the stream |
| AttachClient.AttachShowsAllIff | haven-client/src/attach.rs:103-222 | wherever the response lands, every output byte the daemon wrote is shown, in order, if and only if the history event fits a frame of 16 MiB; otherwise the attach fails |
| AttachClient.ShortHistoryFits | haven-daemon/src/cli.rs:103-104 | a history request of up to 8,388,093 bytes always fits, when packing at most doubles the data |
| AttachClient.LongHistoryExample | haven-daemon/src/daemon.rs:391-399 | a run with a transcript of just over 16 MiB whose attach fails however frames are packed |
| AttachClient.ExitReportedIff | haven-client/src/client.rs:122-134 | over whole runs: an exit that was sent is reported if and only if the history fits and the forwarder had not sent the exit when the handler answered the attach |
| AttachClient.ExitDroppedExample | haven-client/src/client.rs:122-134 | a run in which it is not |
| Connection.ResponsesFollowRequests | haven-daemon/src/daemon.rs:334-609 | the responses on the wire carry, in order and once each, the ids of a prefix of the requests |
| Connection.EveryRequestIsAnswered | haven-daemon/src/daemon.rs:334-609 | while the writer lives no request read is left unanswered |
| Connection.AllCanBeAnswered | haven-daemon/src/daemon.rs:334-609 | whatever is queued, every request that has arrived can be answered |
| Connection.ChannelBounded | haven-daemon/src/daemon.rs:315 | the channel holds at most 256 frames |
| Connection.TakeResponse | haven-client/src/client.rs:96-104 | events are skipped and the first response is taken, unless a frame that is too long comes first |
| Connection.FirstResponseIsOwn | haven-client/src/client.rs:86-105 | a client with one outstanding request takes the response to that request |

## Left out

* Cryptography, key generation, permissions and tokens; a missing or wrong key is only the reset of the file.
* I/O errors: a write, rename or read that fails in the middle. `Append` is specified on torn files too, but
  nothing is promised about what later reads recover behind a torn tail, because the code does not realign.
* The PTY, shell setup, working-directory probing, signals, raw mode, the picker and the command line.
* MessagePack: payloads are opaque; whether a request decodes, and how long a packed frame is, are parameters.
* Messages that the PTY thread publishes before the transcript task subscribes; the stream starts there.
* Attaching again on the same connection, and detaching: aborting the old forwarder is asynchronous.
* Sessions that disappear between the steps of an attach, and the failure of the writer task during an attach.
* Other requests of a client before its attach: every caller attaches right after authentication.
* Several attached clients at once; each has a receiver, a forwarder and a channel of its own.
* Regular expressions and case-insensitive search. How lossy decoding replaces bytes that are not UTF-8 is a parameter:
  it yields text and leaves text alone, and search offsets are positions in its result.
* Pipe mode, window-size changes, and a stdin task whose frame channel has been closed.
* Paging while the log is truncated between two pages: offsets then refer to a shorter log.
* The session registry, socket discovery, pet names and version handling.
- FrameCodec.ReadFrame: follows the daemon; the client treats an end of stream inside a length as an error as well.
