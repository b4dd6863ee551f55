# rightsize, verified

A Dafny model of the parts of the rightsize crates where something can go wrong in a way no
single function shows: bytes that arrive in pieces, threads that race over one log, processes
that crash while they install the same files. The modules follow the crates.

**The Docker decoder** (`rightsize-docker`). `Wire` is a connection whose reads return any
number of bytes; `ChunkedCoding` gives the chunked transfer coding (section 7.1 of RFC 9112) a
meaning for every byte string, well-formed or not; `ChunkedGrammar` holds an encoder and a
second, independent reading of it that records every framing line, and `Spelling` says which
texts spell which numbers. `BodyReading` is the incremental reader, a class whose fields mean a
*decoded remainder*; `Dechunkers` has the two whole-body readers, each with the exact set of
inputs on which it succeeds, and what the three agree on. `Frames`, `Lines`, `LineAssembly` and
`DockerLogs` go on to frames, lines and the text of `logs` and `exec`; `ResponseHead` and
`HttpResponse` are the response reader (sections 2.1 and 6.3 of RFC 9112), judged by
`HeadMeaning`, what the lines of a head tell; `LinuxProbe` is the daemon probe, which reads a
response in its own way. `DockerFollow` is the log follow with its close, `FollowHandles` the
handle that closes one.

**The microsandbox follow** (`rightsize-msb`). `FollowProtocol` is the state machine of reader,
watchdog, killer, proxy and closing caller, one atomic step at a time, over a log that only
grows; `FollowInvariants` is what every step keeps, `FollowTheorems` what that means for the
consumer, `FollowPolling` what the watchdog does after what it saw, `FollowProgress` that `close`
returns and `FollowCompletion` that a follow whose sandbox is gone ends. `TailText` is the
1000-line window and the replay, `Poller` the Windows worker.

**The provisioner.** `Install` is any number of processes that download, verify, rename and
crash, with no help from the lock; `InstallCalls` what a call does with what it finds and what it
leaves; `InstallLock` is the directory lock with a clock.

**Smaller state.** `Registry` and `RegistryNames` (named checkpoints on disk), judged by
`RegistryHistory`, the steps taken by themselves; `Networks` (the network-id cache), `Nonce`
(checkpoint nonces), `Argv`, `ArgvReadBack`, `ArgvSpelling` and `CapturedCmdline` (command lines
out and in).

Where the code falls short of what its comments say, the model follows the code and the
property is stated with the condition under which it holds:

- The reader's handle is taken by a proxy thread as soon as that is scheduled, so a comment's
  "already guaranteed finished by that path" (`watchdog.rs:270-272`) does not hold: the watchdog
  may find the slot empty while the reader is still running.
  `FollowTheorems.ProxyWinsAndLineRepeats` is a run in which a line is then delivered twice;
  `FollowTheorems.RepeatedExactly` says which lines are, `FollowTheorems.UncountedLinesRepeat` when.
- For the Docker follow the flag and the abort do not "jointly" rule out a consumer call after
  `close` returns (`rightsize/src/backend.rs:550-557`): a task already past its check makes one.
  `DockerFollow.LateCallExactly` says that this can happen to every log with a line in it,
  `DockerFollow.AtMostOneCallAfterTheFlag` that it is never more than one.
- A lock holder does not refresh its directory while it works, `touch` only runs on acquire
  (`provisioner.rs:205, 223`), so a holder that takes 600 s loses the lock:
  `InstallLock.OverstayIsReachable` and `InstallLock.OverstayBreaksExclusion` show it. A takeover
  in flight takes even a fresh directory from its holder, `InstallLock.FreshHolderLoses`.
  `InstallLock.HolderLosesExactly` is the exact condition for a holder, in every state, and
  `InstallLock.BreaksExactly` that for exclusion as a whole.
- Nonces of one process can collide between different instants; `Nonce.CollideExactly` says for
  which, and `Nonce.NextCallCollides` gives the one distance at which two successive calls do.
- A lone NUL as a captured command line is one empty argument, not nothing as the comment at
  `commands.rs:522-524` has it: `CapturedCmdline.NothingExactly`.
- The daemon's name filter matches any part of a network's name, and the first match is taken:
  `Networks.EnsureAgreesExactly` says when the cache can go wrong.

`dafny verify dfyconfig.toml` checks everything.

## Model

| member | source | states |
|---|---|---|
| `Wire.Socket.Read` | crates/rightsize-docker/src/frames.rs:125-133 | one socket read hands out any number of bytes from 1 to the buffer's size, nothing exactly at the end of input, an error there when the connection failed |
| `ChunkedGrammar.ChunkedWalk` | crates/rightsize-docker/src/frames.rs:105-179 | on every byte string the incremental decoder's data and end are those of the independent walk of the grammar: which stops end cleanly and which are errors |
| `ChunkedGrammar.WalkRoundTrip` | crates/rightsize-docker/src/client.rs:392-426 | however a body is cut into chunks, however their size lines spell the sizes (case, zeros, blanks, extensions) and whatever trailers and bytes follow, the walk restores the body and every framing line |
| `ChunkedGrammar.ChunkedRoundTrip` | crates/rightsize-docker/src/frames.rs:105-179 | the incremental decoding of every such encoding is the body with a clean end |
| `ChunkedGrammar.CutIsUnfinished` | crates/rightsize-docker/src/client.rs:392-426 | an encoding cut short anywhere, by its last byte even, is never a finished body |
| `ChunkedGrammar.CutInData` | crates/rightsize-docker/src/frames.rs:124-137 | cut inside the data of a chunk, the walk holds all data so far and says that it was cut there |
| `Spelling.ChunkSizeExactly` | crates/rightsize-docker/src/client.rs:399-408 | a size line reads as a number if and only if it is blanks around an optional plus sign, zeros and the hex digits of that number in either case, then nothing or an extension behind a semicolon, and the number fits 64 bits |
| `ChunkedCoding.InChunkPart` | crates/rightsize-docker/src/frames.rs:124-149 | taking part of a chunk leaves exactly the rest of the same chunk, also when the input stops inside it or inside the two bytes behind it |
| `BodyReading.BodyReader.constructor` | crates/rightsize-docker/src/frames.rs:77-88 | a new reader's remainder is the body as the headers delimit it: chunks, a length, or up to the close |
| `BodyReading.BodyReader.ReadLine` | crates/rightsize-docker/src/frames.rs:181-202 | reads exactly through the first line feed and strips one carriage return; without a line feed it fails, and how it fails says whether the connection did |
| `BodyReading.BodyReader.NextChunkSize` | crates/rightsize-docker/src/frames.rs:162-170 | the size at the front of the input, or the error of a missing or malformed size line |
| `BodyReading.BodyReader.DrainTrailers` | crates/rightsize-docker/src/frames.rs:172-179 | ends cleanly exactly when a blank line follows, through any number of trailer lines |
| `BodyReading.BodyReader.ReadExactOrEof` | crates/rightsize-docker/src/frames.rs:105-160 | under every short-read schedule, fills the buffer with the next bytes of the decoded remainder and leaves the rest of it; reports false only when no byte is left (or none was asked for) and fails exactly when fewer are left than asked for or the framing breaks first; terminates |
| `BodyReading.RemainderAfter` | crates/rightsize-docker/src/frames.rs:138-149 | what a read of n bytes leaves, with the two bytes behind a finished chunk taken at once: no budget left always means a size line comes next |
| `BodyReading.ConsecutiveSlices` | crates/rightsize-docker/src/frames.rs:105-160 | any sequence of calls, calls for no bytes included, hands out consecutive slices of one body, of the sizes asked for; the first call that does not is at the end of the body, or short of bytes, or at broken framing |
| `Dechunkers.ReadLine` | crates/rightsize-docker/src/client.rs:434-462 | succeeds exactly on a line of at most 8192 bytes before its line feed, and consumes exactly that line |
| `Dechunkers.ReadChunkedBody` | crates/rightsize-docker/src/client.rs:392-426 | succeeds exactly on bodies that the walk finishes with short enough lines, and then returns the walk's body |
| `Dechunkers.ReadTextLine` | crates/rightsize-docker/src/backend.rs:1245-1246 | a line through its line feed or to the end of input, valid UTF-8 only |
| `Dechunkers.BlockingReadChunkedBody` | crates/rightsize-docker/src/backend.rs:1240-1276 | succeeds exactly on UTF-8 lines of a body that is finished, or ends early only behind a zero-size line, and returns the walk's body |
| `Dechunkers.SameSize` | crates/rightsize-docker/src/backend.rs:1247-1256 | trimming the whole line first reads the same size as stripping its end does |
| `Dechunkers.ClientIsStrictest` | crates/rightsize-docker/src/client.rs:392-426 | wherever the async client succeeds on UTF-8 lines, the blocking and the incremental reader return the same bytes |
| `Dechunkers.IncrementalAccepts` | crates/rightsize-docker/src/frames.rs:134-153 | the incremental reader ends cleanly exactly on finished bodies and on those that a close cuts inside chunk data |
| `Dechunkers.OnlyDifferences` | crates/rightsize-docker/src/backend.rs:1240-1276 | without an early end, an over-long line or a line that is not UTF-8, all three agree on success and on the bytes |
| `Dechunkers.AllThreeRoundTrip` | crates/rightsize-docker/src/provider.rs:149-156 | every encoding with short UTF-8 lines is read back by all three |
| `Frames.ReadFrame` | crates/rightsize-docker/src/frames.rs:208-227 | the next frame of the remainder; none exactly at a clean end between frames; an error inside a header or payload or for an unknown stream type |
| `Frames.DemuxInto` | crates/rightsize-docker/src/frames.rs:232-245 | exactly the concatenations of the stdout and of the stderr payloads, in order, and how the frames ended |
| `Frames.FourBytesRoundTrip` | crates/rightsize-docker/src/frames.rs:219 | the big-endian length reads back for every 32-bit value |
| `Frames.FramesRoundTrip` | crates/rightsize-docker/src/frames.rs:208-227 | any list of frames, empty payloads and any padding included, in front of any body is read back as those frames and then that body's |
| `Frames.CutInsideFrame` | crates/rightsize-docker/src/frames.rs:208-227 | a body cut anywhere inside a frame, or failing in front of one, gives the frames before it and then the failure, or an error of its own at a clean end; never a shorter frame |
| `Frames.UnknownStream` | crates/rightsize-docker/src/frames.rs:213-218 | a frame of an unknown stream type ends the reading there, with an error that names the type |
| `Frames.FramesExactly` | crates/rightsize-docker/src/frames.rs:208-227 | on every body: the frames end cleanly if and only if the body does and all of it is frames, and then those frames are read |
| `Lines.CutIsFaithful` | crates/rightsize-docker/src/frames.rs:269-288 | cutting at line feeds loses nothing and no piece holds a line feed |
| `Lines.CutTerminated` | crates/rightsize-docker/src/frames.rs:275 | and only the text with these pieces is cut into them |
| `Lines.CutFromFragment` | crates/rightsize-docker/src/frames.rs:270-287 | once the complete lines are taken, the pending fragment is all that matters to later text |
| `LineAssembly.LineAssembler.Feed` | crates/rightsize-docker/src/frames.rs:269-288 | hands out the non-empty lines the text completes; afterwards no line feed is pending |
| `LineAssembly.LineAssembler.Flush` | crates/rightsize-docker/src/frames.rs:292-302 | hands out the pending fragment on the first call only |
| `LineAssembly.FeedsAreOneFeed` | crates/rightsize-docker/src/frames.rs:269-288 | feeding a text in any pieces delivers and leaves what feeding it whole does |
| `LineAssembly.FeedsThenFlush` | crates/rightsize-docker/src/frames.rs:260-303 | any feeds and one flush deliver exactly the non-empty lines of the text, in order |
| `LineAssembly.FeedsBehindAFlush` | crates/rightsize-docker/src/frames.rs:290-302 | what a flush has returned is not delivered again: later feeds start a new text |
| `LineAssembly.FlushesAtMostOnce` | crates/rightsize-docker/src/frames.rs:290-302 | over any call sequence flushing returns something at most once |
| `DockerLogs.FetchLogs` | crates/rightsize-docker/src/backend.rs:675-706 | from the connection's bytes, under every read schedule: the text of the frames' non-empty lines if and only if the connection carries frames to a clean end behind a head without an error status; an error otherwise |
| `DockerLogs.FetchExec` | crates/rightsize-docker/src/backend.rs:640-659 | likewise the two output streams of an exec |
| `DockerLogs.RepliesExactly` | crates/rightsize-docker/src/backend.rs:675-706 | on every input: `logs` and `exec` return an output if and only if a head with a status below 400 opens a body that ends cleanly and is all frames, and then the text or the two streams of those frames |
| `DockerLogs.CutIsAnError` | crates/rightsize-docker/src/backend.rs:691 | from the bytes: a connection that closes inside a frame before its length, its chunk or its close, or fails there or in front of a frame, gives both the error, never a shorter output |
| `DockerLogs.UnfinishedFrameIsAnError` | crates/rightsize-docker/src/frames.rs:208-227 | a complete body whose last frame is cut off gives both the error, under each framing |
| `DockerLogs.Refusal` | crates/rightsize-docker/src/backend.rs:675-690 | every printed head of status 400 and up is refused with that status, whatever follows |
| `DockerLogs.TextAppend` | crates/rightsize-docker/src/backend.rs:690-700 | the text is that of the frames one by one, in their order |
| `DockerLogs.EndToEnd` | crates/rightsize-docker/src/backend.rs:675-706 | for every list of frames, head, framing and cutting into chunks: `logs` returns exactly the non-empty lines of the stdout and stderr payloads in frame order, `exec` the per-stream concatenations |
| `DockerLogs.EveryCutIsAChunking` | crates/rightsize-docker/src/frames.rs:105-179 | every way of cutting a body into non-empty pieces is a chunking the end-to-end result covers |
| `DockerFollow.DeliversInOrder` | crates/rightsize-docker/src/backend.rs:726-762 | in every interleaving with close and abort the consumer has received the first so many non-empty lines, each once; all of them, the unfinished last one too, when the stream ended unclosed |
| `DockerFollow.FollowEndToEnd` | crates/rightsize-docker/src/backend.rs:708-766 | the same from the bytes of the connection, for every list of frames, head and framing |
| `DockerFollow.FollowOfCut` | crates/rightsize-docker/src/backend.rs:726-748 | a connection that closes inside a frame, or fails, ends the stream with exactly the complete frames before it |
| `DockerFollow.FollowRefusal` | crates/rightsize-docker/src/backend.rs:708-725 | every printed head of status 400 and up is refused |
| `DockerFollow.AtMostOneCallAfterTheFlag` | crates/rightsize-docker/src/backend.rs:731-762 | once the flag is set the consumer is called at most once more, line or tail, and only by a task already past its check |
| `DockerFollow.FlagEndsTheTask` | crates/rightsize-docker/src/backend.rs:726-762 | and the task is over after at most three of its own steps, with at most one more frame read |
| `DockerFollow.AbortEndsTheWait` | crates/rightsize-docker/src/backend.rs:726-762 | an abort that finds the task waiting for a frame ends it there for good |
| `DockerFollow.NoAbortBeforeTheReturn` | crates/rightsize-docker/src/backend.rs:750-762 | until `close` has returned, aborting changes nothing in any run |
| `DockerFollow.OneCallAfterCloseReturned` | crates/rightsize-docker/src/backend.rs:750-762 | from every state with such a task, that call can come after `close` has returned |
| `DockerFollow.LateCallExactly` | crates/rightsize-docker/src/backend.rs:726-762 | from the start of a follow, some run makes a call after `close` has returned if and only if the log has a non-empty line |
| `ResponseHead.ReadHead` | crates/rightsize-docker/src/client.rs:289-316 | consumes exactly through the first blank line if that lies within 8192 bytes; gives up at byte 8193 otherwise, or fails at the end of input |
| `ResponseHead.ParseHeaders` | crates/rightsize-docker/src/client.rs:320-359 | status, chunked and length as the specification that `HeadMeaning.MeaningExactly` is about |
| `ResponseHead.ReadFields` | crates/rightsize-docker/src/client.rs:333-353 | the header loop leaves what the last transfer-encoding and the last content-length line say |
| `ResponseHead.PrintedHeadLength` | crates/rightsize-docker/src/client.rs:289-316 | reading stops exactly behind a printed head, whatever follows |
| `ResponseHead.SplitPrinted` | crates/rightsize-docker/src/client.rs:321-322 | splitting a printed head gives back its lines |
| `ResponseHead.HeadRoundTrip` | crates/rightsize-docker/src/client.rs:320-359 | every printed head parses to the status its line gives and to what its last deciding fields say |
| `ResponseHead.StatusExactly` | crates/rightsize-docker/src/client.rs:322-331 | a status is read if and only if the second word of the line spells it, plus sign and zeros allowed, and it fits 16 bits |
| `HeadMeaning.MeaningExactly` | crates/rightsize-docker/src/client.rs:320-359 | for all lines, without the parser: the head is what its lines tell, chunked if and only if the last line naming transfer-encoding holds chunked, of length n if and only if the last line naming content-length spells n between blanks, letter case aside; and an error exactly without a status |
| `HeadMeaning.LowerExactly` | crates/rightsize-docker/src/client.rs:342-346 | lower-casing gives a name exactly for its case variants, byte by byte |
| `HeadMeaning.SplitExactly` | crates/rightsize-docker/src/client.rs:321-322 | for every text: cutting at CR LF gives the one list of lines without CR LF that make up the text |
| `HttpResponse.ReadHeaders` | crates/rightsize-docker/src/client.rs:289-316 | the parsed head, with the connection left exactly behind it, or the error; never more than 8193 bytes consumed |
| `HttpResponse.ReadBodyToEnd` | crates/rightsize-docker/src/client.rs:366-386 | a chunked body, exactly the announced number of bytes, or everything to a clean close; fails exactly when that is not there |
| `HttpResponse.Request` | crates/rightsize-docker/src/client.rs:203-217 | returns a response exactly when head and body are both complete, and then that status and that body |
| `HttpResponse.OpenedRoundTrip` | crates/rightsize-docker/src/client.rs:289-359 | every printed head of at most 8192 bytes is read back and nothing behind it is consumed |
| `HttpResponse.OpenedExactly` | crates/rightsize-docker/src/client.rs:289-359 | on every input: a response is opened if and only if a blank line ends within 8192 bytes and the status line gives a status, and then with what the lines tell and the input right behind; otherwise with which error |
| `HttpResponse.ResponseRoundTrip` | crates/rightsize-docker/src/client.rs:203-217 | for every status, fields, body and framing, the printed response is returned as that status and body |
| `HttpResponse.BodyRoundTrip` | crates/rightsize-docker/src/frames.rs:77-88 | the incremental reader gets the same body under each framing |
| `HttpResponse.CutReplyFails` | crates/rightsize-docker/src/client.rs:366-386 | a response cut short anywhere, or failed before its close, is never returned |
| `HttpResponse.CutArrives` | crates/rightsize-docker/src/frames.rs:105-160 | the incremental reader hands out all data of a cut body and then the clean end or the failure |
| `HttpResponse.AnnouncesExactly` | crates/rightsize-docker/src/client.rs:333-353 | a printed head announces a framing if and only if its field lines say so, letter case and blanks aside |
| `HttpResponse.FramingFieldAnnounces` | crates/rightsize-docker/src/client.rs:333-353 | between any other fields, one transfer-encoding or content-length field, in any letter case and spelling, announces each framing |
| `LinuxProbe.ReportsLinux` | crates/rightsize-docker/src/provider.rs:120-167 | true exactly when the response is complete with a success status and its body, under the framing its head announces, names Linux |
| `LinuxProbe.ProbeAgrees` | crates/rightsize-docker/src/provider.rs:120-167 | behind any printed success head, wherever the client returns a body, the probe's own cutting and the blocking dechunker give the same one, as long as the framing lines of a chunked body are UTF-8 |
| `LinuxProbe.ProbeExactly` | crates/rightsize-docker/src/provider.rs:120-167 | behind any printed head: nothing unless the status is 200 to 299, an unchunked body exactly as the client takes it, a chunked one exactly when the blocking reader accepts it |
| `LinuxProbe.NoHeadNoBody` | crates/rightsize-docker/src/provider.rs:121-123 | no response without a blank line |
| `LinuxProbe.LinesOfJoined` | crates/rightsize-docker/src/provider.rs:124-125 | cutting a printed head at line feeds gives the lines that cutting it at CR LF does |
| `TailText.ReplayIsSuffix` | crates/rightsize-msb/src/watchdog.rs:241-252 | replaying a fetched tail gives the log's own lines from the window's start plus the skip, up to the end |
| `TailText.LinesOfCutOff` | crates/rightsize-msb/src/watchdog.rs:455-460 | the lines of a text cut off are the first lines of the whole exactly when the cut is not inside a line |
| `TailText.AllButLastStay` | crates/rightsize-msb/src/watchdog.rs:371-374 | all lines of a growing log but the last are final |
| `TailText.TakeLines` | crates/rightsize-msb/src/watchdog.rs:453-456 | takes every complete line off the buffer and leaves the fragment |
| `TailText.DrainLines` | crates/rightsize-msb/src/watchdog.rs:444-461 | over any splitting into reads emits exactly the lines that a replay of the whole text from zero would, empty ones and the trailing fragment included |
| `TailText.TailExists` | crates/rightsize-msb/src/commands.rs:549-556 | every log has a tail of at most 1000 lines to fetch |
| `FollowInvariants.StepKeepsInv` | crates/rightsize-msb/src/watchdog.rs:61-296 | every step of every thread keeps: live calls are the pipe's lines from zero, replayed ones the fetched log's from the skip, who holds the reader's handle, and what close waits for |
| `FollowTheorems.AtMostOnce` | crates/rightsize-msb/src/watchdog.rs:207-296 | in every interleaving in which the reader had finished by the snapshot, no line index reaches the consumer twice and indices increase |
| `FollowTheorems.HandleMakesClean` | crates/rightsize-msb/src/watchdog.rs:273-288 | when the proxy did not take the handle, the reader had always finished by the snapshot |
| `FollowTheorems.RepeatsExactly` | crates/rightsize-msb/src/watchdog.rs:207-235 | a completed follow repeats a line if and only if the replay began below a line the reader delivered |
| `FollowTheorems.RepeatedExactly` | crates/rightsize-msb/src/watchdog.rs:207-235 | the lines a completed follow delivered twice are exactly those from the replay's base up to the live count |
| `FollowTheorems.AtMostTwice` | crates/rightsize-msb/src/watchdog.rs:88-235 | in every reachable state no line has been delivered a third time |
| `FollowTheorems.UncountedLinesRepeat` | crates/rightsize-msb/src/watchdog.rs:266-296 | seen from the snapshot: a drained follow repeats a line if and only if the count read there, from the window's start, is below the number of lines the pipe had by then carried |
| `FollowTheorems.ProxyWinsAndLineRepeats` | crates/rightsize-msb/src/watchdog.rs:148-157 | a run in which the proxy takes the handle first and one line is delivered twice |
| `FollowTheorems.DeliveredAreLogLines` | crates/rightsize-msb/src/watchdog.rs:207-252 | every call carries the log's line of its index, or the part of it there was |
| `FollowTheorems.CompleteExactly` | crates/rightsize-msb/src/watchdog.rs:207-252 | a completed follow whose reader had finished gave the whole log, once and in order, if and only if the pipe was not cut inside a line and the log has at most 1000 lines or nothing was left to replay |
| `FollowHandles.FollowHandle.Release` | crates/rightsize/src/backend.rs:611-621 | the flag is set before anything is joined; then every thread still there is joined and every task aborted, in order, and all slots are empty |
| `FollowHandles.FollowHandle.Close` | crates/rightsize/src/backend.rs:602-621 | a close with the drop behind it joins or aborts everything exactly once |
| `FollowHandles.EffectsExactly` | crates/rightsize/src/backend.rs:611-621 | each thread is joined and each task aborted, and nothing else is done |
| `FollowTheorems.CloseHaltsDelivery` | crates/rightsize/src/backend.rs:602-608 | once `close` has returned, no run makes another consumer call |
| `FollowProgress.CloseNeverStuck` | crates/rightsize-msb/src/watchdog.rs:130-162 | a `close` still waiting can always go on: some thread of the follow has a step to take |
| `FollowProgress.CloseReturns` | crates/rightsize-msb/src/watchdog.rs:130-162 | once a close is requested and the child dead, a run holds a bounded number of steps of the follow's threads whatever the sandbox does, one more is possible until `close` has returned, and after that many it has |
| `FollowProgress.KillerGetsThere` | crates/rightsize-msb/src/watchdog.rs:132-139 | and the child does die: until it is dead, the killer has a step to take, and there are at most two |
| `FollowCompletion.FollowCompletes` | crates/rightsize-msb/src/watchdog.rs:207-235 | from the kill of the child on, and as long as no fetch fails, a run holds a bounded number of steps of reader and watchdog whatever proxy, killer, closing caller and sandbox do, and one more is possible until the follow is completed |
| `FollowPolling.AfterEachLook` | crates/rightsize-msb/src/watchdog.rs:178-197 | in every run, what a look saw decides the watchdog's next step: a requested close and a dead child end it, a live child is looked up, only a listing without the sandbox leads to the kill |
| `FollowPolling.EachLookLeadsOn` | crates/rightsize-msb/src/watchdog.rs:178-197 | and that step stays possible until it is taken |
| `FollowPolling.AfterEachFlushStep` | crates/rightsize-msb/src/watchdog.rs:207-296 | the flush goes kill, handle, join if the handle was there, snapshot, one fetch, and the replay if and only if that succeeded |
| `FollowPolling.NoFlushWithoutAListing` | crates/rightsize-msb/src/watchdog.rs:189-195 | as long as no listing misses the sandbox, every consumer call is live and the watchdog kills, fetches and replays nothing |
| `FollowPolling.ListingCompletes` | crates/rightsize-msb/src/watchdog.rs:189-235 | a follow whose sandbox a listing missed completes by itself: the kill, then a bounded number of steps of reader and watchdog, unless a fetch fails |
| `FollowPolling.ChildIsLeftAlone` | crates/rightsize-msb/src/watchdog.rs:132-197 | the child is dead, or the watchdog gone, only after the child's own exit, a listing without the sandbox or a requested close |
| `Poller.Follow` | crates/rightsize-msb/src/watchdog.rs:336-384 | for every outcome of every listing and fetch, every moment of close and every growing log: whole lines of the final log, in order, each at most once; with at most 1000 lines a prefix of it, always but for the last line of the latest fetch, and after a successful terminal fetch all of it; the outcome says how it ended, and no line is delivered at a look that finds the follow closed |
| `Poller.RunningRound` | crates/rightsize-msb/src/watchdog.rs:361-381 | a running sandbox's round delivers what is new in the window but its possibly half-written last line |
| `Poller.TerminalTail` | crates/rightsize-msb/src/watchdog.rs:417-440 | a successful terminal fetch delivers everything outstanding; without one the outcome says so and nothing is delivered |
| `Poller.FetchTerminal` | crates/rightsize-msb/src/watchdog.rs:424-433 | the first successful attempt is the one used; without a close, none is given only when every attempt failed |
| `Install.StepKeepsInv` | crates/rightsize-msb/src/provisioner.rs:308-437 | every file operation, failure and crash of any process keeps installed files verified, the library before the binary, and the others' temp files |
| `Install.InstallSafety` | crates/rightsize-msb/src/provisioner.rs:108-347 | in every interleaving of any number of processes and crashes, lock or no lock: the binary is there only executable, matching its checksum and beside a library that matches its own; the installed-check finds exactly that, and a call returned success only then |
| `Install.InstalledForGood` | crates/rightsize-msb/src/provisioner.rs:321-329 | a complete install is never broken by anyone's later step |
| `Install.DiligentRun` | crates/rightsize-msb/src/provisioner.rs:108-139 | while a call's own operations succeed, its writes reaching the disk in any pieces and its cleanups failing or not, it never comes to fail, and each operation brings it nearer to its return |
| `Install.Repair` | crates/rightsize-msb/src/provisioner.rs:108-139 | whatever earlier calls left and others do meanwhile, a call whose own operations succeed returns success within 16 of them, with the install complete |
| `InstallCalls.InstalledCallsReturn` | crates/rightsize-msb/src/provisioner.rs:119-121 | where the install is complete, every call looks once and returns success, whatever others do and with nothing downloaded: its place is told by its steps alone and none of them touches a file |
| `InstallCalls.InstalledCallIsTwoSteps` | crates/rightsize-msb/src/provisioner.rs:119-121 | so from every state of every run with the install complete |
| `InstallCalls.InstalledMeanwhile` | crates/rightsize-msb/src/provisioner.rs:135-137 | a call that waited and finds another's install complete returns it with its next step |
| `InstallCalls.IncompleteComesToTheDownload` | crates/rightsize-msb/src/provisioner.rs:119-138 | with the binary missing, not executable or without its library, a call alone comes to the download and changes nothing before |
| `InstallCalls.FailureFailsTheCall` | crates/rightsize-msb/src/provisioner.rs:308-437 | one failed operation or mismatched download touches no installed file and, after at most two cleanups, has returned an error, whatever others do |
| `InstallCalls.ReturnsTidily` | crates/rightsize-msb/src/provisioner.rs:322-331 | a call not killed, whose cleanups worked, leaves no temp file that was not there before; a failed one at most its verified binary |
| `Install.NeverStuck` | crates/rightsize-msb/src/provisioner.rs:108-139 | from every reachable state and every place of a call that has met no failure, the call can be finished by itself, with success and a complete install, while the published assets match their checksums |
| `InstallLock.StepKeepsInv` | crates/rightsize-msb/src/provisioner.rs:200-255 | every step from a calm state keeps: a holder's directory is its own and fresh, a process about to remove one still sees a stale one |
| `InstallLock.Exclusion` | crates/rightsize-msb/src/provisioner.rs:192-255 | while no process holds on until the directory is stale and no two stale takeovers overlap, at most one process holds the lock, and the directory is the one it made |
| `InstallLock.PromptExclusion` | crates/rightsize-msb/src/provisioner.rs:192-255 | at most one process holds the lock while every live holder is done within 600 s of acquiring it and no two stale takeovers overlap |
| `InstallLock.BreaksExactly` | crates/rightsize-msb/src/provisioner.rs:200-255 | in every state of two or more processes: two of them can, with no time passing, come to hold the lock together if and only if the directory is stale, or two processes are busy with the lock (holding it, or about to remove the directory), or one is while there is no directory |
| `InstallLock.CalmBreaksExactly` | crates/rightsize-msb/src/provisioner.rs:200-255 | along a run without overlapping takeovers or overstaying that comes down to the directory being stale |
| `InstallLock.OverlapBreaksExclusion` | crates/rightsize-msb/src/provisioner.rs:169-183 | two overlapping takeovers can always both succeed |
| `InstallLock.OverlapIsReachable` | crates/rightsize-msb/src/provisioner.rs:169-183 | and do, after one crash and with no live holder overstaying |
| `InstallLock.OverstayBreaksExclusion` | crates/rightsize-msb/src/provisioner.rs:211-255 | a holder past 600 s loses the lock to the next poll and on release removes its successor's directory |
| `InstallLock.OverstayIsReachable` | crates/rightsize-msb/src/provisioner.rs:200-248 | that state is reached: one process works for 600 s while another polls |
| `InstallLock.HolderLosesExactly` | crates/rightsize-msb/src/provisioner.rs:211-227 | in every state: with no time passing and nothing done by the holder, another process can come to hold the lock if and only if the directory is missing or stale, or somebody else already holds the lock or is about to remove the directory |
| `InstallLock.CalmHolderLosesExactly` | crates/rightsize-msb/src/provisioner.rs:211-227 | along a run without overlapping takeovers or overstaying, that is so if and only if the modification time of the directory is 600 s old |
| `InstallLock.FreshHolderLoses` | crates/rightsize-msb/src/provisioner.rs:169-183 | a reached state in which the holder of a directory made this instant can lose it, to a takeover in flight |
| `InstallLock.TouchBuysTheAge` | crates/rightsize-msb/src/provisioner.rs:205-227 | a touch buys 600 s from its own moment: for less than that the toucher alone holds the lock, whatever others do, when none of them was busy with it |
| `InstallLock.DeadlineEndsTheWait` | crates/rightsize-msb/src/provisioner.rs:200-248 | no waiter waits on: past its deadline it makes at most five system calls, whatever the others do to the directory, and then has the lock or has given up |
| `InstallLock.Waiter.Acquire` | crates/rightsize-msb/src/provisioner.rs:200-248 | the loop is, step by step, a run of the lock's state machine; a lone waiter takes an abandoned lock over if and only if it was 600 s old at the last reading of its age; so always when it turns stale in time before the 300 s deadline, never when later than the last poll can be; a timeout comes no earlier than the deadline |
| `Nonce.Low48Is` | crates/rightsize/src/checkpoint.rs:335-339 | the wrapping 128-bit mix, cut to 48 bits, is the sum modulo 2^48 |
| `Nonce.PaddedHexInjective` | crates/rightsize/src/checkpoint.rs:340 | twelve hex digits tell any two 48-bit numbers apart |
| `Nonce.PaddedHexReads` | crates/rightsize/src/checkpoint.rs:340 | what is printed are lower-case hex digits that spell the number |
| `Nonce.CollideExactly` | crates/rightsize/src/checkpoint.rs:323-341 | two nonces are equal if and only if the times differ, modulo 2^48, by the multiplier's inverse times the opposite difference of pid plus counter |
| `Nonce.SameInstant` | crates/rightsize/src/checkpoint.rs:323-341 | with time and pid fixed, exactly counters congruent modulo 2^48 collide |
| `Nonce.SameCounter` | crates/rightsize/src/checkpoint.rs:323-341 | with pid and counter fixed, exactly times congruent modulo 2^48 collide |
| `Nonce.NextCallCollides` | crates/rightsize/src/checkpoint.rs:312-318 | two successive calls collide at exactly one distance in time below 2^48 ns |
| `Nonce.BackToBackDistinct` | crates/rightsize/src/checkpoint.rs:327-328 | fewer than 2^48 calls at one instant never collide, across the counter's wrap-around too |
| `Nonce.CallsCollideExactly` | crates/rightsize/src/checkpoint.rs:327-340 | when the nonces of two numbered calls of one process are equal, across the wrap-around of the counter |
| `Nonce.Counter.GenerateRefNonce` | crates/rightsize/src/checkpoint.rs:323-341 | over all calls of a process: a call's nonce is that of an earlier call if and only if their times lie at the one distance modulo 2^48 that makes up for the calls between, so it differs from each of the last 2^48 - 1 made at the same instant |
| `Networks.DockerNetworks.EnsureNetworkGetId` | crates/rightsize-docker/src/backend.rs:192-250 | whatever the daemon answers, cache, daemon and result are those of the specification the properties are about |
| `Networks.DockerNetworks.RemoveNetwork` | crates/rightsize-docker/src/backend.rs:773-795 | likewise for the best-effort remove |
| `Networks.RunKeepsAgreement` | crates/rightsize-docker/src/backend.rs:192-271 | over every sequential run with no network's name containing a name used, each cached id is the daemon's id of that name |
| `Networks.EnsureAgreesExactly` | crates/rightsize-docker/src/backend.rs:202-218 | an ensure keeps the cache right under every answer of the daemon if and only if the name is cached or no other network's name contains it |
| `Networks.EnsuredOnce` | crates/rightsize-docker/src/backend.rs:193-200 | until its removal a name keeps its id and further ensures create nothing |
| `Networks.EnsuredIdStays` | crates/rightsize-docker/src/backend.rs:192-250 | the id an ensure returns is the one every later ensure of the name returns, until its removal |
| `Networks.EnsureReturnsTheCached` | crates/rightsize-docker/src/backend.rs:192-250 | an ensure returns what it leaves in the cache; when it finds an id, which one, and that only a creation adds a network |
| `Networks.EnsureKeepsOneEach` | crates/rightsize-docker/src/backend.rs:208-250 | an ensure makes a second network of a name if and only if the name exists uncached, the listing was refused and the creation worked |
| `Networks.RunKeepsOneEach` | crates/rightsize-docker/src/backend.rs:192-250 | over every run whose listings are answered, failed ensures and removes included, there is at most one network of each name |
| `Networks.RemoveIsComplete` | crates/rightsize-docker/src/backend.rs:773-795 | a remove the daemon could answer leaves neither entry nor network, and no other network is touched |
| `RegistryNames.FileNamesInjective` | crates/rightsize/src/cache_dir.rs:61-72 | different entries and different writes use different file names |
| `RegistryNames.ListedExactly` | crates/rightsize/src/checkpoint.rs:297-300 | the listing's extension filter takes every entry with a name and no temp file |
| `RegistryNames.ListedBySuffix` | crates/rightsize/src/checkpoint.rs:297-300 | the filter takes a name if and only if it ends in `.json` behind something |
| `Registry.StepKeepsInv` | crates/rightsize/src/checkpoint.rs:245-279 | every step of any writer, reader or deleter and every crash keeps: renamed files are complete and never touched again |
| `Registry.ReadsAreAtomic` | crates/rightsize/src/checkpoint.rs:245-279 | a read, however it is split and raced, returns exactly what the registry said at its open, never part of an entry |
| `Registry.EntriesAreComplete` | crates/rightsize/src/checkpoint.rs:288-309 | at any moment, whatever the listing's filter picks out of the directory is an entry that the last rename of its name left, complete and parseable |
| `Registry.LastEntriesAreListed` | crates/rightsize/src/checkpoint.rs:288-309 | and every entry the last renames left is in the directory, passes the filter and parses to that entry |
| `Registry.ListingsAreFaithful` | crates/rightsize/src/checkpoint.rs:288-309 | a listing, each file opened and read in its own steps while others write, finds path by path exactly what the registry said when that path was opened, and nothing for a temp file |
| `RegistryHistory.ReadAfterTheLastChange` | crates/rightsize/src/checkpoint.rs:245-279 | told by the steps alone: a finished read returns the draft that the last rename of its name before its open put there, and nothing after a delete or when there was neither |
| `RegistryHistory.NamedAfterTheLastChange` | crates/rightsize/src/checkpoint.rs:265-279 | a name whose last change is a delete is not in the directory; after a rename it is, with that draft |
| `RegistryHistory.ReadsFollowTheSteps` | crates/rightsize/src/checkpoint.rs:245-250 | every finished read equals the fold of the steps at its open |
| `RegistryHistory.ListingsFollowTheSteps` | crates/rightsize/src/checkpoint.rs:288-309 | every listing has found, path by path, what the fold of the steps says at each open |
| `RegistryHistory.DirectoryFollowsTheSteps` | crates/rightsize/src/checkpoint.rs:252-279 | the directory holds exactly the entries of that fold, each complete, and the temp files of writes not renamed |
| `RegistryHistory.DraftIsTheLatestWrite` | crates/rightsize/src/checkpoint.rs:259-275 | the draft a process renames is its latest write |
| `Argv.Run` | crates/rightsize-msb/src/commands.rs:28-100 | the loops push exactly the printed command line the parser is proved against |
| `ArgvSpelling.RunBeginsSpelled` | crates/rightsize-msb/src/commands.rs:34-62 | name, memory, disk and tmpfs options spelled out |
| `ArgvSpelling.RunMiddleSpelled` | crates/rightsize-msb/src/commands.rs:63-83 | network, egress and port options spelled out |
| `ArgvSpelling.RunEndsSpelled` | crates/rightsize-msb/src/commands.rs:84-100 | environment, mounts, image and command spelled out |
| `ArgvReadBack.RunReadsBackExactly` | crates/rightsize-msb/src/commands.rs:28-100 | a reference parser recovers the whole spec from its command line if and only if no env key holds an equals sign, no guest path a colon, and the image is not a flag |
| `Argv.Restore` | crates/rightsize-msb/src/commands.rs:175-225 | likewise for the restore, its combined egress rule included |
| `ArgvSpelling.RestoreSpelled` | crates/rightsize-msb/src/commands.rs:175-200 | a restore spelled out |
| `ArgvSpelling.PolicySpelled` | crates/rightsize-msb/src/commands.rs:212-224 | and its one rule for egress ports |
| `ArgvReadBack.RestoreReadsBackExactly` | crates/rightsize-msb/src/commands.rs:175-225 | snapshot path, name, memory, ports, mounts and egress ports read back from a restore's command line if and only if no guest path holds a colon |
| `ArgvReadBack.PolicyReadsBack` | crates/rightsize-msb/src/commands.rs:212-221 | any list of egress ports reads back from the one rule a restore gives |
| `ArgvReadBack.PortReadsBack` | crates/rightsize-msb/src/commands.rs:233-238 | host port, guest port and protocol read back |
| `ArgvReadBack.MountReadsBackExactly` | crates/rightsize-msb/src/commands.rs:266-273 | a mount reads back, drive colons in the host path included, if and only if its guest path holds no colon |
| `ArgvReadBack.EnvReadsBackExactly` | crates/rightsize-msb/src/commands.rs:79-82 | a variable reads back if and only if its key holds no equals sign |
| `CapturedCmdline.ParseCapturedCmdline` | crates/rightsize-msb/src/commands.rs:525-532 | returns the one NUL-free argument list that the output is a capture of, its last NUL and a line feed optional, and nothing if and only if the output is empty or one line feed |
| `CapturedCmdline.CaptureRoundTrip` | crates/rightsize-msb/src/commands.rs:525-532 | every NUL-free argument list, empty arguments included, reads back with or without the line feed |
| `CapturedCmdline.NothingExactly` | crates/rightsize-msb/src/commands.rs:522-532 | nothing was captured if and only if the output is empty or one line feed |

## Left out

- Lossy UTF-8 decoding: `logs` takes the decoding as a function of one frame's bytes, the blocking reader the validity of a line as a predicate; whitespace around chunk sizes, header names and values is the ASCII kind.
- Header text beyond ASCII is compared byte by byte; the source compares it after the lossy decoding.
- Reserving memory for an announced chunk or payload size before its bytes arrive; `usize` is 64 bits wide.
- Connecting, writing the request, timeouts and the deadline around a whole request.
- `LinuxProbe.ReportsLinux`: whether the body's JSON names Linux is a predicate.
- The JSON bodies of requests and responses, the exit code of an exec, pulls, container creation and the other daemon calls.
- `FollowProtocol`: the pipe of `msb logs -f` is taken to carry the log from its first line, in order; the name listing may wrongly say that the sandbox is gone, as its exit code is not looked at, and the tail fetch returns the last 1000 lines or fails.
- `FollowProtocol.Next`: the 2 s bound on the reader's join only delays the same join, so it is not a step; sleeps are any delay.
- `Poller.Follow`: the deadline of the terminal fetch appears as the number of attempts.
- `FollowHandles.FollowHandle.Close`: joining and aborting are entries in a record; what waiting for them means for the consumer is in the two follow models.
- `Install`: `MSB_PATH`, the platform table, the skip-download setting and the parsing of `checksums.sha256`; the published checksums are the same for every process. A process makes one call at a time, and live processes have distinct pids.
- `Install.InstallSafety`: holds with every process through the lock step at any time, so nothing in it needs the lock; what the lock does is `InstallLock`.
- `InstallLock`: one clock for all processes that never goes back; errors of `mkdir` other than an existing directory, and of removing one.
- `Registry`: JSON is an encoder and a decoder that inverts it; a write's pid, counter and time never repeat together; reading the directory's names is one step of a listing; what entries point at.
- `Networks.RemoveIsComplete`: a delete the daemon refuses leaves the network there, as the source means it to.
- `Networks`: calls of one backend are sequential; a network created although its answer could not be read counts as created by someone else.
- `Argv`: the one-shot command lines of copy, snapshot and exec; the debug assertion that `run` gets no checkpoint.
- `exec_tunnel.rs`, diagnostics, backend selection, platform detection, archives, cleanup of other processes' leftovers, and the ready-made modules: bounded sequences over external tools, formatting, or short scans that would only add easy members.
