# A verified model of the multiplexing Redis client

This project models the core of a Redis client library that lets many blocking callers share one pipelined
connection, and proves what that core promises. Five components are modelled, each in the form the C code has:

- the incremental RESP reader (`Bytes`, `Numbers`, `Resp`, `ReaderMachine`, `Reader`): a class with the buffer, the
  nine-slot task stack and the half-built reply tree of `read.c`. It is proved against a small pure machine, and the
  machine against a recursive grammar, so that what the reader hands out for any cutting of the byte stream is what
  the grammar finds in the whole stream;
- the command printers and the argument scanner (`Command`, `FormatGrammar`): three printers that produce the same
  bytes, fill exactly the size they computed first, and are inverted by the reader and by the scanner; and what a
  format denotes, part by part;
- the asynchronous engine (`CallbackList`, `Async`) and the multiplexing protocol on top of it (`Multiplex`,
  `ReplyMatching`, `RecordLifetimes`): conservation of callbacks and a teardown that happens once, under callbacks
  that call back into the engine; and, for callers, event loop, socket and server that interleave freely, who gets
  which reply and who frees which request record. `EngineProtocol` joins the two: until an error ends the connection,
  what the engine does to a context is what the protocol's steps do to its state;
- the hash table (`Dict`): linked buckets relinked in place, proved to be a finite map, and its iterator;
- dynamic strings (`Sds`, `SdsRepr`, `LineGrammar`) and timers (`Timers`): a header that never truncates a length, a
  grammar of the lines that splitting accepts, quoting and splitting as inverses, and the timer pass over a list that
  its callbacks mutate.

## Assumptions

- Allocations succeed. Reads, writes, the clock, the server and the application's callbacks are inputs: sequences of
  results, functions of the history, or scripts of calls back into the library.
- Declared lengths and counts lie in [-1, 2^31), integers fit 64 bits and lie strictly above the least one, buffers
  are shorter than 2^31 bytes. The reader's arithmetic is therefore on unbounded integers; a declared count below -1
  is kept and modelled as the element-less array the code creates for it.
- In the protocol model, a step is one locked region, one event of the loop thread, one reply callback, or one access
  of a caller to its record. One connection is followed from established to released; writes to the wake-up pipe
  succeed; the server answers in order, with replies the protocol can carry (no line break inside one-line texts, at
  most eight nested arrays).
- Request records have addresses, and a freed one's address can be allocated again, to the record of another caller
  of the connection. A caller's first status test and the allocation of its record are one step, so that no record is
  allocated after the disconnect; what other code allocates at a freed address is not modelled.
- `replyCallback` is one step. In the code the decrement of the reference count (`hiredis.c:158`) and the store of the
  reply with the post of the semaphore (`hiredis.c:165-166`) are two accesses: a caller that times out and leaves
  between them frees the record, and the store then writes to freed memory, or to whatever has been allocated there.
  The theorems hold for runs in which no caller does that.
- The C locale is assumed for character classes.

## Properties that turned out not to hold as one would hope

- A request whose caller times out can be freed twice: when the caller misses its record in `cmd_list` because the
  engine already took it, and the connection is down at the status test (`hiredis.c:1874-1890`).
  `RecordLifetimes.TimeOutCanFreeTwice` is a run that does it, for any server and command. It can also be left to
  nobody, as in `TimeOutCanLeak`. And since `cmd_list` is searched by address, a caller whose record was freed by the
  late reply can take out, and free, the record of another caller to which the address has gone: `AddressUsedAgain`,
  `StaleSearchCanLeak` and `StaleFreeCanHit` are runs. `FreedTwiceIff`, `HitIff`, `LostIff`, `LeakedIff` and
  `SecondFreeGuard` say exactly when each of this happens, and `UninterruptedCallerIsSafe` that a caller which nothing
  interrupts between dropping its reference and returning neither frees twice nor touches the record of another.
- A connection on which the first event comes while the connect is still in progress is lost: the check leaves its
  error on the context (`net.c:244-248`, `async.c:557-560`), and the event that completes the connection takes that
  error for its own (`hiredis.c:971`, `hiredis.c:1007`). `Async.UsableIff` says exactly which connections are usable,
  and `Async.EarlyCheckLosesConnection` is a context that is lost.
- A connect callback that frees the context, or disconnects it while nothing is pending, leaves the event handler
  with a released context. `Async.AsyncContext.HandleConnect` states the exact condition on the callback's calls, and
  `Async.ConnectCallbackCanRelease` is an instance.
- In the timer pass, a finalizer that creates a timer can lose it: `Timers.FinalizerLosesTimer` is a loop on which
  this happens, the contract of `ProcessTimeEvents` counts the loss exactly, `LostIff` says when it is not zero, and
  `QuietFinalizersLoseNothing` that finalizers which create no timer lose none.
- `redisProcessCallbacks` asserts that a reply without a waiting callback is an error reply.
  `Async.SpuriousReplyAborts` is a context on which the assertion fails, `ProcessCallbacks` reports exactly when it
  does, and `ReplyMatching.NoSpuriousReply` shows that it does not with a server that answers each command once.

## Model

| member | source | states |
|---|---|---|
| `Bytes.StrChr` | async.c:626-638 | the first occurrence before the terminating NUL, and none only when every occurrence lies behind a NUL, as the argument scanner's searches find it |
| `Numbers.DigitsFit` | sds.c:429-488 | every 64-bit magnitude prints in at most twenty digits, every signed one in nineteen |
| `Numbers.DecimalRoundTrip` | read.c:148-173 | reading the printed form of any integer returns that integer |
| `Numbers.ReadDigitsMonotone` | read.c:148-173 | the accumulator never exceeds the number finally read, so it cannot overflow when that fits |
| `Numbers.ReadLongLongAt` | read.c:148-173 | the scanning loop returns the signed number a line spells, and -1 on any unexpected byte |
| `Numbers.SignedRead` | read.c:148-173 | leading zeros and either sign read as in the usual notation |
| `Numbers.ReadDigitsIff` | read.c:161-170 | digits are read up to the first CR whatever is behind it, and exactly text without another byte reads as a number |
| `Numbers.UnexpectedByte` | read.c:148-173 | a line that is not digits behind at most one sign reads as -1 |
| `Numbers.CountDigits` | hiredis.c:365-375 | the loop by four digits at a time returns the length of the printed number |
| `Numbers.DigitsStep4` | hiredis.c:365-375 | dividing by ten thousand removes exactly four digits, for numbers that have more |
| `Numbers.ReverseInPlace` | sds.c:449-457 | the in-place swap loop leaves the reversal of the prefix and nothing else changed |
| `Numbers.LongLongToString` | sds.c:430-459 | the signed decimal text and its NUL fit the 21-byte buffer, for every value above the least one |
| `Numbers.UnsignedToString` | sds.c:462-488 | the unsigned decimal text and its NUL fit the 21-byte buffer, for every 64-bit value |
| `Resp.NewlineExtends` | read.c:120-144 | a line end that has arrived is not displaced by later bytes |
| `Resp.ReadItemExtends` | read.c:215-365 | the verdict on one item never changes when more bytes arrive |
| `Resp.ReplyRoundTrip` | read.c:190-414 | the grammar parses the encoding of any carriable reply back, consuming exactly its bytes, whatever follows |
| `Resp.TooDeepRefused` | read.c:309-314 | an encoded reply with too many nested arrays is refused, wherever in it the ninth level is |
| `Resp.StreamRoundTrip` | read.c:190-414 | a stream of encoded replies parses to exactly those replies, and what follows them is left over |
| `Resp.NilArrayIsNil` | read.c:316-331 | the array spelling of nil is a nil reply |
| `Resp.ParseReplyExtends` | read.c:367-414 | more bytes never change a verdict of the grammar |
| `Resp.ParseStreamExtends` | read.c:445-525 | more bytes only add replies, and a broken stream stays broken in the same way |
| `Resp.PrefixOfEncoding` | read.c:445-525 | any prefix of encoded replies parses to a prefix of them, without error |
| `ReaderMachine.Deliver` | read.c:190-213 | handing a value upwards leaves every open array short of its count, or completes the outermost one |
| `ReaderMachine.Step` | read.c:367-414 | one item keeps the stack valid, and on success strictly shrinks the unread bytes |
| `ReaderMachine.StepFeed` | read.c:367-414 | feeding commutes with processing an item, and a stuck item resumes where it was |
| `ReaderMachine.AskThenFeed` | read.c:445-525 | asking for a reply before more bytes arrive only moves that reply to the front |
| `ReaderMachine.ExecIsOneFeed` | read.c:445-525 | from any state, an interleaving of feeds and asks yields what one feed of all the bytes does |
| `ReaderMachine.ChunkIndependence` | read.c:445-525 | every cutting of a byte stream into feeds and asks gives the same replies and the very same end state or error as one feed |
| `ReaderMachine.RunParses` | read.c:190-414 | from any stack, the machine does with the unread bytes what the recursive grammar says of them |
| `ReaderMachine.RunParsesMany` | read.c:190-365 | an open array is filled and closed as the grammar reads its remaining elements |
| `ReaderMachine.DrainParses` | read.c:477-525 | a fresh reader hands out exactly the replies of the grammar and fails exactly when and how it does |
| `ReaderMachine.ReaderRoundTrip` | read.c:190-525 | for every cutting, encoded replies come out as they went in, in order, and no byte is left over |
| `ReaderMachine.DrainConsumes` | read.c:477-525 | replies consume exactly their own bytes, whatever follows them |
| `ReaderMachine.NinthLevelIsFatal` | read.c:309-314 | an array under eight array ancestors ends the stream: however the rest is cut, no reply comes out any more and the reader is in that error |
| `ReaderMachine.FeedBehaves` | read.c:445-525 | at any point of a use, the replies handed out and those still to come after one more chunk are those of the whole stream |
| `ReaderMachine.AskBehaves` | read.c:477-525 | at any point of a use, a request moves one reply from those still to come to those handed out and changes nothing else |
| `Reader.SeekNewline` | read.c:120-144 | the search loop finds the first line end, and -1 only when there is none |
| `Reader.RedisReader.constructor` | read.c:416-435 | a new reader is valid and in the machine's initial state |
| `Reader.RedisReader.SetError` | read.c:46-70 | an error drops the partial reply, the buffer and the task stack, and leaves a valid reader that only knows the error |
| `Reader.RedisReader.MoveToNextTask` | read.c:190-213 | the climb over finished arrays does what delivering the value to the open arrays does, and the root then holds the whole tree |
| `Reader.RedisReader.Adopt` | hiredis.c:274-361 | the new object goes into the one empty slot the parent's cursor names; the builders' asserts hold |
| `Reader.RedisReader.CreateLeaf` | hiredis.c:274-361 | the created object, linked to its parent, holds exactly the given value |
| `Reader.RedisReader.CreateArray` | hiredis.c:306-329 | a new array has all its slots empty and is linked to its parent |
| `Reader.RedisReader.ProcessLineItem` | read.c:215-247 | refines the machine's step for statuses, errors and integers |
| `Reader.RedisReader.ProcessBulkItem` | read.c:249-300 | refines the machine's step for bulk strings; nothing is consumed until all of it is there |
| `Reader.RedisReader.ProcessMultiBulkItem` | read.c:302-365 | refines the machine's step for arrays, the depth limit and the declared counts -1 and 0 included |
| `Reader.RedisReader.ProcessItem` | read.c:367-414 | refines the machine's step on arbitrary bytes, keeping stack, cursors and tree consistent |
| `Reader.RedisReader.Feed` | read.c:445-475 | refines appending to the unread bytes, whether or not the buffer is dropped first |
| `Reader.RedisReader.ProcessItems` | read.c:501-504 | the loop ends and does what a whole run of the machine does |
| `Reader.RedisReader.Compact` | read.c:510-516 | dropping the consumed part of the buffer is invisible |
| `Reader.RedisReader.GetReply` | read.c:477-525 | hands out exactly the machine's reply, as a complete object tree the reader no longer refers to |
| `Reader.ReadStream` | read.c:445-525 | any interleaving of chunks and requests, each chunk with its own buffer state, hands out the object trees of the grammar on the whole stream, and fails exactly when the grammar does |
| `Command.FormatIsEncoding` | hiredis.c:702-738 | a printed command is the protocol's encoding of an array of bulk strings |
| `Command.FormatAllAppend` | hiredis.c:1079-1090 | printing is additive over lists of commands |
| `Command.CommandsParseBack` | hiredis.c:649-738 | a stream of printed commands parses back to exactly those argument lists, binary bytes included |
| `Command.BulkLen` | hiredis.c:378-380 | the computed length is the printed length of any argument of that size |
| `Command.TotalLen` | hiredis.c:712-717 | the precomputed total is the length of the printed command |
| `Command.Fill` | hiredis.c:719-734 | the fill pass writes the command and its NUL, ends exactly at the precomputed total and never outside the buffer |
| `Command.FormatCommandArgv` | hiredis.c:702-738 | the result is the printed argument list, in a buffer of exactly the precomputed size |
| `Command.FormatSdsCommandArgv` | hiredis.c:649-691 | the same bytes, and the precomputed size is the length of the string built |
| `Command.TokensAreTheTexts` | hiredis.c:649-738 | texts given with their lengths, and C strings, are the arguments printed, whatever memory is behind them |
| `Command.Scan` | hiredis.c:398-563 | the scanning loop collects the maximal runs of literal and interpolated text, which `FormatGrammar.FormatDenotes` spells out, and sums their printed lengths |
| `Command.FormatCommand` | hiredis.c:382-614 | a format of literals, spaces, `%s`, `%b` and `%%` prints as the argument list it denotes, in a buffer of the exact size; `FormatGrammar` says which list that is |
| `Command.InterpolationNeverSplits` | hiredis.c:403-446 | the number of arguments depends on the format alone, so interpolated spaces never split and empty interpolations still count |
| `FormatGrammar.FormatDenotes` | hiredis.c:398-563 | a format made of arguments behind spaces denotes exactly these arguments: in each, literals, `%s` (up to the NUL), `%b` (the bytes counted) and `%%` contribute their texts in order; a percent sign at the very end stands for itself |
| `FormatGrammar.DirectivesPrintTheirArguments` | hiredis.c:426-446 | one `%b` for each argument of any list, or `%s` where the argument holds no NUL, separated by spaces, prints that list |
| `FormatGrammar.LiteralsPrintThemselves` | hiredis.c:403-424 | a format without a percent sign prints its words |
| `Command.ArgumentFound` | async.c:626-638 | at an argument the scanner finds exactly it, whatever bytes it holds, and goes on right after it |
| `Command.FirstArgumentFound` | async.c:626-638 | from the start of a command the scanner skips the count line, and finds nothing when there is no argument |
| `Command.Arguments` | async.c:626-638 | iterating the scanner over any printed command enumerates exactly its arguments, even with `$` or CR inside |
| `Command.RegularIff` | async.c:660-689 | a command is none of the special ones exactly if it has a name, the name is neither unsubscribe nor monitor, and it is not subscribe with something to subscribe to, each in any case and behind an optional p |
| `Command.NamedIff` | async.c:664-689 | a name without CR is such a word exactly if it has its letters, but for their case and a leading p |
| `CallbackList.CallbackList.Push` | async.c:243-263 | the linked queue gains the callback at its end and nothing else |
| `CallbackList.CallbackList.Shift` | async.c:265-279 | the oldest callback leaves the linked queue, and an empty queue says so |
| `Async.AsyncContext.constructor` | async.c:109-147 | a new context is unconnected, holds the callbacks given, and satisfies the conservation invariant with nothing pushed and nothing received |
| `Async.AsyncContext.AsyncCommand` | async.c:643-708 | a command is refused exactly when the context is closing; otherwise callback and bytes are both queued |
| `Async.AsyncContext.RunInCallback` | async.c:281-288 | whatever a callback calls, the context is not released and nothing is settled; once closing, nothing is queued |
| `Async.AsyncContext.RunCallback` | async.c:281-288 | a callback that is a function runs exactly once, with the reply it was due; a NULL one not at all |
| `Async.AsyncContext.DrainPending` | async.c:297-303 | the drain ends, every pending callback gets NULL once, and re-entrant commands are refused |
| `Async.AsyncContext.AsyncFreeImpl` | async.c:291-362 | teardown releases the context once, with nothing pending; the disconnect callback of a connected context is told of an error exactly if there was one and nothing freed the context, a callback run by the drain included; a second entry from the disconnect callback changes nothing |
| `Async.AsyncContext.RedisAsyncFree` | async.c:368-373 | inside a callback only the flag is set; outside, the context is released, and the disconnect callback is told of no error |
| `Async.AsyncContext.AsyncDisconnectImpl` | async.c:390-409 | the assertion on a clean disconnect holds, the error of the connection is handed on, and the context is released with every callback settled; a disconnect callback is told of no error exactly if the connection had none or the context was freed |
| `Async.AsyncContext.RedisAsyncDisconnect` | async.c:417-422 | immediate exactly outside callbacks with nothing pending; otherwise only the flag is set |
| `Async.AsyncContext.Act` | async.c:366-422 | exactly which application calls release the context, what each leaves pending, and what the disconnect callback is told |
| `Async.AsyncContext.Dispatch` | async.c:497-546 | a reply goes to the oldest pending callback, and the context is released exactly if that callback freed it; without one, exactly the error replies close the connection cleanly |
| `Async.AsyncContext.ProcessCallbacks` | async.c:471-549 | the replies complete in the bytes received are dispatched in order, all of them unless the context is released or the assertion on a spurious reply fails; with nothing pending it fails exactly when the next reply is no error; a context that is left is neither freed nor waiting for a disconnect that nothing delays any more; the disconnect callback is told of no error exactly if a callback freed the context or every reply came and nothing else did |
| `Async.AsyncContext.Fail` | async.c:390-409 | an error on the connection releases the context, and the disconnect callback is told of it unless a callback that gets its NULL reply frees the context |
| `Async.AsyncContext.HandleConnect` | async.c:554-571 | a released context is used afterwards exactly when the connect callback's calls release it; a check that finds the connect in progress leaves its error on the context |
| `Async.SendingNeverFrees` | async.c:366-422 | a connect callback that only sends never releases the context |
| `Async.UsableIff` | net.c:237-252 | over any events, a new connection becomes usable exactly if the first check on it finds it established; only then are bytes received |
| `Async.AsyncContext.BufferRead` | hiredis.c:966-992 | exactly the bytes received reach the reader, exactly the failing results set the error and each sets its own, and dispatched plus remaining replies stay those of the bytes received |
| `Async.AsyncContext.BufferWrite` | hiredis.c:1003-1030 | what was written leaves the front of the buffer, so accepted bytes are written ones followed by buffered ones |
| `Async.AsyncContext.HandleRead` | async.c:576-595 | also on the event that completes the connection: the bytes are received exactly if no earlier check has left an error, and otherwise the context is released; the replies dispatched are a prefix of those the received bytes spell, all of them unless the context ends, and the assertion on a spurious reply fails only on one; an end of file or a failed read releases the context; a context that is left is not waiting for a disconnect that nothing delays; exactly when the disconnect callback is told of no error |
| `Async.AsyncContext.HandleWrite` | async.c:597-622 | also on the event that completes the connection: of the bytes accepted and not yet written, those added by the connect callback included, exactly what the socket takes is written, unless an earlier check has left an error, and then the context is released with nothing written; a failed write with bytes to write releases the context, and the disconnect callback is told of the error |
| `Async.OneEvent` | async.c:366-622 | the same for any one call or event, with what the disconnect callback is told when the event ends the context: no error exactly if the application asked, a callback freed the context, or a readable event brought the last reply awaited |
| `Async.RunContext` | async.c:243-708 | over any sequence of application calls and socket events: what was pushed is what was settled followed by what is pending, and settled functions ran once each in push order; the replies they got are, position by position, those that the bytes of the socket events spell, all of them unless the run ended, and NULL only in teardown; after the release nothing is pending, and the disconnect callback ran at most once, exactly if a connected context was released, with the status that the last event decides; a failed connection is released, and so is one that is to be disconnected once a readable event leaves nothing to wait for |
| `Async.ConnectCallbackCanRelease` | async.c:554-571 | a new context whose connect callback frees it is used after its release |
| `Async.EarlyCheckLosesConnection` | async.c:557-560 | on a new context, a check while the connect is in progress makes the event that completes the connection release the context without receiving its bytes |
| `Async.SpuriousReplyAborts` | async.c:497-531 | on a new context, any reply that comes without a command makes the assertion fail, except an error reply |
| `Multiplex.OwnershipStep` | hiredis.c:149-204 | every step of every participant keeps who owns each request record and how often it was freed |
| `Multiplex.OwnershipDeliver` | hiredis.c:149-168 | the reply callback gives up the engine's reference, and frees the record exactly when its caller has left |
| `Multiplex.OwnershipDisconnected` | hiredis.c:183-204 | the error disconnect gives up the engine's references to all commands not yet sent |
| `Multiplex.OwnershipSubmit` | hiredis.c:1331-1375 | moving commands from `cmd_list` to the reply queue neither loses, duplicates nor frees a record |
| `Multiplex.OwnershipUnlink` | hiredis.c:1880-1884 | taking a record out of `cmd_list` by address keeps who owns which record, whether it is the own record of the caller or one at the same address |
| `Multiplex.FindIs` | hiredis.c:1881 | the search by address finds the caller's own record exactly if it is still in `cmd_list`, and otherwise nothing or a later record at the address of the freed one |
| `Multiplex.TracksStep` | hiredis.c:1874-1890 | every step keeps the account of addresses used again: which records were taken away or freed by whom |
| `ReplyMatching.WokenStep` | hiredis.c:1331-1375 | queued commands never exceed unread pipe bytes, callers about to write one and wake-ups in hand |
| `ReplyMatching.EmitIsAnswer` | async.c:471-549 | the next reply out of the reader is the server's answer to the oldest unanswered command |
| `ReplyMatching.InvStep` | hiredis.c:1331-1375 | every step keeps ownership, wake-ups, byte streams, reply counting and reply matching together |
| `ReplyMatching.RunInv` | hiredis.c:1829-1892 | the invariant holds after any finite run |
| `ReplyMatching.CallersGetTheirOwnReply` | hiredis.c:1829-1892 | in every reachable state a reply a caller took is the server's answer to that caller's own command, timeouts of others notwithstanding |
| `ReplyMatching.BytesAreTheCommands` | hiredis.c:1003-1030 | bytes written followed by bytes buffered are the accepted commands, in order, under any partial writes |
| `ReplyMatching.NoSpuriousReply` | async.c:497-531 | a reply never arrives with no callback waiting for it, and the waiting one is the oldest sent |
| `ReplyMatching.NothingStranded` | hiredis.c:1339-1372 | with the pipe empty, no caller about to write and no wake-up in hand, no command is left in `cmd_list` |
| `ReplyMatching.CallerIsAnswered` | hiredis.c:1829-1892 | for any server and command there is a run in which the caller returns with the server's answer |
| `RecordLifetimes.RecordsAliveInUse` | hiredis.c:1840-1890 | until its caller drops its reference, neither caller nor engine has freed a record; what the engine has in a list, nobody has freed |
| `RecordLifetimes.FreedTwiceIff` | hiredis.c:1874-1890 | a record is freed by its own side at most twice, and twice exactly when its caller timed out, neither took it out of `cmd_list` nor lost it to another caller, then saw the connection down, and its address was not allocated again |
| `RecordLifetimes.HitIff` | hiredis.c:1880-1889 | a record is freed by another caller exactly when it is the last one at an address through which another caller, whose own record was freed before, frees at the end of its time-out branch |
| `RecordLifetimes.LostIff` | hiredis.c:1880-1884 | a record is lost exactly when the search of another timed-out caller, for the same address, took it out of `cmd_list`; its command is then never sent |
| `RecordLifetimes.LeakedIff` | hiredis.c:1874-1890 | a finished call's own side never frees its record exactly after a time-out with the connection up that took the record out of `cmd_list` or had lost it to another caller |
| `RecordLifetimes.SecondFreeGuard` | hiredis.c:1886-1889 | the status test frees memory of another caller, or memory freed before, exactly when the connection is down and the caller has neither taken its own record out of `cmd_list` nor lost it, or has had it freed by another |
| `RecordLifetimes.UninterruptedCallerIsSafe` | hiredis.c:1873-1890 | a caller not interrupted between dropping its reference and returning frees at most its own record, once, and touches no other |
| `RecordLifetimes.TimeOutCanFreeTwice` | hiredis.c:1874-1890 | for any server and command there is a run that searches the list of a released context and frees a record twice |
| `RecordLifetimes.TimeOutCanLeak` | hiredis.c:1874-1890 | for any server and command there is a run after which the record of a timed-out call is held by nobody and was never freed |
| `RecordLifetimes.AddressUsedAgain` | hiredis.c:1880-1884 | for any server and commands there is a run in which a timed-out caller takes the record of another caller, at the address of its own freed one, out of `cmd_list` |
| `RecordLifetimes.StaleSearchCanLeak` | hiredis.c:1880-1889 | in such a run the other caller's command is never sent and its record never freed |
| `RecordLifetimes.StaleFreeCanHit` | hiredis.c:1886-1889 | in such a run a record can be freed while its caller still waits |
| `EngineProtocol.Start` | async.c:554-571 | a new context, established at its first event, agrees with the protocol's initial state |
| `EngineProtocol.Deal` | hiredis.c:1331-1375 | one call of `taskDeal` on a context does what the protocol's step does: callbacks pushed and bytes buffered agree afterwards |
| `EngineProtocol.Write` | async.c:597-622 | a writable event on a context is the protocol's `Flush` of what the socket takes |
| `EngineProtocol.Read` | async.c:576-595 | a readable event on a context is the protocol's `Receive` followed by one `Dispatch` for every complete reply; the context is not released and the assertion on a spurious reply does not fail |
| `EngineProtocol.ElsewhereAgrees` | hiredis.c:1829-1892 | the protocol's steps of callers and server leave the agreement with the context |
| `EngineProtocol.QueuesAgree` | async.c:243-279 | the callbacks pending in the context are those of the requests in the protocol's queue |
| `EngineProtocol.SettledAreAnswered` | hiredis.c:149-168 | the callbacks of the context have run for the requests in the order these were sent, each with the server's answer to the request's command |
| `Dict.MaskIsModulo` | dict.c:320-337 | masking with a power of two less one is the remainder modulo that power |
| `Dict.NextPower` | dict.c:306-315 | the least power of two from four on that is large enough, and the greatest long for sizes from that on |
| `Dict.Dict.constructor` | dict.c:73-85 | a new table is the empty map |
| `Dict.Dict.Expand` | dict.c:88-132 | every entry moves to the new table and the map is unchanged; refused exactly when the entries would not fit; the closing assertion holds |
| `Dict.Dict.MoveAll` | dict.c:102-126 | the nested relinking loops leave all entries, each once, in the bucket the new mask selects |
| `Dict.Dict.ExpandIfNeeded` | dict.c:295-303 | afterwards there is room for one more entry, and the map is unchanged |
| `Dict.Dict.Add` | dict.c:135-154 | refused exactly when the key is present; otherwise the map gains the pair |
| `Dict.Dict.Replace` | dict.c:160-179 | the map is updated at the key, and the result says whether the key was new |
| `Dict.Dict.Delete` | dict.c:182-210 | the map loses the key; exactly that entry leaves its chain and every other link stays |
| `Dict.Dict.Find` | dict.c:243-256 | an entry is found exactly for the keys of the map, with the map's value |
| `Dict.Run` | dict.c:88-256 | after any sequence of operations and expansions a lookup agrees with a plain map |
| `Dict.DictIterator.constructor` | dict.c:258-266 | the iteration has every entry before it |
| `Dict.DictIterator.Next` | dict.c:268-286 | returns the first of the entries still to come, and ends exactly when there is none |
| `Dict.FromKeys` | dict.c:268-286 | the bucket-by-bucket order holds every key exactly once |
| `Dict.DeleteCurrent` | dict.c:182-210 | deleting the entry just returned leaves the rest of the iteration as it was |
| `Dict.Walk` | dict.c:258-286 | a full walk in which the caller deletes any of the entries just returned visits every key exactly once, and exactly the chosen ones are gone |
| `Sds.Stored` | sds.h:129-215 | a header field keeps what its width can hold, and all of it when it fits |
| `Sds.ReqType` | sds.c:57-67 | a header type whose fields hold the size |
| `Sds.SdsString.constructor` | sds.c:81-135 | a new string has the given content and an untruncated header |
| `Sds.SdsString.MakeRoomFor` | sds.c:195-238 | at least the room asked for is free afterwards, the content is unchanged and the header untruncated, also across a change of header type |
| `Sds.SdsString.RemoveFreeSpace` | sds.c:246-270 | no room is left over and the content is unchanged |
| `Sds.SdsString.GrowZero` | sds.c:359-370 | the content is padded with zeros to the length, never shortened |
| `Sds.SdsString.CatLen` | sds.c:377-386 | the content gains exactly the bytes at its end |
| `Sds.SdsString.CpyLen` | sds.c:406-415 | the content becomes the bytes |
| `Sds.RangeBounds` | sds.c:713-739 | the index arithmetic selects the inclusive interval, negative ends counted from the back |
| `Sds.SdsString.Range` | sds.c:713-739 | the content becomes that interval of itself, in place, for lengths that C ints can index |
| `Sds.RangeIsInterval` | sds.c:713-739 | an interval inside the string is cut out byte by byte, an end past it means its last byte, and negative ends count from the back or mean the first byte; (0, -1) is the whole string |
| `Sds.SdsString.CatFmt` | sds.c:580-666 | the content gains the expansion of the format, numbers printed through the fixed buffer |
| `Sds.ExpandShows` | sds.c:580-666 | plain bytes, escaped bytes and arguments appear in the order of the format, each once, text as it is and numbers in decimal |
| `Sds.PerformAll` | sds.c:57-415 | any sequence of operations has the sequence-level result, with an untruncated header and a NUL inside the allocation throughout |
| `SdsRepr.CatRepr` | sds.c:857-880 | the string gains the quoted form of the bytes |
| `SdsRepr.HexDigits` | sds.c:884-911 | hexadecimal digits are written in lower case and read in either, each as its value |
| `SdsRepr.ScanToken` | sds.c:943-1020 | the loop with its quote flags reads one token as the mode-by-mode definition does, which `LineGrammar` spells out, or finds the quotes unbalanced exactly when it does |
| `SdsRepr.SplitArgs` | sds.c:932-1040 | the line is split into the tokens of that definition, or refused; `LineGrammar` says for which lines which tokens these are |
| `LineGrammar.PlainReads` | sds.c:999-1018 | unquoted characters join the token, each once and in order |
| `LineGrammar.DoubleReads` | sds.c:949-983 | inside double quotes, bytes stand for themselves, for what their letter means behind a backslash, or for their hexadecimal value |
| `LineGrammar.SingleReads` | sds.c:984-998 | inside single quotes every text reads as itself, an apostrophe behind a backslash, unless a backslash at its end stands before the closing quote |
| `LineGrammar.LineSplits` | sds.c:932-1040 | a line of arguments, each plain characters with perhaps a quoted part behind them, splits into exactly their texts, whatever blanks stand between, before and behind them |
| `LineGrammar.FaultRefused` | sds.c:973-991 | a line is refused as a whole if behind its first arguments a quote is left open, or closed with neither a blank nor the end of the line behind it |
| `LineGrammar.OpenQuoteFails` | sds.c:978-991 | a quote with no other of its kind behind it makes the token fail, whatever its text |
| `LineGrammar.WordsReadBack` | sds.c:932-1040 | any nonempty words without blanks, quotes and NUL, joined by spaces, split into these words |
| `LineGrammar.SingleQuotedReadsBack` | sds.c:984-998 | a text in single quotes reads back exactly if it does not end in a backslash; otherwise the line is refused |
| `LineGrammar.QuoteSplitRoundTrip` | sds.c:857-1040 | quoting any list of byte strings, joining by spaces and splitting returns exactly that list |
| `Timers.AddMillisecondsIsExact` | ae.c:185-197 | the sum is exact, and normalised for delays that are not negative |
| `Timers.DueIsNotBefore` | ae.c:312-313 | a timer is due exactly if the clock reads its time or a later one, in milliseconds |
| `Timers.EarlierIsLess` | ae.c:247-250 | one time is before another exactly if it has fewer milliseconds |
| `Timers.EventLoop.constructor` | ae.c:58-88 | a new loop has no timers |
| `Timers.EventLoop.CreateTimeEvent` | ae.c:199-216 | a new timer with a new id is at the head of the list, due after the delay |
| `Timers.EventLoop.DeleteTimeEvent` | ae.c:218-229 | exactly the timer with the id is marked, and the result says whether there was one |
| `Timers.EventLoop.SearchNearestTimer` | ae.c:242-255 | no timer is due before the one returned; none is returned exactly for an empty list |
| `Timers.EventLoop.Unlink` | ae.c:290-294 | the timer leaves the list; without a predecessor whatever was in front of it leaves too |
| `Timers.EventLoop.Callback` | ae.c:312-325 | the callback's calls take effect on the list, and the timer is rescheduled by what it returned or marked |
| `Timers.EventLoop.ProcessTimeEvents` | ae.c:258-330 | the timers that were in the list are met once each and in order; the live ones found due fire, by the clock reading at their visit; those deleted so far are unlinked and finalized, the others stay, rescheduled, ended or untouched; new timers get new ids and do not fire; the number of new timers lost is exactly `LostCount` |
| `Timers.FiresAfterDelay` | ae.c:185-330 | a live timer, set from a clock reading and a delay, fires in a pass exactly if the delay is over by the reading at its visit |
| `Timers.Rescheduled` | ae.c:312-325 | a fired timer ends or is set anew by what its callback returned, from the last clock reading of its visit; one not due keeps its time; apart from that only deletions change its id |
| `Timers.CreateAndProcess` | ae.c:199-330 | a timer created with a delay fires once in the next pass, or not at all, exactly by whether the clock has advanced by the delay |
| `Timers.SkewFires` | ae.c:267-281 | in a pass that finds the clock set back, a live timer fires if by then the clock reads a second or more |
| `Timers.ProcessSkewed` | ae.c:267-330 | in such a pass every timer met fires or had been deleted |
| `Timers.ExactlyOnce` | ae.c:258-330 | a timer met fires once if it was live and due, is finalized once if it was deleted and has a finalizer, is kept once if it was live, and otherwise none of these |
| `Timers.LostIff` | ae.c:288-301 | a new timer is lost exactly when the finalizer of a deleted timer at the front creates one while the timer behind it is deleted too |
| `Timers.QuietFinalizersLoseNothing` | ae.c:288-301 | finalizers that create no timers lose none |
| `Timers.FinalizerCanLoseTimer` | ae.c:288-301 | the count of lost timers for two deleted timers and a finalizer of the first that creates one is one |
| `Timers.FinalizerLosesTimer` | ae.c:288-301 | on a loop with two deleted timers, a pass in which a finalizer creates a timer leaves an empty list, although the new timer has not fired |

## Left out

- Sockets, name resolution and connecting (`net.c`), the polling back ends (`ae_epoll.c`, `ae_kqueue.c`, `ae_select.c`) and `adapters/`: system calls and foreign libraries; their results are inputs of the model.
- Pub/sub and MONITOR: commands are regular ones, told apart as `__redisAsyncCommand` does; the channel tables and the re-pushed MONITOR callback are not modelled.
- The reconnect thread, attach time-outs and the connection pool around them: the protocol model follows one connection.
- `xRedisFree`, `clearClient` and `xStopClient`: teardown by the user while callers wait is not modelled.
- Command.Scan: formats with printf directives, and the error for directives that are none, are not modelled, because they are told apart by libc's conversion grammar.
- Command.FormatCommand: as `Command.Scan`; its formats are literals, spaces, `%s`, `%b` and `%%`.
- `sdscatvprintf` and the texts of error messages: they rest on libc; a reader error keeps its kind only.
- `list.c`: `cmd_list` is a sequence; the unsynchronised search of the time-out branch is one step.
- RecordLifetimes.RecordsAliveInUse: holds with `replyCallback` as one step; the use after free between its decrement and its store is not modelled.
- EngineProtocol.Read: the agreement of engine and protocol ends with the first error; the protocol's teardown steps are not tied to those of the context.
- Freeing of reply trees, of the reader and of dictionaries, and key and value destructors: memory is not reclaimed in the model.
- `redisReaderFeed`: the spare room that decides whether an idle buffer is dropped is an input.
- Sds.SdsString.CatFmt: a format that ends in a bare percent sign is left out, since its behaviour depends on the memory behind the format; lengths stay below 2^31, since positions are C ints.
- Sds.SdsString.Range: lengths stay below 2^31, since positions are C ints.
- Numbers.LongLongToString: the least 64-bit value is left out, since its negation overflows.
- Async.AsyncContext.AsyncCommand: only regular commands; (P)SUBSCRIBE, (P)UNSUBSCRIBE and MONITOR are left out.
- The splitting, trimming, joining and case functions of `sds.c`: they would only add easy members.
- File events and their highest descriptor (`ae.c:131-167`), `aeProcessEvents` and its poll time-out: easy beside the timers.
- `zmalloc.c`, `block_queue.h`, `autolock.h`, the examples and the drivers: not part of the library's logic.
- Out-of-memory branches, and lengths, counts and integers beyond the assumed ranges, where the C code truncates or overflows.
- Dict.Dict.Expand: sizes from the greatest long on are left out; no table of that size can be allocated.
- Dict.Dict.Replace: as `Dict.Dict.Add`.
- Dict.Dict.Add: at most 2^31 entries, since bucket indices are C ints; the hash is any function to naturals, and keys and values are not duplicated.
- ReplyMatching.NothingStranded: assumes that writes to the wake-up pipe succeed; the C code ignores a failed one.
- Async.RunContext: the run ends at a failed assertion or at the use of a context its connect callback released.
