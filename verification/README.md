# Models of nattan's protocol engines

nattan bundles two protocol engines, the Redis client hiredis and the DNS
resolver c-ares, and has a coroutine pool of its own. This project models the
parts of them whose correctness is hard to see, and proves it for all inputs and
all runs.

- **hiredis, reading and writing** (`Numbers`, `RespGrammar`, `ReplyHeap`,
  `RespReader`, `RespCommand`, `RespText`, `RespFormat`). The reader is a class with its buffer, its task
  stack and a heap of reply objects; it is proved to be one recursive-descent
  parse of the whole stream, however the stream is cut up. The command printer is
  proved against the protocol's encoding, and the reader undoes it. `RespText` gives
  the texts that are read, byte by byte, and `RespFormat` what a format renders to.
- **hiredis, hash table and asynchronous context** (`HashTable`,
  `HashTableRuns`, `CallbackList`, `AsyncModel`, `AsyncFarewell`, `AsyncContext`). The table is a
  class over linked entries and refines a finite map through rehashing and
  iteration. The context is a class with its flags and its queue, proved to go
  through the states that `AsyncModel` gives as functions; callbacks carry scripts
  of what they do to the context, so deferral inside callbacks is part of the model.
- **c-ares, the query engine** (`QueryIndex`, `QueryTiming`, `QueryEngine`,
  `ListRing`, `SendQueue`, `TcpFrames`, `DnsHeader`). A channel is a class with its servers, its queries and
  its four families of lists. Queries are records in a heap indexed by handles
  that are never reused, and the intrusive lists are sequences of handles;
  `ListRing` proves that the pointer surgery of ares_llist.c is what happens to
  those sequences, and `SendQueue` does the same for a server's queue of requests.
- **c-ares, names and addresses** (`DnsName`, `DnsText`, `DnsCodec`, `DnsChain`,
  `DnsMatch`, `DnsFallback`, `Ipv6Text`, `Ipv6Read`, `Ipv6Groups`, `Ipv6Limits`,
  `Search`, `SortAddresses`). `DnsChain` says what a compressed name spells.
  Encoding follows sections 2.3.4, 3.1 and 4.1.4 of RFC 1035 and section 2.2 of RFC
  4291.
- **nattan's coroutine pool** (`Chan`, `TaskPool`). Coroutines switch only while
  they wait for a channel; a run is any sequence of the steps in between.

What a method does is stated by its contract in terms of a specification
function (`RespGrammar.ParseAll`, `RespCommand.Command`, `DnsName.Walk`,
`DnsMatch.SameQuestions`, `Ipv6Read.Read`, `TcpFrames.Cut`,
`HashTableRuns.Answers`, `AsyncModel.Ran`, `Chan.Fifo`, `TaskPool.After`,
`Search.Answers`, `SortAddresses.SortedBy`), and the lemmas are about those
functions. What such a function means on the wire or in a text is stated a second
time, from the bytes or the history alone, in `RespText`, `RespFormat`, `DnsText`,
`DnsChain`, `DnsHeader`, `Ipv6Groups` and `AsyncFarewell`, and proved equivalent.

Where the code does not do what one would expect, the code is modelled and the
exact condition proved:

- `ares_inet_pton` reports success with less than an address stored exactly if a
  ninth group of digits ends with a colon that is not the last character, or the
  text ends in a prefix length of at most 120; nothing at all is stored in the first
  case and for "/0" (`Ipv6Limits.SuccessStoresTheAddressUnless`, with "::/0" and
  "1::/16").
- The shift for "::" leaves the scratch array exactly if more groups follow "::"
  than the prefix length has 16-bit words, of which it has at least two, and the
  groups are not just as many as those words (`Ipv6Limits.OverrunExactly`, with
  "::0:0:0/2"). The model stops there with `Overrun`.
- `redisvFormatCommand` reads beyond its format exactly if the format's end cuts off
  a conversion of at most 12 characters other than %s, %b and %%, and no invalid
  conversion comes before, because `strchr` finds the terminating NUL
  (`RespCommand.EndingExactly`, with "%5").
- An answer is matched with a query by expanded names as C strings, up to case
  (`DnsMatch.OneQuestionExactly`): the name in the answer counts up to its first zero
  byte, so that one for "a" NUL "c" is taken for a query for "a"
  (`DnsMatch.CreatedMatchesExactly`, `DnsMatch.ZeroBytesHide`).
- An empty frame on a DNS connection over TCP makes the next read ask for zero
  bytes, which the code takes for a closed connection (`TcpFrames.AllDelivered`).
- The two bytes behind a bulk string are skipped without being looked at, so that any
  two may stand where the protocol has CR LF (`RespText.TextExactly`).
- A conversion of more than 13 bytes takes its argument but adds nothing; only two of
  its bytes are left out, and the others are sent as text (`RespFormat.StepExactly`).
- A name under a search domain has the labels of the name and then those of the domain
  exactly if no backslash at the end of the name escapes the dot between them
  (`Search.UnderExactly`; `Search.BackslashEatsDot` has an "a" and a backslash under "b").
- Re-encoding an expanded name is exact unless a label contains a zero byte, or the
  name ends in .onion (`DnsName.ReencodeExactly`).
- `dictNext` compares the bucket index with the size as an int: a loop over the
  entries sees them all exactly if the table has fewer than 2^31 buckets or none is
  there (`HashTableRuns.Sweep`, with `HashTableRuns.LargestTableHides`).
- A timeout frees the context exactly if automatic freeing is on or one of the
  callbacks that it calls disconnects; `redisAsyncFree` from one of them is forgotten
  otherwise (`AsyncModel.TimeoutFrees`, with the run `AsyncModel.FreeIsForgotten`).
- An error of the connection gives NULL to the waiting callbacks exactly if automatic
  freeing is on; with it off they wait until the program frees the context
  (`AsyncModel.ErrorCallsUnlessOff`).
- The source's assertion on spontaneous replies fails exactly if the queue runs dry
  before a reply that is no error, with no free before it
  (`AsyncModel.CrashIsRunningDry`, with `AsyncModel.SpontaneousReplyCrashes`); the
  model records that as `crashed`.
- Tasks that other threads have offered have to wait until a coroutine submits a
  runner, exactly if the boss coroutine waits for its channel, the channel is empty,
  and no coroutine waits to submit (`TaskPool.StrandedExactlyIfDeaf`, with
  `TaskPool.OfferedIsStranded`). Apart from such tasks the pool comes to rest only when
  everything is done (`TaskPool.StuckExactlyAtRest`), and it does come to rest
  (`TaskPool.CalmRunsEnd`, `TaskPool.ComesToRest`).
- In `inet_ntop6` the disjunct for a run of seven zero words never decides
  anything, because the loop has passed word 6 by then.

To check the project: `dafny verify dfyconfig.toml`.

## Model

| member | source | states |
|---|---|---|
| Numbers.String2ll | nattan/src/deps/hiredis/read.c:157-218 | accepts exactly the canonical decimal texts of the signed 64-bit numbers, with their value; no unsigned intermediate value leaves 64 bits |
| Numbers.Int64OfDecimal | nattan/src/deps/hiredis/read.c:157-218 | the printed form of every signed 64-bit number is read back as that number |
| Numbers.DecimalInjective | nattan/src/deps/hiredis/read.c:157-218 | no two numbers share a decimal text |
| Numbers.CountDigits | nattan/src/deps/hiredis/hiredis.c:192-202 | counting four digits at a time gives the length of the printed number |
| RespGrammar.ItemExtends | nattan/src/deps/hiredis/read.c:441-488 | a reply that parses, or fails, on a prefix of the stream does the same whatever bytes follow |
| RespGrammar.DeliverIsReturn | nattan/src/deps/hiredis/read.c:235-258 | closing filled arrays one task at a time comes to what the recursive parse of the enclosing arrays does |
| RespGrammar.OpenIsBody | nattan/src/deps/hiredis/read.c:365-439 | pushing a task for the first element continues the recursive parse of the array |
| RespGrammar.TypeByteStep | nattan/src/deps/hiredis/read.c:445-473 | taking the type byte keeps everything that is still to come, or dooms the stream with the error for that byte |
| RespGrammar.HeadStep | nattan/src/deps/hiredis/read.c:260-439 | taking the rest of an item, or the header of an array, keeps everything that is still to come |
| RespGrammar.TracksBlocked | nattan/src/deps/hiredis/read.c:573-598 | a reader that stops for want of bytes has handed out exactly the replies of the bytes it was given |
| ReplyHeap.CreateKeepsStack | nattan/src/deps/hiredis/hiredis.c:101-188 | linking a new reply object into its parent disturbs no finished element of any unfinished array |
| ReplyHeap.CreateCompletes | nattan/src/deps/hiredis/hiredis.c:101-188 | a leaf or an empty array spells its reply as soon as it is created and linked |
| ReplyHeap.CloseArray | nattan/src/deps/hiredis/read.c:235-258 | when the last element is complete, the parent object spells the whole array |
| ReplyHeap.NextElement | nattan/src/deps/hiredis/read.c:250-256 | resetting the task for the next element keeps all finished ones |
| ReplyHeap.OpenArray | nattan/src/deps/hiredis/read.c:404-432 | a non-empty array gets a slot of its own, below its parent |
| ReplyHeap.IsTreeUnique | nattan/src/deps/hiredis/hiredis.c:101-188 | a reply pointer denotes at most one reply tree |
| RespReader.SeekNewline | nattan/src/deps/hiredis/read.c:119-143 | finds the first CR LF, and None exactly if there is none |
| RespReader.Reader.MoveToNextTask | nattan/src/deps/hiredis/read.c:235-258 | keeps the reader invariant: at most nine slots, child index below the parent's elements, objects spelling the finished part |
| RespReader.Reader.ProcessLineItem | nattan/src/deps/hiredis/read.c:260-299 | status, error and integer items: done as the grammar says, or more bytes needed, or its error |
| RespReader.Reader.ProcessBulkItem | nattan/src/deps/hiredis/read.c:301-363 | bulk strings of any bytes, nil, and the length errors |
| RespReader.Reader.ProcessMultiBulkItem | nattan/src/deps/hiredis/read.c:365-439 | arrays, nil arrays, the nesting limit and the length errors, as the grammar says, whose texts RespText.TextExactly gives |
| RespReader.Reader.ProcessItem | nattan/src/deps/hiredis/read.c:441-488 | one item: progress in the grammar and in the input, or a wait, or an error |
| RespReader.Reader.Feed | nattan/src/deps/hiredis/read.c:518-548 | the bytes are appended to what is unread, unless an error has already been reported |
| RespReader.Reader.GetReply | nattan/src/deps/hiredis/read.c:550-598 | the next complete reply of the recursive parse of everything fed so far, or none if there is none, or its error |
| RespReader.Reader.ErrorIsFinal | nattan/src/deps/hiredis/read.c:47-69 | once an error is reported no later byte can change what the stream means |
| RespReader.Reader.RepliesStand | nattan/src/deps/hiredis/read.c:588-598 | replies handed out earlier are never touched again |
| RespReader.ReadStream | nattan/src/deps/hiredis/read.c:518-598 | for every stream and every way of cutting it up, the replies and the error are those of one recursive-descent parse of the whole |
| RespCommand.ParseEncode | nattan/src/deps/hiredis/read.c:260-439 | the reader undoes the protocol encoding of every expressible reply, with the following bytes left over |
| RespCommand.ParseStream | nattan/src/deps/hiredis/read.c:550-598 | a concatenation of encoded replies reads back as those replies and nothing else |
| RespCommand.TotalLength | nattan/src/deps/hiredis/hiredis.c:525-545 | the length computed in advance is the length of the command |
| RespCommand.Build | nattan/src/deps/hiredis/hiredis.c:547-558 | exactly that many bytes are written, and they are the command |
| RespCommand.FormatCommandArgv | nattan/src/deps/hiredis/hiredis.c:525-561 | the command is the array of bulk strings of the arguments, followed by NUL |
| RespCommand.FormatCommand | nattan/src/deps/hiredis/hiredis.c:209-412 | the bytes are those of FormatCommandArgv on the words of the format, for every format that can be read to its end |
| RespCommand.CollectArgv | nattan/src/deps/hiredis/hiredis.c:230-388 | arguments are the runs between the literal spaces of the format, with its conversions replaced; a format error or a reading beyond the format as EndingOf says |
| RespCommand.Detect | nattan/src/deps/hiredis/hiredis.c:270-353 | flags, width, precision and size modifiers: whether a printf conversion follows the per cent sign, and where it ends |
| RespCommand.EndingExactly | nattan/src/deps/hiredis/hiredis.c:230-375 | in terms of the per cent signs that are the last of an odd number in a row: a format error if and only if one of them is followed by no conversion; else the loop goes beyond the end of the format if and only if one, with at most 12 characters, is cut off by the end, because strchr finds the final NUL |
| RespCommand.WidthAloneLeaves | nattan/src/deps/hiredis/hiredis.c:300-364 | the format "%5" is such a one |
| RespCommand.ValuesAddNoArguments | nattan/src/deps/hiredis/hiredis.c:230-374 | for every format the number of arguments does not depend on the values put in |
| RespCommand.ValuesAreNeverSplit | nattan/src/deps/hiredis/hiredis.c:254-290 | one argument per conversion, whatever bytes an interpolated value holds |
| RespCommand.CommandsSurvive | nattan/src/deps/hiredis/hiredis.c:525-561 | any sequence of commands, cut up in any way, is read as one array of bulk strings per command, equal to its arguments |
| QueryIndex.OnItsLists | nattan/src/deps/c-ares-1.15.0/ares_process.c:895-918 | a query is live exactly if it is on the list of all queries, and it is on exactly the id, timeout and server lists that its fields name, once each |
| QueryIndex.UnlinkKeeps | nattan/src/deps/c-ares-1.15.0/ares_process.c:1451-1465 | taking a freed query off its lists keeps the index |
| QueryIndex.RelinkKeeps | nattan/src/deps/c-ares-1.15.0/ares_process.c:895-917 | moving a query to the lists of its new timeout and server keeps the index |
| QueryIndex.LinkNew | nattan/src/deps/c-ares-1.15.0/ares_send.c:120-133 | a new query is at first on the list of all queries and on that of its id only |
| QueryIndex.StealKeeps | nattan/src/deps/c-ares-1.15.0/ares_process.c:711-733 | stealing a server's list takes exactly the queries last sent to that server |
| QueryIndex.NoQueriesNoLinks | nattan/src/deps/c-ares-1.15.0/ares_destroy.c:53-60 | without live queries every list is empty, as ares_destroy asserts |
| QueryTiming.TimedOutIsNotLater | nattan/src/deps/c-ares-1.15.0/ares_process.c:94-106 | the comparison of seconds and microseconds is the comparison of instants |
| QueryTiming.TimeAddIsExact | nattan/src/deps/c-ares-1.15.0/ares_process.c:109-118 | timeadd adds exactly the milliseconds and keeps the microseconds below a million |
| QueryTiming.TimeAddIsLater | nattan/src/deps/c-ares-1.15.0/ares_process.c:109-118 | a positive timeout lies ahead |
| QueryTiming.BackoffIsExact | nattan/src/deps/c-ares-1.15.0/ares_process.c:876-893 | the timeout doubles per round while the product fits 31 bits, and is the base timeout otherwise |
| QueryEngine.Channel.SendQuery | nattan/src/deps/c-ares-1.15.0/ares_process.c:805-918 | a query leaves with a fresh timeout on the lists that its new state names, or ends; a failed transmission is followed by all further attempts that are open, at servers not yet tried in vain; as many transmissions as attempts made |
| QueryEngine.Channel.NextServer | nattan/src/deps/c-ares-1.15.0/ares_process.c:763-803 | no attempt is passed over whose server is neither broken, skipped, already reached over this connection, nor has just failed; the query ends with its error status only when all attempts are used up |
| QueryEngine.Channel.Transmit | nattan/src/deps/c-ares-1.15.0/ares_process.c:805-874 | one attempt is counted; over TCP the framed request is queued last at the query's server, over UDP its socket is open; a server that cannot be used is marked to be skipped |
| QueryEngine.Channel.Relocate | nattan/src/deps/c-ares-1.15.0/ares_process.c:876-917 | the backoff timeout, and the re-filing by timeout and server |
| QueryEngine.Channel.EndQuery | nattan/src/deps/c-ares-1.15.0/ares_process.c:1381-1449 | the callback is logged once, and the query leaves every list |
| QueryEngine.Channel.HandleError | nattan/src/deps/c-ares-1.15.0/ares_process.c:711-744 | every query of the failed server and no other moves on or ends, with its error status reported; it ends only with its attempts used up, given the servers as they stand at its turn; both assertions of the source hold |
| QueryEngine.Channel.ProcessTimeouts | nattan/src/deps/c-ares-1.15.0/ares_process.c:538-566 | exactly the queries that are due move on or end, once each, and end only with their attempts used up, given the servers as they stand at their turns; afterwards none is due and the wheel is at the present second |
| QueryEngine.Channel.ProcessAnswer | nattan/src/deps/c-ares-1.15.0/ares_process.c:569-669 | which query an answer packet is taken for, by id and questions, and what becomes of it, which DnsHeader.VerdictExactly tells from the header fields: EDNS fallback, TCP upgrade, the next server, or its end; a query that is sent again or moved on ends only with its attempts used up; others stay as they are |
| QueryEngine.Channel.ProcessBroken | nattan/src/deps/c-ares-1.15.0/ares_process.c:672-684 | every query waiting for a server that is broken on entry has given it up afterwards, and is at a later attempt or has had its error reported with its attempts used up; nothing happens if none is broken |
| QueryEngine.Channel.TakeAnswer | nattan/src/deps/c-ares-1.15.0/ares_process.c:609-669 | what becomes of the query, with the attempts that are made because of the answer |
| QueryEngine.Channel.Advance | nattan/src/deps/c-ares-1.15.0/ares_process.c:770-799 | the loop stops at the first attempt that is open, and gives up only if none is left |
| QueryEngine.Channel.AdvanceTcpSendQueue | nattan/src/deps/c-ares-1.15.0/ares_process.c:297-324 | the queued bytes lose exactly the first n; only the head request is cut, and whole requests are dropped in order |
| QueryEngine.Channel.FindQuery | nattan/src/deps/c-ares-1.15.0/ares_process.c:592-607 | the first query on the list of the answer's id that has that id and the same questions, None exactly if no live query has |
| QueryEngine.TurningStep | nattan/src/deps/c-ares-1.15.0/ares_process.c:545-565 | while the queries of an event move one after the other, a broken server stays broken, an open connection stays the same, and a server breaks only if a query has ended before |
| QueryEngine.PursuedAfterFailure | nattan/src/deps/c-ares-1.15.0/ares_process.c:763-803 | a server at which a transmission has failed is skipped by the later attempts, and no other open attempt is lost |
| QueryEngine.Channel.Send | nattan/src/deps/c-ares-1.15.0/ares_send.c:35-137 | malformed sizes and serverless channels are reported at once; otherwise the query is linked and sent at the first attempt that works, or refused when all are used up |
| QueryEngine.Channel.Cancel | nattan/src/deps/c-ares-1.15.0/ares_cancel.c:26-63 | exactly the live queries get ECANCELLED, in order of sending |
| QueryEngine.Channel.Destroy | nattan/src/deps/c-ares-1.15.0/ares_destroy.c:43-75 | exactly the live queries get EDESTRUCTION, after which every call ever made has had its callback |
| QueryEngine.Channel.CloseSockets | nattan/src/deps/c-ares-1.15.0/ares__close_sockets.c:22-61 | queue emptied, both sockets closed, a new TCP generation |
| QueryEngine.Run | nattan/src/deps/c-ares-1.15.0/ares_process.c:538-918 | any run of sends, answers, timeouts, TCP writes, errors, breakdowns and cancels up to destruction: each ares_send has exactly one callback, and each query is sent at most nservers*tries + 2 times |
| QueryEngine.EveryoneCalled | nattan/src/deps/c-ares-1.15.0/ares_destroy.c:53-60 | with no query live, the callbacks are one for each call of ares_send |
| QueryEngine.WalkMoved | nattan/src/deps/c-ares-1.15.0/ares_process.c:549-564 | the walk along a bucket stays on course when the query under it leaves or returns at the end |
| QueryEngine.BucketDone | nattan/src/deps/c-ares-1.15.0/ares_process.c:545-565 | after its bucket has been walked no query of that second is due |
| SendQueue.Queue.Append | nattan/src/deps/c-ares-1.15.0/ares_process.c:828-852 | the request is queued last and qtail is that request |
| SendQueue.Queue.Advance | nattan/src/deps/c-ares-1.15.0/ares_process.c:297-324 | the queued bytes are the old ones without the first n, the requests left are the last ones, qtail is the last of them, and null exactly when qhead is |
| ListRing.InitListHead | nattan/src/deps/c-ares-1.15.0/ares_llist.c:27-31 | an empty ring |
| ListRing.IsListEmpty | nattan/src/deps/c-ares-1.15.0/ares_llist.c:41-43 | true exactly for the ring of no nodes |
| ListRing.InsertInList | nattan/src/deps/c-ares-1.15.0/ares_llist.c:46-52 | the node is spelled at its place, at the end before the head |
| ListRing.RemoveFromList | nattan/src/deps/c-ares-1.15.0/ares_llist.c:55-62 | the node leaves its ring and the rest keeps its order; an unlinked node stays as it is |
| ListRing.SwapLists | nattan/src/deps/c-ares-1.15.0/ares_process.c:687-709 | the two heads exchange their rings, also when one or both are empty |
| ListRing.RemovalSpellsWithout | nattan/src/deps/c-ares-1.15.0/ares_llist.c:46-62 | pointer surgery is removal and appending on the spelled sequence |
| DnsName.ParseText | nattan/src/deps/c-ares-1.15.0/ares_create_query.c:138-171 | parsing an expansion gives the labels back, whatever bytes they hold |
| DnsName.NormalIsFixed | nattan/src/deps/c-ares-1.15.0/ares_expand_name.c:65-138 | a name without redundant escapes and final dot is its own expansion |
| DnsName.ExpansionIsNormal | nattan/src/deps/c-ares-1.15.0/ares_expand_name.c:96-136 | expansions contain no redundant escape and no final dot |
| DnsName.WalkWire | nattan/src/deps/c-ares-1.15.0/ares_expand_name.c:143-198 | an uncompressed name in a message is decoded to its labels, and its encoded length is its wire length |
| DnsName.WireInjective | nattan/src/deps/c-ares-1.15.0/ares_create_query.c:138-174 | different names have different wire forms |
| DnsName.ReencodeExactly | nattan/src/deps/c-ares-1.15.0/ares_create_query.c:98-174 | re-encoding the expansion of a wire name gives the same bytes if and only if no label has a zero byte and the name is not an onion name |
| DnsCodec.CreateQuery | nattan/src/deps/c-ares-1.15.0/ares_create_query.c:87-206 | the packet for exactly the names that parse and fit, the error otherwise; every write is inside the allocation |
| DnsCodec.WriteName | nattan/src/deps/c-ares-1.15.0/ares_create_query.c:136-171 | the label loop writes the wire labels, or refuses exactly the names that do not parse |
| DnsCodec.CopyLabel | nattan/src/deps/c-ares-1.15.0/ares_create_query.c:158-165 | the unescaped label behind its length byte |
| DnsCodec.AcceptedIsWellFormed | nattan/src/deps/c-ares-1.15.0/ares_create_query.c:138-199 | accepted names have labels of 1 to 63 bytes and at most 255 bytes in all |
| DnsFallback.FallbackIsPlainQuery | nattan/src/deps/c-ares-1.15.0/ares_process.c:609-628 | cutting off the OPT record leaves the query that would have been created without EDNS |
| DnsCodec.NameLength | nattan/src/deps/c-ares-1.15.0/ares_expand_name.c:143-198 | terminates for every message and offset, reads only inside it, and gives the length of the expansion or -1 |
| DnsCodec.ExpandName | nattan/src/deps/c-ares-1.15.0/ares_expand_name.c:65-138 | the expansion and encoded length of the walked name, or BadEncoding exactly if there is no walk |
| DnsCodec.FillName | nattan/src/deps/c-ares-1.15.0/ares_expand_name.c:100-137 | the unchecked second pass follows the same path, stays inside the message and fills exactly the allocated text |
| DnsCodec.CreatedExpands | nattan/src/deps/c-ares-1.15.0/ares_expand_name.c:65-138 | expanding the name of a created query gives the accepted name in normal form, with the number of bytes encoded |
| DnsMatch.CompareQuestions | nattan/src/deps/c-ares-1.15.0/ares_process.c:1274-1351 | the two loops decide SameQuestions |
| DnsMatch.SameQuestionsExactly | nattan/src/deps/c-ares-1.15.0/ares_process.c:1274-1351 | an answer is taken exactly if it announces as many questions as the query, those of the query can be decoded, and each agrees with one of the answer up to which all can be decoded |
| DnsMatch.AnswerMatchesExactly | nattan/src/deps/c-ares-1.15.0/ares_process.c:1274-1351 | for a created query and an answer with one question whose name holds no zero byte: exactly if the labels are equal up to case, and type and class are equal |
| DnsMatch.OneQuestionExactly | nattan/src/deps/c-ares-1.15.0/ares_process.c:1274-1351 | between packets with one question each: exactly if the expanded names are equal up to case and up to their first zero bytes, and type and class are equal |
| DnsMatch.CreatedMatchesExactly | nattan/src/deps/c-ares-1.15.0/ares_process.c:1274-1351 | for a query created from a C string: exactly if its name is that of the answer up to the first zero byte, up to case, and type and class are equal |
| DnsMatch.ZeroBytesHide | nattan/src/deps/c-ares-1.15.0/ares_process.c:1337-1338 | an answer for "a" NUL "c" is taken for a query for "a" |
| DnsMatch.FoldLabels | nattan/src/deps/c-ares-1.15.0/ares_process.c:1337-1338 | expanded names are equal up to case exactly if their labels are |
| Ipv6Text.FindBest | nattan/src/deps/c-ares-1.15.0/inet_ntop.c:131-154 | the first longest run of at least two zero words, or none |
| Ipv6Text.Format | nattan/src/deps/c-ares-1.15.0/inet_ntop.c:159-185 | the text with "::" for that run and the dotted tail where one is due |
| Ipv6Text.Ntop6 | nattan/src/deps/c-ares-1.15.0/inet_ntop.c:108-196 | the text if it and its NUL fit; it never exceeds 45 characters |
| Ipv6Read.BitsExact | nattan/src/deps/c-ares-1.15.0/inet_net_pton.c:195-223 | a prefix length is accepted exactly if it is canonical decimal between 0 and 128 |
| Ipv6Read.GetV4 | nattan/src/deps/c-ares-1.15.0/inet_net_pton.c:226-267 | the dotted quad reader with its optional prefix length |
| Ipv6Read.V4Dotted | nattan/src/deps/c-ares-1.15.0/inet_net_pton.c:226-267 | every printed dotted quad is read back |
| Ipv6Read.ShiftSpreads | nattan/src/deps/c-ares-1.15.0/inet_net_pton.c:355-370 | the shift by hand moves the bytes after "::" to the end and leaves zeros |
| Ipv6Read.Pton6 | nattan/src/deps/c-ares-1.15.0/inet_net_pton.c:270-387 | the reader on its scratch array, with its in-place shift, is the function Read |
| Ipv6Read.ReadPrinted | nattan/src/deps/c-ares-1.15.0/inet_net_pton.c:270-387 | whatever run the printer abbreviates, the text reads back as the address |
| Ipv6Read.PrintAndRead | nattan/src/deps/c-ares-1.15.0/inet_ntop.c:108-196 | printing and reading every 16-byte address gives the same 16 bytes |
| Ipv6Limits.SuccessStoresTheAddressUnless | nattan/src/deps/c-ares-1.15.0/inet_net_pton.c:270-387 | success is reported with fewer than 16 bytes stored if and only if a ninth group ends with a colon or the prefix length is at most 120, and with none stored if and only if a ninth group does or the prefix length is 0 |
| Ipv6Limits.NinthExactly | nattan/src/deps/c-ares-1.15.0/inet_net_pton.c:305-326 | the early return without an error is taken if and only if, after eight groups, a ninth ends with a colon that is not the last character |
| Ipv6Limits.OverrunExactly | nattan/src/deps/c-ares-1.15.0/inet_net_pton.c:346-373 | the shift leaves the scratch array if and only if the text before the first slash has more groups behind "::" than the prefix length has words, and not as many groups in all as it has words |
| Ipv6Limits.NoSlashNoOverrun | nattan/src/deps/c-ares-1.15.0/inet_net_pton.c:355-370 | without a prefix length the shift stays inside the scratch array |
| Ipv6Limits.NothingForNineGroups | nattan/src/deps/c-ares-1.15.0/inet_net_pton.c:319-320 | nine groups with anything behind the colon of the ninth: success, nothing stored |
| Ipv6Limits.NothingForZeroBits | nattan/src/deps/c-ares-1.15.0/inet_net_pton.c:374-378 | "::/0": success, nothing stored |
| Ipv6Limits.TwoBytesForSixteenBits | nattan/src/deps/c-ares-1.15.0/inet_net_pton.c:374-378 | "1::/16": success, two bytes stored |
| Ipv6Limits.ThreeGroupsForTwoBits | nattan/src/deps/c-ares-1.15.0/inet_net_pton.c:355-370 | "::0:0:0/2": the shift leaves the scratch array |
| TcpFrames.TcpReader.ReadTcpData | nattan/src/deps/c-ares-1.15.0/ares_process.c:397-454 | one read: the pending bytes grow by what arrived, or a whole message is delivered, or the connection is dropped |
| TcpFrames.CutFrames | nattan/src/deps/c-ares-1.15.0/ares_send.c:84-90 | messages framed as ares_send frames them are cut out again, in order |
| TcpFrames.AllDelivered | nattan/src/deps/c-ares-1.15.0/ares_process.c:426-454 | the reader gets through a stream of framed messages if and only if none of them is empty |
| TcpFrames.CutIsWhole | nattan/src/deps/c-ares-1.15.0/ares_process.c:397-454 | the stream is the delivered messages, framed, followed by what is pending |
| TcpFrames.Serve | nattan/src/deps/c-ares-1.15.0/ares_process.c:362-457 | for every way in which recv cuts up the stream, the messages delivered are those of the stream; failure exactly when bytes follow an empty frame |
| HashTable.MaskIsRemainder | nattan/src/deps/hiredis/dict.c:116-116 | for a power of two the mask takes the remainder, so each bucket is used |
| HashTable.NextPower | nattan/src/deps/hiredis/dict.c:306-315 | the smallest power of two from 4 on that is large enough |
| HashTable.Move | nattan/src/deps/hiredis/dict.c:110-123 | one entry moves to the head of its new chain; moved and unmoved entries stay linked |
| HashTable.Rehash | nattan/src/deps/hiredis/dict.c:102-126 | all entries and no others are in the new table, each in its bucket; the counter ends at zero, as the source asserts |
| HashTable.Dict.Expand | nattan/src/deps/hiredis/dict.c:88-132 | fails exactly if there are more entries than asked for; the map stays the same |
| HashTable.Dict.ExpandIfNeeded | nattan/src/deps/hiredis/dict.c:295-303 | afterwards there is room: 4 buckets at first, twice as many when full |
| HashTable.Dict.KeyIndex | nattan/src/deps/hiredis/dict.c:320-337 | -1 exactly for a key that is present, else the bucket of the key |
| HashTable.Dict.Add | nattan/src/deps/hiredis/dict.c:135-154 | adds exactly the absent keys |
| HashTable.Dict.Replace | nattan/src/deps/hiredis/dict.c:160-179 | the map is updated; the result tells whether the key was new |
| HashTable.Dict.Delete | nattan/src/deps/hiredis/dict.c:182-210 | removes exactly the given key, and its entry from its chain |
| HashTable.Dict.Find | nattan/src/deps/hiredis/dict.c:243-256 | the entry of the key, or null exactly if it is absent |
| HashTable.Inserted | nattan/src/deps/hiredis/dict.c:143-152 | an entry at the head of its chain keeps buckets, distinct keys and the count |
| HashTable.Removed | nattan/src/deps/hiredis/dict.c:193-204 | unlinking removes exactly one entry and keeps buckets and distinct keys |
| HashTableRuns.DictIterator.Next | nattan/src/deps/hiredis/dict.c:268-286 | the next of the entries still to come, null exactly at the end; on the table of 2^31 buckets that end is at once |
| HashTableRuns.AfterDelete | nattan/src/deps/hiredis/dict.c:278-283 | deleting the entry just returned leaves what is still to come unchanged |
| HashTableRuns.Sweep | nattan/src/deps/hiredis/dict.c:268-286 | every entry is returned once, in bucket order, even if each returned entry is deleted, if and only if the table has fewer than 2^31 buckets or no entry; the map loses exactly the chosen keys that were returned |
| HashTableRuns.LargestTableHides | nattan/src/deps/hiredis/dict.c:268-286 | a table of 2^31 buckets with an entry in it that the loop does not see |
| HashTableRuns.KeysOfTable | nattan/src/deps/hiredis/dict.c:88-256 | the keys of the chained entries are the keys of the map |
| HashTableRuns.Replay | nattan/src/deps/hiredis/dict.c:135-256 | every sequence of operations on a new table gets the answers of a finite map, as long as that holds fewer than 2^31 keys |
| AsyncModel.CalledIs | nattan/src/deps/hiredis/async.c:286-293 | what a callback does while it runs comes to its commands before it disconnects or frees, queued last, and the flags; neither takes effect before it returns |
| AsyncModel.FirstIsBooked | nattan/src/deps/hiredis/async.c:270-293 | everything accepted has been called back or waits, in this order, and replies come before NULLs |
| AsyncModel.DrainedCalls | nattan/src/deps/hiredis/async.c:303-304 | every waiting callback gets NULL, in order, and so does what these callbacks still issue |
| AsyncModel.ReleasedIsGood | nattan/src/deps/hiredis/async.c:296-338 | all that was accepted has been called when the context is freed |
| AsyncModel.SeveredIsGood | nattan/src/deps/hiredis/async.c:352-377 | without an error the queue is empty, as the source asserts; frees exactly if automatic freeing is on, and else leaves the queue as it is |
| AsyncModel.ErrorCallsUnlessOff | nattan/src/deps/hiredis/async.c:352-377 | an error gives NULL to the waiting callbacks if and only if automatic freeing is on; else they wait, and commands are refused, until the program frees the context |
| AsyncModel.ProcessedIsGood | nattan/src/deps/hiredis/async.c:455-533 | the replies go to the waiting callbacks in their order, and all of them unless an error or an end comes first |
| AsyncModel.CrashIsRunningDry | nattan/src/deps/hiredis/async.c:482-511 | the assertion on spontaneous replies fails if and only if the queue, with the commands that its callbacks issue, runs dry before a reply that is no error, and no callback before has freed the context |
| AsyncModel.OneTooMany | nattan/src/deps/hiredis/async.c:482-511 | with callbacks that neither issue nor free: exactly if there is one reply too many and that is no error |
| AsyncModel.SpontaneousReplyCrashes | nattan/src/deps/hiredis/async.c:482-511 | a status reply on a new connection makes it fail |
| AsyncModel.TimeoutFrees | nattan/src/deps/hiredis/async.c:690-716 | a timeout frees the context if and only if automatic freeing is on or one of the callbacks that it calls disconnects; a free asked for by one of them is forgotten if and only if automatic freeing is off and none of them disconnects |
| AsyncModel.TimeoutFreesUnlessOff | nattan/src/deps/hiredis/async.c:690-716 | where no callback disconnects, exactly if automatic freeing is on when the timer fires |
| AsyncModel.FreeIsForgotten | nattan/src/deps/hiredis/async.c:344-349 | a run in which redisAsyncFree, called from a callback during a timeout, is not carried out |
| AsyncModel.RunIsGood | nattan/src/deps/hiredis/async.c:248-815 | in any run callbacks are called in the order of acceptance, the first with the replies of the connection and the rest with NULL; no reply is lost without an error |
| AsyncModel.RunIsAccounted | nattan/src/deps/hiredis/async.c:737-815 | in any run the accepted commands are those of the program and of the callbacks called, all of them until some one disconnects or frees |
| AsyncModel.DisconnectIsClean | nattan/src/deps/hiredis/async.c:379-393 | after redisAsyncDisconnect with commands pending, each callback gets its own reply, and then the context is freed with status OK |
| AsyncContext.Context.Command | nattan/src/deps/hiredis/async.c:737-815 | accepted exactly while neither disconnecting nor freeing, and then queued last |
| AsyncContext.Context.RunCallback | nattan/src/deps/hiredis/async.c:286-293 | playing the script of the callback action by action is the function Called |
| AsyncContext.Context.DoFree | nattan/src/deps/hiredis/async.c:296-338 | the loop gives NULL to every waiting callback and to what is issued meanwhile; then the context is freed |
| AsyncContext.Context.AsyncFree | nattan/src/deps/hiredis/async.c:344-349 | at once outside callbacks, deferred inside them |
| AsyncContext.Context.DoDisconnect | nattan/src/deps/hiredis/async.c:352-377 | the queue is empty where the source asserts it; frees exactly if automatic freeing is on |
| AsyncContext.Context.AsyncDisconnect | nattan/src/deps/hiredis/async.c:385-393 | at once exactly if no callback runs and none waits |
| AsyncContext.Context.ProcessCallbacks | nattan/src/deps/hiredis/async.c:455-533 | the loop is the function Processed, and the source's assertion fails exactly if the queue runs dry |
| AsyncContext.Context.HandleTimeout | nattan/src/deps/hiredis/async.c:690-716 | which callbacks get NULL, and that the context is freed exactly if automatic freeing is on or one of them disconnects |
| AsyncContext.Context.HandleRead | nattan/src/deps/hiredis/async.c:630-654 | replies received are a beginning of those that arrived, and all of them as long as no error or end intervenes |
| AsyncContext.Run | nattan/src/deps/hiredis/async.c:248-815 | the object goes through any run of events as the functions say, so that the laws of runs hold of it, that of the status of its disconnect callback included |
| CallbackList.List.Push | nattan/src/deps/hiredis/async.c:248-268 | appends to the linked list |
| CallbackList.List.Shift | nattan/src/deps/hiredis/async.c:270-284 | takes the first, or reports the empty list |
| CallbackList.Replay | nattan/src/deps/hiredis/async.c:248-284 | any mixture of pushes and shifts is first in, first out |
| Chan.Chan.Enqueue | nattan/src/sync/Chan.h:87-92 | the ring holds one message more, at the end |
| Chan.Chan.Dequeue | nattan/src/sync/Chan.h:94-100 | the oldest message leaves the ring |
| Chan.RingPut | nattan/src/sync/Chan.h:87-92 | writing at putIndex, wrapping around, appends |
| Chan.Interleave | nattan/src/sync/Chan.h:35-69 | every interleaving of senders and receivers gets from the ring the outcomes of a queue of bounded length |
| Chan.FirstInFirstOut | nattan/src/sync/Chan.h:35-69 | what has come out of such a queue is the beginning of what has gone in, with at most capacity in between |
| TaskPool.Thread.Dispatch | nattan/src/task/TaskThread.h:102-110 | the runner goes to an idle worker, which is idle no longer, and to a new one only if none is idle; its channel has room, so that the boss never waits |
| TaskPool.Thread.RunBoss | nattan/src/task/TaskThread.h:91-112 | runners are taken from the thread's tasks first, then from the boss's channel, each in order; an idle worker gets them, and only if there is none a new one |
| TaskPool.Thread.WakeWorker | nattan/src/task/TaskThread.h:50-67 | a worker takes the runner in its channel, or dies with an empty channel if the timeout is positive |
| TaskPool.Thread.SubmitFrom | nattan/src/task/TaskThread.h:120-130 | the runner is in the boss's channel or in the hand of the waiting submitter |
| TaskPool.Thread.FinishRunner | nattan/src/task/TaskThread.h:64-79 | the worker is idle again, alive, with an empty channel |
| TaskPool.Thread.OfferTask | nattan/src/task/TaskThread.h:126-128 | refused exactly when the queue is full, and else queued last |
| TaskPool.HeldUpdate | nattan/src/task/TaskThread.h:81-81 | a change of one worker changes what workers hold by that worker's share |
| TaskPool.Run | nattan/src/task/TaskThread.h:29-159 | every interleaving of steps leads to the picture that the step functions give, in which the boss does not wait for a worker, idle workers are alive with empty channels, no worker has died with a runner, and each runner taken in is in exactly one place per submission |
| TaskPool.StuckExactlyAtRest | nattan/src/task/TaskThread.h:50-112 | no step of a coroutine changes anything, but for idle workers that die, if and only if the boss and all workers left wait with empty channels; then all that was taken in is done, except the tasks of other threads that are still queued |
| TaskPool.CalmStepsLower | nattan/src/task/TaskThread.h:50-112 | a step that changes something, while nobody submits or offers, leaves less ahead |
| TaskPool.CalmRunsEnd | nattan/src/task/TaskThread.h:50-112 | while nobody submits or offers, not more steps change something than there is ahead |
| TaskPool.ComesToRest | nattan/src/task/TaskThread.h:50-112 | from every orderly picture the pool can come to rest, in at most as many steps |
| TaskPool.StrandedExactlyIfDeaf | nattan/src/task/TaskThread.h:93-130 | queued tasks of other threads have to wait for a coroutine that submits a runner if and only if the boss waits with an empty channel and no coroutine waits to submit |
| TaskPool.DeafTakesNothing | nattan/src/task/TaskThread.h:93-130 | then every run without a submission leaves them in the queue, whatever else happens |
| TaskPool.ListeningTakes | nattan/src/task/TaskThread.h:93-130 | else some run without a submission or an offer takes up the first of them |
| TaskPool.OfferedIsStranded | nattan/src/task/TaskThread.h:93-127 | such a picture: a task offered while the boss of an empty pool waits |
| Search.SearchQuery.SearchCallback | nattan/src/deps/c-ares-1.15.0/ares_search.c:145-205 | the next name of the plan, or the one final report |
| Search.Search | nattan/src/deps/c-ares-1.15.0/ares_search.c:49-205 | the names of the plan in order up to the first answer that is not NODATA, SERVFAIL or NOTFOUND; if all are soft, the as-is status, NOTFOUND raised to NODATA if NODATA was seen; timeouts are summed |
| Search.AskedOnce | nattan/src/deps/c-ares-1.15.0/ares_search.c:216-229 | with distinct domains no name is asked twice |
| SortAddresses.Bitncmp | nattan/src/deps/c-ares-1.15.0/bitncmp.c:36-58 | the lexicographic comparison of the first n bits |
| SortAddresses.CompareBitsIsLexicographic | nattan/src/deps/c-ares-1.15.0/bitncmp.c:36-58 | zero for equal bits, otherwise decided by the first bits that differ |
| SortAddresses.CompareByte | nattan/src/deps/c-ares-1.15.0/bitncmp.c:41-44 | comparing bytes as numbers is comparing their bits |
| SortAddresses.GetAddressIndex | nattan/src/deps/c-ares-1.15.0/ares_gethostbyname.c:459-483 | the first matching entry of the sort list, or the number of entries |
| SortAddresses.FirstMatchIsFirst | nattan/src/deps/c-ares-1.15.0/ares_gethostbyname.c:515-529 | that entry matches, and none before it does |
| SortAddresses.SortAddresses | nattan/src/deps/c-ares-1.15.0/ares_gethostbyname.c:429-454 | the array ends up as the insertion sort of its old contents by that index |
| SortAddresses.SortIsStable | nattan/src/deps/c-ares-1.15.0/ares_gethostbyname.c:485-510 | that sort is in order, a permutation, and keeps the order of equal indices |
| Numbers.Int64OfExactly | nattan/src/deps/hiredis/read.c:157-218 | a text is read as v if and only if it is the printed form of v and v fits 64 bits |
| RespText.TextExactly | nattan/src/deps/hiredis/read.c:260-439 | a reply is read if and only if the input begins with one of its texts, told byte by byte: one-line statuses and errors, canonical numbers, bulk strings with any two bytes behind them, both spellings of nil, arrays nested at most eight deep; exactly that text is taken |
| RespText.ErrorExactly | nattan/src/deps/hiredis/read.c:260-488 | an error is reported if and only if the input begins with it: a type byte, an array nested too deep, a line that is no number or out of range, or such a thing behind some complete elements of an array |
| RespText.StreamExactly | nattan/src/deps/hiredis/read.c:550-598 | the replies and the error of a whole stream are those that its text spells, up to where neither a text nor an error stands |
| RespText.NilArrayIsNil | nattan/src/deps/hiredis/read.c:394-405 | "*-1" CR LF is nil |
| RespText.GetOnTheWire | nattan/src/deps/hiredis/hiredis.c:547-556 | the bytes of the command GET k |
| RespFormat.ConversionExactly | nattan/src/deps/hiredis/hiredis.c:286-353 | a conversion is found if and only if the text begins with flags, a width, a precision, a size and a conversion character as printf has them; what follows it is left |
| RespFormat.CutShortExactly | nattan/src/deps/hiredis/hiredis.c:286-309 | the end of the format comes first if and only if nothing but flags, width and precision is left |
| RespFormat.StepExactly | nattan/src/deps/hiredis/hiredis.c:254-374 | one conversion by its text: up to 13 bytes it is replaced by its value, a longer one takes its argument and is then read as text, and what is no conversion is a format error |
| RespFormat.TokenIsRead | nattan/src/deps/hiredis/hiredis.c:236-374 | a literal byte, %%, %s, %b or a printf conversion is read as one piece: the byte, a per cent sign, or its value |
| RespFormat.TemplateIsSent | nattan/src/deps/hiredis/hiredis.c:230-388 | a format of words between spaces is sent with one argument per word, which is the literals, per cent signs and values of the word in their order, whatever the values are |
| RespFormat.WordAndString | nattan/src/deps/hiredis/hiredis.c:259-264 | "GET %s" is sent as GET and the value, and so for every word |
| DnsHeader.EveryHeader | nattan/src/deps/c-ares-1.15.0/ares_dns.h:53-66 | every message of at least 12 bytes begins with the header of some fields |
| DnsHeader.FieldsAreRead | nattan/src/deps/c-ares-1.15.0/ares_dns.h:53-66 | id, truncation bit, response code and question count are read from a header made of any fields |
| DnsHeader.VerdictExactly | nattan/src/deps/c-ares-1.15.0/ares_process.c:585-669 | what becomes of an answer, by its header fields and its length: each of the five verdicts if and only if its conditions hold |
| DnsHeader.QueryFields | nattan/src/deps/c-ares-1.15.0/ares_create_query.c:115-130 | the fields of a created query: one question, recursion if asked for, one more record exactly with EDNS |
| DnsHeader.TrailerFields | nattan/src/deps/c-ares-1.15.0/ares_create_query.c:176-188 | type, class and OPT record, byte by byte |
| DnsHeader.FrameLength | nattan/src/deps/c-ares-1.15.0/ares_send.c:84-89 | the two length bytes in front of a message over TCP |
| QueryEngine.OrphanedExactly | nattan/src/deps/c-ares-1.15.0/ares_process.c:1386-1434 | no queued request belongs to a query that has ended; on success it keeps its data, and else the connection counts as broken |
| QueryEngine.AnswerLength | nattan/src/deps/c-ares-1.15.0/ares_process.c:648-652 | the length given to the caller: all over TCP, and at most the size of a UDP packet otherwise |
| DnsChain.WalkExactly | nattan/src/deps/c-ares-1.15.0/ares_expand_name.c:143-198 | a name at an offset is decoded to some labels if and only if a chain spells them: labels in a row, a pointer of two bytes to the next segment, and a zero byte at the end of the last, with at most fifty jumps and no more than the message has bytes |
| DnsChain.ExpandExactly | nattan/src/deps/c-ares-1.15.0/ares_expand_name.c:65-138 | the expansion is the text of the labels of such a chain, and the encoded length ends behind its first segment |
| DnsChain.PointerToQuestion | nattan/src/deps/c-ares-1.15.0/ares_expand_name.c:105-112 | the pointer C0 0C expands to the name of the first question, and takes two bytes |
| DnsChain.LoopIsRefused | nattan/src/deps/c-ares-1.15.0/ares_expand_name.c:154-168 | a pointer to itself is refused |
| DnsText.ParseExactly | nattan/src/deps/c-ares-1.15.0/ares_create_query.c:136-171 | a text is taken for some labels if and only if it spells them: labels of 1 to 63 bytes with dots between them and perhaps a final dot, dots and backslashes inside them escaped |
| DnsText.EncodeExactly | nattan/src/deps/c-ares-1.15.0/ares_create_query.c:98-201 | a name is put on the wire if and only if it is no onion name and spells labels that take at most 255 bytes, or is a dot alone |
| DnsText.WireOfTwo | nattan/src/deps/c-ares-1.15.0/ares_create_query.c:158-174 | "www.a" on the wire |
| DnsName.PlainText | nattan/src/deps/c-ares-1.15.0/ares_expand_name.c:100-136 | labels without dots and backslashes are expanded to themselves, with dots between them |
| DnsName.OnionExactly | nattan/src/deps/c-ares-1.15.0/ares_getnameinfo.c:444-453 | a name of labels without dots, with or without a final dot, is refused exactly if it has at least two labels and the last is "onion" in any case |
| Ipv6Text.HexIsShortest | nattan/src/deps/c-ares-1.15.0/inet_ntop.c:180-180 | a group is written in lower case without leading zeros |
| Ipv6Text.DottedExactly | nattan/src/deps/c-ares-1.15.0/inet_ntop.c:159-181 | the text is in lower case, with a dotted tail exactly for ::ffff:a.b.c.d and for ::a.b.c.d with a.b not 0.0 |
| Ipv6Groups.GroupsAreRead | nattan/src/deps/c-ares-1.15.0/inet_net_pton.c:269-400 | groups of one to four hexadecimal digits of either case are read as their bytes if and only if they are as many as the prefix length has words |
| Ipv6Groups.GapIsRead | nattan/src/deps/c-ares-1.15.0/inet_net_pton.c:269-400 | groups on both sides of "::" are read with zeros between them if they are fewer than the words, and refused if they are as many |
| AsyncFarewell.FarewellExactly | nattan/src/deps/hiredis/async.c:326-333 | in every run from a new context: the disconnect callback is called exactly if the context is freed after it was connected, with REDIS_OK exactly if the program or a callback that was called has freed it or there is no error |
| AsyncFarewell.PendingExactly | nattan/src/deps/hiredis/async.c:656-687 | in every run output is pending exactly if a command was accepted since all of it was written |
| AsyncFarewell.FreeTells | nattan/src/deps/hiredis/async.c:344-349 | redisAsyncFree by the program: NULL to all that waits, and REDIS_OK |
| AsyncFarewell.DisconnectTells | nattan/src/deps/hiredis/async.c:385-394 | redisAsyncDisconnect by the program: at once exactly if nobody waits |
| AsyncFarewell.ErrorTells | nattan/src/deps/hiredis/async.c:352-377 | an error while reading or writing: REDIS_ERR, unless one of the callbacks that get NULL frees the context |
| AsyncFarewell.RefusalTells | nattan/src/deps/hiredis/async.c:538-555 | a connection that cannot be made: error 1, and no disconnect callback |
| AsyncFarewell.TimeoutTells | nattan/src/deps/hiredis/async.c:690-716 | a timeout: error 6 unless there is one already, and REDIS_ERR unless a callback frees the context |
| AsyncFarewell.IdleTimeout | nattan/src/deps/hiredis/async.c:694-697 | a timeout of a connected context with nothing pending changes nothing |
| AsyncFarewell.ProcessedExactly | nattan/src/deps/hiredis/async.c:455-532 | the four ways in which the processing of replies ends, with error, freeing and status of each |
| TaskPool.WorkerIsStarted | nattan/src/task/TaskThread.h:93-110 | a worker is started if and only if the boss has a runner to hand out and none is idle; then all living workers are busy, and the others stay as they are |
| TaskPool.PoolGrows | nattan/src/task/TaskThread.h:93-110 | in every run there are as many workers more as there were such steps |
| TaskPool.WorkerDies | nattan/src/task/TaskThread.h:50-67 | a worker dies exactly in a step of its own, idle, with a positive timeout, and stays dead |
| TaskPool.NobodyDies | nattan/src/task/TaskThread.h:62-64 | without a positive timeout no worker dies in any run |
| TaskPool.TasksInOrder | nattan/src/task/TaskThread.h:93-97 | in every run the tasks of other threads are handed out in the order in which they were accepted |
| Search.PlanExactly | nattan/src/deps/c-ares-1.15.0/ares_search.c:103-140 | the name as it is comes first exactly if it has at least ndots dots, and last otherwise; the domains follow in their order |
| Search.UnderExactly | nattan/src/deps/c-ares-1.15.0/ares_search.c:216-229 | a name under a domain has the labels of the name and then those of the domain if and only if no backslash at the end of the name escapes the dot between them |
| Search.BackslashEatsDot | nattan/src/deps/c-ares-1.15.0/ares_search.c:216-229 | an "a" and a backslash under the domain "b" make one label |
| SortAddresses.MaskIsBitwise | nattan/src/deps/c-ares-1.15.0/ares_gethostbyname.c:459-483 | a pattern with a mask takes exactly the addresses whose bits are those of the pattern where the mask has ones, the pattern having no others |

## Left out

- Sockets, polling, TLS, files, the environment, resolv.conf and logging: results of socket calls are parameters or arbitrary choices.
- Failures of memory allocation, and the lifetimes of C pointers; packets and replies are byte sequences and heap cells.
- Custom reply object functions of hiredis, and the blocking half of redisGetReply.
- The truncation of lengths to C ints in hiredis for buffers beyond 2^31 bytes, and the release of the consumed part of the reader's buffer, which changes no byte that is read later.
- RespReader.Reader.ProcessBulkItem: lengths are unbounded integers; in the source `len + 2` overflows a signed 64-bit value for bulk lengths from LLONG_MAX - 1 on, which no buffer can hold.
- RespCommand.FormatCommand: what the C library prints for a value under a printf conversion is the caller's, who passes the printed bytes; the reading of the conversion itself is modelled.
- QueryEngine.Run: callbacks of c-ares do not call back into the channel, the channel timeout is positive, the clock is monotone with at least one second, and the addresses of UDP answers and socket callbacks are not modelled.
- QueryEngine.Channel.Expire: the queries of a bucket are walked as a sequence; the saved successor is the next handle of that sequence.
- Query ids: the choice of unused ids and their random generator.
- DnsCodec.CreateQuery: class, type and payload size are written modulo 65536, and only the query header of the resolver is built.
- Ipv6Groups.GapIsRead: no more groups than the prefix length has words; what happens with more is in Ipv6Limits, and dotted tails are read back as they are printed (Ipv6Read.ReadPrinted).
- Ipv6Read.Pton6: the address family AF_INET of ares_inet_pton, and the Windows and system variants.
- TcpFrames.TcpReader.ReadTcpData: what process_answer does with a delivered message is the query engine's part.
- HashTable.Dict.Add: requires fewer than 2^31 entries, because the bucket index is returned as an int and a larger table would make it negative; keys are compared by equality.
- HashTable.Dict.Replace: the same bound as Add.
- HashTable.Dict.KeyIndex: the same bound as Add.
- HashTable.Dict.ExpandIfNeeded: the same bound as Add.
- HashTable.Dict.Expand: sizes up to 2^31; hiredis itself asks for no other, as it only doubles the size of a full table.
- Key and value destructors, dictRelease and the hash function of the dictionary.
- AsyncContext.Context.Command: subscribing, monitoring and their callbacks; the connect and disconnect callbacks do not call back into the context.
- AsyncContext.Context.HandleRead: TLS, and the scheduling of read, write and timer events.
- Chan.Interleave: mutexes and condition variables are modelled by the atomicity of the segments between two waits; `close` of a channel, which returns no value although it is declared to.
- TaskPool.Run: stopping a worker and the wake-up of the scheduler; the thread's task queue is a plain bounded queue.
- Search.Search: reading the host alias file; the alias found there is part of the configuration.
- SortAddresses.GetAddressIndex: reading the sort list from the configuration.
- The parsers of the DNS reply types, connection set-up, URI, HTTP and configuration code, and nattan's buffers, timers and logging.
