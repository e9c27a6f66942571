# V8H: a verified model

V8H is a small epoll and JavaScript runtime. This Dafny project models the parts of it that
keep state and proves what they promise: the incremental byte search and the HTTP receiver
built on it, the byte buffer and its pool, the write side, the module loader, the event table
and its loop, and the naming of exported methods. `dafny verify dfyconfig.toml` checks it.

## How it is laid out

Each part has a specification on values, with the theorems about it, and, where the source
changes state, a class whose methods are proved to do what the specification says.

| part | specification and theorems | as it runs |
|---|---|---|
| search | `Search` | `Search.PartialFind` |
| buffer growth, accounting | `Growth` | `Buffers.Buffer`, `Buffers.MemoryMeter` |
| buffer pool | | `Pool.BufferPool` |
| token reads | `SocketRead` | `SocketRead.TokenWait` |
| repeated token reads | `Framing` | `FrameReader.Reader` |
| request heads | `Text`, `HttpHead`, `HeaderValues` | `HttpHead.ParseHeader` |
| HTTP receiver, one request | `HttpReceive`, `HttpReference`, `HttpMultipart` | `HttpClient.Client` |
| HTTP connection | `HttpLive`, `HttpStale`, `HttpUpload`, `HttpRespond`, `HttpServe` | `HttpClient.Client` |
| writing | `Drain` | `SocketWrite.Writer` |
| modules | `Modules`, `ModuleCache`, `ModuleOrder`, `ModuleLimits` | `ModuleLoader.Loader` |
| events | `Events`, `EventLoop` | `EventLoop.Service` |
| method names | `Camel` | `Camel.UnderlineToCamel` |

A byte is a `char` and text is bytes: `readUtf8` and `writeUtf8` convert nothing. Numbers are
unbounded. Closures become data: a callback handed to `readToken` or `readSize` is named by what
it waits for (`HttpReceive.Wait`), and the variable `last` that `readToken` captures is a field.
What the kernel answers (`recv`, `send`, `epoll_wait`) is an argument: any chunk, any script of
partial sends, any batches. `send` is taken never to return 0 for a nonempty range and
`epoll_ctl` to succeed.

## Where the source differs from its intent

- `Buffer::read` and `_read_buffer` call `commit` where taking bytes needs `consume`
  (src/buffer.cc:151, src/buffer.cc:259). The reading side here is `read_utf8` and `consume`.
- `Socket::_read_buffer` keeps the -1 of `recv` in an unsigned variable and commits it
  (src/socket.cc:232-238). A failed `recv` here leaves the buffer alone and returns -1.
- `prepare` never ends for a buffer of reserve 0 (src/buffer.cc:85): a buffer here is made with
  a reserve of at least 1.
- A script that is still loading and is required by its literal real path is answered with the
  loading mark instead of an error (coffee/core/startup.coffee:57-58). `ModuleLimits.LoopIsCaught`
  says exactly when, and `ModuleOrder.ThrowsExactly` which cycles are noticed all the same: for one
  with names of both kinds it depends on where it is entered (`ModuleLimits.EntryMatters`).
- Scripts share the global variable `exports` (src/system.cc:32, src/system.cc:42). One that does not
  declare it (CoffeeScript that assigns it does, compiled as generate_js_from_coffee.sh:6 has it), and does not assign it after its last require, may return what a script that it
  requires assigned, or not, if that was loaded before (`ModuleCache.WithoutTheLastWord`,
  `ModuleCache.HistoryMatters`).
- A script that exports null runs again each time, one that exports 1 is taken for a loading one,
  and a load that threw can never be repeated (`ModuleLimits`).
- A buffer that the pool closed instead of keeping must not be pushed again unless the pool is
  still over its limit: `reserve` would be asked of a deleted buffer (coffee/core/buffer.coffee:7-10).
- `process` does not unregister the handler that led to it (coffee/net/http.coffee:89-91,
  coffee/core/socket.coffee:32-41), so until `end` or `flush` calls `$out` any readable event runs
  it again, with its old `last`, on a buffer that also takes the response (`write`). A request can
  be processed twice (`HttpStale.HelloTwice`, `HttpStale.ProcessedTwice`) and a client can take its
  own response for a request (`HttpStale.OwnResponseIsRead`). `HttpStale.OneOutcome` says exactly
  when nothing of the kind happens, for one when `end` or `flush` is called before the user's
  callback returns. After a multipart request any line end is enough (`HttpUpload.UploadProcessedTwice`).
- For the same reason what arrives before `end` goes back to the client with the response
  (`HttpRespond.ResponseIsWhatWasWritten`).
- Bytes of a following request that arrive with the end of a request are dropped, so pipelined
  requests depend on how the stream is cut (`HttpServe.PipeliningDependsOnTheCut`).
- The boundary is looked for as the text "boundary=", not as a parameter: a quoted one is read with
  its quotes, one followed by another parameter with the rest of the line, and the parameter of
  another name that ends alike may be read instead (`HeaderValues.BoundaryIsParameter`,
  `HeaderValues.AnotherIsRead`).
- White space after a multipart boundary makes it the closing one, and the boundary text counts
  wherever it stands in a line, against section 5.1.1 of RFC 2046 (`HttpMultipart.PaddingCloses`,
  `HttpMultipart.AnywhereInALine`).
- A multipart part without header fields is not recognised: its header is taken to run on to the
  next empty line (`HttpMultipart.PartHeadIsExact`).
- A callback that closes the descriptor of a later event of the same batch makes the loop call
  nothing (`Events.ClosingAnotherBreaks`).

## Model

| member | source | states |
|---|---|---|
| Search.PartialFind | src/algorithm.cc:5-26 | The nested pointer loop ends at the least position where needle and haystack agree as far as both go (the end if there is none), and counts exactly the positions it tried and the bytes it compared. |
| Search.FirstOccurrence | coffee/core/buffer.coffee:27-29 | The reference notion: an occurrence with none before it, or none at all; it knows nothing of partial matches. |
| Search.StopFindsFirst | src/algorithm.cc:5-26 | Stop plus needle size fits in the haystack exactly when the needle occurs, and then the stop is its first occurrence. |
| Search.SkippedStays | src/buffer.cc:182-203 | A position ruled out stays ruled out whatever bytes are appended. |
| Search.ResumeIsRestart | coffee/core/socket.coffee:57-60 | Searching the longer buffer from the last result gives the same answer as searching it from the original offset. |
| Search.FoundStays | coffee/core/socket.coffee:57-64 | Once the token is found, more bytes do not move the answer. |
| Search.StopShift | src/buffer.cc:191-203 | Searching the bytes from an offset and adding the offset is searching the whole from that offset. |
| Search.WorkBound | src/algorithm.cc:13-24 | At each position tried at most the needle's length of bytes is compared. |
| Camel.UnderlineToCamel | src/algorithm.cc:31-60 | The two loops write the camel name, or the first 511 characters of a longer one, and terminate it. |
| Camel.AnyName | src/algorithm.cc:31-60 | Any source, character by character: underlines at the beginning stay, later ones are dropped, a small letter right after a dropped one becomes its capital, and every other character stays as it is. |
| Camel.RoundTrip | src/algorithm.cc:31-60 | The explicit inverse recovers a name from its camel name exactly when the name is canonical. |
| Camel.DistinctNames | src/v8h.h:75-77 | Two canonical method names under 512 characters get the same JavaScript name only if they are the same. |
| Camel.NamesCanCollide | src/algorithm.cc:47-57 | Outside canonical names it fails: a name and the same name with a final underscore collide. |
| Growth.GrownIsLeastPower | src/buffer.cc:82-91 | The new reserve is the least old reserve times a power of three that meets the demand. |
| Growth.ReserveFollowsPeak | src/buffer.cc:82-91 | After any run of demands the reserve depends only on the peak demand. |
| Growth.CopyingIsAmortised | src/buffer.cc:5-10 | Over any run, twice the bytes moved plus the first reserve is at most the present reserve. |
| Growth.ReserveBounded | src/buffer.cc:82-91 | The reserve is the first one or at most three times the peak demand less 3. |
| Growth.AccountKeepsBalance | src/buffer.cc:5-26 | Construction, growth and destruction each keep the reported total equal to what the live buffers occupy. |
| Growth.AccountingConserved | src/buffer.cc:5-26 | So it is over any run, and the total is zero again when no buffer is left. |
| Buffers.MemoryMeter.Adjust | src/buffer.cc:5-26 | One adjustment that its event calls for keeps the total equal to what the live buffers occupy. |
| Buffers.Buffer.Realloc | src/buffer.cc:5-10 | The old block is moved whole to a larger one and the difference is reported, which keeps the total right. |
| Buffers.Buffer.constructor | src/buffer.cc:11-19 | A new buffer is an empty queue and reports its fixed overhead plus its reserve. |
| Buffers.Buffer.Close | src/buffer.cc:21-26 | Closing gives back exactly what is still reported for the buffer; closing again gives back nothing. |
| Buffers.Buffer.Prepare | src/buffer.cc:82-91 | There is room for n more bytes, the queue is unchanged, the reserve is the least tripling that fits, the difference is reported, and the history of demands stays accounted for. |
| Buffers.Buffer.Commit | src/buffer.cc:93-97 | The n bytes stored after the used part join the end of the queue. |
| Buffers.Buffer.Write | src/buffer.cc:34-39 | The bytes are appended to the queue, whatever growing that takes. |
| Buffers.Buffer.WriteBuffer | src/buffer.cc:54-60 | At most n bytes of another buffer are appended, and that buffer keeps its queue. |
| Buffers.Buffer.Consume | src/buffer.cc:72-81 | Up to n bytes leave the front; an emptied buffer starts over at the beginning of its block. |
| Buffers.Buffer.Clear | src/buffer.cc:99-104 | The queue is empty and the block is free again. |
| Buffers.Buffer.Sweep | src/buffer.cc:106-111 | The queue is unchanged and now starts at the beginning of the block. |
| Buffers.Buffer.ReadUtf8 | src/buffer.cc:270-284 | What is returned followed by what remains is what was there, and at most what was asked for is taken. |
| Buffers.Buffer.PeekUtf8 | src/buffer.cc:227-240 | The same bytes are returned and nothing changes. |
| Buffers.Buffer.FindPartial | src/buffer.cc:191-203 | The search result on the queue from an offset, with the two special cases for an empty needle and an offset past the end. |
| Buffers.Buffer.Amortised | src/buffer.cc:82-91 | In every accounted state the amortised bounds hold of the buffer's own reserve and copies. |
| Pool.BufferPool.Push | coffee/core/buffer.coffee:6-13 | A held buffer leaves its holder and is either pooled or, over the limits, closed; pushing a pooled one again changes nothing; no duplicates, no held buffer pooled, at most limit + 1 pooled; the accounting stays conserved. |
| Pool.BufferPool.Pop | coffee/core/buffer.coffee:15-22 | The buffer returned is empty, open and nobody else's, the last one pooled or a new one of 512; only a new one is reported, and the accounting stays conserved. |
| SocketRead.ReadBuffer | src/socket.cc:226-240 | Bytes received are appended to the queue, at least 8192 of them if there are as many; end of stream and error return -1 and change nothing. |
| SocketRead.TokenWait.Condition | coffee/core/socket.coffee:57-62 | The condition holds exactly when the token is in the buffer, and then the kept position is its first occurrence. |
| SocketRead.TokenWait.WorkIsLinear | coffee/core/socket.coffee:57-62 | After k checks on N bytes at most N + k positions were tried and (N + k) times the token's length bytes compared. |
| SocketRead.OnReadable | coffee/core/socket.coffee:32-41 | A readable event fires the callback with first occurrence plus token length if and only if the bytes so far hold the token. |
| SocketRead.WaitIsLinear | coffee/core/socket.coffee:52-64 | The same bound over any sequence of chunks, from any valid position. |
| Framing.FramingIsSplit | coffee/core/socket.coffee:52-64 | Repeating readToken and readUtf8 over any chunks yields the stream cut after each leftmost delimiter, with the rest in the buffer. |
| FrameReader.Reader.OnReadable | coffee/core/socket.coffee:32-64 | On the real buffer, one readable event with all the callbacks it sets off is one Feed of that framing. |
| Framing.SplitConserves | src/buffer.cc:270-284 | The pieces followed by the rest are the stream. |
| Framing.PiecesAreCut | coffee/core/socket.coffee:52-64 | Each piece ends at its first delimiter and the rest holds none. |
| Text.JoinOfSplit | coffee/net/http.coffee:4 | Joining what split made gives the text back, and no piece holds the separator. |
| Text.SplitOfJoin | coffee/net/http.coffee:4 | Splitting a joined list gives the list back exactly when each separator is the first one after its piece and the last piece holds none. |
| Text.CleanWhenAbsent | coffee/net/http.coffee:4-8 | For a separator that cannot overlap itself that condition is just not to hold the separator. |
| HttpHead.ParseHeader | coffee/net/http.coffee:2-16 | The loop over the lines computes the parse that the theorems are about. |
| HttpHead.FieldReadsBack | coffee/net/http.coffee:7-10 | A rendered field is read back exactly when neither key nor value holds ": ". |
| HttpHead.AnyField | coffee/net/http.coffee:7-10 | Any line at all: without ": " it is skipped, otherwise its key ends at the first ": " and its value at the next. |
| HttpHead.AnyRequestLine | coffee/net/http.coffee:4-6 | Any text at all: the method ends at the first space of the first line, the URI at the next, and there is no URI without a space. |
| HttpHead.AnyHead | coffee/net/http.coffee:7-10 | Any text at all: a key is in the map exactly when some line after the first has it before its first ": ", and its value is what the last such line has from there to the next ": " or its end; no other line matters. |
| HttpHead.ParseOfRender | coffee/net/http.coffee:2-16 | Parsing a rendered request (sections 4.2 and 5.1 of RFC 2616) gives its method, its URI and the map of its fields, later ones replacing earlier ones. |
| HttpHead.FieldMapIsExact | coffee/net/http.coffee:7-10 | With distinct keys that map holds every field and nothing else. |
| HttpHead.HeadEndsAtDelim | coffee/net/http.coffee:20-45 | The first empty line of a rendered head is its end, so the header token is the whole head. |
| HeaderValues.ParseIntOfDecimal | coffee/net/http.coffee:55 | A length written in decimal is read back as that length. |
| HeaderValues.AnyNumber | coffee/net/http.coffee:55 | Any text at all: it falls into white space, a sign, a "0x", digits and a rest, each as long as it can be; the value is that of the digits, in the radix that goes with the prefix and with that sign, and without digits it is no number. |
| HeaderValues.OneMoreDigit | coffee/net/http.coffee:55 | What digits are worth: a further one adds its place in the alphabet, in either case, to the radix times those before it. |
| HeaderValues.MultipartType | coffee/net/http.coffee:61 | A type is multipart exactly when it is "multipart/form-data" followed by anything, that is, when its first 19 characters are those. |
| HeaderValues.AnyBoundary | coffee/net/http.coffee:62-67 | Any header value: without "boundary=" there is no boundary and the client closes; otherwise the boundary is all that follows the first one on its line. |
| HeaderValues.BoundaryIsParameter | coffee/net/http.coffee:62-67 | What is read, and where, is the boundary parameter of the whole header (section 5.1.1 of RFC 2046, attribute names in any case) exactly when the first "boundary=" begins an attribute, none before it is named boundary, and the value is not quoted and not followed on its line by a parameter or white space; or when there is neither. |
| HeaderValues.AnotherIsRead | coffee/net/http.coffee:62-67 | An input for which another parameter is read. |
| HeaderValues.BoundaryIsRead | coffee/net/http.coffee:61-67 | In particular the boundary is read back from "multipart/form-data; boundary=" and the boundary, which is what browsers send. |
| HeaderValues.KeepAliveInAnyCase | coffee/net/http.coffee:49-52 | The connection is kept alive exactly when there is a Connection field and it spells keep-alive, letter by letter, in any case. |
| HttpReceive.FireShrinks | coffee/net/http.coffee:74-86 | Every callback ends receiving or consumes at least two bytes, so the cascade set off by one event terminates, and it only adds to what was emitted. |
| HttpReceive.FireAppend | coffee/net/http.coffee:41-91 | A callback that is due does the same whatever bytes follow those it waited for. |
| HttpReceive.SettleAppend | coffee/core/socket.coffee:32-64 | Up to the outcome of a request, bytes may arrive before or after a cascade they do not belong to. |
| HttpReceive.FeedTwice | coffee/net/http.coffee:41-91 | Up to the outcome of a request, two readable events lead to the same connection as one with both chunks. |
| HttpLive.DeliverIsFeed | coffee/core/socket.coffee:32-41 | While a request is incomplete, the registered handler (append, test the condition, call back) does what the receive machine says. |
| HttpLive.FragmentationIndependent | coffee/net/http.coffee:41-91 | Any two ways of cutting the same bytes lead to the same connection if no event comes after the outcome, and to the same events up to the outcome in any case. |
| HttpLive.InTimeMeans | coffee/net/http.coffee:41-91 | Whether an event comes after the outcome can be told from the bytes: all chunks but the last must not complete the request. |
| HttpLive.LiveIsParse | coffee/net/http.coffee:41-91 | For any chunks the events begin with those of the parser that reads the whole stream, and are just those, with its request and keep-alive flag, if none comes after the outcome. |
| HttpLive.ExcessIsDropped | coffee/net/http.coffee:89-91 | Bytes in one event with the end of a request change nothing, not even what is registered. |
| HttpReference.ReceiveIsParse | coffee/net/http.coffee:41-91 | Up to the outcome, the machine emits for any chunks what a parser emits that reads the whole stream at once and knows no buffers; request and keep-alive flag are those of the stream's head. |
| HttpReference.OutcomeComesLast | coffee/net/http.coffee:60-91 | What a stream means has at most one outcome (processed, refused or failed), and it is last. |
| HttpStale.OneOutcome | coffee/net/http.coffee:89-91 | A request has one outcome and nothing is emitted after it, whatever is written and arrives before `$out` and whatever arrives after it, exactly when the condition left registered does not come true on the bytes before `$out`. |
| HttpStale.QuietUntilFired | coffee/core/socket.coffee:32-64 | For any connection with a stale handler and any writes and readable events: something is emitted exactly when the buffer reaches the size, or holds the token from where the search resumes. |
| HttpStale.StaleFires | coffee/core/socket.coffee:32-41 | What a stale handler then emits first: the same request processed again, or the bytes up to the token as another head; otherwise only the buffer and `last` change. |
| HttpStale.LeavesHandler | coffee/core/socket.coffee:43-50 | Which handler a request that is not multipart leaves: the one for its body if the head was complete before the last event, otherwise the one for its head, with `last` at the empty line. |
| HttpStale.ProcessedTwice | coffee/net/http.coffee:69-71 | In the first case as many further bytes as the body has run the user's callback a second time with the same request. |
| HttpStale.HelloTwice | coffee/net/http.coffee:89-91 | A concrete case: a head with a length of 5, then "hello", then five more bytes. |
| HttpUpload.UploadIsOneEvent | coffee/net/http.coffee:60-86 | For a multipart request not even the handler that is left depends on the cut: any chunks lead to the same connection and handler as one event. |
| HttpUpload.UploadLeavesTail | coffee/net/http.coffee:74-86 | That handler is the one for the closing line, with `last` where the line ends, read off the stream. |
| HttpUpload.UploadProcessedTwice | coffee/net/http.coffee:74-91 | After a rendered multipart request it is at zero: a later event before `end` processes the request again exactly when it holds a line end. |
| HttpStale.OwnResponseIsRead | coffee/net/http.coffee:93-94 | With a head's handler left, a response whose empty line is not before `last` is emitted as the next request's head as soon as anything arrives. |
| HttpRespond.ResponseIsWhatWasWritten | coffee/net/http.coffee:93-104 | Unless the stale handler fires, `end` sends all that was written and all that arrived, in order, through any partial sends; that is what was written if and only if no byte arrived. |
| HttpServe.ServesInTurn | coffee/net/http.coffee:99-104 | Requests that take turns with their responses are all served: the events are those of each stream in order, with a close after the first that does not keep the connection. |
| HttpServe.PipeliningDependsOnTheCut | coffee/net/http.coffee:41-43 | A second request that comes in one event with the end of the first is treated as if it came later, under every continuation, exactly when it has no bytes. |
| HttpServe.PipeliningShows | coffee/net/http.coffee:41-43 | The loss shows at once exactly when the second request's head is complete. |
| HttpMultipart.NoHead | coffee/net/http.coffee:41-45 | Without an empty line in the stream nothing is emitted, in any fragmentation. |
| HttpMultipart.AnyRequest | coffee/net/http.coffee:44-71 | Any head at all, rendered or not, in any fragmentation: without a length it is processed at once; with one but no type the client throws; with a type that differs in some character from the start of multipart types it is processed exactly when as many bytes follow as parseInt reads from the length; a multipart type without "boundary=" closes the connection. Keep-alive is as the head says. |
| HttpMultipart.AnyMultipart | coffee/net/http.coffee:44-91 | Any head with a length, a multipart type and a boundary, in any fragmentation: every part header is printed in order and the request is then processed with what the head says. |
| HttpMultipart.MultipartReceived | coffee/net/http.coffee:41-91 | A multipart request (section 5.1.1 of RFC 2046) in any fragmentation prints every part header in order and is then processed with its own method, URI and fields; nothing follows if no event does. |
| HttpMultipart.MultipartNotEarly | coffee/net/http.coffee:74-86 | While its last byte is missing it has printed some of the part headers, in order, and is not processed. |
| HttpMultipart.BodyReceived | coffee/net/http.coffee:61-71 | A body whose type differs in some character from the start of multipart types is processed exactly when as many bytes are there as parseInt reads from its Content-Length, so never if that is no number; nothing follows if no event does. |
| HttpMultipart.DecimalBodyReceived | coffee/net/http.coffee:54-71 | With a decimal length it is processed exactly when the announced bytes are there. |
| HttpMultipart.PartHeadIsExact | coffee/net/http.coffee:79-83 | A part header is printed whole exactly when its first empty line ends it; a bare line end is not such a header. |
| HttpMultipart.OtherwiseCloses | coffee/net/http.coffee:77-86 | After a boundary anything but a line end is taken for the closing line. |
| HttpMultipart.PaddingCloses | coffee/net/http.coffee:77-86 | So a boundary followed by white space ends the body, and the part it begins is not seen. |
| HttpMultipart.AnywhereInALine | coffee/net/http.coffee:75-76 | Where in a line the boundary text stands makes no difference. |
| HttpClient.Client.Condition | coffee/core/socket.coffee:58-62 | The condition on the real buffer moves the kept position to where the search stops and tells whether it met the delimiter. |
| HttpClient.Client.Check | coffee/core/socket.coffee:32-41 | The registered condition, whatever it is, moves the kept position as the machine does and tells whether the callback is due. |
| HttpClient.Client.Callback | coffee/net/http.coffee:44-91 | Running a due callback, with the whole cascade behind it, leads to the machine's next connection and leaves the handler registered that the machine says. |
| HttpClient.Client.HeadReceived | coffee/net/http.coffee:44-58 | The head is taken, parsed and acted on as the machine does. |
| HttpClient.Client.RecvBody | coffee/net/http.coffee:60-71 | Missing content type, missing boundary, multipart and plain bodies go where the machine says. |
| HttpClient.Client.RecvHeader | coffee/net/http.coffee:41-43 | The connection waits for a head with an empty buffer. |
| HttpClient.Client.OnReadable | coffee/core/socket.coffee:32-41 | One readable event, before or after `process`, is one Deliver of the machine with the bytes received; an error closes the connection. |
| HttpClient.Client.Write | coffee/net/http.coffee:93-94 | The response goes to the end of the buffer that requests are read from. |
| HttpClient.Client.Out | coffee/core/socket.coffee:100-101 | From here on no readable event reaches the connection. |
| HttpClient.Client.Responded | coffee/net/http.coffee:99-104 | After the response the connection closes or starts over as the keep-alive flag says. |
| Drain.EveryRunIsSound | coffee/core/socket.coffee:100-115 | Through any partial sends, full sockets and retries: wire plus buffer is the message; the callback runs at most once, with the whole message sent, never with the error trigger; a temporary buffer is given back exactly once. |
| Drain.OneAttempt | src/socket.cc:203-223 | One attempt sends as much as the kernel takes before it is full or fails, or all there is; it is done exactly when that covers the content, has failed exactly when it does not and a failure came first, and otherwise will be retried with the answers that are left. |
| Drain.OutcomeFollowsCapacity | src/socket.cc:203-223 | How a write ends depends only on how many bytes the kernel takes before it fails: delivered exactly when that covers the message, failed exactly when it does not and a failure comes. |
| SocketWrite.Writer.SendAll | src/socket.cc:203-223 | The send loop on the real buffer sends and leaves what the specification says. |
| SocketWrite.Writer.WriteBuffer | coffee/core/socket.coffee:100-115 | One attempt does what the specification says, and the pool gets a temporary buffer back when and only when the write ends. |
| SocketWrite.TakeTemporary | coffee/core/socket.coffee:118-121 | The text is in an otherwise unshared buffer from the pool, marked temporary. |
| SocketWrite.WriteUtf8 | coffee/core/socket.coffee:100-122 | From taking the buffer through any number of writable events: the run is the specified one and sound, the real pool is owed that buffer until the write ends and nothing afterwards, and the accounting stays conserved. |
| ModuleOrder.ThrowsExactly | coffee/core/startup.coffee:17-34 | A load throws whenever the name leads nowhere or a missing file or a cycle without literal real paths is in reach, and only when the name leads nowhere or a missing file or a cycle with a name that is not literal is; if no script in reach writes out a real path, if and only if a cycle or a missing file is in reach. |
| ModuleOrder.RunsEachOnceInOrder | coffee/core/startup.coffee:28-34 | A load that returns has run exactly the scripts in reach, each once and after all it requires, but for one that it requires only by its literal path and that leads back to it. |
| ModuleOrder.GoodIsInOrder | coffee/core/startup.coffee:28-34 | For scripts from which no cycle can be reached there is no such exception. |
| ModuleCache.CacheIsTransparent | coffee/core/startup.coffee:51-68 | After any requires from a fresh loader, those that threw included: the value returned is that of the script the uncached resolver finds, so two names of one script agree; the loading mark is returned exactly for the literal path of a marked file. |
| ModuleCache.RequireSound | coffee/core/startup.coffee:17-68 | So it is for any sound table, at any depth, and each require leaves the table sound. |
| ModuleCache.OnlyItself | src/system.cc:23-53 | A script that nothing else runs in returns its own variable, or else what it assigned last, or a new object if it assigned nothing; with a variable of its own and no assignment it leaves the global one as it was. |
| ModuleCache.WithoutTheLastWord | src/system.cc:23-53 | A script that ends with a require and shares the global `exports` returns what it assigned last if nothing ran just then, and otherwise what the required script returned, if that shares it too. |
| ModuleCache.HistoryMatters | src/system.cc:23-53 | An input: the value of such a script depends on what was loaded before. |
| ModuleOrder.WholeProgram | coffee/core/startup.coffee:17-34 | A program on a fresh loader ends normally if nothing it requires may throw, and if it does, exactly the scripts in reach have run, each once and in order. |
| ModuleCache.RememberedNamesAreFinished | coffee/core/startup.coffee:52-68 | In every state that requires from a fresh loader lead to, those that threw included, a name seen from a directory is cached only for a finished script, with what is cached under its real path. |
| ModuleCache.TableIsKnown | coffee/core/startup.coffee:17-68 | In all states that requires lead to, whatever scripts export: a path is in the table only if it exists and is a real one or was required, and a name seen from a directory only if it was required there, by the program or a script, and leads to a file. |
| ModuleCache.MarksAreReal | coffee/core/startup.coffee:17-34 | And only a real path carries the loading mark, if no script exports it. |
| ModuleCache.NotFound | coffee/core/startup.coffee:17-21 | A name nothing is cached for is not found, with nothing marked, cached or run and an error that names it, exactly when it leads to no existing path; so the next attempt fails alike, and a require that returns has found its file. |
| ModuleCache.SecondRequire | coffee/core/startup.coffee:51-68 | What a require returned is cached under its name, and requiring the name again gives it, with nothing changed, unless it is null. |
| ModuleCache.PathOfAnyName | coffee/core/startup.coffee:51-66 | The path of any name: the name itself after a slash, seen from the current directory after "./", and otherwise in the first include directory that has it, if one does. |
| ModuleOrder.RequireCorrect | coffee/core/startup.coffee:51-68 | One require, at any depth, keeps the invariant, finishes only scripts in reach, and throws only for a missing file or a cycle that may be noticed, in reach of the script the load began with; by the literal path of a loading script it does nothing. |
| ModuleLimits.LoopIsCaught | coffee/core/startup.coffee:23-26 | Requiring a loading script throws exactly when the name is not its literal real path. |
| ModuleLimits.SelfRequireReturns | coffee/core/startup.coffee:57-58 | An input: a script that requires its own literal path is a cycle, and its load returns. |
| ModuleLimits.EntryMatters | coffee/core/startup.coffee:23-26 | An input: a cycle with names of both kinds is noticed or not depending on which script is required first. |
| ModuleLimits.RunsUnlessRemembered | coffee/core/startup.coffee:23-34 | A script is run exactly when nothing but null is remembered for it. |
| ModuleLimits.ExportedMarkThrows | coffee/core/startup.coffee:24-25 | The second load of a script that exports 1 throws, of one that exports an object it returns that object. |
| ModuleLimits.FailureSticks | coffee/core/startup.coffee:28-30 | After a load that threw, every path to its file (opened or not), to a script that was loading, or to one that it began and did not finish throws a loop error. |
| ModuleLimits.ErrorsAreTrue | coffee/core/startup.coffee:17-34 | What any error says is so, however deep it comes from: a file not found does not exist or is in no include directory, one not opened is real and cannot be, and one in a loop is still marked. |
| ModuleLimits.FailsAtOnce | coffee/core/startup.coffee:17-30 | A load fails before any script runs in exactly three ways, told apart by the error: the path does not exist and nothing changes, it is marked and nothing changes, or it cannot be opened and stays marked. |
| ModuleLimits.ThrowPassesThrough | src/system.cc:23-53 | Otherwise it throws, error and all, what the first failing require of its script threw, with all steps before it done. |
| ModuleLimits.BodyInTurn | src/system.cc:44-50 | Steps are taken in order, and none after one that threw. |
| ModuleLimits.OneStepOnly | src/system.cc:44-50 | An assignment changes what the script exports and nothing else; a require changes what it changes by itself, and throws if it does. |
| ModuleLimits.KeysDoNotCollide | coffee/core/startup.coffee:52-55 | The two kinds of key never coincide as text while no path or directory holds a question mark. |
| Modules.DirnameOfJoin | src/system.cc:10-16 | The directory of a path is what it was joined from, and the root for a file in the root. |
| Modules.DirnameOfAny | src/system.cc:10-16 | The directory of a real path is what comes before its last slash, or the root if that is its first character. |
| Modules.IncludeIsFirst | coffee/core/startup.coffee:39-49 | The include directory chosen is the first that has the file, and none is chosen only if none has it. |
| Modules.Run | src/system.cc:23-53 | The current directory after a script is the one before it, whether or not it threw. |
| ModuleLoader.Loader.Require | coffee/core/startup.coffee:51-68 | The method computes the specified result and table. |
| ModuleLoader.Loader.RequireAbsolute | coffee/core/startup.coffee:17-34 | So does the marking, running and caching of a path. |
| ModuleLoader.Loader.RequireIncludePath | coffee/core/startup.coffee:39-49 | The search loop takes the first include directory that has the file. |
| ModuleLoader.Loader.RunScript | src/system.cc:23-53 | A script runs in its own directory with a new `exports`, and the old directory comes back. |
| Events.RunConsistent | src/service.cc:24-46 | After any calls the count is the number of registered descriptors and epoll watches exactly those. |
| Events.LatestCallWins | src/service.cc:58-74 | The callback and interest of a descriptor are those of its latest in or out call, unless a del came after it. |
| Events.LatestErrorCallWins | src/service.cc:110-141 | The same for error handlers. |
| Events.DispatchCompletes | src/service.cc:250-266 | A batch is dispatched whole exactly when no callback throws and, for each event, the latest call for its descriptor by the callbacks before it is not a del, or there is none and it was registered. |
| Events.DispatchEnds | src/service.cc:250-266 | It ends with nothing to call at an event exactly when all events before that one pass and it fails that condition. |
| Events.CallsWhatIsDue | src/service.cc:250-266 | Each event calls, if it failed, the error handler of the latest error or del call for its descriptor by the callbacks before it, otherwise the callback of the latest in, out or del call, and where there is none what was in the tables; the calls are as many as the events that pass, and one more for a throw; the tables are then those of all calls made. |
| Events.OwnOnlyCompletes | src/service.cc:250-266 | That is so for distinct registered descriptors with error handlers when callbacks unregister only their own. |
| Events.ClosingAnotherBreaks | src/service.cc:250-266 | In any batch, a callback that unregisters the descriptor of a later event, not registered again in between, keeps the batch from completing; the loop finds nothing to call there unless it ended before. |
| EventLoop.RunStaysConsistent | src/service.cc:243-274 | Through any run the table stays consistent, and the loop goes idle only with nothing registered or watched. |
| EventLoop.RunDid | src/service.cc:243-274 | Through any run each batch calls what is due in the tables that all calls before it made, whole batches in turn, and the run ends idle, with an error of the wait, inside a batch, or with no more waits, each exactly when it should. |
| EventLoop.Service.InOrOut | src/service.cc:58-74 | A known descriptor is modified, a new one added and counted, and the callback stored. |
| EventLoop.Service.Del | src/service.cc:110-123 | The descriptor's callback, interest and error handler are gone and it is no longer counted. |
| EventLoop.Service.DispatchBatch | src/service.cc:250-266 | The inner loop calls the callbacks of the specification, in order, and ends as it does. |
| EventLoop.Service.Run | src/service.cc:231-276 | The outer loop is the specified run. |

## Left out

- HttpClient.Client: the delimiter buffers and the boundary buffer are given by their bytes, and its buffers are not taken from or pushed to the pool; `Pool.BufferPool` proves what the pool does. The client's own buffer is a real `Buffers.Buffer`.
- Modules.Run: a script's steps are given: scripts that catch what a require throws or that choose what to require are not modelled, nor is what they add to the object that `exports` names.
- Modules.DirnameOfAny: `dirname` is asked only of real paths, so doubled or final slashes, which it would drop, are not modelled.
- ModuleCache.CacheIsTransparent: asks that every script has the last word on its exports and that they are not null, undefined or 1; `ModuleCache.WithoutTheLastWord` and `ModuleLimits` say what happens otherwise.
- Pool.BufferPool.Push: which buffers are held is ghost state; that nobody but the holder pushes a buffer is a condition on the caller, as in the source.
- HeaderValues.ParseIntOfDecimal: `parseInt` trims only ASCII white space, and a leading zero does not mean octal.
- HttpHead.ParseOfRender: the header is a map of strings; names that JavaScript objects treat specially (`__proto__`) are not.
- EventLoop.Service.Run: the low-memory notification after many events is not modelled; the waits are a given finite list.
- Buffers.Buffer.FindPartial: sizes are unbounded, so the conversion of the result to a C int is not modelled; the needle is given by its bytes.
- Buffers.Buffer.WriteBuffer: a buffer written to itself while it grows is excluded; the source pointer would be taken before the block moves.
- Typed reads and writes, `write_ucs2` and all character conversion.
- V8 handles, accessors and the generated forwarding macros.
- File reading, the console, the logger, configuration and the C constants.
- `writeUntil` and `writeUntilOnce`, `Stream`, the HTTP server's listening side and the http_easy module.
- HttpServe.ServesInTurn: the response is written before the next readable event is looked at; while it is not, bytes stay in the socket. How the response leaves the client's buffer is `Drain`'s subject.
- What the user's HTTP callback does apart from `write`, `flush` and `end`.
