# Icee: a verified model

Icee is a reactor-style TCP and HTTP library in C++. This project models what lies above the sockets and proves how its
parts behave on their own and together:

- `Strings.dfy`, `Split.dfy`, `Text.dfy`: searching, splitting, joining, trimming and printing of byte strings.
- `Buffer.dfy`: the connection buffer and the framing of a byte stream at CRLFCRLF.
- `Header.dfy`, `Request.dfy`, `Grammar.dfy`: header fields and requests, and the exact grammar the parser accepts.
- `Response.dfy`: the heads and bodies that are printed, and a reader for streams of them after sections 2.1, 5.1 and 6.3 of
  RFC 9112 that knows which answers belong to HEAD requests.
- `Lru.dfy`, `Stack.dfy`, `Cache.dfy`: the byte cache as a sequence in recency order, the stack theorem of LRU replacement and
  what follows from it for warm caches and for caches of different capacity, and the class with its hash map and doubly
  linked list that implements the sequence.
- `Handler.dfy`, `Serving.dfy`, `Transparency.dfy`, `Eof.dfy`, `Server.dfy`: the request loop as a state machine over one
  connection and the cache, what it sends, what the cache can and cannot change, streams that end, and runs of many
  connections over one cache.
- `Connection.dfy`, `HttpServer.dfy`: the receive and send loops, the loopers' tables, and the handler on these objects, proved
  against the state machine.
- `Ownership.dfy`, `Logger.dfy`, `ThreadPool.dfy`: the concurrent protocols as transition systems, with properties of every
  interleaving.
- `EndToEnd.dfy`: from the bytes of a request to the bytes of its answer.
- `Departures.dfy`: requests, byte for byte, on which the server does what its clients may not expect.

A byte is a `char`. The kernel is a script of results: a used-up receive script means nothing more is there, a used-up
send script means the rest is accepted. The file system is a fixed map from paths to bytes. The cache-free server that
the transparency theorems compare with is the same server with a capacity of -1, into which nothing fits.

## Where the code departs from its intent

- `Join` (`src/http/http_utils.cc:42-47`) puts the colon before every token but the last and ignores its delimiter
  argument. `Headers.HeaderRoundTrip` gives the exact headers that survive.
- A HEAD request that hits the cache gets the file appended (`src/http/http_server.cc:56-58`), contrary to section 9.3.2
  of RFC 9110. `Transparency.CallIsTransparent` says which answers carry it, and
  `Transparency.AnswersReadBack` that clients read what they should exactly when this does not happen.
- A CGI request makes the handler return with unread frames in the buffer (`src/http/http_server.cc:39-41`).
  `Handling.HandlerIsChunkInvariant` holds exactly when no complete frame is behind one.
- Bytes that arrive together with the end of the stream are dropped with the connection (`src/http/http_server.cc:19-24`):
  `Departures.RequestWithEndOfStreamIgnored` is a request that gets no answer because of it, and
  `EndOfStream.LastBatchUnanswered` and `EndOfStream.EndedStreamInvariant` say exactly when nothing is lost.
- A larger cache can lose a hit that a smaller one has (`src/core/cache.cc:79-81`,
  `StackTheorem.InclusionFailsForOversizedFiles`); `StackTheorem.InclusionExactly` says exactly when it cannot.
- The log writer does not look at the front buffer again before it exits (`src/log/logger.cc:112-122`).
  `Logging.LogsAreConserved` says exactly what is lost, and `Logging.ShutdownLosesNothing` exactly when nothing is.
- A header field with an empty value is refused (`Headers.HeaderLineAccepted`), although section 5.1 of RFC 9112 allows
  it.
- The status line says `Http/1.1` (`src/include/http/http_utils.h:50`, `src/http/response.cc:29`), although section 2.3 of
  RFC 9112 makes the protocol name case-sensitive (`Departures.StatusLineMisspellsVersion`).
- A comment in `src/include/http/http_utils.h` says that GET and HEAD are not supported; they are the two methods that are.

## Model

| member | source | states |
|---|---|---|
| `Handling.HandlerIsChunkInvariant` | src/http/http_server.cc:14-83 | On an open connection with no complete frame waiting, every way of cutting a request stream into received batches ends in the same bytes sent, cache, open or closed state and residue as one call on the whole stream, if and only if the stream does not reach a CGI request that has a complete frame behind it |
| `Handling.BatchesSettleAlike` | src/http/http_server.cc:14-83 | With CGI requests too: after any batches, letting the handler finish gives what it gives for the whole stream |
| `Handling.EmptyCallsFinish` | src/http/http_server.cc:28-41 | Letting the handler finish is calling it again with nothing received |
| `Handling.OneCallFinishes` | src/http/http_server.cc:39-41 | One call leaves nothing to do exactly when no CGI frame is reached before the last complete frame of the buffer |
| `Handling.BytesNeverStall` | src/http/http_server.cc:28-41 | Delivered byte by byte, a stream is always handled to the end |
| `Handling.LoopShrinks` | src/http/http_server.cc:28-77 | A call that finds a frame takes at least four bytes out of the buffer, so the loop ends |
| `Handling.ClosedStays` | src/http/http_server.cc:79-82 | Nothing is sent or cached for a connection after it was dropped |
| `Serving.HandlerProtocol` | src/http/http_server.cc:19-82 | A call sends one answer for each consumed frame in order; it drops the connection exactly when the last answer says Connection:Close; no earlier answer says so; otherwise exactly the consumed frames have left the buffer |
| `Serving.OneAnswerPerFrame` | src/http/http_server.cc:29-77 | The answers match the frames: 400 for an invalid request, 404 for a missing file, a 200 head for a file, none for CGI; each prints exactly the head lines its frame calls for and says Connection:Close exactly when its frame closes, which only the last consumed one can do |
| `Serving.ReplyPrintsHead` | src/http/response.cc:25-73 | Every answer is printed as the status line, Server, Connection, Content-Length and, for a path with a dot, Content-Type lines of its kind, an empty line and its body, stated with the literal lines |
| `Serving.StatusLines` | src/http/response.cc:17-29 | The three status lines as they are printed |
| `Serving.LoopConserves` | src/http/http_server.cc:28-77 | The consumed frames and the residue are the bytes that were in the buffer |
| `HttpServer.ParseHttpRequest` | src/http/http_server.cc:14-83 | On the objects: connection buffer, cache contents and looper table end as the state machine says; the peer got what the kernel took of each answer, in order, which is all the state machine sends unless a send failed hard; the only table entry that can disappear is the connection's own |
| `HttpServer.DrainRequests` | src/http/http_server.cc:26-77 | The frame loop: cache, residue and the decision to close are those of the state machine, and the peer got what the kernel took of each of its answers |
| `HttpServer.Classify` | src/http/http_server.cc:30-47 | Parsing a frame and looking for its file gives the decision that `EndToEnd.DecidedByText` reads off its text |
| `EndToEnd.RequestDecided` | src/http/http_server.cc:30-53 | A valid request is CGI when its path contains cgi_bin, missing when there is no such file, and otherwise asks for that file, as HEAD or GET, closing the connection unless one of its header lines is Connection, colon, Keep-Alive |
| `EndToEnd.BadExactly` | src/http/http_server.cc:30-34 | Exactly the texts that are no request in the grammar are bad requests |
| `EndToEnd.DecidedByText` | src/http/http_server.cc:30-53 | Both for every text and every reading of it |
| `EndToEnd.FileRequestAnswered` | src/http/http_server.cc:14-83 | A request for an existing file, from its bytes to the bytes of its answer: the 200 head line by line, the file for GET and for a cached file, and a connection that stays open exactly when a header line asks for it |
| `EndToEnd.BadRequestRefused` | src/http/http_server.cc:31-34 | A frame that is no request gets exactly the 400 head and loses its connection |
| `EndToEnd.MissingFileRefused` | src/http/http_server.cc:43-46 | A request for a missing file gets exactly the 404 head and loses its connection, whatever its header lines say |
| `EndToEnd.CgiRequestDropped` | src/http/http_server.cc:39-41 | A CGI request gets nothing and changes nothing |
| `HttpServer.ServeFile` | src/http/http_server.cc:48-63 | Answering through the cache: load, serialise, append on a hit, insert on a miss |
| `Departures.RequestBehindCgiWaits` | src/http/http_server.cc:39-41 | For any CGI url and any frame behind it in the same batch: the frame stays unanswered in the buffer, while the same two frames in two batches are both consumed |
| `Departures.BareRequestParses` | src/http/request.cc:12-42 | A request line followed by an empty line is one frame and a valid request for that method and resource |
| `EndOfStream.LastBatchUnanswered` | src/http/http_server.cc:19-24 | Receiving a batch together with the end of the stream sends the same as receiving it and then the end, exactly when the batch makes nothing answerable: no complete frame, or a CGI request first |
| `EndOfStream.LastBatchUncached` | src/http/http_server.cc:19-24 | It leaves the cache the same exactly when the files the batch would have served already are the most recent entries in that order, or alone fill the cache with what it holds |
| `EndOfStream.EndedStreamInvariant` | src/http/http_server.cc:19-24 | All ways of cutting a stream whose end comes with the last batch send the same bytes exactly when the stream asks for CGI and nothing else; chunk invariance does not extend further |
| `EndOfStream.CutLosesNothing` | src/http/http_server.cc:19-24 | For each cut: the batch that comes with the end of the stream loses no answer exactly when the connection was dropped before or nothing is answerable |
| `EndOfStream.CutCachesTheSame` | src/http/http_server.cc:19-24 | For each cut: it makes no difference to the cache exactly when the connection was dropped before or the cache is settled for what would have been served |
| `Departures.RequestWithEndOfStreamIgnored` | src/http/http_server.cc:19-24 | A bare request that one receive loop finds together with the end of the stream gets nothing and loses its connection; without the end of the stream it gets its answer |
| `Departures.StatusLineMisspellsVersion` | src/include/http/http_utils.h:50 | No status line starts with the protocol name in its letter case; it does when letter case is ignored |
| `Transparency.CallIsTransparent` | src/http/http_server.cc:48-63 | With a cache of true copies, a call gives the answers of a server without a cache, message by message and in the same places, except that the answer to a HEAD request may be the head with the file behind it; the bytes are equal if and only if no HEAD request hits a non-empty cached file; closing and residue never differ |
| `Transparency.ServedTransparent` | src/http/http_server.cc:48-63 | The same for the list of answers: each is the answer without a cache or the file message in place of the file head for a HEAD request, and the bytes on top are those of the HEAD requests that hit |
| `Transparency.CarriedBytes` | src/http/http_server.cc:56-58 | What such a list means for the bytes: as many more as the carried files have, and the same bytes exactly when it is the same list |
| `Transparency.AnswersReadBack` | src/http/response.cc:25-73 | A client that knows which pipelined requests were HEAD reads from the bytes of a call exactly the answers it should get, those of the server without a cache, whatever the bodies contain, if and only if no HEAD request hit a non-empty cached file |
| `Transparency.LoopAccesses` | src/http/http_server.cc:51-62 | A call accesses the cache exactly for the files it serves, in order, each access a load and on a miss an insert |
| `Transparency.CacheOfCall` | src/http/http_server.cc:50-63 | From a fresh cache, the cache after a call is the longest suffix of the served files, most recent last, that fits |
| `Transparency.AnswersSurviveInterleaving` | src/http/http_server.cc:50-63 | Whatever atomic cache operations other threads interleave, the cache stays within budget and holds true copies; the answer to GET is the head with exactly the file, and the answer to HEAD is the bare head exactly when it leaks nothing |
| `Transparency.InterleavedCache` | src/http/http_server.cc:50-63 | However loads, inserts and clearings of any number of threads interleave, two misses of the same file before either insert included, the cache is the longest fitting suffix of the touched files in order of recency, touches being the loads that hit and the inserts that are admitted; a file hits exactly when its reuse distance among them fits |
| `Departures.HeadAfterGetLeaks` | src/http/http_server.cc:52-58 | GET on one connection, then HEAD for the same file on another: the whole file is appended to the answer to HEAD |
| `ManyConnections.ConnectionsAreIsolated` | src/http/http_server.cc:14-83 | In any run of any number of connections over one cache, each connection ends open or closed and with the residue it has when served alone without a cache, and gets the same answers in the same places, except that the answer to a HEAD request may carry the file; the bytes are the same exactly when none of its HEAD requests hit a non-empty cached file |
| `ManyConnections.CacheOfServer` | src/http/http_server.cc:50-63 | When handler calls do not overlap, the cache of a running server is the longest recent suffix, over all connections, that fits; the next request for a file hits exactly when its reuse distance fits |
| `StackTheorem.CacheIsLongestRecentFit` | src/core/cache.cc:44-92 | After any loads and inserts on a miss, at any capacity, the cached entries are exactly the longest suffix of the recency order of the files that could fit whose total size fits |
| `StackTheorem.HitByReuseDistance` | src/core/cache.cc:44-92 | A file is cached exactly when it was accessed, could fit, and the bytes of the distinct files accessed since fit the capacity |
| `StackTheorem.WarmCache` | src/core/cache.cc:44-92 | The stack theorem from any cache within its budget: what it held stands before what is accessed, in the order it had, except for what is accessed again |
| `StackTheorem.AccessesChangeNothing` | src/core/cache.cc:44-92 | Accesses leave a cache as it is exactly when their files, in order of recency, are its most recent entries, or alone fill it with exactly what it holds |
| `StackTheorem.InclusionExactly` | src/core/cache.cc:72-92 | On any trace and for files of any size, a larger cache holds every file a smaller one holds exactly when each survivor of the smaller one is within the larger capacity by its reuse distance there |
| `StackTheorem.InclusionByLeastRecent` | src/core/cache.cc:72-92 | It is enough that this holds of the least recent file of the smaller cache |
| `StackTheorem.SmallerOrder` | src/core/cache.cc:79-81 | The order a smaller cache keeps is that of a larger one without the files too large for it |
| `StackTheorem.LargerCacheIncludesSmaller` | src/core/cache.cc:72-92 | When every file fits the smaller cache, inclusion always holds and the smaller cache's contents are a suffix of the larger one's |
| `StackTheorem.InclusionFailsForOversizedFiles` | src/core/cache.cc:79-81 | A trace on which it does not: a file that only fits the larger cache drives an older one out of it alone |
| `StackTheorem.AccessStep` | src/core/cache.cc:44-92 | One access keeps the cache the longest fitting suffix |
| `StackTheorem.RecentAccess` | src/core/cache.cc:51-52 | An access makes its key the most recent and leaves the order of the others |
| `Lru.EvictionMinimal` | src/core/cache.cc:82-85 | Eviction removes the shortest prefix in recency order that makes room; survivors keep their order |
| `Lru.InsertKeepsBudget` | src/core/cache.cc:72-92 | An insert keeps keys distinct and the total size within the capacity |
| `Lru.InsertAddsNewest` | src/core/cache.cc:72-92 | A duplicate or oversized insert changes nothing; any other puts the new entry behind a suffix of the old ones |
| `Lru.LoadKeepsBudget` | src/core/cache.cc:44-58 | A load only reorders |
| `Lru.ConsistencyKept` | src/core/cache.cc:44-92 | Entries stay true copies of the files they are stored under |
| `Caching.Cache.constructor` | src/core/cache.cc:102-106 | A new cache is the empty sequence with the two dummies linked |
| `Caching.Cache.TryLoad` | src/core/cache.cc:44-58 | Implements the load of the sequence model on the linked nodes; the stored bytes are appended to the destination |
| `Caching.Cache.TryInsert` | src/core/cache.cc:72-92 | Implements the insert of the sequence model, eviction included; the result says whether it was admitted |
| `Caching.Cache.EvitOne` | src/core/cache.cc:60-70 | Removes the first node from list, map and size; the two assertions of the source hold |
| `Caching.Cache.Clear` | src/core/cache.cc:94-100 | Empties list, map and size |
| `Caching.Cache.RemoveFromList` | src/core/cache.cc:109-116 | Unlinks one node; the others stay properly linked both ways |
| `Caching.Cache.AppendToEndOfList` | src/core/cache.cc:118-127 | Links a node before the tail dummy; the list stays properly linked both ways |
| `Caching.HitKeepsValid` | src/core/cache.cc:51-52 | Relinking the node of a key is the load of that key and disturbs neither map nor budget |
| `Buffers.Buffer.Append` | src/core/buffer.cc:7-17 | Appends the bytes |
| `Buffers.Buffer.AppendHead` | src/core/buffer.cc:19-26 | Prepends the bytes |
| `Buffers.Buffer.FindAndPopTill` | src/core/buffer.cc:28-37 | Pops the bytes up to and including the leftmost target, conserving the rest; pops nothing if the target is absent or empty |
| `Buffers.FramingCharacterised` | src/core/buffer.cc:28-37 | Draining conserves the bytes into frames that have the target only at their end and a residue without it, and no other decomposition does |
| `Buffers.FramingChunkInvariant` | src/core/buffer.cc:7-37 | However appends and pops interleave, what was popped and what a final drain pops are the frames of the whole stream, with the same residue |
| `Splitting.SplitScan` | src/http/http_utils.cc:13-33 | The scan returns the tokens cut at every leftmost delimiter |
| `Splitting.SplitCharacterised` | src/http/http_utils.cc:21-31 | The tokens are the only list such that joining them gives the input back up to one dropped trailing delimiter, no token completes an earlier delimiter, and an unterminated last token is non-empty and free of the delimiter |
| `Splitting.SplitInvertsDelimiting` | src/http/http_utils.cc:13-33 | Writing the delimiter after every token and splitting gives the tokens back exactly when no token completes an earlier delimiter |
| `Splitting.JoinLoop` | src/http/http_utils.cc:35-49 | The loop puts a colon before every token but the last |
| `Splitting.JoinIsColonJoin` | src/http/http_utils.cc:42-47 | That is the colon join exactly when there is one token or nothing but colons up to the last separator |
| `Headers.HeaderLineAccepted` | src/http/header.cc:15-20 | A header line is accepted exactly when some colon has a byte behind it; an empty value is refused |
| `Headers.HeaderRoundTrip` | src/http/header.cc:15-43 | A header written and parsed gives itself back exactly when its key has no colon and its value is colons followed by colon-free text |
| `Headers.HostWithPortIsCorrupted` | src/http/header.cc:23-25 | Any value of the form host:port is stored with the colon moved to its front |
| `Headers.ParseAtFirstColon` | src/http/header.cc:15-26 | The key is what stands before the first colon |
| `Text.TrimCharacterised` | src/http/http_utils.cc:51-59 | Trimming gives the one word without outer spaces that gives the input back when spaces are put around it |
| `Text.FormatIgnoresCaseAndPadding` | src/http/http_utils.cc:71-91 | Formatting gives the same for words that agree letter by letter up to case, with any spaces around them |
| `Text.UpperIsCapital` | src/http/http_utils.cc:71-74 | Upper-casing takes each small letter to its capital and changes no other byte |
| `Text.AlphabetToUpper` | src/http/http_utils.cc:71-74 | The small alphabet becomes the capital one |
| `Text.ToUpperSameLetters` | src/http/http_utils.cc:71-74 | Upper-casing makes two words equal exactly when they agree letter by letter up to case |
| `Text.FormatRecognises` | src/http/http_utils.cc:91-91 | A formatted word equals a formatted keyword exactly when it is the keyword in any letter case with any spaces around it |
| `Text.MethodsAndVersion` | src/http/http_utils.cc:93-110 | The methods and the version recognised are GET, HEAD and HTTP/1.1, in any letter case and with any spaces around them |
| `Text.MimeOfExtension` | src/http/http_utils.cc:112-159 | The MIME type of each extension, in any letter case and with any spaces around it |
| `Text.DecimalRoundTrip` | src/http/response.cc:40 | The printed file size reads back as the size |
| `Text.DecimalDigits` | src/http/response.cc:40 | The digits printed are the decimal ones: the last one is the remainder by ten, the others print the quotient |
| `Requests.Request.constructor` | src/http/request.cc:12-42 | The constructor's fields and invalid reason are those of the parse, loop and early exits included |
| `Requests.Request.TakeRequestLine` | src/http/request.cc:73-99 | Three space-separated tokens, a supported method and version, and the resource that the second token stands for |
| `Requests.RouteIsResource` | src/http/request.cc:97 | The resource is the url itself, or the index.html below it when it is empty or ends in a slash; it is never empty and never ends in a slash |
| `Requests.Request.TakeHeaders` | src/http/request.cc:33-41 | Stores the headers in order up to the first bad line, and notes whether one asks to keep the connection |
| `Requests.Request.CheckConnectionState` | src/http/request.cc:44-52 | Only a header Connection: Keep-Alive, up to case and outer spaces, keeps the connection |
| `Grammar.RequestAccepted` | src/http/request.cc:12-42 | A text is valid exactly when it is a request line and header lines, each free of CRLF and ended by it, and an empty line, with the request line and header lines of the grammar; the stored fields are the method, the resource the url stands for, and one header for each line, in order |
| `Grammar.RefusalReasons` | src/http/request.cc:22-36 | The reason for a refusal is the request line if that is wrong, and otherwise the first line that is no header line |
| `Grammar.RequestLineAccepted` | src/http/request.cc:73-99 | A request line is accepted exactly when it is GET or HEAD, a space-free url and HTTP/1.1, up to letter case and one trailing space, and the result is the method and the resource the url stands for |
| `Grammar.FramePassesFormatCheck` | src/http/request.cc:14-25 | Every frame popped at CRLFCRLF has at least two CRLF tokens, the last empty and none between the first and the last empty |
| `Grammar.FrameIsNeverMisshapen` | src/http/request.cc:15-18 | So the format check of the parser never fails on a frame of the handler |
| `Grammar.RequestIsFrame` | src/http/request.cc:12-42 | Conversely, a valid request is exactly one frame: its only CRLFCRLF is its ending |
| `Grammar.PipelineFrames` | src/core/buffer.cc:28-37 | Valid requests sent one after the other are framed as those requests, in order, with nothing left |
| `Serving.PipelinedRequests` | src/http/http_server.cc:28-47 | The handler is asked for exactly those requests, each decided on its own, in order, and none of them as a bad request |
| `Grammar.KeepAliveDetected` | src/http/request.cc:32-52 | For a valid request the connection is kept exactly when some header line is Connection, colon, Keep-Alive, up to case, outer spaces and one trailing colon |
| `Grammar.KeepAliveInvariant` | src/http/request.cc:44-52 | The decision depends only on which fields occur after trimming and upper-casing, not on their order |
| `Responses.Response.constructor` | src/http/response.cc:25-52 | Status line with the version and the given code, headers in order and the url, which is dropped when the file does not exist |
| `Responses.Response.Serialize` | src/http/response.cc:54-73 | Appends status line, headers, empty line and, when it is to be transferred, the file |
| `Responses.StreamReadBack` | src/http/response.cc:54-73 | Any sequence of well-framed messages is recovered from its concatenated bytes by the reader of RFC 9112 |
| `Responses.MessageReadBack` | src/http/response.cc:54-73 | One message at the front of a stream is read back and exactly its bytes are consumed |
| `Responses.StreamIsExact` | src/http/response.cc:54-73 | Conversely, whatever messages the reader finds, their bytes are the stream it read |
| `Responses.HeadAnswersReadEmpty` | src/http/response.cc:54-73 | Whatever the stream, a reader finds no body in the answer to a HEAD request |
| `Responses.ServerMessagesWellFramed` | src/http/response.cc:25-52 | The 400 and 404 responses and a 200 response with its file announce exactly the length of their body |
| `Responses.FileHeadFramed` | src/http/response.cc:37-40 | A 200 head with a given body is framed exactly when the body is empty for HEAD, or as long as the file otherwise |
| `Reactor.Connection.Recv` | src/core/connection.cc:65-88 | Appends exactly the delivered chunks in order, returns their total length, and reports that the peer is gone exactly when the stream ends or a real error comes after nothing but data and interrupted calls |
| `Reactor.PeerGoneExactly` | src/core/connection.cc:65-88 | The peer is gone exactly when some result is the end of the stream or a real error and every earlier one is data or an interrupted call |
| `Reactor.DeliveredExactly` | src/core/connection.cc:65-88 | What is delivered is the data of all results before the first that is neither data nor an interrupted call |
| `Reactor.Connection.Send` | src/core/connection.cc:91-113 | What reaches the kernel is a prefix of the write buffer as far as the kernel's results allow; the buffer ends empty |
| `Reactor.SendIsLossless` | src/core/connection.cc:96-112 | Never more than the waiting bytes are sent, and all of them unless a hard error ends the loop |
| `Reactor.SendProgressExactly` | src/core/connection.cc:91-113 | The results used up are those until everything is accepted or an error other than EINTR, EAGAIN or EWOULDBLOCK occurs, and the bytes sent are what they accepted, never more than what waits |
| `Reactor.SendLoopEnds` | src/core/connection.cc:96-112 | The send loop always ends at such a place |
| `Reactor.SendsAll` | src/core/connection.cc:98-108 | Without a hard error everything is sent, however often the kernel asks to retry |
| `Reactor.AnswersAreOnlyCut` | src/core/connection.cc:91-113 | Of answers sent one after the other, a prefix of each reaches the kernel, in order, and without a hard error all of each |
| `Reactor.EventLooper.AddConnection` | src/core/eventLooper.cc:26-31 | Inserts under the descriptor unless there is an entry |
| `Reactor.EventLooper.DeleteConnection` | src/core/eventLooper.cc:33-41 | Removes the entry of the descriptor and no other, and says whether there was one |
| `Reactor.EventLooper.BaseAcceptCallback` | src/core/acceptor.cc:26-46 | A fresh connection on the accepted descriptor goes to the picked looper, its owner; nothing happens if accept failed |
| `Ownership.ConnectionsAreOwned` | src/core/acceptor.cc:26-46 | In every reachable state a descriptor is in at most one looper's table, under the connection that owns it; every pointer registered with a poller or pending in a batch is live and belongs to that looper; no descriptor is leaked |
| `Ownership.NoCollisions` | src/core/eventLooper.cc:26-41 | In every reachable state registering and inserting a new client meet no entry for its descriptor, and a handler that closes its connection finds it in its own looper's table |
| `Ownership.StepKeeps` | src/core/eventLooper.cc:11-41 | Every step of the acceptor, the kernel and the loopers keeps the invariant |
| `Ownership.DeleteRemoves` | src/core/eventLooper.cc:33-41 | The effect of a handler's delete: its own entry, registration and object disappear, and nothing else |
| `Ownership.EveryReadyConnectionIsCalled` | src/core/eventLooper.cc:11-18 | On each looper, in every interleaving, the callbacks that have ended, in order, followed by the pending ones, are the connections its poller reported, poll after poll: each is called once and in order, also behind one that deletes its connection |
| `Ownership.ForeignDeleteDangles` | src/core/eventLooper.cc:13-16 | Deleting another connection of the batch would leave a dangling pointer in it |
| `Logging.LogsAreConserved` | src/log/logger.cc:75-125 | In every interleaving, flushed batches, the unflushed standby buffer and the front buffer are the pushed logs in order; the standby buffer is empty when the writer waits; at exit exactly what was pushed after the last swap is missing |
| `Logging.QuietShutdownLosesNothing` | src/log/logger.cc:47-53 | If nothing more is pushed from a moment on when the writer waits or the front buffer is empty, everything is flushed at exit, whenever the exit flag goes up |
| `Logging.ShutdownLosesNothing` | src/log/logger.cc:47-53 | Once the exit flag is up and nothing more is pushed, everything is flushed at exit exactly when the writer waits or the front buffer is empty at that moment |
| `Logging.LateLogIsLost` | src/log/logger.cc:112-122 | A log pushed during a flush, before the flag goes up, is never flushed |
| `Logging.WriterRound` | src/log/logger.cc:102-124 | One undisturbed round of the writer's loop writes the front buffer as one batch, if there is anything in it, and then waits again, or exits if the flag is up |
| `Logging.WriterBlocked` | src/log/logger.cc:106-109 | The writer has no step exactly when it has exited, or waits with the flag down, fewer than 1000 logs and no timeout |
| `Logging.WriterGoesOn` | src/log/logger.cc:120-122 | The writer exits only with the flag up, and the flag is up exactly from the first request to exit on |
| `Logging.Logger.PushNewLog` | src/log/logger.cc:75-88 | A push under the latch, and whether it wakes the writer |
| `Logging.Logger.SwapBuffers` | src/log/logger.cc:107-114 | The swap under the latch |
| `Logging.Logger.FlushStandby` | src/log/logger.cc:115 | The flush without the latch |
| `Logging.Logger.ClearStandby` | src/log/logger.cc:117 | Clearing the standby buffer |
| `Logging.Logger.TestExit` | src/log/logger.cc:120-122 | The test of the exit flag |
| `Pool.NoLoopWaitsBehindAnother` | src/include/core/threadPool.h:35-52 | In every interleaving the tasks pushed are the tasks taken, in order, followed by the queue; a busy worker runs the last task it took; with no more tasks than threads a queued task always finds an idle worker |
| `Pool.LoopsNeverShareAThread` | src/include/core/icee_server.h:28-31 | As long as no loop ends, every loop taken runs on a worker of its own |
| `Pool.WorkersStop` | src/include/core/threadPool.h:43-52 | A worker can stop exactly when it is between tasks and the flag is up |
| `Pool.StoppedForEver` | src/include/core/threadPool.h:43-52 | A stopped worker never takes a task again |
| `Pool.SomeWorkerNotBusy` | src/include/core/threadPool.h:43-52 | With fewer tasks taken than threads, some worker is not busy |
| `Pool.BusyBound` | src/include/core/threadPool.h:43-52 | No more workers are busy than tasks were taken |
| `Pool.SubmitLoops` | src/include/core/icee_server.h:25-31 | One loop per pool thread is submitted, in order |
| `Pool.ThreadSafeQueue.Push` | src/include/core/threadSafeQueue.h:18-23 | Appends at the back |
| `Pool.ThreadSafeQueue.TryPop` | src/include/core/threadSafeQueue.h:42-50 | Takes the front element, or reports that there is none |

## Left out

- Sockets, epoll and kqueue, `fcntl`, addresses, `main`, demos and tests: calls into the operating system and plumbing.
- The file system: directories, unreadable files and files that change while the server runs.
- `ManyConnections.CacheOfServer`: a handler call is one step there. `Transparency.InterleavedCache` and
  `Transparency.AnswersSurviveInterleaving` cover the cache operations of several threads interleaved inside their calls.
- `Caching.Cache.TryLoad`: each public cache operation is one atomic step; the source relinks the list under a shared lock
  (`src/core/cache.cc:46-52`), so concurrent loads can interleave inside it. `RemoveFromList`, `AppendToEndOfList` and
  `EvitOne` are public in the source but are modelled as the helpers they are.
- `Caching.Cache.TryInsert`: sizes are unbounded; the source narrows them to `int` (`src/core/cache.cc:78`), so data of
  2^31 bytes or more is not modelled. Node timestamps, which never decide anything, are left out.
- `Reactor.Connection.Send`: waiting for the kernel is a finite script, so a kernel that asks to retry for ever is not
  modelled.
- `Responses.ServerMessagesWellFramed`: the 503 response, which the server never sends, and `ChangeHeader`.
- Acceptor, loopers, logger and pool workers run concurrently, so what they do together is modelled as transition systems
  over values; the classes `Reactor.EventLooper`, `Logging.Logger` and `Pool.ThreadSafeQueue` hold their single steps.
- `Ownership.ConnectionsAreOwned`: accept returns a descriptor that is not open, closing unregisters it, a batch lists a
  connection at most once, and a callback deletes no connection but its own (which `HttpServer.ParseHttpRequest` proves for
  the HTTP handler). The listening connection is not part of the model.
- `Logging.ShutdownLosesNothing`: that the writer is woken at all; the exit flag is raised without the latch, and a
  notification that is lost that way is a matter of liveness. The log file, which every flush truncates, is left out.
- `Pool.NoLoopWaitsBehindAnother`: that an idle worker eventually takes a waiting loop is a matter of scheduling.
- CGI, timers, dates and stream output of the library's types.
