# WhiteWebServer, verified

A Dafny model of the parts of WhiteWebServer that carry its hard properties, and
proofs of those properties. Code that works in place is modelled in place: the
buffer, the request parser, the response, the connection, the timer, the log file
and the logger are classes whose methods are proved against functions or step
systems, and the theorems are about those.

Bytes are Dafny `char`s, `std::string` and `std::vector<char>` are `string`. System
calls are arbitrary: what arrives on a socket, how little of it `readv` and `writev`
take at a time, and what `access`, `stat`, `open` and `mmap` answer are parameters
or nondeterministic choices. `Fault` and `None` stand for an exception that leaves
the function, and for C++ behaviour that is undefined.

Main results:

- **Parsing** (`RequestSpec`, `HttpRequest`, `Fragmentation`, `ParserVerdicts`,
  `ParserFaults`). The in-place parser
  computes a function of the unread bytes. However the requests of a keep-alive
  session are cut into chunks, every chunk but a request's last is answered
  NO_REQUEST, and the last with what parsing that request whole gives
  (`SessionTheorem`). `ParseFaultsIff` says which bytes make it fault, in terms of the
  bytes alone, and there is an input for each of the four causes; `RejectedIff` and
  `WaitsIff` say the same of the other codes, by the characters of the lines.
- **Forwarding** (`Messages`, `Proxy`). For every request that the parser can have
  produced, parsing what `MakeProxyRequests` writes gives it back with exactly the
  five forwarding fields set, if and only if its body is not empty and not shorter
  than announced, where a body is announced (`ParsePrintParse`).
- **Forms** (`Form`). Decoding undoes every encoding that the URL Standard admits
  (`FormRoundTrip`), also through a whole posted request (`PostedForm`).
- **Responses** (`ResponseSpec`, `HttpResponse`, `Replies`, `Exchange`, `HttpConn`,
  `Conversation`, `Session`). Whatever
  the file system answers, a client reads back one head and exactly the announced
  body, as long as a file's size is an `int`. `ConversationTheorem`: for every list
  of requests on one connection, cut in any way, the client reads one reply for each
  request up to the first after which the server closes, in order, and nothing else;
  `ServedUntilClosed` says which these are. `HttpConn.Serve` is proved to be the step
  of that conversation, also when the kernel fails in the middle of a response, and
  `ServeConnection` runs it over everything that arrives on a connection.
  `ServeVisits` says in literal terms what the client then reads for its messages:
  `StatusIff` which status, `MessageGetsFile` which file, `HeadTellsIff` what the head
  says about the connection, and which message is the last one answered.
  `StaleElement` is a run in which a connection that is to be kept alive is closed
  because of what an earlier connection left behind.
- **Logger** (`LoggerSpec`, `AsyncLogger`, `LogFile`). In every interleaving exactly
  the tails of batches of more than 25 buffers are missing from the log, lines stay
  whole, buffers are never shared or missing, and rotation loses nothing. After
  `Stop` exactly the lines that came after the last batch are left behind, whether or
  not a batch was cut.
- **Timer** (`HeapOrder`, `HeapTimer`, `HeapTimerAsWritten`). The class is the
  repaired timer; each repair is named at the method that holds it. For the code as
  it stands, `HeapTimerAsWritten` proves exactly when `AddTimer`, `AdjustTimer`,
  `DeleteNode`, `DoRightNow` and `Tick` leave the timer right, and that no defined run
  from a new timer gets to one with a timer in it.
- **Thread pool and ownership** (`ThreadPool`, `Ownership`, `Handover`). Tasks are taken in
  order and no wake-up is lost; in every reachable state of the server each open
  connection is in exactly one place, no two workers hold the same one, and left to
  itself the server comes to rest with every open connection armed. A connection is
  closed exactly by a hang-up, an error or a last response (`StepClosesIff`), and what
  is reported for any other gets to a worker (`ReportedIsTakenUp`).

## Model

| member | source | states |
|---|---|---|
| Buffers.Buffer.constructor | Sources/buffer/buffer.cpp:14-19 | a new buffer is an empty queue with a slack byte in front and zeros behind |
| Buffers.Buffer.Swap | Sources/buffer/buffer.h:97-102 | the two queues and their slack bytes change places |
| Buffers.Buffer.Retrieve | Sources/buffer/buffer.h:114-119 | drops that many bytes from the front, the last of which becomes the slack byte; asking for too many changes nothing |
| Buffers.Buffer.Clear | Sources/buffer/buffer.h:129-133 | the queue is empty, the container as large as before and all zero |
| Buffers.Buffer.HasWritten | Sources/buffer/buffer.h:152-155 | bytes stored behind the contents join the queue |
| Buffers.Buffer.MakeSpace | Sources/buffer/buffer.h:184-197 | contents and slack byte stay, at least `len` bytes become writable, exactly how many is said, and bytes are moved only when two or more were consumed in front |
| Buffers.Buffer.EnsureWriteable | Sources/buffer/buffer.h:178-182 | the same, and nothing happens when there is room already |
| Buffers.Buffer.Append | Sources/buffer/buffer.h:157-171 | the bytes are added to the end of the queue, for any length; a zero is left behind exactly unless they reach the end of the container, as it is or after moving |
| Buffers.Buffer.ReadFromFd | Sources/buffer/buffer.cpp:26-48 | exactly the delivered bytes are added, with and without overflow, and -1 adds none; a zero is left behind exactly unless they reach the end of the container, as it is or after moving |
| Buffers.Buffer.WriteToFd | Sources/buffer/buffer.cpp:51-62 | exactly the accepted bytes leave the queue |
| Strings.StoiOfDecimal | Sources/protocol/http/http_response.cpp:185 | reading a decimal number with `stoi` undoes printing it with `to_string`, up to INT_MAX |
| RequestSpec.FirstLine | Sources/protocol/http/http_request.cpp:71-101 | a line that is found lies within the data, but for a CR in the slack byte |
| RequestSpec.FirstLineIff | Sources/protocol/http/http_request.cpp:71-101 | a line is found exactly if a CRLF comes before any bare LF, bad exactly if a bare LF comes first, and open exactly without an LF |
| RequestSpec.Consume | Sources/protocol/http/http_request.cpp:139 | taking a line off leaves strictly less to parse, so parsing ends |
| HttpRequests.HttpRequest.constructor | Sources/protocol/http/http_request.cpp:51-54 | a fresh request |
| HttpRequests.HttpRequest.Init | Sources/protocol/http/http_request.cpp:61-68 | the request is fresh again |
| HttpRequests.HttpRequest.ParseLine | Sources/protocol/http/http_request.cpp:71-101 | finds the first LF and whether a CR is before it, never looks outside the array, overwrites just those two bytes on success and nothing otherwise |
| HttpRequests.HttpRequest.CutInPlace | Sources/protocol/http/http_request.cpp:231-235 | `strpbrk`, a zero, and `strspn` cut the C string into the two parts of `Cut`, within the line |
| HttpRequests.CutInMemory | Sources/protocol/http/http_request.cpp:178-194 | overwriting the first separator and skipping the run behind it gives the two parts as C strings in memory |
| HttpRequests.HttpRequest.ParseRequestLine | Sources/protocol/http/http_request.cpp:175-218 | working in place on the line gives the verdict of the grammar, and touches no byte behind the line |
| HttpRequests.HttpRequest.ParseTarget | Sources/protocol/http/http_request.cpp:189-217 | the same from the request target on, including the null pointer that is passed on |
| HttpRequests.HttpRequest.ParseHeader | Sources/protocol/http/http_request.cpp:220-241 | the same for a header field or the blank line |
| HttpRequests.HttpRequest.ParseBody | Sources/protocol/http/http_request.cpp:244-254 | the body is the C string at the unread bytes, if as many as announced are there; the zero tail ends it |
| HttpRequests.HttpRequest.BodyInMemory | Sources/protocol/http/http_request.cpp:248 | the C string in memory is that of the unread bytes, because of the zeros behind them |
| HttpRequests.HttpRequest.ParsePost | Sources/protocol/http/http_request.cpp:257-287 | the form branch yields the decoded fields, and looking the type up inserts it |
| HttpRequests.LineOverwritten | Sources/protocol/http/http_request.cpp:87-95 | after CR and LF are zeros, the C string at the unread bytes is the text of the line |
| HttpRequests.LineConsumed | Sources/protocol/http/http_request.cpp:139 | whatever the line parsers wrote into the line, the bytes behind it are what `Consume` says |
| HttpRequests.HttpRequest.ParseRound | Sources/protocol/http/http_request.cpp:110-140 | a round either ends with the specified outcome or leaves the outcome to the smaller rest |
| HttpRequests.HttpRequest.Parse | Sources/protocol/http/http_request.cpp:104-148 | code, request, slack byte and unread bytes are those of the functional parser; a rejected line is not retrieved, and only its own bytes have changed; the writable bytes stay |
| HttpRequests.HttpRequest.MakeProxyRequests | Sources/protocol/http/http_request.cpp:150-163 | appends the printed message with the five forwarding fields, whatever the order of the hash table |
| Fragmentation.Resume | Sources/protocol/http/http_request.cpp:104-148 | stopping for want of bytes and going on when more arrive is the same as having had them all |
| Fragmentation.PrefixWaits | Sources/protocol/http/http_request.cpp:110-147 | no proper prefix of a request is taken for a request, or for a bad one |
| Fragmentation.ExactIsConsumed | Sources/protocol/http/http_request.cpp:110-147 | a whole request is consumed to its last byte, whatever byte was consumed before it |
| Fragmentation.NoBodyNeedsNoZero | Sources/protocol/http/http_request.cpp:244-254 | only a request with a body depends on there being a zero behind the contents |
| Fragmentation.RunStaysFinished | Sources/protocol/http/http_request.cpp:136-139 | bytes behind a finished request never change it |
| Fragmentation.FragmentationIndependence | Sources/protocol/http/http_conn.cpp:108-114 | every cutting of a request gives NO_REQUEST on all chunks but the last and there the outcome of the uncut bytes |
| Fragmentation.SessionTheorem | Sources/protocol/http/http_conn.cpp:108-128 | the same for every sequence of requests on one connection |
| Messages.ParsePrintedField | Sources/protocol/http/http_request.cpp:46-49 | a printed header field is parsed to its upper-cased name and its value |
| Messages.ParsePrintedStart | Sources/protocol/http/http_request.cpp:152 | a printed request line is parsed to its method, path and version |
| Messages.PrintedIsParsed | Sources/protocol/http/http_request.cpp:150-163 | a printed message is parsed up to its body with just its own fields, later ones winning |
| Messages.FramedIsExact | Sources/protocol/http/http_request.cpp:244-254 | a printed message with the right Content-Length is one that may be cut anywhere |
| Messages.PlainIsWellFormed | Sources/protocol/http/http_request.cpp:104-148 | every printed message without a body is parsed whole, and may be cut anywhere |
| Messages.OwnLengthWaitsIff | Sources/protocol/http/http_request.cpp:110-147 | a request that announces just its body never finishes exactly when that is empty |
| Messages.PostedForm | Sources/protocol/http/http_request.cpp:257-276 | a posted form arrives as the last-wins map of its fields, in any admissible encoding |
| Messages.PostedFormIsWellFormed | Sources/protocol/http/http_request.cpp:244-276 | and such a request may be cut anywhere on its way |
| Proxy.RunKeepsTidy | Sources/protocol/http/http_request.cpp:104-148 | everything the parser produces can be printed: names without separators, values without line ends or leading blanks |
| Proxy.OwnFieldsGiveHeader | Sources/protocol/http/http_request.cpp:153-154 | the fields of the map in any order of traversal give the map back |
| Proxy.ForwardingFieldsGiveHeader | Sources/protocol/http/http_request.cpp:155-159 | the five forwarding fields set just their five upper-cased names |
| Proxy.ParsePrintParse | Sources/protocol/http/http_request.cpp:150-163 | parsing the forwarded text gives the request back with the five fields set, if it is forwardable, and otherwise leaves the reader waiting |
| Proxy.UpstreamSees | Sources/protocol/http/http_request.cpp:150-163 | the upstream server reads the same method, path, version and body, the address, host and protocol in their five fields, and every other field as it came |
| Proxy.ForwardingCanFail | Sources/protocol/http/http_request.cpp:248 | a request with a NUL in its body that is parsed but cannot be forwarded |
| Proxy.ForwardedIsExact | Sources/protocol/http/http_request.cpp:150-163 | a forwarded text with the right length may be cut anywhere on its way |
| Form.ConvertPercentEncoding | Sources/protocol/http/http_request.cpp:23-39 | the loop computes the recursive decoding, including its reads past the end |
| Form.ParseForm | Sources/protocol/http/http_request.cpp:262-276 | the loop computes the recursive splitting into fields |
| Form.HexDigitsAgree | Sources/protocol/http/http_request.cpp:15-21 | `HexToDec` is right for hexadecimal digits of both cases |
| Form.DecodeInvertsEncodes | Sources/protocol/http/http_request.cpp:23-39 | decoding undoes every admissible percent-encoding of any bytes |
| Form.FormRoundTrip | Sources/protocol/http/http_request.cpp:257-276 | for every non-empty list of pairs and every admissible encoding, parsing the joined form gives the last-wins map |
| Form.Encode | Sources/protocol/http/http_request.cpp:13 | every byte string has an admissible encoding |
| HttpResponses.HttpResponse.Init | Sources/protocol/http/http_response.cpp:74-90 | takes over the question and drops an old mapping; nothing changes if it throws |
| HttpResponses.HttpResponse.Unmap | Sources/protocol/http/http_response.h:96-103 | no file is mapped afterwards |
| HttpResponses.HttpResponse.ResolvePath | Sources/protocol/http/http_response.cpp:94-123 | path and code are those of `Resolve` for every outcome of `access` and `stat`, and a file that will be sent has its size |
| HttpResponses.HttpResponse.AddStateLine | Sources/protocol/http/http_response.h:105-111 | appends the status line; an unknown code becomes 400 |
| HttpResponses.HttpResponse.AddHeader | Sources/protocol/http/http_response.h:113-150 | appends exactly the header lines for the code, the version and the connection |
| HttpResponses.HttpResponse.GenerateErrorContent | Sources/protocol/http/http_response.cpp:130-151 | appends a Content-Length that is the page's, one blank line, and the page |
| HttpResponses.HttpResponse.AddContent | Sources/protocol/http/http_response.cpp:153-186 | either a page is appended or a file is mapped, never both |
| HttpResponses.HttpResponse.MakeResponse | Sources/protocol/http/http_response.cpp:92-128 | buffer and mapped file together are the wire form of the specified response |
| ResponseSpec.FirstIndexIsFound | Sources/protocol/http/http_response.cpp:103-112 | the index file is the first one that exists, and none is taken only if none exists |
| ResponseSpec.ResolvedPath | Sources/protocol/http/http_response.cpp:94-118 | only an index file extends the requested path, and then the code is not 200 |
| ResponseSpec.FileIsServedIff | Sources/protocol/http/http_response.cpp:94-186 | a file is sent exactly if it exists, is no directory, may be read by others, and can be opened and mapped; then its bytes are sent |
| ResponseSpec.ReadWrittenLines | Sources/protocol/http/http_response.h:105-150 | lines that are written with CRLF are read back as the same lines, up to the blank one |
| ResponseSpec.FileSizeIsExactIff | Sources/protocol/http/http_response.h:195-198 | a file's size survives the conversion to `int` and back exactly when it is at most INT_MAX |
| ResponseSpec.LengthFieldsOfHead | Sources/protocol/http/http_response.cpp:149-150 | the head has exactly one Content-Length, and it is the printed number |
| ResponseSpec.FramingTheorem | Sources/protocol/http/http_response.cpp:92-186 | a reader of a written response gets its head, exactly its body, and leaves what follows |
| ResponseSpec.HeadIsPlain | Sources/protocol/http/http_response.h:105-150 | no line that is written is empty, broken, or another Content-Length |
| ResponseSpec.ResponseIsFramed | Sources/protocol/http/http_response.cpp:92-186 | every response is framed, whatever `access`, `stat`, `open` and `mmap` answer |
| Replies.StatusIff | Sources/protocol/http/http_response.cpp:92-123 | the status line that a client reads: 404 exactly if the file is missing or a directory, 403 exactly if others may not read it, 301 exactly if it is readable and an index file, which is then named, and otherwise 200 |
| Replies.ReplyAnswers | Sources/protocol/http/http_response.cpp:92-186 | every reply has the status, location, connection, type and cache lines and the content that belong to its path, in literal terms |
| Replies.FileIsSent | Sources/protocol/http/http_response.cpp:153-186 | for a path that names a servable file, 200 and its bytes |
| Replies.IndexIsSent | Sources/protocol/http/http_response.cpp:103-112 | for a directory, 301, the first index file's path and its bytes |
| Replies.HeadTellsIff | Sources/protocol/http/http_response.h:113-140 | what the head says about the connection is what the server does, except that a missing file's page always says Close and a forbidden one's says nothing |
| Replies.RefusalIs | Sources/protocol/http/http_response.cpp:125-151 | the answer to a bad request is a page with status 400 and no word about the connection |
| Exchange.RunKeepsSound | Sources/protocol/http/http_request.cpp:104-148 | path and version of whatever is parsed stay on one line, and a finished request has a path |
| ParserVerdicts.RequestLineIff | Sources/protocol/http/http_request.cpp:175-218 | a request line is accepted exactly if it is GET or POST, a target with a path, and one of the two protocols, with blanks between them; the null pointer is passed on exactly if it has an "http://" target with nothing but a host; all others are refused |
| ParserVerdicts.GoodLineIsParsed | Sources/protocol/http/http_request.cpp:175-218 | what an accepted request line leaves in method, version and path, with any blanks and in any case |
| ParserVerdicts.PathOfIs | Sources/protocol/http/http_request.cpp:202-215 | the path of a target is the target itself, or what begins at the first '/' behind the scheme and the host |
| ParserVerdicts.FieldIsParsed | Sources/protocol/http/http_request.cpp:231-239 | a field line is split at its whole first run of colons and blanks |
| ParserVerdicts.HeaderIff | Sources/protocol/http/http_request.cpp:220-241 | a header line is refused exactly if it has text but no colon, blank or tab; the blank line leads to the body exactly if one is announced |
| ParserVerdicts.RejectedIff | Sources/protocol/http/http_request.cpp:110-140 | BAD_REQUEST exactly if the parser stops at a complete line that is refused, by the characters of that line |
| ParserVerdicts.WaitsIff | Sources/protocol/http/http_request.cpp:110-147 | NO_REQUEST exactly without a line end, with a bare one, before the end of the head, or before the announced end of the body |
| ParserVerdicts.FinishedBodyIs | Sources/protocol/http/http_request.cpp:244-254 | a body is all that is unread, up to a NUL, and nothing is left of it |
| ParserVerdicts.BadStartIsRejected | Sources/protocol/http/http_request.cpp:119-125 | a first line that is not good gives BAD_REQUEST, whatever follows it |
| ParserVerdicts.BadFieldIsRejected | Sources/protocol/http/http_request.cpp:126-132 | a line without a separator behind any good fields gives BAD_REQUEST, whatever follows it |
| ParserVerdicts.PostedText | Sources/protocol/http/http_request.cpp:257-287 | JSON text is kept, any other body that is no form is only a body, and the type that was looked up is in the header |
| ParserFaults.ParseFaultsIff | Sources/protocol/http/http_request.cpp:104-148 | parsing throws or leaves what C++ defines exactly if it gets to an "http://" target without '/', or to a body whose length is no `int`, or that is not ended, or is a form whose last value is cut short in an escape |
| ParserFaults.BodyFaultsIff | Sources/protocol/http/http_request.cpp:244-287 | exactly which bodies fault, by their announced length and their bytes |
| ParserFaults.FieldsFaultIff | Sources/protocol/http/http_request.cpp:23-39 | a form is decoded past its end exactly if its last value is: read from its first character, every "%" taking two more along, it ends on a "%" |
| ParserFaults.CutShortEndsInPercent | Sources/protocol/http/http_request.cpp:30-34 | such a form ends in '%' |
| ParserFaults.HostAloneFaults | Sources/protocol/http/http_request.cpp:202-213 | a request line with "http://" and any host as its target, whatever follows, makes parsing fault |
| ParserFaults.PrintedFaultsIff | Sources/protocol/http/http_request.cpp:244-254 | a message with a body faults exactly if the body is bad |
| ParserFaults.LengthCanFault | Sources/protocol/http/http_request.cpp:246 | a message whose Content-Length makes `stoi` throw |
| ParserFaults.EndCanFault | Sources/protocol/http/http_request.cpp:248 | a message whose body nothing ends |
| ParserFaults.FormsCutShort | Sources/protocol/http/http_request.cpp:30-34 | "a=%" is cut short; "a%=", with the "%" in the key, and "a=%%", whose last "%" ends an escape, are not |
| ParserFaults.FormCanFault | Sources/protocol/http/http_request.cpp:262-276 | every message that posts the form "a=%" faults |
| Exchange.AnswerIsFramed | Sources/protocol/http/http_conn.cpp:108-141 | whatever bytes arrive, the response to them is read back as one head and one body |
| Exchange.ServedIsAnswers | Sources/server/http_server.cpp:274-346 | the bytes sent on a connection are the answers to the uncut requests that it serves, in order, and nothing once it is closed |
| Exchange.AnswersAreRead | Sources/protocol/http/http_conn.cpp:129-141 | a stream of answers is read as that many replies, with nothing left over |
| Exchange.CountUntilClosed | Sources/server/http_server.cpp:298-326 | every response but the last one sent leaves the connection open, and if any is not sent, the last one closes it |
| Exchange.ServedUntilClosed | Sources/server/http_server.cpp:298-326 | the requests that are served are the first ones, up to and including the first after which the connection is closed |
| Exchange.CountWithoutStale | Sources/server/http_server.cpp:306-312 | with nothing left over in the vector, only a request that is not kept alive closes the connection |
| Exchange.StaysIff | Sources/server/http_server.cpp:301-326 | a connection stays open after a response exactly if it is to be kept alive and a file was sent or nothing is stale |
| Exchange.CountIsFirstClosing | Sources/server/http_server.cpp:301-326 | with nothing stale, the last response is that to the first request that is not kept alive, or to the last one |
| Exchange.OpenIff | Sources/server/http_server.cpp:301-326 | with nothing stale, the connection is open after all exactly if every request was to be kept alive |
| Exchange.StalePageCloses | Sources/server/http_server.cpp:298-326 | with something left over, the first page closes the connection, kept alive or not |
| Exchange.ConversationTheorem | Sources/server/http_server.cpp:274-346 | on one connection, every list of requests in any cutting yields one reply for each request up to the first after which the connection is closed, and nothing else |
| HttpConns.HttpConn.constructor | Sources/protocol/http/http_conn.cpp:16-24 | empty buffers, a fresh request, closed |
| HttpConns.HttpConn.Init | Sources/protocol/http/http_conn.cpp:31-43 | buffers are emptied; the write vector keeps what the last connection left in it |
| HttpConns.HttpConn.Close | Sources/protocol/http/http_conn.cpp:93-106 | nothing stays mapped, and the request is fresh once closed |
| HttpConns.HttpConn.ReadFromFd | Sources/protocol/http/http_conn.cpp:45-55 | all that arrives is added to the buffer, in whatever pieces the kernel delivers it; less than the writable bytes leaves a zero behind |
| HttpConns.HttpConn.WriteToFd | Sources/protocol/http/http_conn.cpp:57-91 | the kernel has got exactly a prefix of header and file, the vector holds the rest, header first, its first length is that of the write buffer, and the loop ends on the decreasing rest |
| HttpConns.HttpConn.Accepted | Sources/protocol/http/http_conn.cpp:70-88 | after any short write the vector points at exactly what has not been accepted |
| HttpConns.HttpConn.PendingIsExactIff | Sources/protocol/http/http_conn.h:147-150 | what counts as nothing pending, for all lengths; below 2^32 it implies that all was sent; when all was sent it holds exactly if the second element is in use or holds nothing from an earlier connection |
| StaleVector.StaleElement | Sources/server/http_server.cpp:290-327 | a run, from two new connections on, after which all is sent, 10 bytes are reported as pending, and a connection to be kept alive is closed |
| HttpConns.HttpConn.SetVector | Sources/protocol/http/http_conn.cpp:130-138 | the vector carries the whole response if the file's size is an `int`, and is certainly wrong otherwise |
| HttpConns.HttpConn.Process | Sources/protocol/http/http_conn.cpp:108-141 | the result is that of the functional parser, a finished request leaves its whole response in the vector, and no more of the read buffer is used up |
| HttpConns.HttpConn.OnWrite | Sources/server/http_server.cpp:290-327 | one round sends a prefix and keeps the rest; with something left it is repeated if writing would block and closes the connection on any other error; with nothing left the connection goes on exactly if it is to be kept alive and nothing is stale in the vector |
| HttpConns.HttpConn.WriteAll | Sources/server/http_server.cpp:290-327 | the rounds of `OnWrite` send exactly what was prepared, end, and close the connection as `OnWrite` decides; if the kernel fails before, a proper prefix has been sent, and the connection is closed |
| HttpConns.HttpConn.Serve | Sources/server/http_server.cpp:274-346 | reading, processing and writing on the real buffers is the step of the conversation, or, if the kernel fails, sends a proper prefix of it and closes; the read buffer has just so much less room as has arrived |
| Conversations.ArrivalIsExpected | Sources/protocol/http/http_conn.cpp:108-128 | NO_REQUEST after every piece of a request but the last, and then what parsing it whole gives; whether a zero is behind the contents matters only to one with a body |
| Conversations.ServePieces | Sources/server/http_server.cpp:274-346 | the readings that deliver one request lead to its one answer |
| Conversations.Converse | Sources/server/http_server.cpp:92-112 | one request after the other on the real buffers: exactly what the conversation says is sent, and nothing once the connection is closed |
| Conversations.ServeConnection | Sources/server/http_server.cpp:274-346 | from a new connection on, what has been written to the socket is read as one reply for each request up to the first after which the connection is closed, and nothing else; with nothing stale it is open at the end exactly if every request was to be kept alive |
| Sessions.KeepAliveIs | Sources/protocol/http/http_request.h:112-118 | whether a message is to be kept alive is decided by its last Connection field, in any case, and without one by its version |
| Sessions.WhoIsNotKeptAlive | Sources/protocol/http/http_request.h:112-118 | "Connection: close" as the last such field, and version 1.0 without one, end the connection |
| Sessions.AskedIs | Sources/protocol/http/http_conn.cpp:116-119 | what is asked of the response for a message, in any pieces, is its own path, version and wish, and code 200 |
| Sessions.MessageIsAnswered | Sources/server/http_server.cpp:274-346 | what is sent for a message between requests reads as the answer to its path |
| Sessions.MessageGetsFile | Sources/protocol/http/http_response.cpp:153-186 | a message whose path names a servable file gets 200 and just the bytes of that file |
| Sessions.RefusalIsSent | Sources/protocol/http/http_conn.cpp:120-122 | what is sent for bytes that are no request reads as 400, and the connection goes on exactly if the request wished so |
| Sessions.ServeVisits | Sources/server/http_server.cpp:274-346 | from a new connection on, the client reads the answers to its messages, up to the first that does not want the connection kept alive, and the connection is closed exactly if there is one |
| LogFiles.LogFile.constructor | Sources/logger/logfile.h:44-77 | takes the first suffix that is free and continues the current file |
| LogFiles.LogFile.Append | Sources/logger/logfile.h:84-103 | one more whole block is in the log; it is rotated exactly if the current file has reached its limit with it, and the current file stays below the limit |
| LogFiles.LogFile.Rotate | Sources/logger/logfile.h:95-102 | renaming moves the current file behind the rotated ones without losing or splitting a block |
| LogFiles.LogFile.StreamIsConserved | Sources/logger/logfile.h:84-103 | rotated files in order and the current file are what was there and all that was appended |
| LogFiles.LogFile.OldFilesAreKept | Sources/logger/logfile.h:69-75 | with contiguous suffixes no older file is overwritten |
| LogFiles.LogFile.Flush | Sources/logger/logfile.h:105-110 | changes nothing but the counter |
| LogFiles.JoinedIsConcat | Sources/logger/logfile.h:99 | the files joined by suffix hold the blocks in order |
| LoggerSpec.StepKeepsInv | Sources/logger/async_logger_core.cpp:24-92 | every step keeps lines, file and buffer counts consistent |
| LoggerSpec.Conservation | Sources/logger/async_logger_core.cpp:24-94 | in every run the appended lines are in batches, pending or current, in order, and the file holds all but the cut tails |
| LoggerSpec.ConservationWithoutCut | Sources/logger/async_logger_core.cpp:24-94 | without a batch over 25 nothing is missing, and the file is always a prefix of the history, also during and after the last round that follows `Stop` |
| LoggerSpec.LeftBehindAtStop | Sources/logger/async_logger_core.cpp:48-94 | when the backend has stopped, the appended lines are those of its batches and those appended after it last took one; the file holds the former but for the tails that were cut |
| LoggerSpec.OnlyTheLastAreMissing | Sources/logger/async_logger_core.cpp:48-94 | without a batch over 25, exactly the lines appended after the backend last took a batch are missing |
| LoggerSpec.CutBeyond25 | Sources/logger/async_logger_core.cpp:65-66 | up to 25 buffers are written whole, and of more the first two |
| LoggerSpec.LinesFitIff | Sources/logger/async_logger_core.cpp:24-39 | no buffer has to grow exactly if every line has less than 4,000,000 bytes |
| LoggerSpec.StoppedWhileWaiting | Sources/logger/async_logger_core.cpp:48-59 | a run in which `Stop` comes during the wait, and the batch is still taken and written |
| LoggerSpec.RecyclingIsSafe | Sources/logger/async_logger_core.cpp:72-88 | there is a written buffer for each null one, even after the cut to two |
| AsyncLoggers.BuffersAreDistinct | Sources/logger/async_logger_core.cpp:31-37 | no buffer is in two places at once, and the current one is never null |
| AsyncLoggers.AsyncLoggerCore.constructor | Sources/logger/async_logger_core.cpp:8-16 | the initial state of the step system, with four distinct buffers |
| AsyncLoggers.AsyncLoggerCore.Append | Sources/logger/async_logger_core.cpp:24-39 | is the Append step: the line is whole in one buffer, and none grows if every line fits an empty one |
| AsyncLoggers.AsyncLoggerCore.Stop | Sources/logger/async_logger_core.h:57-62 | is the Stop step, at any time |
| AsyncLoggers.AsyncLoggerCore.LoopTest | Sources/logger/async_logger_core.cpp:48 | is the Enter step, or the Leave step once `Stop` has come |
| AsyncLoggers.AsyncLoggerCore.TakeBuffers | Sources/logger/async_logger_core.cpp:50-59 | is the Take step on the real buffers, also when `Stop` has come during the wait |
| AsyncLoggers.AsyncLoggerCore.DropBuffers | Sources/logger/async_logger_core.cpp:65-66 | is the Drop step: only batches over 25 are cut, to their first two |
| AsyncLoggers.AsyncLoggerCore.WriteBuffer | Sources/logger/async_logger_core.cpp:69-70 | is the WriteOne step: the text written is that of the next buffer's lines |
| AsyncLoggers.AsyncLoggerCore.RecycleBuffers | Sources/logger/async_logger_core.cpp:72-90 | is the Recycle step: only written buffers are cleared, and no null one stays |
| AsyncLoggers.WriteToFile | Sources/logger/async_logger_core.cpp:68-91 | the log file grows by the text of the batch, buffer by buffer |
| AsyncLoggers.BackendRound | Sources/logger/async_logger_core.cpp:48-92 | the steps of a whole round can be taken in turn: each leaves what the next needs |
| HeapOrder.CheckIsBelowChildren | Sources/timer/heap_timer.h:116-123 | the direction test compares with every child there is |
| HeapOrder.OneDirection | Sources/timer/heap_timer.h:116-123 | around one disturbed position, a node above a smaller child is not below its parent, so one direction suffices |
| HeapOrder.SiftUpStep | Sources/timer/heap_timer.cpp:99-110 | one exchange upwards moves the disturbance to the parent |
| HeapOrder.SiftDownStep | Sources/timer/heap_timer.cpp:112-126 | one exchange with the smaller child moves the disturbance down |
| HeapOrder.RootIsEarliest | Sources/timer/heap_timer.cpp:69 | the front has the earliest deadline |
| HeapOrder.SwapKeepsTimers | Sources/timer/heap_timer.cpp:128-133 | exchanging two nodes and their positions changes no timer |
| HeapOrder.RemovedNode | Sources/timer/heap_timer.cpp:87-96 | replacing a node by the last one disturbs the order only there |
| HeapTimers.HeapTimer.constructor | Sources/timer/heap_timer.cpp:12-15 | no timers |
| HeapTimers.HeapTimer.Clear | Sources/timer/heap_timer.h:110-114 | no timers |
| HeapTimers.HeapTimer.SwapNode | Sources/timer/heap_timer.cpp:128-133 | heap and index still agree, and no timer changes (repaired) |
| HeapTimers.HeapTimer.PercolateUp | Sources/timer/heap_timer.cpp:99-110 | restores the order and permutes the nodes (repaired) |
| HeapTimers.HeapTimer.PercolateDown | Sources/timer/heap_timer.cpp:112-126 | restores the order and permutes the nodes |
| HeapTimers.HeapTimer.AddTimer | Sources/timer/heap_timer.cpp:22-40 | sets or replaces just the timer of `fd` |
| HeapTimers.HeapTimer.AdjustTimer | Sources/timer/heap_timer.cpp:42-50 | changes just the deadline of `fd` |
| HeapTimers.HeapTimer.DeleteNode | Sources/timer/heap_timer.cpp:87-96 | removes just that timer (repaired) |
| HeapTimers.HeapTimer.DoRightNow | Sources/timer/heap_timer.cpp:52-59 | calls and removes just the timer of `fd`, if there is one |
| HeapTimers.HeapTimer.Tick | Sources/timer/heap_timer.cpp:61-76 | ends, calls each removed timer once and in the order of deadlines, none that is a millisecond early by the reading that let it be called, and leaves none that is due |
| HeapTimers.HeapTimer.NextTickTime | Sources/timer/heap_timer.cpp:78-85 | -1 exactly when no timer is left, and otherwise the milliseconds to the earliest deadline, rounded down and not below 0 |
| HeapTimerAsWritten.SwapNodeIsRightIff | Sources/timer/heap_timer.cpp:128-133 | as written, the index survives only exchanges of a node with itself |
| HeapTimerAsWritten.SwapNodeCanBeWrong | Sources/timer/heap_timer.cpp:128-133 | a heap of two on which it fails |
| HeapTimerAsWritten.PercolateUpIsDefinedIff | Sources/timer/heap_timer.cpp:101-104 | as written, sifting up stays inside the heap exactly from positions other than the root |
| HeapTimerAsWritten.PercolateUpRestoresOrderIff | Sources/timer/heap_timer.cpp:99-110 | as written, the order is restored exactly when the node does not belong at the root |
| HeapTimerAsWritten.PercolateUpKeepsIndexIff | Sources/timer/heap_timer.cpp:106 | as written, the index survives exactly when nothing moves |
| HeapTimerAsWritten.PercolateDownBreaksIndex | Sources/timer/heap_timer.cpp:112-133 | as written, moving a node down leaves a wrong index, whatever it was before |
| HeapTimerAsWritten.PercolateDownKeepsIndexIff | Sources/timer/heap_timer.cpp:112-133 | as written, the index survives sifting down exactly when nothing is exchanged |
| HeapTimerAsWritten.AddTimerIsRightIff | Sources/timer/heap_timer.cpp:22-40 | as written, the whole member leaves an ordered heap, an agreeing index and the right timers exactly when the node fits where it is put, with and without an earlier timer, and that is not the root |
| HeapTimerAsWritten.AddTimerCanBeWrong | Sources/timer/heap_timer.cpp:99-110 | two timers after which the later deadline is at the front |
| HeapTimerAsWritten.FirstAddIsUndefined | Sources/timer/heap_timer.cpp:22-50 | the first timer added to a new heap, or adjusted in it, reads outside the heap, whatever it is |
| HeapTimerAsWritten.DefinedRunsAreEmpty | Sources/timer/heap_timer.cpp:22-85 | so every defined run of the members as written leaves a new timer empty: the right cases of the other theorems are not reached by one |
| HeapTimerAsWritten.DeleteNodeIsRightIff | Sources/timer/heap_timer.cpp:87-96 | as written, the whole member is right exactly for the last of two or three nodes |
| HeapTimerAsWritten.DeleteNodeCanBeWrong | Sources/timer/heap_timer.cpp:87-96 | deleting the only timer reads outside the heap |
| HeapTimerAsWritten.AdjustTimerIsRightIff | Sources/timer/heap_timer.cpp:42-50 | as written, the whole member is right exactly when the descriptor has a timer, not at the root, whose new deadline fits where it is |
| HeapTimerAsWritten.AdjustTimerCanBeWrong | Sources/timer/heap_timer.cpp:42-50 | the only timer, which is there, with which it reads outside the heap |
| HeapTimerAsWritten.DoRightNowIsRightIff | Sources/timer/heap_timer.cpp:52-59 | as written, the right callback is called, and the timers are right exactly when there is no such timer, or it is the last of two or three |
| HeapTimerAsWritten.TickIsRightIff | Sources/timer/heap_timer.cpp:61-76 | as written, whatever is expected of it, right exactly when no timer is due at the first look; otherwise the earliest is called first |
| ThreadPools.StepKeepsInv | Sources/pool/thread_pool.h:52-84 | every step keeps the order of tasks, and a way for each queued one while a worker waits |
| ThreadPools.TakenInOrder | Sources/pool/thread_pool.h:71-76 | in every run the tasks taken are a prefix of the tasks added, and the queue is the rest |
| ThreadPools.NoLostWakeUp | Sources/pool/thread_pool.h:53-60 | with a task queued, some worker is not waiting or a notification is still to come |
| ThreadPools.NoTaskWaitsForAWaitingWorker | Sources/pool/thread_pool.h:62-84 | with all notifications out and a worker waiting, there are as many workers on their way as tasks queued |
| ThreadPools.ThreadPool.constructor | Sources/pool/thread_pool.h:38-44 | an empty queue and at most 32 workers |
| ThreadPools.ThreadPool.PushTask | Sources/pool/thread_pool.h:55-58 | is the Push step |
| ThreadPools.ThreadPool.Round | Sources/pool/thread_pool.h:69-80 | is the Take step with the oldest task, or the Wait step if there is none |
| Ownership.StepKeepsInv | Sources/server/http_server.cpp:92-112 | accepting, harvesting, dispatching, pool steps and the end of a task keep one token per open connection |
| Ownership.DispatchKeepsInv | Sources/server/http_server.cpp:99-110 | handing an event on, or closing on a hang-up, moves or ends just that token |
| Ownership.FinishKeepsInv | Sources/server/http_server.cpp:274-346 | whatever the handlers see, they arm the connection once or close it |
| Handovers.AcceptArms | Sources/server/http_server.cpp:180-186 | a new connection is armed for reading, and nothing else changes |
| Handovers.DispatchHandsOver | Sources/server/http_server.cpp:99-110 | an event with a hang-up or an error closes its connection; any other leaves all connections open and queues just its own task |
| Handovers.FinishDecides | Sources/server/http_server.cpp:274-346 | a task that ends closes its connection exactly if the peer has closed, an error other than would-block has come, or all has been sent and it is not kept alive; otherwise it arms it for reading, or for writing while something is left |
| Handovers.StepClosesIff | Sources/server/http_server.cpp:92-112 | a step closes a connection exactly if it is such an event or such a task of that connection |
| Handovers.ClosedOnlyBy | Sources/server/http_server.cpp:92-112 | over whole runs, a connection that is gone has been closed by such a step |
| Handovers.ReportedIsTakenUp | Sources/server/http_server.h:99-121 | whatever was reported for a connection, but a hang-up or an error, has been taken up by a worker when the server comes to rest |
| Ownership.NoTwoWorkers | Sources/server/http_server.cpp:180-186 | no two workers ever run tasks of the same connection |
| Ownership.InExactlyOnePlace | Sources/server/http_server.cpp:92-112 | every open connection is armed, harvested, queued or running, and only one of these |
| Ownership.TokensAreCurrent | Sources/server/http_server.h:99-121 | no event or task is stale: it belongs to an open connection, and writes only where a response is ready |
| Ownership.InternalRunsEnd | Sources/server/http_server.cpp:97-111 | without new events the server comes to rest within a bound it starts with |
| Ownership.NoneIsStranded | Sources/server/http_server.cpp:274-346 | and when it rests, every open connection is armed for what it is owed |

## Left out

- Proxy-mode flow of the server (`ProcessProxy`, reconnecting, `proxy_fd_map_`): what it should do is not settled in the code; only the text that is forwarded is modelled.
- Socket set-up, epoll and fcntl wrappers, daemon and signal handling, configuration loading, the "server busy" reply: system calls and library code.
- JSON bodies: the text is kept as it is, since the library's reader decides what it means; `LogStream` formatting, log levels and time stamps are not modelled either.
- MIME table: a parameter, with any entries that stay on one line.
- Pipelined requests and going on after BAD_REQUEST: the code does not support them, and after BAD_REQUEST the bytes of the rejected line itself are not described, and after an exception nothing is. A request with `Content-Length: 0` never finishes in the code, so it is not among those of the session theorems.
- Chunks that span two requests: not covered by the session theorems; the functional parser itself covers them, and shows how the bytes behind a finished request are swallowed.
- A body needs a zero behind the buffer's contents or a NUL in it; without one the outcome is `Fault`, and the session theorems ask for it at the last chunk of a request with a body. `HttpConn.ReadFromFd` says when it is there, and `ServeConnection` asks that every request with a body ends within the room that the buffer starts with.
- Races: the final re-arming or closing of a task is one step, although a worker closes a descriptor before it resets the request; callbacks of the timer against running workers, and shutting the pool down, are not modelled.
- Timeouts in the ownership protocol: the timer is modelled on its own, and the protocol without it.
- `File` buffering: appending writes everything, and what is not flushed counts as written; a failed rename is not modelled.
- `RetrieveUntil`, `RetrieveAllToString` and the other overloads of `Append` in `Buffer`: easy members.
- Counting connections (`user_count`), addresses, and what is logged.
- HeapTimers.HeapTimer.AdjustTimer: asks that the descriptor has a timer, as the code silently does; HeapTimerAsWritten.AdjustTimerIsRightIff says what happens without.
- `NextTickTime` as written is not treated apart from `Tick`. Callbacks are recorded and do not use the timer themselves.
- Buffers.Buffer.constructor: a size below 2 makes the code throw; here it is excluded, since a constructor has no result.
- HttpResponses.HttpResponse.ResolvePath: asks for a path that is not empty, without which the code's `back()` is undefined; Exchange.RunKeepsSound proves that a finished request has one. The test for the code -1 is left out because it cannot be reached.
- HttpResponses.HttpResponse.MakeResponse: assumes that a mapping has the size that `stat` reported. The status line is written before the file is opened, so a file that cannot be opened is reported with an error page under the earlier status; the model does the same.
- Exchange.ConversationTheorem: speaks about files of at most INT_MAX bytes, beyond which the vector is wrong (`SetVector`), and about responses with which fewer than 2^32 bytes are pending, beyond which `OnWrite` may take a part for the whole (`PendingIsExactIff`). It does not follow a client that closes, or a kernel that never takes the rest; `Serve` says what a failing kernel leaves.
- HttpConns.HttpConn.Serve: after a request that is answered with 400, the rejected line stays unread with some of its bytes overwritten, so only what is sent, whether the connection stays open, and the room left are described.
- HttpConns.HttpConn.constructor: starts the second vector element with length 0, which the code leaves uninitialised.
