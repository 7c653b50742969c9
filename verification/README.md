# Verification model of the hawkBit DDI client and its HTTP engine

The repository carries a complete HTTP/1.1 engine in `modules/src/unix` and, on top of it, a polling client
for the hawkBit DDI interface in `ddi`. This project models the parts whose correctness is not visible from
one function at a time, and proves what they promise with Dafny 4.11. `dafny verify dfyconfig.toml` checks
everything.

A `string` stands for a `std::string`: one character per byte. Code that changes things in place is a class
with the same fields, or a method with the same loops, proved against a function on values; the theorems are
about those functions. Concurrent code is a state machine whose runs are all interleavings of its steps.
What lies outside the repository (sockets, the kernel's segment sizes, the server, user callbacks, other
threads) is an arbitrary value or an arbitrary script of values.

- **Multipart forms.** `Bytes` (first-occurrence search), `Multipart` (one `parse` call on values),
  `MultipartParser` (the parser class with its sliding in-place buffer, proved equal to it),
  `MultipartCallbacks` (what a refusal changes), `MultipartStream` and `MultipartRefinement` (an abstract
  machine over the whole input, and the parser as its refinement), `MultipartWindow` (what leaves the window,
  where it goes, what a run keeps back), `MultipartIncremental` (which ways of cutting the input change
  nothing), `MultipartEntries` (the grammar of whole bodies, and that the parser accepts exactly it),
  `MultipartHeaders` (what a part's header lines mean, on the bytes), `MultipartPrinter` (`ClientImpl::Post` and
  the round trip), `MultipartBoundary`.
- **Concurrency.** `ThreadPool` (queue, workers, condition variable, shutdown), `ClientSocket` (the shared
  socket under nested sends and `stop`), `Redirects` (the recursion of redirects and digest retries).
- **Byte streams and framing.** `SocketStream` (4 KB read-ahead over any segmentation), `LineReader`,
  `ContentReader` (bodies with a length, and chunked), `ChunkedWriter`, `HeaderBlock`, `Multimap`.
- **Codecs.** `Numerals`, `Text` (`trim`, `split`), `PercentCoding`, `QueryText`, `Base64`, `RangeHeader`,
  `MultipartRanges`, `PathCheck`.
- **DDI.** `DdiProtocol` (the rules of a run as histories of events, and what follows from them), `DdiClient`
  (the client class, every method of which keeps the rules against any server), `Uri`.

Some promises turned out to be narrower than they look. For these the exact condition is proved:

- The multipart parser accepts exactly the bodies of the grammar in which the first header line of every entry is
  within 8192 bytes; no other line is measured, because only the first of each visit to the header state is
  (`MultipartEntries.ValidExactly`). So a round trip succeeds exactly when every Content-Disposition line is
  (`MultipartPrinter.RoundTrip`).
- A delimiter cut between two `parse` calls, after content without CRLF and two dashes of its own, is seen
  exactly when the cut falls after its second dash, or fewer than four bytes wait at the cut; otherwise its
  front is handed on after the content (`MultipartIncremental.CutInsideDelimiter`).
- `encode_url` keeps what a text decodes to exactly when the text has no NUL, where it stops
  (`PercentCoding.EncodePreservesMeaning`).
- A chunked body can be read exactly when its provider called `done`. A provider that ends the writing loop
  without it ends it with an empty write, and the body is left without a terminator
  (`ChunkedWriter.EmptyWriteTruncates`).
- The declared length of a multipart range body is its size exactly when every range starts in the body and
  what all ranges together reach past its end is a multiple of 2^64. That is so for ranges inside the body;
  while the sum does not wrap, for those only (`MultipartRanges.DeclaredLength`, `DeclaredLengthInBounds`), and
  `WrappedLength` is a list of ranges for which it does wrap.
- A request that ends leaves the socket closed exactly when it was closed already, a `stop` met the request
  with no send set up since, the connection is not kept alive, or the request failed
  (`ClientSocket.FinishCloses`). So a nested send that starts after `stop` forgets it
  (`ClientSocket.NestedSendForgetsStop`).
- A request succeeds exactly when the last reply it got was read and is not a redirect the client follows, and
  that reply is what it gives back (`Redirects.SendTells`). Twenty redirects are followed and the twenty-first fails
  the request (`Redirects.RedirectsThenAnswer`); five challenges are met and the sixth is given back as a success
  (`Redirects.ChallengesThenAnswer`).
- Written headers read back as they were exactly when none has a NUL and `decode_url` leaves every value alone
  (`HeaderBlock.RoundTrip`).
- A feedback body carries the action's id exactly when the id is not negative (`DdiProtocol.IdMemberIsId`).
- A repeated request goes to the server of the first attempt. It is the same request except for a poll
  request, which differs exactly when the authorization handler has changed the endpoint's path: `retryHandler`
  copies the URI, while the request lambda reads the member again
  (`DdiClient.HawkbitCommunicationClient.RetryHandler`).
- In a poll that comes to its end success and error are both reported exactly when the success listener itself
  throws the exception that stands for an unexpected status (`DdiProtocol.TwoReportsExactly`), which some run does
  for every action (`DdiProtocol.SomeRunReportsTwice`).
- A thread pool that was shut down has lost exactly the jobs pushed when all workers had left, and has run all
  others to the end (`ThreadPool.LateJobsLostExactly`). In a pool that has workers, no job pushed before `shutdown`
  sets its flag is lost (`ThreadPool.ShutdownRunsEarlyJobs`), while one pushed after it can be, whatever the number
  of workers (`ThreadPool.LateJobCanBeLost`); a pool without workers runs nothing.
- Once a stop is asked for, at most one poll or nap begins any more: one whose flags had been read before
  (`DdiProtocol.BeginsAfterStop`, `AskingEndsThePause`). One does in some run (`DdiProtocol.LatePollBegins`).

## Model

| member | source | states |
|---|---|---|
| `MultipartParser.MultipartFormDataParser.BufStartWith` | modules/src/unix/httplib.cpp:2030-2047 | true exactly when the pattern occurs in the window at that place |
| `MultipartParser.MultipartFormDataParser.BufFind` | modules/src/unix/httplib.cpp:2049-2070 | the least index at which the pattern occurs in the window, the window's size when there is none |
| `MultipartParser.MultipartFormDataParser.BufAppend` | modules/src/unix/httplib.cpp:2072-2088 | after moving down in place and growing, the window is the old window followed by the data |
| `MultipartParser.MultipartFormDataParser.BufErase` | modules/src/unix/httplib.cpp:2090-2090 | drops that many bytes from the front of the window and nothing else |
| `MultipartParser.MultipartFormDataParser.ReadHeaders` | modules/src/unix/httplib.cpp:1908-1940 | the header state's inner loop refines the value-level header turn, callbacks and failures included; what its lines mean is `MultipartHeaders.LineMeaning` |
| `MultipartParser.MultipartFormDataParser.ReadBody` | modules/src/unix/httplib.cpp:1941-1978 | the body state refines the value-level body turn: text up to the next dashes, then up to the delimiter or past a false alarm |
| `MultipartParser.MultipartFormDataParser.Parse` | modules/src/unix/httplib.cpp:1881-2005 | one call, with its termination by (bytes left, new-entry state), has the effect and result of `Multipart.Parse` on the window, the state and the callback calls, for any callbacks |
| `Multipart.SwitchTurn` | modules/src/unix/httplib.cpp:1893-2002 | every turn that goes round again takes bytes off the window, except the one that leaves the new-entry state |
| `MultipartStream.StepExtends` | modules/src/unix/httplib.cpp:1893-2002 | a step of the abstract machine is unaffected by bytes that arrive later |
| `MultipartStream.SettleEarly` | modules/src/unix/httplib.cpp:1891-2004 | settling before or after more bytes arrive gives the same document |
| `MultipartCallbacks.RunWith` | modules/src/unix/httplib.cpp:1893-2004 | under any callbacks a call is the call under callbacks that accept everything, as long as none refuses; at the first refusal it returns false, not valid, with that callback call its last |
| `MultipartRefinement.RunSettles` | modules/src/unix/httplib.cpp:1893-2004 | for any callbacks that refuse nothing in the call, the parser's loop computes the settled document exactly when the measured header lines fit, and otherwise fails and is not valid |
| `MultipartIncremental.PiecesDocument` | modules/src/unix/httplib.cpp:1881-2005 | after any calls that cut the input outside delimiters or safely inside them, with nothing refused, parser and window together are the document of everything fed so far |
| `MultipartWindow.KeptBack` | modules/src/unix/httplib.cpp:1943-1975 | a delimiter cut any number of times, each time after its second dash and with no other dashes close before it, stays in the window from its first byte on |
| `MultipartIncremental.CutsDoNotMatter` | modules/src/unix/httplib.cpp:1881-2005 | any cutting outside delimiters or safely inside them ends in the same state, validity, answer and parts as one call with the whole input, for any callbacks that refuse nothing |
| `MultipartWindow.BodyBytesAccounted` | modules/src/unix/httplib.cpp:1941-1978 | in the body state every byte taken off the window went to the content callback in order or belongs to the closed delimiter, whatever the callbacks answer |
| `MultipartWindow.WindowIsSuffix` | modules/src/unix/httplib.cpp:2072-2090 | however the input is cut, inside delimiters too, and whatever the callbacks answer, the bytes consumed followed by the window are the input |
| `MultipartIncremental.CutInsideDelimiter` | modules/src/unix/httplib.cpp:1943-1975 | a delimiter cut in two after content without dashes is seen exactly when the cut is after its second dash or fewer than four bytes wait, and then exactly the content was handed on; otherwise what was handed on begins with the content and the delimiter's front, the rest of the delimiter follows or waits, and the part stays open |
| `MultipartPrinter.Post` | modules/src/unix/httplib.cpp:4787-4814 | refuses a boundary with a character outside letters, digits, `-`, `_`; otherwise builds the printed body |
| `MultipartEntries.ContentStep` | modules/src/unix/httplib.cpp:1955-1967 | content free of the delimiter is read whole up to the delimiter, also when it ends in a front part of one, because a delimiter has no border |
| `MultipartEntries.EntrySettles` | modules/src/unix/httplib.cpp:1902-1978 | one entry with any header lines, up to its delimiter, is read as one part with exactly its content; of its lines only the first is measured |
| `MultipartEntries.OneCall` | modules/src/unix/httplib.cpp:1881-2005 | a body of any entries fed in one call ends valid, with one part per entry in order, exactly when every entry's first header line is within the limit, for callbacks that refuse nothing |
| `MultipartEntries.ValidExactly` | modules/src/unix/httplib.cpp:1893-2004 | one call with any input ends valid exactly when the input is such a body: the grammar, nothing more and nothing less |
| `MultipartEntries.InPieces` | modules/src/unix/httplib.cpp:1881-2005 | the same parts come for any cut into calls outside delimiters or safely inside them |
| `MultipartHeaders.DispositionIs` | modules/src/unix/httplib.cpp:1884-1887 | the recogniser finds groups exactly when the line is in the pattern's language, groups the line matches with, and those without a quote exactly |
| `MultipartHeaders.LineMeaning` | modules/src/unix/httplib.cpp:1923-1933 | a line matching the pattern sets name and filename, one that begins with `Content-Type:` in any case the content type, and every other line changes nothing |
| `MultipartHeaders.AnyHeaderLines` | modules/src/unix/httplib.cpp:1908-1940 | from a body of any entries each part has the name and filename of the last line that matches the pattern, the content type of the last Content-Type line and exactly the content, whatever other lines stand among them and in whatever order, case and spacing the known ones do |
| `MultipartHeaders.OtherLinesChangeNothing` | modules/src/unix/httplib.cpp:1923-1933 | two bodies that differ only in header lines of other names are read as the same parts |
| `MultipartPrinter.RoundTrip` | modules/src/unix/httplib.cpp:4787-4817 | for every sendable list of items and callbacks that refuse nothing, one `parse` call on the printed body is valid, with an empty window and the same parts in order, exactly when each Content-Disposition line is within the limit |
| `MultipartPrinter.RoundTripInPieces` | modules/src/unix/httplib.cpp:1881-2005 | the same items come back for any cut into calls outside delimiters or safely inside them |
| `MultipartPrinter.NoItems` | modules/src/unix/httplib.cpp:4800-4814 | the body printed for no items is refused |
| `MultipartBoundary.BoundaryReadBack` | modules/src/unix/httplib.cpp:1819-1830 | the boundary `Post` writes into the content type is read back exactly when it is not empty and not in quotes |
| `MultipartBoundary.AnyContentType` | modules/src/unix/httplib.cpp:1819-1830 | from any content type what follows the first `boundary=` is read, without the quotes around it, and refused when empty |
| `ThreadPool.StepInv` | modules/src/unix/httplib.h:543-587 | each enabled step of a worker, producer or the closing thread keeps conservation, order, mutual exclusion and no lost wake-up |
| `ThreadPool.Safety` | modules/src/unix/httplib.h:543-587 | in every reachable state started jobs followed by queued ones are the enqueued ones in order, enqueued jobs are queued, running or finished, and with a worker blocked the queue is no longer than the workers about to look at it |
| `ThreadPool.QueuedJobIsServed` | modules/src/unix/httplib.h:568-586 | a queued job never faces only sleeping workers while the lock is free and no shutdown is under way |
| `ThreadPool.ShutdownRunsEarlyJobs` | modules/src/unix/httplib.h:549-562 | once `shutdown` has joined, every job enqueued before its flag has finished, and all jobs if none came later |
| `ThreadPool.LateJobsLostExactly` | modules/src/unix/httplib.h:543-587 | in every run of a pool of any size that ends with `shutdown` having joined, the jobs never run are exactly those pushed when every worker had taken the exit at line 574: the last ones pushed, still queued; all others have finished, so all have exactly when there was no such push |
| `ThreadPool.LateJobCanBeLost` | modules/src/unix/httplib.h:543-562 | the failing run for `LateJobsLostExactly`, for any number of workers and any job: the workers leave, the job is pushed after the flag and stays queued |
| `ThreadPool.WorkShrinks` | modules/src/unix/httplib.h:568-586 | after `notify_all` every worker step lowers a bound on the work left |
| `ThreadPool.ShutdownEnds` | modules/src/unix/httplib.h:556-561 | in every run that has reached `notify_all`, with no producer in the lock, worker steps are bounded in number, no worker is blocked after them, and either another is possible or `join` can return |
| `ClientSocket.StepInv` | modules/src/unix/httplib.cpp:4020-4107 | every section under the socket mutex, and the start of `process_socket`, keeps the ownership invariant and meets every assert on threads, counter and TLS pointer (lines 3960, 3976, 3981, 4068, 4090, 5732, 5739, 5745) |
| `ClientSocket.CloseAllIsSafe` | modules/src/unix/httplib.cpp:5725-5740 | closing after `shutdown_ssl` meets its asserts, plain or TLS, and leaves no TLS pointer, when no other thread has requests in flight and a TLS pointer implies a socket |
| `ClientSocket.ProcessInv` | modules/src/unix/httplib.cpp:5742-5749 | a request that reaches `process_socket` of a TLS client finds the TLS pointer set, whatever other threads did since its setup |
| `ClientSocket.Safety` | modules/src/unix/httplib.cpp:3956-3986 | over all runs of a plain or TLS client no assert fails, the in-flight count is the owner's nesting depth and the owner is recorded while it is positive, a TLS pointer is there exactly with a TLS client's socket, no socket is closed twice, and a socket in use is closed only by its user |
| `ClientSocket.FlagIsStopPending` | modules/src/unix/httplib.cpp:5012-5018 | the deferred-close flag is set exactly when a `stop` met requests in flight and no send has passed its setup since |
| `ClientSocket.PendingStopCloses` | modules/src/unix/httplib.cpp:4094-4099 | without another setup a pending flag stays and the first request to end closes the socket |
| `ClientSocket.StopLeavesClosed` | modules/src/unix/httplib.cpp:5004-5025 | a `stop` in a request with no later nested send leaves the socket closed when that request ends |
| `ClientSocket.FinishCloses` | modules/src/unix/httplib.cpp:4085-4100 | when a request ends the socket is closed exactly if it was closed before, a `stop` is pending, the connection is not kept alive or the request failed |
| `ClientSocket.NestedSendForgetsStop` | modules/src/unix/httplib.cpp:4026-4028 | from every state with a request in flight, a nested send after the `stop` clears the flag, and an open socket is left: the same one if it seemed alive, a new one if not |
| `ClientSocket.SocketAfter` | modules/src/unix/httplib.cpp:4020-4107 | a socket stays exactly until a setup that finds it dead, a connection not kept, a failed request, a `stop` with nothing in flight or a request's end after one; a setup opens a new one exactly when there is none, the connection is made and the TLS handshake succeeds |
| `ClientSocket.StopShutsDown` | modules/src/unix/httplib.cpp:5004-5025 | every socket closed had been shut down first, and the present one is shut down exactly when a `stop` met a request in flight on it |
| `Redirects.Send` | modules/src/unix/httplib.cpp:4121-4187 | nested sends end because redirects left plus retries left drops at each one, and the depth stays within that budget |
| `Redirects.Redirected` | modules/src/unix/httplib.cpp:1759-1782 | the redirect half never takes the count below zero and leaves the retry count alone; what it answers is the next row |
| `Redirects.RedirectTells` | modules/src/unix/httplib.cpp:1759-1782 | the redirect half succeeds exactly when the last reply got is an answer, and then gives that one back; otherwise the redirect itself |
| `Redirects.SendTells` | modules/src/unix/httplib.cpp:4121-4187 | for every server `send` succeeds exactly when the last reply it got was read and is not a redirect to follow, gives that reply back, and went on after each earlier one because it was a redirect that can be followed or a challenge |
| `Redirects.ChainIsMade` | modules/src/unix/httplib.cpp:4121-4187 | the requests made are one more than the replies that are followed or met in a row, nested one in the other, unless a challenge comes too late behind redirects |
| `Redirects.RedirectsThenAnswer` | modules/src/unix/httplib.cpp:4182-4187 | after up to 20 redirects that can be followed a new request succeeds with the next reply exactly when that was read and is no redirect, with one more request than redirects; after more it fails with 21 requests made |
| `Redirects.ChallengesThenAnswer` | modules/src/unix/httplib.cpp:4151-4177 | after up to 5 challenges a new request succeeds with the next reply exactly when that is an answer; after more it succeeds with the sixth challenge |
| `Redirects.RecursionEnds` | modules/src/unix/httplib.cpp:4121-4187 | for every server a request makes at most 25 nested sends, and a bounded number of requests in all |
| `Redirects.GreedyGoesDeepest` | modules/src/unix/httplib.cpp:4145-4176 | some server does make the sends nest 25 deep |
| `SocketStream.Socket.Recv` | modules/src/unix/httplib.cpp:2769-2783 | a read of the kernel gives a front part of the bytes that are there, or the end code |
| `SocketStream.SocketStream.Read` | modules/src/unix/httplib.cpp:2741-2785 | bytes received are bytes returned followed by the read-ahead, whose indices stay within 4096; a read gives a front part of what is left, not empty unless asked for nothing, and the ending once it is used up |
| `LineReader.StreamLineReader.Append` | modules/src/unix/httplib.cpp:360-371 | the line grows by the byte, across the switch to the growable buffer, whose assert holds |
| `LineReader.StreamLineReader.Getline` | modules/src/unix/httplib.cpp:334-358 | over any segmentation returns exactly the bytes up to and including the next line feed, or the last bytes of an ended stream, and fails otherwise |
| `ContentReader.ReadContentWithLength` | modules/src/unix/httplib.cpp:1397-1417 | delivers exactly the first `len` bytes and leaves the rest, succeeding exactly when that many come |
| `ContentReader.ReadContentChunked` | modules/src/unix/httplib.cpp:1449-1487 | success and the content delivered, also before a failure, are those of the chunk grammar on the plain bytes, and so are the bytes left after a success |
| `ContentReader.SizeLineRead` | modules/src/unix/httplib.cpp:1462-1465 | the size line printed for a length is read as that length |
| `ContentReader.StrToUlIs` | modules/src/unix/httplib.cpp:1459-1465 | a number after white space, with a sign, a prefix, leading zeros and digits of either case is read whatever follows it; too large ones give ULONG_MAX, a minus sign negates modulo 2^64 |
| `ContentReader.StrToUlNone` | modules/src/unix/httplib.cpp:1459-1465 | text in which no digit follows the white space and the sign is not read as a number |
| `ContentReader.SizeWithExtension` | modules/src/unix/httplib.cpp:1459-1465 | a size line may have leading zeros and a chunk extension |
| `ContentReader.ChunkedBody` | modules/src/unix/httplib.cpp:1449-1487 | from any body the data of its whole chunks is delivered, however their size lines are written, and then what the rest gives |
| `ContentReader.EndRead` | modules/src/unix/httplib.cpp:1462-1484 | a body ends well with a last chunk and its empty line, and also after a chunk with some other line behind it; it fails at a size that does not count, a last chunk without its empty line, or too little data |
| `Numerals.DigitsRead` | modules/src/unix/httplib.cpp:41-49 | the numeral of a number reads back as it, in any base up to 16 |
| `Numerals.DigitsAreLower` | modules/src/unix/httplib.cpp:41-49 | a numeral is in lower case and has no leading zero |
| `Numerals.FromIToHex` | modules/src/unix/httplib.cpp:41-49 | the digit loop prints the hexadecimal numeral |
| `ChunkedWriter.WriteData` | modules/src/unix/httplib.cpp:1586-1596 | everything is written however little each write takes, unless a write fails |
| `ChunkedWriter.WriteContentChunked` | modules/src/unix/httplib.cpp:1670-1748 | on success exactly the chunks of the provider's calls are on the wire, in order |
| `ChunkedWriter.ChunkRead` | modules/src/unix/httplib.cpp:1459-1478 | one printed chunk is read as its data, and reading goes on right after its line end |
| `ChunkedWriter.RoundTrip` | modules/src/unix/httplib.cpp:1679-1731 | non-empty writes and one `done` are read back as their concatenation, reading stops right after the terminator, whatever follows |
| `ChunkedWriter.ProperEnds` | modules/src/unix/httplib.cpp:1735-1744 | however such calls are spread over provider calls, the loop makes them all and ends |
| `ChunkedWriter.LoopStops` | modules/src/unix/httplib.cpp:1735-1744 | the loop makes whole provider calls up to the first that ends with `done` or an empty write, and does not end without one |
| `ChunkedWriter.ReadsAs` | modules/src/unix/httplib.cpp:1679-1731 | whatever calls are made on the sink, the bytes read as what was written before the first `done`, or fail at their end without one |
| `ChunkedWriter.EmptyWriteTruncates` | modules/src/unix/httplib.cpp:1735-1744 | a provider that ends the loop, every write shorter than ULONG_MAX, leaves a readable body exactly when it called `done`; without it the last call was an empty write |
| `HeaderBlock.WriteFormat` | modules/src/unix/httplib.h:1499-1530 | text of any length is written in full, by doubling the buffer |
| `HeaderBlock.WriteHeaders` | modules/src/unix/httplib.cpp:1572-1584 | one line per header in order and a blank line |
| `HeaderBlock.ParseHeaderLoop` | modules/src/unix/httplib.cpp:1338-1365 | the three scans and the decoding find the header that `HeaderLine` says, or none |
| `HeaderBlock.HeaderLine` | modules/src/unix/httplib.cpp:1338-1365 | a line gives a header exactly when something not blank follows its first colon: the name is all before the colon, the value what stands between the blanks, decoded |
| `HeaderBlock.EscapedHeader` | modules/src/unix/httplib.cpp:1355-1360 | a value of any bytes written in escapes is read as those bytes, whatever blanks stand around it |
| `HeaderBlock.ReadHeaders` | modules/src/unix/httplib.cpp:1367-1395 | over any segmentation success and headers are those of the plain bytes, and so are the bytes left, also after a failure, unless the stream stalled or broke off inside a line |
| `HeaderBlock.AnyBlock` | modules/src/unix/httplib.cpp:1367-1395 | from any lines up to a blank one reading succeeds exactly when every line that ends in CRLF is within 8192 bytes; the headers of these lines are inserted in order, lines without one are skipped, and reading stops just past the blank line |
| `HeaderBlock.NoBlankLine` | modules/src/unix/httplib.cpp:1367-1395 | without a blank line reading fails, with the headers there were |
| `HeaderBlock.RoundTrip` | modules/src/unix/httplib.cpp:1367-1395 | written headers are read back in order, equal names too, cut at NULs and decoded, and reading stops just past the blank line; they are unchanged exactly when there is no NUL and decoding leaves every value alone |
| `Multimap.EmplaceSorted` | modules/src/unix/httplib.cpp:1388-1391 | inserting keeps the order and adds exactly the entry |
| `Multimap.EmplaceValues` | modules/src/unix/httplib.cpp:1388-1391 | a new value comes after those its key has already, and no other key's values change |
| `Multimap.EmplaceAllIs` | modules/src/unix/httplib.cpp:1388-1391 | after many insertions each key has its old values and then the new ones, in order |
| `Multimap.LessIs` | modules/src/unix/httplib.h:294-301 | one key comes before another exactly when it is smaller at their first difference |
| `Multimap.CaseBlind` | modules/src/unix/httplib.h:294-301 | in the case-blind order the same keys are exactly those that differ in the case of letters only |
| `Text.TrimCopy` | modules/src/unix/httplib.cpp:272-286 | the text without its outer blanks, also when the two indices cross |
| `Text.TrimmedIs` | modules/src/unix/httplib.cpp:272-286 | trimming is cutting between the first and the last byte that is not blank |
| `Text.Split` | modules/src/unix/httplib.cpp:288-306 | the trimmed, non-empty fields between delimiters, in order |
| `PercentCoding.EncodeUrlLoop` | modules/src/unix/httplib.cpp:185-215 | the loop computes the encoding, up to the first NUL |
| `PercentCoding.DecodeUrlLoop` | modules/src/unix/httplib.cpp:217-252 | the index loop computes the decoding, whose meaning is the next row |
| `PercentCoding.DecodeMeans` | modules/src/unix/httplib.cpp:217-252 | every text is made of bytes, two-digit escapes, `%u` escapes and stray percent signs, and decodes to the bytes, with plus signs as spaces only if asked, the escaped byte, the code's UTF-8 and the sign itself |
| `PercentCoding.Utf8Read` | modules/src/unix/httplib.cpp:51-84 | a code of up to 16 bits gives the shortest UTF-8 that stands for it, a surrogate nothing |
| `PercentCoding.FormRoundTrip` | modules/src/unix/httplib.cpp:217-252 | form-encoded text of any bytes decodes to them when plus signs stand for spaces, and otherwise to the same with a plus sign for each space |
| `PercentCoding.KeptExactly` | modules/src/unix/httplib.cpp:164-183 | `encode_query_param` leaves a text alone exactly when it has only letters, digits and the nine marks of the list |
| `PercentCoding.FromHexToILoop` | modules/src/unix/httplib.cpp:24-39 | succeeds exactly when that many hexadecimal digits are there, with their value |
| `PercentCoding.QueryParamRoundTrip` | modules/src/unix/httplib.cpp:164-183 | decoding undoes `encode_query_param` for every byte string and either treatment of `+` |
| `PercentCoding.EncodePreservesMeaning` | modules/src/unix/httplib.cpp:185-252 | an encoded text decodes to what the text itself decodes to, exactly for texts without NUL |
| `PercentCoding.EncodeIdempotent` | modules/src/unix/httplib.cpp:185-215 | encoding twice is encoding once |
| `QueryText.ParamsToQueryStr` | modules/src/unix/httplib.cpp:1784-1794 | the loop prints the pairs in order, joined by `&` |
| `QueryText.ParseQueryText` | modules/src/unix/httplib.cpp:1796-1817 | the nested splits and the cache compute the parsed multimap |
| `QueryText.RoundTrip` | modules/src/unix/httplib.cpp:1784-1817 | a printed multimap with arbitrary byte values is parsed back in order, exact repeats merged |
| `QueryText.PairMeaning` | modules/src/unix/httplib.cpp:1803-1815 | of the fields of one piece the first that is not blank is the key and the last other one the value, trimmed and decoded with plus signs as spaces |
| `QueryText.FormRead` | modules/src/unix/httplib.cpp:1796-1817 | form data with keys and values of any bytes, keys not empty, is parsed to exactly the pairs sent, exact repeats once, each key's values in the order sent |
| `QueryText.MergedIs` | modules/src/unix/httplib.cpp:1800-1801 | merging keeps exactly the pairs there were, each once |
| `Base64.Encode` | modules/src/unix/httplib.cpp:85-111 | with the accumulator cut to 32 bits the output is what an unbounded one gives |
| `Base64.UnboundedIsBlocks` | modules/src/unix/httplib.cpp:95-108 | the accumulator algorithm is the encoding of three bytes to four characters with padding |
| `Base64.EncodeDecodes` | modules/src/unix/httplib.cpp:85-111 | the output has length 4 * ceil(n / 3) and a decoder recovers every input |
| `RangeHeader.MakeRangeHeader` | modules/src/unix/httplib.cpp:2521-2532 | the loop prints the ranges with separators and absent ends left out |
| `RangeHeader.ParseRangeHeader` | modules/src/unix/httplib.cpp:1834-1863 | success and the ranges appended are those `AnyHeader` tells |
| `RangeHeader.Recognised` | modules/src/unix/httplib.cpp:1837-1839 | the recogniser accepts exactly `bytes=` and a list of digit runs around dashes, separated by commas, with white space before all but the first |
| `RangeHeader.AnyHeader` | modules/src/unix/httplib.cpp:1834-1863 | from such a list the ranges are read up to the first with a number over `ssize_t` or its ends in the wrong order, and reading succeeds exactly when there is none; from any other text nothing is read |
| `RangeHeader.NothingIsPassedOver` | modules/src/unix/httplib.cpp:1841-1861 | in a header the first pattern accepts, every piece matches the second, so no field is silently dropped |
| `RangeHeader.RoundTrip` | modules/src/unix/httplib.cpp:2521-2532 | a made header reads back as the same ranges exactly for non-empty lists of pairs with ends -1 or non-negative, within `ssize_t`, and in order |
| `MultipartRanges.GetRangeOffsetAndLength` | modules/src/unix/httplib.cpp:2129-2147 | for well-formed ranges the result lies in the body exactly for ranges inside it, and is then the selected interval |
| `MultipartRanges.StartsMeaning` | modules/src/unix/httplib.cpp:2129-2147 | the wrapped arithmetic gives the selected interval, suffixes and open ends included, of every range that starts in the body, and an offset past the body for the others |
| `MultipartRanges.ProcessMultipartRangesData` | modules/src/unix/httplib.cpp:2160-2193 | the tokens handed to the callbacks, part by part and the closing line |
| `MultipartRanges.MakeMultipartRangesData` | modules/src/unix/httplib.cpp:2195-2210 | appends the tokens' bytes and stops at the first offset past the body |
| `MultipartRanges.GetMultipartRangesDataLength` | modules/src/unix/httplib.cpp:2212-2228 | the sum of the tokens' sizes, wrapped to `size_t` |
| `MultipartRanges.MadeMessage` | modules/src/unix/httplib.cpp:2195-2210 | made in full and within the body exactly when all ranges are, and then each part is its headers and the slice of the body it names |
| `MultipartRanges.DeclaredLength` | modules/src/unix/httplib.cpp:2212-2228 | the message is made in full and its declared length is its size modulo 2^64 exactly when every range starts in the body and their total excess is nothing modulo 2^64 |
| `MultipartRanges.DeclaredLengthInBounds` | modules/src/unix/httplib.cpp:2212-2228 | so for every list inside the body, and while the excess does not wrap for no other |
| `MultipartRanges.WrappedLength` | modules/src/unix/httplib.cpp:2216-2227 | three ranges, not inside the body, whose excess wraps to nothing |
| `PathCheck.IsValidPath` | modules/src/unix/httplib.cpp:127-162 | true exactly when no prefix of the components has more `..` than ordinary names; the assert holds and the loops end |
| `PathCheck.ComponentsAre` | modules/src/unix/httplib.cpp:127-162 | the components looked at are the non-empty fields between slashes |
| `PathCheck.ValidMeansContained` | modules/src/unix/httplib.cpp:127-162 | such paths are exactly those that never leave a mount point, at any step of walking them |
| `DdiClient.HawkbitCommunicationClient.WrappedRequest` | ddi/src/ddi_client_impl.cpp:326-335 | one request to the given server, its answer turned into a result or the matching exception |
| `DdiClient.HawkbitCommunicationClient.RetryHandler` | ddi/src/ddi_client_impl.cpp:337-348 | at most two requests to the same server, the second only after a 401 and one call of the handler, and with the endpoint's path as it is then |
| `DdiClient.HawkbitCommunicationClient.FollowConfigData` | ddi/src/ddi_client_impl.cpp:139-173 | keeps the protocol rules; `ignoreSleep` is the response's only if data was sent and accepted |
| `DdiClient.HawkbitCommunicationClient.FollowAction` | ddi/src/ddi_client_impl.cpp:185-257 | keeps the protocol rules for cancel and deployment alike; a normal return means that the poll is done and reported |
| `DdiClient.HawkbitCommunicationClient.SendFeedback` | ddi/src/ddi_client_impl.cpp:201-217 | the `try` block: reports as the rules allow, other exceptions pass through |
| `DdiClient.HawkbitCommunicationClient.FollowPoll` | ddi/src/ddi_client_impl.cpp:268-278 | whatever the answer asks for, the rules are kept, and a normal return means that the poll is over |
| `DdiClient.HawkbitCommunicationClient.DoPoll` | ddi/src/ddi_client_impl.cpp:259-279 | keeps the rules; the first request of a poll is a GET to the endpoint as it stands, and the sleep time becomes the server's if positive, else the default |
| `DdiClient.HawkbitCommunicationClient.Sleep` | ddi/src/ddi_client_impl.cpp:81-88 | naps only as the rules allow, and enough that the next poll may begin |
| `DdiClient.HawkbitCommunicationClient.Run` | ddi/src/ddi_client_impl.cpp:66-90 | the whole run keeps the rules against any server and other threads, and ends normally only when a stop was asked for |
| `DdiProtocol.EveryPollIsSafe` | ddi/src/ddi_client_impl.cpp:75-80 | in a history that keeps the rules, each poll by itself keeps the rules for polls |
| `DdiProtocol.RetriedOnce` | ddi/src/ddi_client_impl.cpp:337-348 | each request is repeated at most once, after a 401 and one handler call, to the same server |
| `DdiProtocol.FeedbackIsEarned` | ddi/src/ddi_client_impl.cpp:176-205 | every feedback follows, in its poll, a successful fetch of the action and the only handler call, about that action; it is posted to the link's path and `feedback`, with exactly one slash between, and carries the action's id |
| `DdiProtocol.FeedbackPathIs` | ddi/src/ddi_client_impl.cpp:176-183 | behind the last slash of a feedback's path stands `feedback`, before it the link's path without one slash at its end |
| `DdiProtocol.RequestIsEarned` | ddi/src/ddi_client_impl.cpp:145-190 | configuration data is put, to exactly the link of the answer, only after the answer asked for it and the handler gave some; an action is fetched from exactly the link of the answer; polls are plain GETs |
| `DdiProtocol.EndedMeansDone` | ddi/src/ddi_client_impl.cpp:258-279 | a poll that comes to its end has called the handler once and done what that asked for: non-empty configuration data was accepted, and an action got a response and a feedback |
| `DdiProtocol.IdMemberIsId` | ddi/src/ddi_client_impl.cpp:134-136 | the id member is there exactly for ids that are not negative, and reads back as the id |
| `DdiProtocol.SuccessReportedExactly` | ddi/src/ddi_client_impl.cpp:201-209 | in a poll that comes to its end success is reported exactly when a feedback succeeded and there is a listener |
| `DdiProtocol.ErrorReportedExactly` | ddi/src/ddi_client_impl.cpp:211-217 | in a poll that comes to its end error is reported exactly when the feedback met a status other than success and 401, or a callback threw the exception for one |
| `DdiProtocol.TwoReportsExactly` | ddi/src/ddi_client_impl.cpp:201-217 | a poll that comes to its end has two reports exactly when the success listener throws the unexpected-status exception |
| `DdiProtocol.OneReport` | ddi/src/ddi_client_impl.cpp:201-217 | in any poll, two reports are one of success, for which the listener threw that exception, and right after it one of error |
| `DdiProtocol.SomeRunReportsTwice` | ddi/src/ddi_client_impl.cpp:185-217 | for every link and action id there is a run that keeps the rules, with an ended poll that fetches the action, succeeds in its feedback and has both reports |
| `DdiProtocol.NapsBounded` | ddi/src/ddi_client_impl.cpp:81-88 | at most sleep time / 1000 naps between two polls, and none when the handler asked to go on |
| `DdiProtocol.PauseIs` | ddi/src/ddi_client_impl.cpp:266-267 | the pause is the one the poll's answer gives when that is positive, else the default |
| `DdiProtocol.SkipIs` | ddi/src/ddi_client_impl.cpp:76-81 | the pause is left out exactly when the response to the action, or the configuration data if not empty, says so |
| `DdiProtocol.PauseIsTaken` | ddi/src/ddi_client_impl.cpp:75-88 | unless the handler or a request to poll cuts it short, exactly as many naps come before the next poll as the pause has whole seconds |
| `DdiProtocol.BeginsAfterStop` | ddi/src/ddi_client_impl.cpp:75-88 | between a request to stop and a nap or poll that still begins after it the client itself does nothing but read the other flag: it had read `isRunning` before |
| `DdiProtocol.NapsAfterRequest` | ddi/src/ddi_client_impl.cpp:86-87 | between a request to poll and a nap that still begins before the next poll has ended the client itself does nothing |
| `DdiProtocol.LatePollBegins` | ddi/src/ddi_client_impl.cpp:75-77 | in some run that keeps the rules a poll begins after a stop was asked for, the request having come between the test of the flag and the poll |
| `DdiProtocol.AskingEndsThePause` | ddi/src/ddi_client_impl.cpp:75-88 | at most one nap or poll begins after a stop was asked for, and at most one nap after a poll was, before that poll has ended, wherever the request falls between reading a flag and acting on it |
| `Uri.Unambiguous` | modules/src/uriparse.cpp:7-7 | a text is accepted with given parts exactly when they obey the grammar and their text is it: recomposition and unique reading in one |
| `Uri.StoredParts` | modules/src/uriparse.cpp:41-74 | exactly the grammar's texts are accepted, and their parts stored, absent ones as empty; only a fragment without a query is dropped |
| `Uri.DownloadPathIsSlice` | ddi/src/ddi_client_impl.cpp:281-288 | the download path is the slice of the link after the authority and before the fragment, less a `?` with nothing behind it |
| `Uri.EndpointReadBack` | ddi/src/utils.cpp:13-19 | the built endpoint is read back as scheme, authority and controller path exactly when there is a scheme and tenant and id have no `?` or `#` |

## Left out

- Sockets, `select`, DNS, TLS, compression, the clock and sleeping: a socket is a script of segments, stalls and
  an end; liveness, connecting and TLS results are free choices.
- The proxy path (`connect_with_proxy`), which sends while the socket mutex is held.
- The server side, the content-provider form of range bodies, and ranges that reach past the content there.
- MultipartIncremental.CutsDoNotMatter: a cut inside a delimiter is allowed only after the second dash, and only
  when no other dashes begin less than a delimiter's length before; header lines must stay under 8192. The code
  itself loses a delimiter cut before that, unless fewer than four bytes wait. After false alarms close before a
  delimiter some cuts are survived and some are not, depending on how the false alarms fall; those are not covered.
- MultipartIncremental.CutInsideDelimiter: is exact for content without CRLF and two dashes, and a boundary
  without carriage returns, which is every boundary `Post` lets through.
- `ThreadPool` and `ClientSocket` are state machines on values, one step per section under the mutex, not classes:
  what they leave out is memory visibility outside the locks. So with the two flags of the DDI client, plain `bool`s
  that threads share: a read sees the last write, and other threads act between any two accesses.
- DdiClient.HawkbitCommunicationClient.Run: a run is watched for any number of polls given in advance. `onAuthError`
  may set the endpoint, while tokens, key pairs and certificate settings are not modelled, nor are downloads made
  from inside the handler.
- DdiClient.HawkbitCommunicationClient.FollowAction: stands for `followCancelAction` and `followDeploymentBase`, whose
  bodies differ in the parser and handler method they call. On an empty path `formatFeedbackPath` reads outside
  the string; the model appends a slash there.
- JSON bodies: what the readers make of an answer is part of the answer, `None` where they throw.
- Regular expressions are replaced by recognisers of the same fixed patterns, proved to accept the patterns' languages
  (`MultipartHeaders.DispositionIs`, `RangeHeader.Recognised`, `Uri.Unambiguous`); the C locale is taken to be ASCII.
- Redirects: of a request only its two counts are modelled, and of a reply whether its location can be followed; which
  host and path that is, and the change of method after status 303, are not.
- Widths: `size_t` wrap-around is modelled for range lengths and sums, `ssize_t` for range ends, `int` for the
  base64 accumulator; elsewhere lengths are taken to fit, such as the clamp of a read size to the largest
  `ssize_t` and the `int` that `snprintf` returns.
- PathCheck.ValidMeansContained: speaks of a mount point with at least one name, because nothing leaves the root.
- RangeHeader.ParseRangeHeader: the `catch` of the function is modelled for overflowing numbers only, not for memory.
- Fragments of links without a query are parsed but not stored, as in the code; digest hashes, MIME and status tables,
  builders, getters and the Windows variant add nothing to these properties.
