# vynx_http: a verified model

This project models the logic of the vynx_http client library in Dafny and proves properties of the
model. It covers the incremental response parser and its byte store, the request printer, the client
with its redirects, cookies and keep-alive pool, the event loop's timers with the timeout manager on
top of them, the resolver's cache and the list of addresses that Happy Eyeballs builds.

`dafny verify dfyconfig.toml` checks everything. Nothing was executed.

## How it is organised

A component that the source keeps as an object is a class here (`HttpParser`, `ByteBuffer`,
`HttpHeaders`, `CookieJar`, `EventLoop`, `TimeoutManager`, `DnsResolver`, `HttpClient`). Its methods
have the source's loops and updates, and each is proved equal to a function of the abstract state.
The properties are then proved about those functions, over all inputs, runs and cuts; and what each function
computes is also stated without it, by the form of its input, by literal numbers and texts, or by what the
operations of a run asked for.

| files | content |
|---|---|
| `Wrappers`, `Text` | options and results; searching, trimming, number formats |
| `Headers`, `HeaderStore` | the ordered, case-insensitive header fields, as values and as an object |
| `Buffers` | the growable byte store |
| `ParserSpec`, `HttpParser` | the response parser, as functions and as an object |
| `LineForms` | what the parser makes of single lines, by how they are written |
| `Fragmentation` | the parser's answer and the cuts of the byte stream |
| `ReadBack`, `EndToEnd`, `ChunkCoding`, `ChunkCuts` | printed responses read back, over any sequence of reads |
| `Receiving` | what receiving returns for all that a connection can bring |
| `Requests` | the request printer and partial writes |
| `TimerSpec`, `LoopTimers`, `Timeouts`, `TimerRuns`, `TimerProgress`, `TimeoutManager` | timers and timeouts over whole runs |
| `Deadlines`, `TimerEffects` | runs against what was asked for; what each operation does and leaves alone |
| `Urls`, `UrlForms`, `Cookies`, `ClientSpec`, `ClientProofs`, `HttpClient` | the client and its redirects |
| `ClientResults`, `DefaultFields` | what a call returns and why; the fields of every request spelled out |
| `CookieScope`, `ClientFields` | whose cookies go where, and what the requests of a chain carry |
| `PoolKeys`, `PoolUse`, `PoolRemains`, `Replies` | the keep-alive pool |
| `Dns`, `HappyEyeballs` | the resolver's cache, the list of addresses |

Conventions:

- One byte is one Dafny `char`. The theorems hold for every character, so for every byte.
- A search that finds nothing yields the length of the text, which stands for `npos`.
- The redirect callback is what it is told (`Notice`); what it does with that is its own affair.
- An error message is a value of `Fault`; the code that comes with it is a function of it.
- The network is an oracle: what each write accepts, what each read brings, how opening a connection
  goes, what time it is. An oracle that has nothing more to say behaves like a closed or blocked peer.
- History that the source does not store (events of timers, fates of timeouts, bytes written and read)
  is ghost state or part of the abstract state only.

## Where the code differs from what one would expect

- The size line of a chunk is erased before the chunk is known to be there
  (src/http_parser.cpp:292-308). `FragmentationExact` shows that this and the limit on unfinished lines
  are the only two ways in which the parser's answer depends on the cut, and exactly when they do.
  `CutChunkExample` is the concrete case. `KeepLine` names a variant that is not the code; for it the
  law holds in a chunked body without exception (`VariantInChunks`).
- The limit of 8192 bytes applies to unfinished lines only (src/http_parser.cpp:43, 66): a longer line
  that arrives in one piece is accepted, one that arrives in pieces is refused. `OverflowExact`,
  `OverflowExample`.
- A chunked response is complete as soon as its last size line has ended (src/http_parser.cpp:296-302). If
  the line end after that comes in a later read, it stays on the connection, and the next response is not
  received. `ReceiveReturnsChunkedResponse` says what stays; `NextResponseIsReadIff` says exactly when the
  next response is received.
- A body delimited by the end of the connection never completes (src/http_parser.cpp:316-323), so such
  a response is never returned. `UnsizedResponseIsNeverReturned`.
- The doubling loop of the byte store does not end from capacity 0, which is what a moved-from buffer
  has. `GrowEndsIff`; a parser without body storage may be fed as long as the body stays empty.
- The URL rebuilt for a redirect to a path loses the brackets of an address and leaves out port 443 on
  http and port 80 on https. `RebuildIff` and `RelativeRedirectStaysIff` say exactly when it is right.
- `Connection: close` on an answer that gets into the redirect code does not remove the connection.
  `EntryLeftIff`, `EntryLeftExample`; `PoolAfterCallIff` says for every key what a whole call leaves.
- The poll timeout can exceed the time left when the earliest timer is overdue by more than 2^31 ms.
  `OversleepsIff`, `OversleepsExample`.
- The request URI, query included, is what cookie paths are matched against. `QueryHidesExactMatch` gives the
  two cases in which that matters; `QueryInPathExample`.
- Two schemes can share pool keys, exactly when one continues the other with "://".
  `SchemesNeverCollideIff`; and exactly then a client can be made to use a connection that was opened to
  another origin. `ConnectionsAreRightIff`. http and https are apart from each other.
- A line break in a header value is printed as it is, and what follows it becomes another field
  (src/http_request.cpp:18-20 look at the URI only). `RequestReadsBack` says exactly which requests can be
  read back; `BrokenValueExample` shows two requests that print the same bytes.
- A cookie's domain is compared byte by byte, and without looking whether the host is an address.
  `DomainMatchIsRfcIff` says exactly where that is the domain match of section 5.1.3 of RFC 6265;
  `AddressExample` and `SpellingExample` are the two ways in which it is not.
- Any host can set a cookie for any domain, and a cookie without a Domain attribute is also sent below its
  host (src/http_client.cpp:92-113). `SentAsRfcIff` says exactly when a cookie goes where sections 5.3 and 5.4
  of RFC 6265 send it; `ForeignCookieExample`, `HostCookieExample`.
- A redirect is taken for cross-origin by its host alone (src/http_client.cpp:575), so credentials of an https
  request go out in the clear when the same host redirects to http. `CredentialsLeaveOriginIff` says exactly
  when credentials reach another origin; `ClearCredentialsExample`.
- No chunk of more than 8189 bytes arrives whole in reads of at most 8192 bytes (src/http_client.cpp:688), so
  receiving a response with such a chunk always loses a chunk size. `UncutReadsExistIff`; `CutsOutsideIff` gives the
  bad positions of a cut.
- With nothing but cancelled timers in the list, the loop does not sleep for the configured timeout but for
  the low word of the largest time point. `NoLiveTimerSleep`, `NoLiveTimerExample`.

## Model

| member | source | states |
|---|---|---|
| Text.FromCharsReads | src/http_headers.cpp:116-119 | the longest digit prefix is read to its value, in any base and whatever follows it |
| Text.FromCharsIs | src/http_headers.cpp:116-119 | digits and what follows them: nothing for no digits or a number too large, else the number |
| Text.DigitsAre | src/http_parser.cpp:180-186 | the sixteen digits, small and capital, and what they are worth |
| Text.LowerIs | src/http_headers.cpp:37-46 | folding takes each capital letter to its small one and no other character |
| Text.Decimal | src/http_client.cpp:297 | a printed number is a non-empty run of digits that denotes it |
| Text.CrlfSurvivesAppend | src/http_parser.cpp:40 | bytes that arrive later do not move a line end already found |
| Text.LineEndsAtCrlf | src/http_parser.cpp:40-57 | a line without a line break is found whole, and what follows it is what remains |
| Headers.NamedConcat | src/http_headers.cpp:11-13 | the fields of one name in a joined list are those of the parts, in order |
| Headers.SetKeepsOthers | src/http_headers.cpp:15-33 | setting a field touches no field of another name |
| Headers.SetReplacesFirst | src/http_headers.cpp:15-33 | setting a field changes the first of its name, or adds the only one |
| Headers.WithoutEffect | src/http_headers.cpp:72-88 | removing a name removes all its fields and no other |
| HeaderStore.SameName | src/http_headers.cpp:37-46 | the byte loop decides equality up to ASCII case |
| HeaderStore.ScanForToken | src/http_headers.cpp:123-165 | the scanner finds a token exactly when some maximal run of non-separators spells it |
| HeaderStore.HttpHeaders.Add | src/http_headers.cpp:11-13 | appends, duplicates included |
| HeaderStore.HttpHeaders.Set | src/http_headers.cpp:15-33 | replaces the first field of the name or appends |
| HeaderStore.HttpHeaders.Get | src/http_headers.cpp:35-52 | the first field of the name, whatever its case |
| HeaderStore.HttpHeaders.ContainsName | src/http_headers.cpp:54-70 | whether the name occurs |
| HeaderStore.HttpHeaders.Remove | src/http_headers.cpp:72-88 | all fields of the name go, the others keep their order |
| HeaderStore.HttpHeaders.GetContentLength | src/http_headers.cpp:111-121 | the digit prefix of the first Content-Length, if it fits the size type |
| HeaderStore.HttpHeaders.GetIsChunked | src/http_headers.cpp:123-165 | whether the first Transfer-Encoding lists the token chunked |
| HeaderStore.HttpHeaders.ConnectionKeepAlive | src/http_headers.cpp:167-207 | false exactly when the first Connection field lists the token close |
| Buffers.ByteBuffer.constructor | include/vynx_http/byte_buffer.h:20-21 | an empty store of the given capacity |
| Buffers.ByteBuffer.MoveFrom | include/vynx_http/byte_buffer.h:28-32 | the contents move over and the source is left without storage |
| Buffers.ByteBuffer.Clear | include/vynx_http/byte_buffer.h:85-91 | nothing is unread, the storage stays |
| Buffers.ByteBuffer.Grow | include/vynx_http/byte_buffer.h:174-188 | ends with a capacity of at least the required and less than twice it; the unread bytes survive |
| Buffers.ByteBuffer.EnsureCapacity | include/vynx_http/byte_buffer.h:94-98 | room is made without touching the unread bytes |
| Buffers.ByteBuffer.Write | include/vynx_http/byte_buffer.h:101-105 | the bytes join the end of the queue |
| Buffers.ByteBuffer.Read | include/vynx_http/byte_buffer.h:111-117 | takes bytes from the front of the queue, as many as there are up to the limit |
| Buffers.ByteBuffer.Peek | include/vynx_http/byte_buffer.h:120-125 | shows the front of the queue and changes nothing |
| Buffers.ByteBuffer.FindByte | include/vynx_http/byte_buffer.h:128-136 | the first occurrence at or after the offset, or none |
| Buffers.ByteBuffer.FindPattern | include/vynx_http/byte_buffer.h:139-156 | the first occurrence of a pattern at or after the offset, or none |
| Buffers.ByteBuffer.Compact | include/vynx_http/byte_buffer.h:159-169 | the unread bytes move to the front unchanged |
| Buffers.Replay | include/vynx_http/byte_buffer.h:94-188 | over any run, bytes read then bytes unread are the bytes written; growing copied no more than the capacity it added |
| Buffers.GrowEndsIff | include/vynx_http/byte_buffer.h:176-179 | doubling reaches the required capacity if and only if it starts above zero or nothing is required |
| ParserSpec.Advance | src/http_parser.cpp:38-114 | a round that goes on takes at least a line end off the buffer, which is why the loop ends |
| ParserSpec.StopPoint | src/http_parser.cpp:34-114 | the loop stops only where no further line or chunk can be taken |
| ResponseParser.HttpParser.constructor | include/vynx_http/http_parser.h:57-62 | a fresh parser |
| ResponseParser.HttpParser.Reset | src/http_parser.cpp:131-141 | indistinguishable from a fresh parser afterwards |
| ResponseParser.HttpParser.ReleaseResponse | include/vynx_http/http_parser.h:47 | the response moves out and the parser's body has no storage left |
| ResponseParser.HttpParser.Feed | src/http_parser.cpp:27-117 | one call leads to the abstract state of `Feed`; an error code is returned exactly when it newly fails, and fits the message |
| ResponseParser.HttpParser.StatusLineRound | src/http_parser.cpp:39-61 | a round either leads to the same end or has reached it |
| ResponseParser.HttpParser.HeaderLineRound | src/http_parser.cpp:63-98 | likewise for a header line, the blank line and an overlong partial line |
| ResponseParser.HttpParser.ParseStatusLine | src/http_parser.cpp:147-199 | status and reason are set, or the first fault in the source's order is reported and nothing else changes |
| ResponseParser.HttpParser.ParseHeaderLine | src/http_parser.cpp:205-232 | one field with a trimmed value is added, or the fault is reported and no field is |
| ResponseParser.HttpParser.BeginBody | src/http_parser.cpp:74-86 | chunked wins over a length, a length over the end of the connection |
| ResponseParser.HttpParser.ProcessBody | src/http_parser.cpp:238-328 | takes all of the body that can be taken |
| ResponseParser.HttpParser.ProcessChunks | src/http_parser.cpp:260-314 | the inner loop ends where the abstract loop ends |
| ResponseParser.HttpParser.ParseChunkLine | src/http_parser.cpp:267-290 | the announced size, or the fault |
| ResponseParser.HttpParser.ChunkRound | src/http_parser.cpp:260-314 | a round of the chunk loop either leads to the same end or has reached it |
| ResponseParser.HttpParser.ChunkData | src/http_parser.cpp:292-312 | end of body, a chunk not there yet, or a chunk taken |
| ResponseParser.ParseResponse | src/http_parser.cpp:334-350 | the response of a complete input, and an error for any other |
| LineForms.HeaderLineReads | src/http_parser.cpp:205-232 | name, colon, any run of blanks and tabs, value, any run of blanks and tabs: the field is name and value |
| LineForms.HeaderLineForm | src/http_parser.cpp:205-232 | every line with a colon that is not first has that form |
| LineForms.HeaderLineFaults | src/http_parser.cpp:206-229 | a header line is refused exactly when it has no colon or begins with one, and with which fault and code |
| LineForms.StatusLineReads | src/http_parser.cpp:147-199 | first word, second word, rest: the faults in order, or code and reason |
| LineForms.StatusLineForm | src/http_parser.cpp:149-171 | every line with a blank has that form |
| LineForms.StatusLineFaults | src/http_parser.cpp:149-191 | a line without a blank is refused, and the code of each fault |
| LineForms.PartialLineFails | src/http_parser.cpp:43-47 | an unfinished line is refused exactly when it has more than 8192 bytes |
| LineForms.SizeLineIs | src/http_parser.cpp:267-290 | blanks, hexadecimal digits, other text, extension: the digits alone decide, up to 67108864 |
| LineForms.SizeLineForm | src/http_parser.cpp:267-290 | every line has that form |
| LineForms.ContentLengthIs | src/http_headers.cpp:111-121 | the leading digits of the first Content-Length, if there are any and they are below 2^64 |
| LineForms.ListsDecide | src/http_headers.cpp:123-207 | chunked and close count as whole words between commas, blanks and tabs, in any spelling |
| LineForms.AnyTwoBytesEndAChunk | src/http_parser.cpp:305-312 | the two bytes after a chunk's data are dropped whatever they are |
| LineForms.LastSizeLineEnds | src/http_parser.cpp:296-302 | the last size line completes the body, with or without the line end after it |
| Fragmentation.StopPointCommutes | src/http_parser.cpp:27-117 | stopping part way and going on with the rest ends where one go ends |
| Fragmentation.TwoFeedsAgree | src/http_parser.cpp:27-117 | two calls and one call agree unless the first refused a line that ends later, or stopped inside a chunk |
| Fragmentation.FeedKeepsStatusUnset | src/http_parser.cpp:27-117 | in every reachable state a parser waiting for its status line has no status |
| Fragmentation.OverflowExact | src/http_parser.cpp:43-47 | after a refused partial line the cut is visible if and only if the line end arrives later |
| Fragmentation.OverflowExample | src/http_parser.cpp:43-47 | 8193 bytes without a line end: a later line end shows the cut |
| Fragmentation.CutChunkIsVisible | src/http_parser.cpp:292-308 | after a call that ends inside a chunk some continuation tells two calls from one |
| Fragmentation.FragmentationExact | src/http_parser.cpp:27-117 | every continuation may be fed separately if and only if the first call neither refused a partial line nor dropped a chunk size |
| Fragmentation.FragmentationOfVariant | src/http_parser.cpp:260-314 | with the size line kept, only the refused line remains as an exception |
| Fragmentation.VariantInChunks | src/http_parser.cpp:260-314 | with the size line kept, no cut of a chunked body matters |
| Fragmentation.AnyCutAgrees | src/http_parser.cpp:27-117 | any number of calls agree with one when lines fit the limit and no cut but the last is inside a chunk |
| Fragmentation.UntilEofNeverCompletes | src/http_parser.cpp:316-323 | such a body grows by all that is fed and never completes |
| ReadBack.FieldLineReads | src/http_parser.cpp:205-232 | a printed field line parses to the field |
| ReadBack.StatusTextReads | src/http_parser.cpp:147-199 | a printed status line parses to its code and reason, spaces in the reason included |
| ReadBack.HeaderBlockReads | src/http_parser.cpp:63-98 | a printed header block appends exactly its fields, in order |
| ReadBack.HeadReads | src/http_parser.cpp:39-98 | a printed head is read completely |
| EndToEnd.ReceiveResponse | src/http_client.cpp:686-734 | the receive loop returns what feeding the reads in order yields, and says which reads are still to come |
| EndToEnd.ReceiveCompletes | src/http_client.cpp:686-734 | once the parser completes its response is returned, whatever would come after, and the reads after that stay unread |
| EndToEnd.PrintedIsRead | src/http_parser.cpp:240-258 | a printed response with a Content-Length is complete and equal to what was printed |
| EndToEnd.ReceiveReturnsWhatWasSent | src/http_client.cpp:686-734 | for every way of cutting a printed response into non-empty reads, receiving returns exactly it and leaves what comes later alone |
| EndToEnd.UnsizedResponseIsNeverReturned | src/http_client.cpp:705-712 | a response without length or chunks is never returned, however long its lines, however it is cut and however the peer ends |
| Receiving.ReceiveIff | src/http_client.cpp:686-734 | for any events: which reply, which error and which unread events, by the number of reads after which receiving ends |
| Receiving.ReceivedIff | src/http_client.cpp:686-734 | a response is returned if and only if some first reads, none of them empty, complete the parser with it |
| Receiving.TruncatedIsRefused | src/http_client.cpp:694-712 | a sized response of which something is missing is the error of the close or of the failed read |
| Receiving.TruncatedChunksAreRefused | src/http_client.cpp:694-712 | likewise a chunked one of which more than the final line end is missing |
| ChunkCoding.SizeLineReads | src/http_parser.cpp:267-290 | any spelling of a size, with an extension, is read as that size |
| ChunkCoding.EncodedIsRead | src/http_parser.cpp:260-314 | an encoded body completes with the concatenation of its chunks |
| ChunkCoding.ChunkedRoundTrip | src/http_parser.cpp:260-314 | decoding inverts the chunked coding of section 7.1 of RFC 9112, for any chunk data |
| ChunkCoding.ChunkedResponseIsRead | src/http_parser.cpp:260-314 | a chunked response is read back from any pieces that do not cut inside a chunk; the variant from any pieces |
| ChunkCoding.ChunkedPrefixIff | src/http_parser.cpp:296-302 | a prefix of a chunked response is taken for all of it if and only if at most the last two bytes are missing |
| ChunkCoding.ReceiveReturnsChunkedResponse | src/http_client.cpp:686-734 | receiving such pieces returns the response that was sent; unread stays what is left of the final line end, nothing exactly when the last read is longer than two bytes |
| ChunkCoding.NextResponseIsReadIff | src/http_client.cpp:686-734 | the next response on the connection is received if and only if the last read of the chunked one is longer than two bytes |
| ChunkCoding.CutChunkExample | src/http_parser.cpp:292-308 | five bytes of data cut after three: complete in one call, an error in two |
| ChunkCuts.PrefixPendingIff | src/http_parser.cpp:292-308 | a prefix of a chunked response leaves a chunk pending if and only if it ends between a size line and the end of that chunk |
| ChunkCuts.CutsOutsideIff | src/http_parser.cpp:292-308 | no read loses a chunk size if and only if no cut is at such a position |
| ChunkCuts.LargeChunkIsCut | src/http_client.cpp:688-722 | reads of at most 8192 bytes always cut a chunk of more than 8189 bytes |
| ChunkCuts.UncutReadsExistIff | src/http_client.cpp:688-722 | reads of that size that cut no chunk exist if and only if no chunk has more than 8189 bytes |
| Requests.SerializeRequest | src/http_request.cpp:16-48 | the bytes of a request, and none for a URI with a line break |
| Requests.WriteFields | src/http_request.cpp:29-36 | the loop over the fields writes the header block |
| Requests.RequestReadsBack | src/http_request.cpp:7-48 | a printed request can be read back completely if and only if its URI has no line break and its fields are printable |
| Requests.BrokenValuePrintsTwoFields | src/http_request.cpp:29-36 | a line break in a value prints the same as two fields |
| Requests.BrokenValueExample | src/http_request.cpp:16-48 | two requests with different fields and the same bytes |
| Requests.SerializedBytes | src/http_request.cpp:7-48 | the bytes of a request, spelled out |
| Requests.BlockOfCons | src/http_request.cpp:29-36 | the bytes of each header line, spelled out |
| Requests.TokensAre | src/http_request.cpp:7-14 | the nine method names |
| Requests.SerializeIsInjective | src/http_request.cpp:16-48 | requests that differ in method, URI, fields or body print different bytes |
| Requests.HeaderSectionReads | src/http_request.cpp:29-36 | the header section of a printed request gives a parser the same fields |
| Requests.SendRequest | src/http_client.cpp:655-682 | what the peer has received after the printed request met the given writes |
| Requests.SendBytes | src/http_client.cpp:661-679 | the send loop against any sequence of partial writes |
| Requests.DeliveryIsPrefix | src/http_client.cpp:655-682 | delivery has no gaps and is reported done exactly when it is complete |
| Requests.PartialWritesSuffice | src/http_client.cpp:655-682 | any positive partial writes, if enough, deliver everything |
| Requests.SendingEnds | src/http_client.cpp:661-679 | for any writes: what has arrived and what is reported, by the number of writes that take something |
| LoopTimers.ScheduleKeeps | src/event_loop.cpp:186-214 | scheduling keeps the invariant of the timer list and its history |
| LoopTimers.CancelKeeps | src/event_loop.cpp:216-224 | so does cancelling, even while a callback runs |
| LoopTimers.BeginFireKeeps | src/event_loop.cpp:45-51 | so does firing a due timer |
| LoopTimers.EndFireKeeps | src/event_loop.cpp:53-57 | so does the update after a callback |
| LoopTimers.LiveKeeps | src/event_loop.cpp:61-65 | so does the removal of cancelled timers |
| Timeouts.MakeKeyIsInjective | src/timeout_manager.cpp:31-33 | distinct pairs of handle and kind have distinct 64-bit keys, negative handles included |
| Timeouts.DeactivateKeeps | src/timeout_manager.cpp:72-77 | cancelling or replacing an entry keeps entries, timers and counts together |
| Timeouts.CancelTimeoutKeeps | src/timeout_manager.cpp:118-141 | a cancellation keeps the whole invariant |
| Timeouts.CancelAllKeeps | src/timeout_manager.cpp:144-164 | so does cancelling a handle, in any order of the hash map |
| Timeouts.StartKeeps | src/timeout_manager.cpp:58-115 | so does a start, fresh or replacing |
| TimerRuns.FiresItsOwnEntry | src/timeout_manager.cpp:88-98 | the manager's lambda always finds its own active entry, although it compares no timer ids |
| TimerRuns.PassKeeps | src/event_loop.cpp:42-66 | a pass keeps the whole invariant, whatever its callbacks cancel |
| TimerRuns.EveryRun | src/timeout_manager.cpp:58-177 | the invariant holds in every state of every run |
| TimerRuns.TimeoutsAreConserved | src/timeout_manager.cpp:82-87 | successful starts are fired, cancelled or active, and the reported active count is the true one |
| TimerRuns.EntriesMatchTimers | src/timeout_manager.cpp:58-164 | active entries and the manager's live timers correspond one to one |
| TimerRuns.CancelledNeverRuns | src/timeout_manager.cpp:70-77 | a cancelled or replaced timeout never calls back, however the run goes on |
| TimerRuns.EachStartRunsOnce | src/timeout_manager.cpp:88-100 | each start leads to at most one callback |
| TimerRuns.LoopTimersAreSafe | src/event_loop.cpp:42-66 | ids increase; nothing fires early or after a cancellation; a one-shot fires once; repeats are an interval apart |
| TimerRuns.CancelAllIsExact | src/timeout_manager.cpp:144-164 | cancelling a handle ends its timeouts of all kinds and no other |
| TimerProgress.DueTimersFire | src/event_loop.cpp:42-58 | every timer live and due when a pass begins fires in it or is cancelled in it, whatever the callbacks do |
| TimerProgress.NothingStaysOverdue | src/event_loop.cpp:42-66 | every timer left after a pass is live and lies ahead, or repeats from now on |
| TimerProgress.OverdueTimeoutsEnd | src/timeout_manager.cpp:88-100 | an active timeout whose time has come is called back or cancelled in the pass, and no longer active after it |
| TimerProgress.NoTimeoutIsOverdue | src/timeout_manager.cpp:58-177 | after any run that ends with a pass every active timeout still has time left |
| Deadlines.ScheduledAsWanted | src/event_loop.cpp:186-214 | over every run the timers scheduled are those the operations asked for: id, deadline, interval, callback, repeating |
| Deadlines.FiresMeetDeadlines | src/event_loop.cpp:42-66 | no timer fires before the deadline that was asked for, and only repeating ones again, an interval later |
| Deadlines.TimersAreDueExactly | src/event_loop.cpp:53-57 | every live timer is due at its deadline, or exactly an interval after it last fired |
| Deadlines.StartedAsWanted | src/timeout_manager.cpp:58-115 | the started timeouts are those asked for, and those that have called back have fired |
| Deadlines.NoTimeoutIsEarly | src/timeout_manager.cpp:82-100 | no timeout calls back before the time of its start plus its duration |
| Deadlines.TimeoutsEndAtTheirDeadline | src/timeout_manager.cpp:82-100 | a pass at or after that time ends the timeout: called back or cancelled |
| Deadlines.FiresAreCounted | src/event_loop.cpp:49 | over every run the loop counts its fires, each once |
| TimerEffects.StartIsExact | src/timeout_manager.cpp:58-115 | a start makes its timeout active with a timer due after the duration, counts it, and changes no other |
| TimerEffects.CancelIsExact | src/timeout_manager.cpp:118-141 | a cancellation ends its timeout and its timer if it is active, and does nothing otherwise |
| TimerEffects.CancelLeavesOthers | src/timeout_manager.cpp:118-141 | and changes no other timeout |
| TimerEffects.ResetIsExact | src/timeout_manager.cpp:167-177 | a reset leaves the idle timeout active and due after the new duration |
| TimerEffects.ActionsTakeEffect | src/event_loop.cpp:216-224 | every cancellation a callback makes takes effect |
| TimerEffects.CallbackTakesEffect | src/timeout_manager.cpp:88-100 | a due timer's callback runs: its timeout is over, and all its actions take effect |
| Timekeeping.EventLoop.ScheduleTimer | src/event_loop.cpp:186-214 | the new timer's id, and the list and history after it |
| Timekeeping.EventLoop.CancelTimer | src/event_loop.cpp:216-224 | marks the timer of that id and reports whether there was one |
| Timekeeping.EventLoop.CalculateTimeout | src/event_loop.cpp:81-99 | never negative; determined by the earliest live timer |
| Timekeeping.SleepIsExact | src/event_loop.cpp:81-99 | within 2^31 ms the sleep is the time left in whole milliseconds, or none |
| Timekeeping.OversleepsIff | src/event_loop.cpp:81-99 | the sleep exceeds the time left if and only if the earliest timer is overdue by more than 2^31 ms and the low word reads as positive |
| Timekeeping.OversleepsExample | src/event_loop.cpp:81-99 | overdue by 4294967295 ms, the loop sleeps for 1 ms |
| Timekeeping.NoLiveTimerSleep | src/event_loop.cpp:87-98 | how long the loop sleeps when every timer in the list is cancelled |
| Timekeeping.NoLiveTimerExample | src/event_loop.cpp:87-98 | at time zero, 2077252342 ms |
| Timekeeping.EventLoop.ProcessTimers | src/event_loop.cpp:42-66 | one pass over the timers, callbacks included |
| Timekeeping.EventLoop.RemoveCancelled | src/event_loop.cpp:61-65 | exactly the cancelled timers go |
| Timekeeping.TimeoutManager.CountActive | src/timeout_manager.cpp:13-21 | the number of active entries, in any order of the hash map |
| Timekeeping.TimeoutManager.StartTimeout | src/timeout_manager.cpp:58-115 | the state after a start |
| Timekeeping.TimeoutManager.CancelTimeout | src/timeout_manager.cpp:118-141 | succeeds exactly when the timeout is active |
| Timekeeping.TimeoutManager.CancelAll | src/timeout_manager.cpp:144-164 | the state after cancelling a handle |
| Timekeeping.TimeoutManager.ResetIdle | src/timeout_manager.cpp:167-177 | cancel if active, then start |
| Timekeeping.TimeoutManager.OnTimer | src/timeout_manager.cpp:88-100 | the timer callback of the manager |
| Timekeeping.TimeoutManager.VisitTimer | src/event_loop.cpp:47-58 | the callback first, then the timer's own update |
| Timekeeping.Perform | src/timeout_manager.cpp:58-177 | the objects follow the abstract run, operation by operation |
| Urls.ParseUrlInto | src/http_client.cpp:195-281 | the step-by-step parser computes the abstract one |
| Urls.ParsedUrlIsUsable | src/http_client.cpp:195-281 | an accepted URL has a host, a non-zero port and scheme http or https |
| Urls.ParsePortReads | src/http_client.cpp:262-272 | a printed port is read back, and zero is refused |
| Urls.RebuildIff | src/http_client.cpp:535-541 | parsing the rebuilt URL gives back scheme, host, port and path if and only if the host is plain and the port survives |
| UrlForms.PlainUrlReads | src/http_client.cpp:195-281 | scheme, host, port and path of a URL with a plain host, each optional part included |
| UrlForms.BracketedUrlReads | src/http_client.cpp:230-253 | the same for an address in brackets |
| UrlForms.OpenBracketIsRefused | src/http_client.cpp:232-237 | a bracket that is not closed is refused |
| UrlForms.OtherSchemesAreRefused | src/http_client.cpp:199-210 | so is anything but http:// and https:// |
| UrlForms.PortReads | src/http_client.cpp:262-272 | the leading digits of a port, from 1 to 65535 |
| Urls.BracketedHostExample | src/http_client.cpp:230-253 | a bracketed address is accepted, and its rebuilt URL is not |
| Urls.CrossedPortExample | src/http_client.cpp:536-541 | port 443 on http turns into port 80 |
| Cookies.UpsertEffect | src/http_client.cpp:17-27 | a slot is overwritten in place, or a new last slot appears |
| Cookies.JarIsExact | src/http_client.cpp:17-27 | over any run keys are unique and in first-insertion order, and the last write wins |
| Cookies.DomainMatchIsLabelSuffix | src/http_client.cpp:127-144 | the byte-suffix test is a label-suffix test, which is one clause of section 5.1.3 of RFC 6265 |
| Cookies.PathMatchIsBelow | src/http_client.cpp:146-157 | the path test is that of section 5.1.4 of RFC 6265 |
| Cookies.QueryHidesExactMatch | src/http_client.cpp:324 | with a query appended, the path test changes exactly for the equal path without a final slash, and for a cookie path that goes on into the query |
| Cookies.QueryInPathExample | src/http_client.cpp:146-157 | a cookie path with a query is sent along with that query |
| Cookies.SetCookieReadsBack | src/http_client.cpp:29-120 | a written cookie with domain, path, Secure and Expires is read back as it was |
| Cookies.SpacedPieceReads | src/http_client.cpp:36-57 | blanks around a piece and after its semicolon do not count |
| Cookies.DirectiveSets | src/http_client.cpp:73-107 | what each directive sets, in any spelling of its name, without the first dot of a domain |
| Cookies.DefaultsAre | src/http_client.cpp:110-117 | no domain means the host it comes from, no path means / |
| Cookies.PrintOneMore | src/http_client.cpp:159-165 | one more cookie adds a semicolon, a blank, name, equals sign and value |
| Cookies.CookieJar.SetCookie | src/http_client.cpp:17-27 | the loop replaces the first cookie of the same key or appends |
| Cookies.CookieJar.SetCookieLine | src/http_client.cpp:29-120 | the cookie that a Set-Cookie value describes is stored |
| Cookies.CookieJar.BuildCookieHeader | src/http_client.cpp:122-169 | exactly the applying cookies, in jar order |
| CookieScope.DomainMatchIsRfcIff | src/http_client.cpp:127-144 | the domain test is that of section 5.1.3 of RFC 6265 if and only if no address is matched by its ending, and what matches up to case is spelled as the domain is |
| CookieScope.AddressEndingMatches | src/http_client.cpp:127-144 | every IPv4 address is matched by its last two parts |
| CookieScope.AddressExample | src/http_client.cpp:127-144 | the domain 2.3 is let through for 10.1.2.3 |
| CookieScope.SpellingExample | src/http_client.cpp:92-96 | the domain Example.com does not match its own host example.com |
| CookieScope.SentAsRfcIff | src/http_client.cpp:92-144 | exactly when a stored cookie is sent to a host as sections 5.3 and 5.4 of RFC 6265 would store and send it |
| CookieScope.ForeignCookieIsStored | src/http_client.cpp:92-120 | a cookie for a domain its host does not match is stored and sent there, though the section refuses it |
| CookieScope.ForeignCookieExample | src/http_client.cpp:92-120 | a.com sets a cookie for b.com |
| CookieScope.HostCookieExample | src/http_client.cpp:108-113 | a cookie without a domain reaches a host below its own |
| CookieScope.JarOverRunsIff | src/http_client.cpp:29-120 | over any run of Set-Cookie values from any hosts, the jar holds exactly the last cookie of each key |
| CookieScope.SentOverRunsIff | src/http_client.cpp:122-169 | the cookies sent to a host are exactly those set last under their key whose domain and path tests hold |
| CookieScope.SentOverRunsAsRfc | src/http_client.cpp:122-169 | where every value's scope is right, they are the cookies that the sections would send |
| ClientProofs.CredentialsFollow | src/http_client.cpp:601-621 | a redirect hands credentials on exactly when the host stays |
| ClientProofs.RedirectedShape | src/http_client.cpp:563-626 | a redirected request is empty, has no length, names its own host once with any unusual port, and keeps its method only on 307 and 308 |
| ClientProofs.RedirectIsAnnounced | src/http_client.cpp:545-556 | the redirect callback is told the URL that the next request goes to |
| ClientProofs.ExecuteIsLinked | src/http_client.cpp:411-640 | at most one request more than redirects allowed, each following from the one before with the cookies of all before it; the client keeps the jar of the whole chain |
| ClientProofs.RedirectChainIsSafe | src/http_client.cpp:411-640 | against any server, the credentials, method (kept by 307 and 308 alone), body, length, Host field and announced target of the i-th request of a chain |
| ClientProofs.RelativeRedirectStaysIff | src/http_client.cpp:535-541 | a redirect to a path stays on the same origin if and only if the scheme is http or https, the host is plain and the port survives |
| ClientResults.ExchangeIs | src/http_client.cpp:425-497 | which connection an exchange uses, when it is answered and with what, and else which failure is reported |
| ClientResults.ResultOfCall | src/http_client.cpp:411-640 | every attempt but the last was a redirect within the budget to the URL the next request goes to; the result is the last one's answer or failure |
| DefaultFields.RequestAsSent | src/http_client.cpp:285-328 | every request as it goes out: its own fields, the missing defaults in order and spelled out, cookies last |
| DefaultFields.FillInIs | src/http_client.cpp:285-321 | filling in adds the missing fields at the end and touches no other |
| DefaultFields.FieldsFollow | src/http_client.cpp:577-626 | every field that a redirect need not leave behind follows as it is |
| ClientFields.CookieFieldOf | src/http_client.cpp:323-327 | the Cookie field of the i-th request is that of the jar with all replies so far, for its own host and URI; only the first request can bring its own |
| ClientFields.CookiesOverRuns | src/http_client.cpp:504-520 | over whole runs that jar is filled by all Set-Cookie values received before, each from its own host |
| ClientFields.CredentialsLeaveOriginIff | src/http_client.cpp:574-621 | credentials reach another origin if and only if all hosts are the same and the scheme or port is not |
| ClientFields.ClearCredentialsExample | src/http_client.cpp:574-621 | an https request with credentials, redirected to http on its host, is sent with them |
| PoolKeys.PoolKeyMeans | src/http_client.cpp:423 | keys are equal exactly when the ports are, and scheme and host taken together |
| PoolKeys.PoolKeyIsInjective | src/http_client.cpp:423 | for one scheme, or two of which neither continues the other, a key determines scheme, host and port, whatever the host |
| PoolKeys.SchemesNeverCollideIff | src/http_client.cpp:423 | the keys of two schemes are distinct for all hosts and ports if and only if neither scheme continues the other with "://" |
| PoolKeys.OtherSchemesCollide | src/http_client.cpp:423 | two origins with one key, one of them secure |
| PoolUse.ExchangeKeepsPool | src/http_client.cpp:425-497 | an exchange keeps the pool sound and uses the right connection |
| PoolUse.EveryCallUsesRightConnections | src/http_client.cpp:411-640 | over all runs, among schemes of which none continues another, a connection in use was opened to the request's own origin, and is secure and handshaken exactly for https |
| PoolUse.ContinuedSchemeCrossesOver | src/http_client.cpp:423-497 | two calls after which a request goes out on a connection to another origin |
| PoolUse.ConnectionsAreRightIff | src/http_client.cpp:411-640 | over all runs with these schemes connections are right if and only if no scheme continues another |
| PoolRemains.EntryLeftIff | src/http_client.cpp:491-637 | the connection stays pooled if and only if there was an answer that keeps it alive or gets into the redirect code |
| PoolRemains.OtherEntriesStay | src/http_client.cpp:387-497 | under any other key only what has been idle for too long goes |
| PoolRemains.PoolAfterCallIff | src/http_client.cpp:411-640 | what a whole call leaves: under each key by the last attempt to use it and the later clean-ups, else what was there before and outlived them |
| PoolRemains.EntryLeftExample | src/http_client.cpp:523-556 | a 302 with `Connection: close` and a location leaves its connection in the pool |
| ClientObject.HttpClient.ApplyDefaults | src/http_client.cpp:285-328 | the defaults, in order, where the request leaves them open |
| ClientObject.HttpClient.CleanupIdle | src/http_client.cpp:387-399 | exactly the connections idle for too long go |
| ClientObject.HttpClient.StoreCookies | src/http_client.cpp:504-520 | every Set-Cookie field is stored, in order |
| ClientObject.HttpClient.RedirectFields | src/http_client.cpp:577-626 | the headers a redirected request takes over |
| ClientObject.HttpClient.FollowRedirect | src/http_client.cpp:523-571 | where a redirect leads, and what the callback is told |
| ClientObject.HttpClient.Acquire | src/http_client.cpp:425-489 | a pooled connection that is still good, or a new one under the same key |
| ClientObject.HttpClient.SendAndReceive | src/http_client.cpp:644-651 | the request as printed goes out, the reply as parsed comes back |
| ClientObject.HttpClient.ExchangeOnce | src/http_client.cpp:411-640 | one exchange with all it does to pool and jar |
| ClientObject.HttpClient.DoExecute | src/http_client.cpp:411-640 | the recursion follows the abstract chain, attempt by attempt |
| Dns.RecordsRoundTrip | src/dns_resolver.cpp:132-189 | decoding inverts encoding: no address lost, added or moved; configured port, no scope |
| Dns.CacheInvariant | src/dns_resolver.cpp:52-66 | over any interleaving at most one entry too many, and every entry is the last one stored for its host |
| Dns.HitsAreRight | src/dns_resolver.cpp:121-152 | a hit is fresh and returns the addresses of the lookup that filled the entry, in order |
| Dns.DnsResolver.LookupCached | src/dns_resolver.cpp:124-152 | the first locked section |
| Dns.DnsResolver.EvictOldestIfNeeded | src/dns_resolver.cpp:52-66 | removes an entry that no other is older than, if the cache is over its size |
| Dns.DnsResolver.StoreResult | src/dns_resolver.cpp:162-195 | the second locked section |
| Dns.DnsResolver.Resolve | src/dns_resolver.cpp:121-198 | hit, miss and failure |
| Dns.LookupIff | src/dns_resolver.cpp:124-152 | a lookup hits exactly when there is an entry whose time is not over; what it counts and removes |
| Dns.StoredIsFound | src/dns_resolver.cpp:121-195 | what has been stored is found until its time to live is over, and not after |
| Dns.StoreIsExact | src/dns_resolver.cpp:52-66 | storing drops the victim when the cache is over its size, and no other entry |
| HappyEyeballs.OrderAddresses | src/dns_resolver.cpp:339-365 | separates and interleaves the addresses into the abstract list |
| HappyEyeballs.ConnectOrderIsFair | src/dns_resolver.cpp:349-365 | the list that is built is a permutation that keeps each family's order and alternates, preferred family first, while it can (section 4 of RFC 8305) |

## Left out

- Integer widths: sizes, counters and timer ids are unbounded; the status code accumulator too. Modelled
  widths are the 64-bit key, the 64-to-32-bit cast of the poll timeout, the 16-bit port and the 64-bit
  bound of parsed lengths. The record's 32-bit ttl is taken to hold the configured ttl.
- Sockets, pollers, TLS, the system resolver, clocks: oracles, as described above.
- Real threads: the locked sections of the resolver are atomic steps in any order; the manager's methods
  are atomic.
- Timers started by callbacks during a pass, `set_event_loop` after the first start, and a manager's timer
  cancelled behind its back: excluded (`TimerRuns.Legal`, `TimerSpec.Action`). The source allows
  them, but the first makes a vector grow under the loop that walks it, and the others break the link between
  entries and timers.
- Urls.ParseUrlInto: one error value stands for all refusals, as in the source.
- ResponseParser.HttpParser.ProcessBody: the phase is set to failed here and not in `feed` after the return; the state after `feed` is the same.
- EndToEnd.ReceiveResponse: the receive buffer is represented by the bytes of one read.
- ClientObject.HttpClient.FollowRedirect: the callback is taken not to use the client it is called from.
- Cookie expiry and the Secure flag: stored, never consulted by the source.
- CookieScope.SentOverRunsAsRfc: the comparison with RFC 6265 is value by value and about hosts; the default path, public
  suffixes, Secure and expiry are not compared.
- What is left unread on a connection is not carried over to the next exchange of the client: the reads of
  each exchange come from the oracle. `NextResponseIsReadIff` is about two receptions in a row.
- `execute_async` and the task queue of the loop: they only pass values on.
- HappyEyeballs.ConnectOrderIsFair: the list is what is proved about. The addresses in it are not what is tried: src/dns_resolver.cpp:310-326 connects to the host name once per address and ignores the address.
- `resolve_record` and `update_config`.
- Chunked trailers (section 7.1.2 of RFC 9112): the source does not read them.
- `buffer_pool`, `byte_span`, `result`, logging, signals, method parsing and reason phrases: finite or immediate.
