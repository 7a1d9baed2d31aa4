# Verified models of symfritz

These Dafny modules model the parts of symfritz, a client for FRITZ!Box routers, in
which many steps interact, and prove what those parts promise:

- the **MCP stdio server** (`Mcp*.dfy`): reader thread, channel, dispatcher, work queue,
  worker pool, pending counter, locked writer and cancellation flag as a state machine
  whose runs are all interleavings; the sequential server as its specification; the codec
  of framed and line messages (`McpFraming.dfy`, `McpHeaders.dfy`); and the method table
  with the octets of each answer (`McpReplies.dfy`);
- the **DNS codec** (`Dns*.dfy`, RFC 1035): query writer, name reader with compression
  pointers, answer parser with in-packet aliases, and the budgeted probe loop; a writer of
  replies that the parser is proved against (`DnsReply.dfy`), names position by position
  (`DnsStep.dfy`), addresses as octets (`DnsAddress.dfy`) and the names that are asked
  for (`DnsHost.dfy`);
- the **HTTP/1.1 response reader** (`HttpResponse.dfy`, `HttpHead.dfy`, `HttpField.dfy`,
  `HttpPieces.dfy`, `HttpReader.dfy`, `HttpLoops.dfy`, RFC 9112), a writer of responses
  (`HttpMessage.dfy`), and the **TLS-to-HTTP fallback** (`HttpFallback.dfy`);
- the **firmware workflow** (`FirmwareVersion.dfy`, `FirmwareReport.dfy`,
  `FirmwareFacts.dfy`, `Firmware.dfy`);
- **Digest authentication** (`DigestHeader.dfy`, `DigestFields.dfy`, `DigestClient.dfy`,
  RFC 7616) and the **web session** (`Session.dfy`);
- two printers with their readers: **SOAP** (`Soap.dfy`, `SoapRoundTrip.dfy`,
  `SoapEncodings.dfy`) and **YAML** (`YamlText.dfy`, `YamlSyntax.dfy`, `Yaml.dfy`,
  `YamlStrings.dfy`, `YamlRoundTrip.dfy`).

`Common.dfy`, `Strings.dfy` and `Octets.dfy` (UTF-8, RFC 3629) hold what the modules share.
`dafny verify dfyconfig.toml` checks the whole project.

How the environment appears: clocks, cancellation probes, router replies, connection
attempts and read sizes are scripts, arbitrary functions from the number of the event to
its outcome, so every theorem holds for all of them. JSON encoding, MD5, tool results and
the contents of the router's description documents are parameters. An octet stream is a
string of characters below 256. Objects that the source updates in place are classes whose
methods are proved against specification functions; ghost logs record what went over the
wire.

Methods are proved against specification functions that follow the code. What these
functions mean is said a second time, independently of their bodies: by a writer whose
output they take back (DNS replies, HTTP responses, header blocks, challenges, SOAP
content, YAML trees), by a grammar that they accept exactly (versions, host names, header
fields, references, numbers, plain strings), or by facts about what went over the wire
(answers, authorizations, firmware exchanges, fallback connections).

Four properties of the code are not what one would hope, and are proved as they are.
`BufferedReader::read` resets `start` before a refill that can fail, so an interrupted
refill of a used buffer hands old octets out again. `HttpReader.BufferedReader.SentExactly`
gives the exact condition over any run of reads, `HttpReader.BufferedReader.ReplayExactly`
for the next read, and `HttpLoops.ReplayExample` shows it happen. The reading loops are
proved for every connection: their result is what the octets handed out during the call
mean, unless the clock or a failure of the connection cut it short. Where reads are only
interrupted before the first data (`Steady`), these octets are the next ones of the stream.
Comparability of firmware versions is not transitive (`ComparableIsNotTransitive`); the
install workflow is safe because it compares every pair (`InstalledMeansVerified`).
Not every string that is printed plain in YAML is a string for YAML: `.inf` and `0o7` are
numbers (`SomePlainStringsAreNumbers`); `PlainIsYamlExactly` says for which strings this
happens. And the reader of the comparison script takes back exactly those strings that hold
no line end printed as `\r\n` and, if plain, no outer white space
(`StringsRereadExactly`, `SomeStringsChange`).

## Model

| member | source | states |
|---|---|---|
| McpSafety.StepInv | crates/symfritz-mcp/src/lib.rs:340-508 | every atomic step of reader, dispatcher, workers, writer and canceller keeps the whole invariant: items in order and each in exactly one place, exact pending count, one lock holder, output of whole frames, order of answers, shutdown |
| McpRuns.ReachableInv | crates/symfritz-mcp/src/lib.rs:340-508 | the invariant holds after any interleaving of any length |
| McpRuns.PendingExact | crates/symfritz-mcp/src/lib.rs:532-549 | in every reachable state the pending counter is the number of accepted calls that are not completed, and the saturating decrement never saturates |
| McpRuns.PoolBounded | crates/symfritz-mcp/src/lib.rs:387-430 | in every reachable state at most sixteen calls wait for at most four workers, and the dispatcher can hand over a call unless sixteen wait |
| McpRuns.ParseErrorIsBarrier | crates/symfritz-mcp/src/lib.rs:401-472 | all answers before a parse-error reply belong to earlier messages and all after it to later ones; without cancellation every earlier message has been served by then |
| McpRuns.OvertakingOnlyCalls | crates/symfritz-mcp/src/lib.rs:401-472 | an answer is overtaken only if it belongs to a tool call, and never across a parse error |
| McpRuns.OutputIsFramePrefix | crates/symfritz-mcp/src/lib.rs:567-586 | for every interleaving and any moment of cancellation, without an inner write error, the bytes written are a prefix of whole frames in answering order |
| McpRuns.SilenceAfterCancel | crates/symfritz-mcp/src/lib.rs:567-586 | after a cancellation at most the one inner write whose check came before it happens, and nothing is written later |
| McpProgress.NoDeadlock | crates/symfritz-mcp/src/lib.rs:340-508 | in every state satisfying the invariant some thread can step unless all have ended |
| McpProgress.CancellationEndsWaiting | crates/symfritz-mcp/src/lib.rs:425-466 | a cancelled dispatcher can leave at once instead of waiting for a message, for room in the queue of 16 or for calls that are not completed |
| McpProgress.StepDescends | crates/symfritz-mcp/src/lib.rs:340-508 | every step but a cancellation lowers a lexicographic measure |
| McpProgress.EveryScheduleCompletes | crates/symfritz-mcp/src/lib.rs:340-508 | every scheduler of an uncancelled server reaches a state in which all threads have ended, the verdict is the one of the input, all items are served once, and the output is the frames in serving order |
| McpSequential.ConcurrentMatchesSequential | crates/symfritz-mcp/src/lib.rs:302-508 | for every input stream and every interleaving without cancellation the concurrent server ends with the sequential server's verdict and has written a permutation of the sequential server's frames, which are the answers that the method table gives to the payloads in order |
| McpSequential.ServeIo | crates/symfritz-mcp/src/lib.rs:302-332 | the sequential loop adds, for each message of the stream in order and whatever the buffering, the octets that the method table gives it, and reports how the stream ended |
| McpSequential.HandleItem | crates/symfritz-mcp/src/lib.rs:749-827 | one item appends what the method table says: for a request with an id one whole frame with the result of initialize, ping (an empty object), tools/list or the tool call, or error -32601 with the method's name; for text that does not decode error -32700 with id null; nothing for a notification |
| McpReplies.AnswerUnique | crates/symfritz-mcp/src/lib.rs:749-827 | the method table and the two wire forms leave one answer for each payload: the header's length is the only decimal text of its value without leading zeros |
| McpSequential.OvertakenAreToolCalls | crates/symfritz-mcp/src/lib.rs:401-472 | only an answer to a payload that asks for tools/call is overtaken, and never across a payload that does not decode |
| McpSequential.RepliesAreFrames | crates/symfritz-mcp/src/lib.rs:302-332 | the sequential output is one frame for each request with an id and for each parse error, in order, and nothing else |
| Octets.LossyIsUtf8 | crates/symfritz-mcp/src/lib.rs:724 | the lossy conversion of a line changes nothing exactly where the line is UTF-8 |
| Octets.Utf8Exactly | crates/symfritz-mcp/src/lib.rs:724 | the octets that pass for UTF-8 are exactly the encodings of texts (RFC 3629 section 3) |
| Octets.AroundExactly | crates/symfritz-mcp/src/lib.rs:706-714 | trimming takes off exactly the encoded white space characters around a text |
| McpFraming.BufReader.Consume | crates/symfritz-mcp/src/lib.rs:716-743 | consuming part of a buffer removes exactly that many octets from the stream |
| McpFraming.ReadLineLimited | crates/symfritz-mcp/src/lib.rs:716-743 | the next line up to and including its newline is read under any division into buffers and converted to UTF-8 with replacements, with the line limit and the end-of-input cases |
| McpFraming.ReadNonEmptyLine | crates/symfritz-mcp/src/lib.rs:706-714 | blank lines are skipped and the next other line is returned without its outer Unicode white space |
| McpFraming.ReadExact | crates/symfritz-mcp/src/lib.rs:615-653 | a body is the next octets of the stream exactly, or an error if the stream is too short |
| McpFraming.ReadRequest | crates/symfritz-mcp/src/lib.rs:615-666 | the next message and its mode are those of the stream's text, and the reader stops exactly behind it |
| McpFraming.ReadsBackExactly | crates/symfritz-mcp/src/lib.rs:615-653 | a written payload is read back, with the reader exactly behind it, exactly if its mode can carry it: framed, 1 octet to 1 MiB; as a line, UTF-8 below the line limit without line feed or outer white space that does not look like a header |
| McpHeaders.MessageExactly | crates/symfritz-mcp/src/lib.rs:615-666 | behind a header block with any lines, ended by CR LF or LF, the message is as many octets as the last Content-Length line says, from one octet to a mebibyte; without such a line, with one that is no number, or with fewer octets there is an error |
| McpHeaders.AnnouncedLength | crates/symfritz-mcp/src/lib.rs:655-666 | a Content-Length line gives a length exactly if its value is a decimal number below 2^64, with at most one plus sign and any Unicode white space around it |
| McpHeaders.TextFound | crates/symfritz-mcp/src/lib.rs:706-714 | lines of white space are skipped, and the next text is found with the white space around it taken off |
| McpFraming.WireReadsBack | crates/symfritz-mcp/src/lib.rs:1051-1072 | any sequence of payloads that their modes can carry, in any mix, is read back with the same texts and modes, then the end of input |
| DnsName.DnsRequest | crates/symfritz-tr064/src/dns.rs:655-668 | the query octets are header, encoded labels, root, type and class 1 |
| DnsQuery.QuestionReadsBack | crates/symfritz-tr064/src/dns.rs:495-513 | for every accepted name, reading the question of its query gives the name back with the cursor at 12 + length + 2, followed by the asked type and class 1 |
| DnsHost.AcceptedExactly | crates/symfritz-tr064/src/dns.rs:495-513 | a query is made exactly for names of at most 253 characters of letters, digits, hyphens and single dots, with a dot in any 64 characters, no hyphen at a label's end, and no dotted quad |
| DnsQuery.LimitsAreTight | crates/symfritz-tr064/src/dns.rs:679-712 | the limits 128 and 254 are met exactly by 127 labels in 253 octets: one hop less would fail |
| DnsQuery.DotsTrimmed | crates/symfritz-tr064/src/dns.rs:660 | a name is asked for without the points at its end, and with nothing else changed |
| DnsName.NameAtExact | crates/symfritz-tr064/src/dns.rs:679-712 | reading a name succeeds exactly if following labels and pointers (RFC 1035 section 4.1.4) reaches the root within 128 positions with ASCII labels and encoded length at most 254; the result is the text of that trail and the cursor has advanced within the packet |
| DnsName.ReadName | crates/symfritz-tr064/src/dns.rs:679-712 | the reading loop computes exactly that |
| DnsAnswer.ResolveExact | crates/symfritz-tr064/src/dns.rs:800-834 | an address list is decided exactly if it is the ascending duplicate-free list of all addresses owned by the first name on the first-match alias chain that has any, within the step limit and all usable |
| DnsAnswer.AliasCycleUndecided | crates/symfritz-tr064/src/dns.rs:800-834 | an alias cycle that meets no address is never decided |
| DnsAnswer.PacketDecidesExactly | crates/symfritz-tr064/src/dns.rs:728-834 | a packet decides a list exactly if it is an untruncated, error-free reply to the query, all its records can be read, and the chain from the question yields that list within 15 alias steps |
| DnsReply.ReplyDecides | crates/symfritz-tr064/src/dns.rs:728-834 | a reply written octet by octet from a header, a question and records decides by its flags first, then within 64 records and 16 names what its last name owns: the ascending list of the numbers whose octets in network order are those of the address records, with their scope |
| DnsReply.RecordsRead | crates/symfritz-tr064/src/dns.rs:771-799 | written records of any owners, spelled or compressed, are read as what they say |
| DnsReply.MisfitRefused | crates/symfritz-tr064/src/dns.rs:780-794 | an address of another size, or octets behind an alias target, make the reply unreadable |
| DnsStep.RootReads | crates/symfritz-tr064/src/dns.rs:695-699 | a zero octet is the empty name |
| DnsStep.LabelReads | crates/symfritz-tr064/src/dns.rs:700-709 | a label is read before the rest of its name exactly if its octets are there and are ASCII, in lower case and with a point before a rest, and if the whole has at most 254 octets |
| DnsStep.PointerReads | crates/symfritz-tr064/src/dns.rs:686-692 | a compression pointer stands for the name at its offset, costs one position and is two octets long |
| DnsStep.OthersRefused | crates/symfritz-tr064/src/dns.rs:679-712 | no name starts outside the packet, at a reserved length octet, at half a pointer or after 128 positions |
| DnsAddress.NumberOctet | crates/symfritz-tr064/src/dns.rs:780-788 | the k-th octet of an address number in network order is the k-th octet of the record |
| DnsAddress.ScopeOfOctets | crates/symfritz-tr064/src/dns.rs:229-241 | an address is local, and usable, exactly if its octets are in the ranges of their family |
| DnsAnswer.AppendingKeepsVerdict | crates/symfritz-tr064/src/dns.rs:728-834 | appending octets never changes a verdict already reached |
| DnsAnswer.SortDedup | crates/symfritz-tr064/src/dns.rs:813-814 | the result is strictly ascending and has the same elements |
| DnsAnswer.ReadEntries | crates/symfritz-tr064/src/dns.rs:771-799 | the record loop collects exactly the addresses and aliases of the readable records, or fails where one cannot be read |
| DnsAnswer.FollowChain | crates/symfritz-tr064/src/dns.rs:800-834 | the chain loop over the collected vectors gives the verdict of the records |
| DnsAnswer.ParseDnsPacket | crates/symfritz-tr064/src/dns.rs:728-834 | the whole parser computes the packet's verdict |
| DnsProbe.FoundExactly | crates/symfritz-tr064/src/dns.rs:453-465 | the resolver list holds every address with every role it was found in, nothing else, and no address or role twice |
| DnsProbe.CompareAll | crates/symfritz-tr064/src/dns.rs:418-431 | addresses match an expectation of their family exactly if all are equal to it, and are not compared otherwise |
| DnsProbe.Prober.LookUp | crates/symfritz-tr064/src/dns.rs:404-446 | one lookup sends at most one query, none for a local name or after the budget, with a timeout that ends within the budget |
| DnsProbe.Prober.Probe | crates/symfritz-tr064/src/dns.rs:394-448 | the loop does both record types at every resolver in order until a cancellation, and ends within five seconds, or less than a millisecond later for a probe that raises its timeout to one |
| HttpResponse.ChunksRead | crates/symfritz-tr064/src/transport.rs:770-813 | for any division into chunks, any sizes with leading zeros, extensions and trailers, reading yields the first octets of the data up to the limit |
| HttpResponse.FramingsAgree | crates/symfritz-tr064/src/transport.rs:700-813 | Content-Length, chunked and connection-close framing of the same body all give its first octets up to the limit (RFC 9112 sections 6 and 7.1) |
| HttpResponse.HeadExactly | crates/symfritz-tr064/src/transport.rs:608-638 | a head ends with the first CR LF CR LF and nowhere before |
| HttpHead.StatusLineReads | crates/symfritz-tr064/src/transport.rs:640-666 | a status line of either HTTP version gives its code, whatever the reason phrase |
| HttpHead.FieldLineReads | crates/symfritz-tr064/src/transport.rs:667-684 | a field line gives its name in lower case and its value without outer blanks |
| HttpField.FieldExactly | crates/symfritz-tr064/src/transport.rs:667-684 | a line is accepted exactly if it is a token (RFC 9110 section 5.6.2), a colon and a value without control characters but tabs, with any Unicode white space around name and value; the field has the name in lower case |
| HttpField.SizeExactly | crates/symfritz-tr064/src/transport.rs:777-790 | a line gives a chunk size exactly if it has, before a semicolon or its end and within white space, a hexadecimal number below 2^64, with or without `0x` |
| HttpMessage.HeadReads | crates/symfritz-tr064/src/transport.rs:639-698 | a written head of a status line and any valid fields gives its code and exactly the lower-cased names with their values joined in order |
| HttpMessage.MessageReads | crates/symfritz-tr064/src/transport.rs:258-272 | a written response in any of the three framings is understood as its code, its fields and its body up to the limit |
| HttpHead.FieldsCollected | crates/symfritz-tr064/src/transport.rs:667-697 | header lines are accepted exactly if all are fields and no framing field repeats; then every name maps to all its values joined in order |
| HttpHead.ReadFields | crates/symfritz-tr064/src/transport.rs:667-697 | the loop over the header lines computes that map or the first error |
| HttpResponse.ChunkedExtends | crates/symfritz-tr064/src/transport.rs:770-813 | a chunked body once read, or refused for another reason than the end of input, stays so whatever octets follow |
| HttpPieces.MoreChunks | crates/symfritz-tr064/src/transport.rs:770-813 | octets that are whole chunks can be read piece by piece: whatever follows, the body is the data so far and what the rest gives in the room left |
| HttpPieces.HeadDecides | crates/symfritz-tr064/src/transport.rs:258-272 | a head within the limit and what follows it fix the response: it is the one response that these octets can be read as, or they have none |
| HttpReader.FedExactly | crates/symfritz-tr064/src/transport.rs:569-586 | over any number of refills, the octets put at disposal and those to come are the octets sent exactly if no refill of a used buffer failed, and more of them otherwise |
| HttpReader.BufferedReader.Refill | crates/symfritz-tr064/src/transport.rs:574-580 | a refill delivers new octets, or fails and makes the old buffer readable again |
| HttpReader.BufferedReader.Read | crates/symfritz-tr064/src/transport.rs:569-586 | a read hands out the next octets of the stream; after an error nothing is lost, and nothing is repeated exactly if the buffer was never filled |
| HttpReader.BufferedReader.SentExactly | crates/symfritz-tr064/src/transport.rs:548-586 | over any run of reads, what was handed out and what is to come are the octets sent exactly if no refill of a used buffer failed |
| HttpReader.BufferedReader.ReplayExactly | crates/symfritz-tr064/src/transport.rs:573-575 | repeated reads hand out exactly the rest if and only if the next read is not an interrupted refill of a used buffer |
| HttpLoops.ReadRetryInterrupted | crates/symfritz-tr064/src/transport.rs:588-606 | retried reads hand out the stream, after the old buffer exactly if the first refill of a used buffer is interrupted; an interruption is returned only at the deadline |
| HttpLoops.ReplayExample | crates/symfritz-tr064/src/transport.rs:588-606 | a concrete connection on which the first octet is read twice |
| HttpLoops.ReadExactDeadline | crates/symfritz-tr064/src/transport.rs:843-875 | on any connection the output is the octets handed out during the call, and every error is explained by the clock, a failed read or the end of input; on a steady one they are the next octets exactly if there are enough |
| HttpLoops.ReadHead | crates/symfritz-tr064/src/transport.rs:608-638 | the head is the octets handed out and ends exactly after the first empty line, within 64 KiB, with the two other cases told apart, on any connection |
| HttpLoops.ReadLine | crates/symfritz-tr064/src/transport.rs:815-841 | on any connection the octets handed out are exactly one line, returned without its end, or have the reported length, UTF-8 or end-of-input error; on a steady one it is the next line of the stream |
| HttpLoops.ReadTrailers | crates/symfritz-tr064/src/transport.rs:790-796 | trailer lines of the octets handed out are skipped up to the empty one |
| HttpLoops.ReadChunk | crates/symfritz-tr064/src/transport.rs:777-811 | one pass of the chunk loop takes one whole chunk, or what ends the body |
| HttpLoops.ReadChunkedBody | crates/symfritz-tr064/src/transport.rs:770-813 | on any connection the result is the chunked body that the octets handed out encode; on a steady one it is that of the stream |
| HttpLoops.ReadToClose | crates/symfritz-tr064/src/transport.rs:742-767 | the octets handed out up to the close or the limit; on a steady connection the stream cut at the limit |
| HttpLoops.ReadResponseBody | crates/symfritz-tr064/src/transport.rs:700-768 | on any connection the body is what its framing makes of the octets handed out, with the framing errors; on a steady one, of the stream |
| HttpLoops.ReadResponse | crates/symfritz-tr064/src/transport.rs:258-272 | on any connection a response is returned only if the octets handed out are its unique head and body, and a written response with code, fields and body in any framing is returned as these; an error that is not of clock or connection only if they hold no response; on a steady one the same about the stream |
| HttpFallback.FallbackUrl | crates/symfritz-tr064/src/transport.rs:956-982 | the fallback keeps host, target and credentials, turns to HTTP, goes to port 49000 for 49443 and to port 80 for 443, and exists for these two only |
| HttpFallback.UnreachableMeans | crates/symfritz-tr064/src/transport.rs:984-1008 | an error while connecting means that nobody answered exactly if its text mentions one of six phrases in any letter case and none of five about TLS |
| HttpFallback.Transport.Connect | crates/symfritz-tr064/src/transport.rs:291-319 | the addresses are tried in turn up to the first that accepts; if none does, the last error decides whether somebody is there |
| HttpFallback.Transport.Execute | crates/symfritz-tr064/src/transport.rs:223-319 | one exchange uses at most one connection, and carries request bytes exactly if that connection is ready: over TLS after the handshake and, unless certificates are not checked, after the pin check; a response is returned exactly if it came |
| HttpFallback.Transport.FallBack | crates/symfritz-tr064/src/transport.rs:385-399 | the one fallback attempt comes after a negative cancellation probe, with the warning, switches TLS off, and goes to the plain-text counterpart: same host and target, port 49000 for 49443 and 80 for 443 |
| HttpFallback.Transport.Try | crates/symfritz-tr064/src/transport.rs:375-407 | the exchanges of one request go to its address or, for a TLS origin, to its plain-text counterpart, and carry it at most once; TLS is switched off exactly if nobody answered, with the opt-in, no cancellation and one of the two ports |
| HttpFallback.Transport.Send | crates/symfritz-tr064/src/transport.rs:349-414 | over any run: request bytes reach only ready connections at the requested address or, for a TLS origin, its plain-text counterpart, at most one per send; TLS only goes off, and exactly if nobody answered the TLS address, with the opt-in and without a cancellation; at most one warning; no success after a cancellation; other origins are refused; the response is the last connection's |
| FirmwareVersion.PrintedVersionReads | crates/symfritz-tr064/src/firmware.rs:594-605 | every version in print, with or without model prefix, whose numbers fit 32 bits is read back |
| FirmwareVersion.ParseExactly | crates/symfritz-tr064/src/firmware.rs:594-605 | a text is a version exactly if it is two or three decimal numbers below 2^32 with dots between them |
| FirmwareVersion.ComparesExactly | crates/symfritz-tr064/src/firmware.rs:606-613 | the comparisons are those of the versions that the texts spell: newer by major, then minor number, and only where the models do not contradict each other |
| FirmwareVersion.ComparableIsNotTransitive | crates/symfritz-tr064/src/firmware.rs:606-613 | a version without a model prefix is comparable with two versions that are not comparable |
| FirmwareVersion.ComparableThrough | crates/symfritz-tr064/src/firmware.rs:606-613 | through a common partner two versions are comparable exactly unless both name models, the partner none, and the models differ |
| FirmwareVersion.PairwiseMeansOneModel | crates/symfritz-tr064/src/firmware.rs:606-613 | versions agree pairwise exactly if one model fits all of them |
| FirmwareReport.NewBudget | crates/symfritz-tr064/src/firmware.rs:199-207 | the budget lasts as long as asked for, up to 600 seconds, with 1 to 60 polls and pauses of at most ten seconds |
| FirmwareReport.AnUpdateCanBeVerified | crates/symfritz-tr064/src/firmware.rs:594-637 | an update that comes back with a model prefix passes both guards |
| FirmwareReport.InstalledMeansVerified | crates/symfritz-tr064/src/firmware.rs:528-556 | the guards of offer and verification together give: same model and serial, both known, the offered version, strictly newer than the original, and all versions seen pairwise comparable |
| FirmwareFacts.StatusReads | crates/symfritz-tr064/src/firmware.rs:334-392 | a status is what the fields of one complete round of replies show, white space taken off; replies that an action is not supported end the round |
| FirmwareFacts.SafeMeansPermitted | crates/symfritz-tr064/src/firmware.rs:614-637 | an offer counts as safe exactly if the replies show UpdateState UpdateAvailable, UpgradeAvailable 1 or true, BuildType Release, a model, a serial number, a version above the installed one, and no contradicting CurrentFwVersion |
| FirmwareFacts.ReadbackMeans | crates/symfritz-tr064/src/firmware.rs:521-556 | a readback counts as the same box, and as installed, exactly if the reply shows the same model and serial number, and the offered version without contradicting any version seen |
| FirmwareFacts.RepliesMean | crates/symfritz-tr064/src/firmware.rs:468-492 | a reply accepts the install exactly if it shows Started with 0, 1, false or true, and declines it with Error, NoUpdate or Stopped |
| FirmwareFacts.ErrorsMean | crates/symfritz-tr064/src/firmware.rs:248-267 | which errors mean an unsupported action (fault 401 in status 500), a refusal (any fault code but zero) or a lost reply, through any number of wrappings |
| Firmware.Client.Boundary | crates/symfritz-tr064/src/firmware.rs:208-216 | a boundary is passed exactly if the probe finds no cancellation and time is left; cancellation is reported first |
| Firmware.Client.Pause | crates/symfritz-tr064/src/firmware.rs:217-228 | a pause terminates, lasts exactly one interval when it succeeds, asks for a cancellation every 25 milliseconds, and never sleeps past the deadline |
| Firmware.Client.Discover | crates/symfritz-tr064/src/firmware.rs:270-333 | discovery sends only description requests, each right after a passed boundary, and succeeds only when both were answered; a failure is that of the description, of the clock, of a cancellation or of the last reply |
| Firmware.Client.Read | crates/symfritz-tr064/src/firmware.rs:334-392 | a status is what one complete round of reads begun in this call shows; a failure is that of the clock, of a cancellation or of the last reply, and never that an optional action is not supported |
| Firmware.Client.Check | crates/symfritz-tr064/src/firmware.rs:401-446 | one check call at most, at most 60 polls, done within the limit plus one exchange; a complete result is what a round begun after the check call returned shows; an incomplete one means all polls or all time used, and is unsettled; failures are explained |
| Firmware.Client.Verify | crates/symfritz-tr064/src/firmware.rs:513-588 | the polling only reads; every poll but the last is lost or comes from the same box without confirming the update; Rebooting is in the history exactly if a poll was lost, the readback is what the last answer shows, a verified result rests on a last confirming reply and a last negative cancellation probe |
| Firmware.Client.Install | crates/symfritz-tr064/src/firmware.rs:447-588 | at most one install exchange, only when confirmed, advertised and directly after a complete round of reads whose replies permit it; if none is sent, either the replies do not permit it or the failure is explained; the report follows from the reply to the exchange and from the polls after it; a fault is returned as such; the time and poll bounds hold |
| DigestHeader.SplitDigestFields | crates/symfritz-core/src/auth.rs:169-191 | the fields are the parts between commas outside quotes, without an empty last one |
| DigestHeader.ParseDigestChallenge | crates/symfritz-core/src/auth.rs:144-167 | the loop sets the known fields in order and accepts exactly with a nonce |
| DigestFields.ChallengeReads | crates/symfritz-core/src/auth.rs:144-191 | a challenge is read field by field, the last value of each name counting: in any order, with any white space around keys and values, quoted or not, other fields between them, commas inside quotes; it is valid exactly with a nonce |
| DigestFields.NoChallenge | crates/symfritz-core/src/auth.rs:144-148 | without the scheme's name there is no challenge |
| DigestFields.HeaderAuthorizes | crates/symfritz-core/src/auth.rs:196-240 | every printed header proves the password to a server that recomputes the response of RFC 7616 section 3.4.1 from the fields it receives; it names the user, returns realm, nonce and opaque token, and counts exactly if auth is offered |
| DigestFields.OptionsOffer | crates/symfritz-core/src/auth.rs:242-244 | auth is offered exactly if one comma separated option reads so without its white space |
| DigestFields.HeaderReadsBack | crates/symfritz-core/src/auth.rs:144-240 | parsing a printed header with quote-free fields returns its realm, nonce and opaque token, and is valid exactly with a nonce |
| DigestFields.CountSays | crates/symfritz-core/src/auth.rs:205 | the printed nonce count is the count in eight lower-case hexadecimal digits |
| DigestClient.ChallengeOfReply | crates/symfritz-tr064/src/client.rs:238-249 | the challenge of a reply is that of its first WWW-Authenticate field, in any letter case of the name |
| DigestClient.NoChallengeInReply | crates/symfritz-tr064/src/client.rs:238-245 | a reply without that field gives none |
| DigestClient.Client.CachedAuthorization | crates/symfritz-tr064/src/client.rs:470-498 | the k-th authorization from one cached challenge carries count k, up to saturation, in a header that proves user and password for this request |
| DigestClient.Client.Send | crates/symfritz-tr064/src/client.rs:438-468 | over any run no request repeats a challenge and count below saturation |
| DigestClient.Client.CacheChallenge | crates/symfritz-tr064/src/client.rs:246-249 | a new challenge starts its own count |
| DigestClient.Client.Attempt | crates/symfritz-tr064/src/client.rs:234-236 | one request, with an authorization that proves user and password exactly if a challenge is cached; none if the client nonce fails |
| DigestClient.Client.Exchange | crates/symfritz-tr064/src/client.rs:226-267 | at most two requests, the second only after a 401 with a parseable challenge and with that challenge and count 1; the last reply decides; the same for an authenticated GET (lines 314-379) |
| Session.AllReadyExtends | crates/symfritz-aha/src/lib.rs:607-622 | readiness of every session sent carries over from one command to the next |
| Session.Client.Cache | crates/symfritz-aha/src/lib.rs:423-427 | a granted or seeded session is cached with the clock reading taken right after |
| Session.Client.SetCachedSid | crates/symfritz-aha/src/lib.rs:283-286 | a session seeded by the caller replaces the cached one and is dated by a clock reading |
| Session.Client.CachedIsFresh | crates/symfritz-aha/src/lib.rs:410-421 | a cached session is used exactly if valid and if the clock now reads less than its lifetime after the reading at its acquisition, and not earlier |
| Session.Client.FetchSession | crates/symfritz-aha/src/lib.rs:434-460 | one login request; success means the box granted that session in its reply, and a failure is that of the reply |
| Session.Client.LogIn | crates/symfritz-aha/src/lib.rs:255-270 | at most two login requests, the second only after a reply without a session and with the answer to its challenge; the last granted the session that is then cached; a failure is what the last reply says, block time included |
| Session.Client.Sid | crates/symfritz-aha/src/lib.rs:246-270 | a valid session: the cached one, found by a clock reading of this call to be younger than its lifetime since its logged acquisition, or one granted by the last of at most two login requests; a failure leaves none cached |
| Session.Client.Once | crates/symfritz-aha/src/lib.rs:668-700 | one command at most, carrying a session, neither empty nor all zeros, that was granted just before it or checked against the clock just before it |
| Session.Client.TwiceAtMost | crates/symfritz-aha/src/lib.rs:607-622 | at most two commands and six requests, each command with such a session; the second only after a 403 for the first, with a session granted by a later login |
| Session.Client.Home | crates/symfritz-aha/src/lib.rs:607-622 | the same, and the trimmed text is returned only from a successful last reply and unless it reads inval; a second 403 and other statuses are reported as such |
| Session.Client.CpuTemperatures | crates/symfritz-aha/src/lib.rs:567-600 | the same for the temperature query |
| Soap.EscapeText | crates/symfritz-tr064/src/soap.rs:186-199 | the loop escapes every character |
| Soap.BuildRequest | crates/symfritz-tr064/src/soap.rs:22-48 | the loop writes the request document |
| Soap.ParseResponse | crates/symfritz-tr064/src/soap.rs:51-104 | the event loop computes the arguments of the document or its error |
| SoapRoundTrip.EscapeLeavesNoMarkup | crates/symfritz-tr064/src/soap.rs:186-199 | escaped text has no markup character or quote, and every ampersand begins one of five references (XML 1.0 sections 2.4 and 4.6) |
| SoapRoundTrip.ArgumentWire | crates/symfritz-tr064/src/soap.rs:36-44 | an argument is its key as a tag, the escaped value and the end tag |
| SoapRoundTrip.ValueReads | crates/symfritz-tr064/src/soap.rs:74-89 | reading any escaped value adds exactly the value to the current argument, and nothing if it is empty |
| SoapRoundTrip.ResponseOfRequest | crates/symfritz-tr064/src/soap.rs:22-104 | for all values and all keys, prefixed or not: the values gathered under their local names up to the first key that bears the response name |
| SoapRoundTrip.ArgumentsComeBack | crates/symfritz-tr064/src/soap.rs:22-104 | distinct colon-free keys other than the response name come back with their values, minus the empty ones |
| SoapRoundTrip.ResponseNameEndsReading | crates/symfritz-tr064/src/soap.rs:63-95 | a key that bears the response name loses its argument and all after it |
| SoapEncodings.ReadExactlyNested | crates/symfritz-tr064/src/soap.rs:51-104 | a response is read exactly if its tags nest properly, as far as no reference in it stands for nothing |
| SoapEncodings.ResponseReads | crates/symfritz-tr064/src/soap.rs:51-104 | a response whose values are written in any mixture of plain characters, references, CDATA sections, comments and instructions gives the same arguments as one written plainly |
| SoapEncodings.PiecesRead | crates/symfritz-tr064/src/soap.rs:74-89 | such content adds exactly the text that it stands for |
| SoapEncodings.ResolvesExactly | crates/symfritz-tr064/src/soap.rs:168-184 | a reference stands for a character exactly if it is one of the five predefined names or the character's number, not zero, in decimal or hexadecimal digits (XML 1.0 sections 4.1 and 4.6) |
| SoapEncodings.LooseTagsRead | crates/symfritz-tr064/src/soap.rs:61-95 | white space before the end of a tag does not matter |
| YamlText.PlainIsReadAsText | crates/symfritz-cli/src/output.rs:83-124 | a string printed plain is read as that string, never as null, boolean or number, exactly if it begins and ends with no white space of Python's `strip` |
| YamlSyntax.PlainExactly | crates/symfritz-cli/src/output.rs:94-124 | a string is printed plain exactly if it is not empty, has no control character, colon or hash, begins with no indicator, is no reserved word and, trimmed, no number |
| YamlSyntax.NumberExactly | crates/symfritz-cli/src/output.rs:109-124 | the number scanner accepts exactly a sign or none and a floating point number, a special value in any letter case, or a hexadecimal number below 2^64 |
| YamlSyntax.PlainIsYamlExactly | crates/symfritz-cli/src/output.rs:83-124 | a string printed plain is that string for YAML (1.2.2 sections 7.3.3 and 10.3.2) except where it begins or ends with a blank or spells infinity, not-a-number, an octal number, or a hexadecimal number of more than 64 bits |
| YamlSyntax.SomePlainStringsAreNumbers | crates/symfritz-cli/src/output.rs:94-124 | .inf and 0o7 are printed plain, and YAML takes them for numbers |
| YamlSyntax.JsonExactly | scripts/cli-differential.py:1607-1609 | the JSON numbers of the model are those of RFC 8259 section 6 |
| YamlStrings.StringsRereadExactly | scripts/cli-differential.py:1597-1615 | the reader gets a printed string back exactly if, printed plain, it has no outer white space and no escaped line end in four characters, and, printed with quotes, no line end that prints as these |
| YamlStrings.QuotedRereads | scripts/cli-differential.py:1597-1615 | what the reader makes of any string printed with quotes, escapes included: all of it but the carriage returns of such line ends |
| YamlStrings.SomeStringsChange | scripts/cli-differential.py:1597-1615 | three strings of which the reader gets something else |
| YamlStrings.StripAround | scripts/cli-differential.py:1598 | the reader takes off white space at both ends, control characters 28 to 31 included, and nothing else |
| YamlStrings.SingleQuotedReads | scripts/cli-differential.py:1603-1604 | a scalar in single quotes, each quote in it doubled, is read as the text it quotes |
| Yaml.RenderYaml | crates/symfritz-cli/src/output.rs:36-76 | rendering appends the text of the value's rows |
| Yaml.ReadBlock | scripts/cli-differential.py:1619-1676 | the nested loops over row indices compute the block of the rows |
| Yaml.ReadItem | scripts/cli-differential.py:1626-1654 | the same for one list item |
| Yaml.ReadField | scripts/cli-differential.py:1655-1675 | the same for the value of one mapping field |
| Yaml.ParseMinimalYaml | scripts/cli-differential.py:1613-1680 | the reader computes the value of the text or its error, for rows without non-empty JSON collections |
| YamlRoundTrip.ScalarReads | scripts/cli-differential.py:1597-1610 | every printed scalar of the domain is read back as itself |
| YamlRoundTrip.RowsComeBack | scripts/cli-differential.py:1614-1615 | splitting the rendered text into lines gives back the rendered rows |
| YamlRoundTrip.RenderedTreeReadsBack | crates/symfritz-cli/src/output.rs:36-76 | parsing what is rendered gives the same tree, for every tree of the domain |

## Left out

- MCP server: threads are step interleavings; polling without effect is not a step, and
  handler panics, lock poisoning, `reset` of the cancellation token and the lock around the
  capabilities are not modelled. An inner write error abandons the frame (`writeFailed`)
  and is excluded from the statements about output.
- MCP text: JSON encoding and decoding are parameters.
- DNS: sockets, random ids and the assembly of the diagnostic report with its router calls;
  addresses are numbers and details are not texts.
- HTTP: TLS handshakes, certificates and pins are phases that succeed or fail; writing the
  request text and validating its headers are not modelled.
- HttpLoops.ReadResponse: on a connection interrupted after its first data the response is
  that of the octets handed out, which may repeat some; which ones is said by `HttpReader`.
- HTTP deadlines: the clock appears as the number of readings that still come before the
  deadline, so a read that blocks is a late reading.
- HTTP URLs: parsing and redaction belong to the URL library; a URL is given by its parts.
- Firmware: the contents of the description documents are parameters; report texts and the
  fields of the status that no decision uses are omitted; time passes only in exchanges and
  sleeps. The checks of `FirmwareTransport` on response bodies are part of the scripted replies.
- Digest and session: hashes, key derivation, client nonces and the parsing of response
  bodies are parameters; the parts of a request other than its authorization or session,
  among them extra query parameters, are not modelled; discovery has no Digest state.
- DigestClient.Client.Exchange: stands for both the SOAP call and the authenticated GET,
  which take the same steps; the error for an unparsable GET URL is omitted.
- SOAP: the tokenizer covers what writer and reader use; document type declarations end at
  the first `>` outside quotes, and the fault parser is not modelled.
- SoapRoundTrip.ResponseOfRequest: keys and the action are lexical XML names and the service
  type has no double quote, since the writer copies them unescaped.
- Yaml.ParseMinimalYaml: numbers are kept as their JSON literals, and non-empty JSON
  collections on one row and escapes of surrogates are not read.
- YamlRoundTrip.RenderedTreeReadsBack: the domain excludes what the reader does not take
  back: empty mappings, empty lists other than field values, colons in list strings, strings
  that `YamlStrings.StringsRereadExactly` excludes, and in strings the three line breaks
  that JSON does not escape (U+0085, U+2028, U+2029).
- The command line, text output, configuration, secrets, discovery, home automation fields
  and the remaining scripts are not modelled.
