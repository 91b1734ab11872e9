# SIK HTTP server: request-head parsing, request record, dispatch and redirect table

This project models the core of a small HTTP/1.1 file server written in C.
The server serves files below a root directory. A request for a path it
cannot resolve is looked up in a table of "correlated servers"; a match gets
a 302 redirect. Each connection is served by one loop: parse a request head,
answer it, clear the request record, and repeat until the connection is closed.

The model has seven modules, one or more per source file.

- `Bytes`: bytes as C `char` values 0..255.
  - C-locale character classes and `tolower`.
  - `CStr`, which reads a byte array the way `strlen` and `strcmp` read it.
- `RequestData` (`request_data.c`): the request record as a class `Request`.
  - One heap array holds the root path, then the target as it is appended.
  - The fields hold the method, the error and the connection status.
  - Its invariant: the root prefix is intact, every byte after the target is NUL, and an error implies a closed connection.
- `RequestLineGrammar` (`ioprotocol.c`, `parse_request_line`): `ScanRequestLine` describes over the whole stream of unread bytes where the byte-at-a-time parser accepts, rejects or runs out of input.
- `HeaderGrammar` (`ioprotocol.c`, `parse_headers`, `parse_further`): two functions describe the header block.
  - `HeaderLine` is one line of the block, and `ScanHeaders` folds it over the block.
  - Names are recognised case-insensitively (`Connection`, `Content-Length`).
  - The close request comes from `Connection: close`.
- `IoProtocol` (`ioprotocol.c`): the parser object `Parser`.
  - It owns the 4096-byte `server_buffer` and the `header_usage` flags.
  - The peer's side is the sequence of chunks that successive `read`s return; none left means the peer closed.
  - Each parser is a method whose result is tied to the grammar function over the unread bytes.
  - "Unread bytes" means the buffered count followed by everything the peer will still send.
  - Also here: the helpers `cmp_insensitive`, `update_header_status`, `rearrange_buffer`, `digits` and `append_double_crlf`, and the Content-Length text of `handle_file`.
- `FileSearch` (`filesearch.c`, `set_address`): the redirect table.
  - Each line is split into resource, host and port spans.
  - The first line whose resource equals the path wins.
  - The address is built as `http://` host `:` port resource, in a zeroed buffer of the size the source allocates.
- `Server` (`server.c`):
  - `is_prefix_of`, the root-containment check.
  - `process_request`, as the decision table `Dispatch` over the parsed head and the environment's results (`Outcomes`).
  - `check_corelated`.
  - The `serve_client` loop, whose replies are `Conversation` over all bytes the peer sends.

`realpath`, how `handle_file` ends, memory exhaustion and failed writes are
not computed. They are parameters: the `Outcomes` of each request.
Responses are the `Reply` kinds, not the canned strings.

## Model

| member | source | states |
|---|---|---|
| RequestData.Request.constructor | request_data.c:25-60 | The array has root length + 8220 bytes: the root is copied in front and every byte after it is NUL. The target is empty, the method is -1, the connection is open and there is no error. |
| RequestData.Request.AppendChar | request_data.c:64-67 | The target grows by exactly `c`. The array changes only at index rootLen + pathLen, so the root and earlier target bytes are kept. |
| RequestData.Request.Clear | request_data.c:71-82 | Every byte from the root's end to the array's end is NUL, and the target is empty. Error and method are reset; the root and the connection status are kept. |
| RequestData.Request.PathCharAt | request_data.c:129-135 | NUL at or past the target's length, otherwise the target byte at `pos`. |
| RequestData.Request.CheckRequestPathCharacters | request_data.c:140-165 | True iff every target byte is alphanumeric, `.`, `/` or `-`; true for an empty target. |
| RequestData.IsPathChar | request_data.c:140-150 | A path byte is never NUL or a space. |
| RequestData.PathCharactersListed | request_data.c:140-150 | The path bytes are exactly the 52 ASCII letters, the 10 digits, `.`, `/` and `-`. |
| RequestData.Request.SetMethodType | request_data.c:117-119 | The method becomes `value`; the invariant is kept. |
| RequestData.Request.SetErrorStatus | request_data.c:169-172 | The error becomes `status` and the connection is closed, so error ⇒ closed is kept. |
| RequestData.Request.MarkConnectionClosed | request_data.c:182-184 | Only the connection status changes, to closed. |
| RequestData.Request.PathString | request_data.c:98-100 | The joined path given to `realpath`, read as a C string: the root followed by the target up to its first NUL. |
| RequestData.Request.OriginalPathString | request_data.c:104-106 | The target read as a C string; it is the target itself when the target holds no NUL. |
| RequestData.Request.RootHasNoNulInC | request_data.c:98-100 | The whole array read as a C string is the root followed by the target's C string. |
| RequestData.Request.TargetInC | request_data.c:104-106 | The array from the root's end on, read as a C string, is the target's C string. |
| RequestLineGrammar.ScanRequestLine | ioprotocol.c:159-302 | An accepted line has a target of 1..8192 bytes that starts with `/` and used no more bytes than there are. Any other outcome records at most 8193 target bytes. |
| RequestLineGrammar.MethodOfIsExact | ioprotocol.c:186-207 | With only the first 9 bytes kept, a token is GET iff it is exactly `GET` and HEAD iff it is exactly `HEAD`. Every other token is Unknown. |
| RequestLineGrammar.ScanAcceptsLine | ioprotocol.c:171-302 | An alphabetic token, a space, a target of at most 8192 bytes that starts with `/` and has no space, a space, `HTTP/1.1` and CRLF form a line that is accepted. Its method is the token's, its target is that target, and exactly the line's bytes are consumed, whatever follows. |
| RequestLineGrammar.ScanOkIsWellFormed | ioprotocol.c:171-302 | The converse: an accepted line is such a well-formed line, with its method and its consumed bytes. |
| RequestLineGrammar.VersionMismatchIsBad | ioprotocol.c:263-290 | A byte that differs from `HTTP/1.1` CRLF at any position after a well-formed token and target rejects the line. |
| RequestLineGrammar.LongTargetIsBad | ioprotocol.c:220-233 | A target of more than 8192 bytes is rejected, with exactly 8193 bytes appended. |
| RequestLineGrammar.TargetWithoutSlashIsBad | ioprotocol.c:238-246 | An empty target, or one that does not start with `/`, is rejected when its space arrives. |
| RequestLineGrammar.MethodRunsOut | ioprotocol.c:160-166 | A stream of letters only is cut short, with no method classified. |
| RequestLineGrammar.MethodEndsBadly | ioprotocol.c:171-184 | A non-letter that is not the space after at least one letter rejects the line. |
| RequestLineGrammar.TargetRunsOut | ioprotocol.c:160-166 | The stream ending inside a target of at most 8192 bytes cuts the line short, with the bytes appended so far. |
| RequestLineGrammar.TargetEnds | ioprotocol.c:238-249 | A target's closing space decides: rejection for an empty target or one without `/`, otherwise the version follows. |
| RequestLineGrammar.VersionStops | ioprotocol.c:263-290 | A mismatch `p` bytes into the version literal rejects the line; the end of the stream there cuts it short. |
| RequestLineGrammar.LeadingSpaceIsBad | ioprotocol.c:172-175 | Corrected behaviour: a space before any method letter rejects the line. |
| RequestLineGrammar.RunMethodPhaseAsWritten | ioprotocol.c:159-197 | As written, the method loop only advances: the position never moves back or past the stream, every byte it passes is a letter, an error once set stays, an early return always comes with an error, and the closing space is seen only after a letter. |
| RequestLineGrammar.LeadingSpaceSpinsAsWritten | ioprotocol.c:159-197 | As written: after a leading space the method phase never advances or returns, for any number of iterations. |
| RequestLineGrammar.LeadingSpaceStaysPut | ioprotocol.c:171-179 | As written: the state after the first pass over a leading space is a fixed point of the loop. |
| HeaderGrammar.CiEqualIsLowerEqual | ioprotocol.c:315-330 | Two names compare equal iff they are equal after `tolower` of every byte. |
| HeaderGrammar.IsNameChar | ioprotocol.c:356-359 | A name byte is never the colon, a space, CR or LF. |
| HeaderGrammar.NameCharactersListed | ioprotocol.c:356-359 | The name bytes are exactly the 52 ASCII letters, `-` and `_`. |
| HeaderGrammar.RecognizeIsExact | ioprotocol.c:337-352 | A first `Connection` or `Content-Length` gets its index and sets its flag. A repeated one fails and leaves the flags unchanged. Any other name changes nothing. |
| HeaderGrammar.HeaderLine | ioprotocol.c:414-577 | An accepted header line ends after where it started and within the stream. |
| HeaderGrammar.ScanHeaders | ioprotocol.c:402-578 | A completed block ends between where it started and the end of the stream. |
| HeaderGrammar.ScanFurtherIsExact | ioprotocol.c:586-643 | The head ends iff CRLF follows; a proper prefix of CRLF is a stream cut short. Anything else is a BadRequest. |
| HeaderGrammar.NameRunsOut | ioprotocol.c:403-409 | The stream ending inside a name cuts the block short. |
| HeaderGrammar.BlockEnds | ioprotocol.c:437-445 | A CR or LF where a name would start ends the block at that byte. |
| HeaderGrammar.NameEndsBadly | ioprotocol.c:437-459 | A CR or LF after a partial name, a non-name byte, or a colon with no name before it is a BadRequest. |
| HeaderGrammar.NameEnds | ioprotocol.c:455-483 | A name ended by its colon is rejected, with the flags recognition left, when it repeats a recognised name or is `Content-Length`. Otherwise the value part follows. |
| HeaderGrammar.NameAccepted | ioprotocol.c:455-483 | An accepted name continues the line after its colon, with the recognised index and flags. |
| HeaderGrammar.NameRejectedStops | ioprotocol.c:465-480 | A rejected name stops the block with a BadRequest. |
| HeaderGrammar.ValueRunsOut | ioprotocol.c:498-536 | The stream ending inside the spaces or the value cuts the block short. |
| HeaderGrammar.ValueEnds | ioprotocol.c:498-559 | After spaces, a value ended by a space or CR and more spaces, the line end follows. The close request is updated from the first 20 value bytes. |
| HeaderGrammar.HeaderLineKeeps | ioprotocol.c:465-532 | A line never clears a flag, sets the `Content-Length` flag only when it stops with a BadRequest, and never withdraws a close request. It adds one only as a recognised `Connection`. |
| HeaderGrammar.HeaderLineCloses | ioprotocol.c:414-577 | After one line the close request is set iff it was set before or that line asks for it as above. |
| HeaderGrammar.ValuePartCloses | ioprotocol.c:498-536 | After a colon the close request is set iff it was before, or the value is complete and the name was recognised as `Connection` with a value reading `close`. |
| HeaderGrammar.HeadersCloseOnlyByConnection | ioprotocol.c:402-578 | The block ends with a close request iff one was made before it, or some line of the block up to the one that stops it asks for one. A line asks when its name, ended by a colon and not rejected, is recognised as `Connection` and its complete value, cut to 20 bytes and read as a C string, is `close`. |
| HeaderGrammar.HeadersUsageGrows | ioprotocol.c:340-349 | Over the whole block flags are only set, and a newly set `Content-Length` flag means the block was a BadRequest. |
| HeaderGrammar.HeaderLineAccepted | ioprotocol.c:435-577 | A well-formed line with an accepted name continues after its CRLF. The line is a name of letters, `-` and `_`; a colon; spaces; a value without spaces or CR, which may be empty; spaces; CRLF. The flags are as recognised, and the close request follows the value's first 20 bytes. |
| HeaderGrammar.HeaderLineIsWellFormed | ioprotocol.c:435-577 | The converse: every line the block goes on after is such a well-formed line with an accepted name, up to an exact CRLF. Its flags and close request are those its name and value give. |
| HeaderGrammar.ConnectionCloseHonoured | ioprotocol.c:513-520 | `Connection: close`, in any letter case of the name, with no `Connection` or `Content-Length` before it, sets the close request and the `Connection` flag. The block then goes on after the line. |
| HeaderGrammar.DuplicateConnectionIsBad | ioprotocol.c:341-344 | A second `Connection` header is a BadRequest. |
| HeaderGrammar.ContentLengthIsBad | ioprotocol.c:472-479 | Any `Content-Length` header is a BadRequest. |
| HeaderGrammar.LongNameIgnored | ioprotocol.c:465-480 | A name of 20 or more bytes is passed over unrecognised, and the value part follows. |
| IoProtocol.Parser.constructor | ioprotocol.c:50-112 | The peer will send `input`, and no header flag is set. |
| IoProtocol.Parser.Read | ioprotocol.c:160-169 | A read returns at most 4096 bytes, and 0 iff the peer has nothing left to send. The bytes read, followed by what the peer will still send, are what it had left to send before. |
| IoProtocol.Parser.RearrangeBuffer | ioprotocol.c:699-703 | Positions 0..count hold the old bytes from `pos` on; positions from `count` on are unchanged. The unread bytes are the same. |
| IoProtocol.Parser.Refill | ioprotocol.c:160-169 | After a refill, either the stream is exhausted and the peer closed, or the byte at the cursor is the next unread byte. |
| IoProtocol.Parser.ParseRequestLine | ioprotocol.c:129-307 | On a closed connection nothing changes. Otherwise the record holds what `ScanRequestLine` reports for the unread bytes, and the count after an accepted line is that of the bytes after it. A cut line closes the connection; a rejected one also records BadRequest. |
| IoProtocol.Parser.ParseTargetAndVersion | ioprotocol.c:220-307 | From the target on, the same result as `ParseRequestLine`. |
| IoProtocol.Parser.ParseVersionAndRest | ioprotocol.c:251-307 | From the second space on, the same result as `ParseRequestLine`. |
| IoProtocol.Parser.ParseMethodToken | ioprotocol.c:171-219 | The method phase ends at the first space after at least one letter, with the method's code. Otherwise it ends where `ScanRequestLine` stops: the peer closing after letters only, or a bad byte. |
| IoProtocol.Parser.MethodByte | ioprotocol.c:171-196 | One byte of the method phase. A letter is kept while fewer than 9 are kept. A space after a letter classifies the token. |
| IoProtocol.Parser.ParseTarget | ioprotocol.c:220-250 | The appended target is the bytes up to the next space. It ends early when the peer closes, when 8193 bytes were appended, or when it is empty or lacks `/`. |
| IoProtocol.Parser.TargetByte | ioprotocol.c:220-250 | One byte of the target phase: append, check the length, or decide at the space. |
| IoProtocol.Parser.ParseVersion | ioprotocol.c:251-302 | The second space, then `HTTP/1.1` and CRLF byte by byte. Otherwise it stops at the first differing byte or where the peer closes. |
| IoProtocol.Parser.CmpInsensitive | ioprotocol.c:315-330 | 0 iff the lengths are equal and the bytes agree under `tolower`, otherwise -1. |
| IoProtocol.Parser.UpdateHeaderStatus | ioprotocol.c:337-352 | The flags and the index become what recognition gives. The status is -1 exactly for a repeated recognised name. |
| IoProtocol.Parser.ReadRun | ioprotocol.c:435-536 | Consumes bytes up to the end of a name, space or value run, keeping the first `limit` bytes. The cursor then stands at the byte that ended the run, or at the end of the stream. |
| IoProtocol.Parser.ParseHeaderLine | ioprotocol.c:414-577 | One header line ends as `HeaderLine` says: accepted, with the next line unread, or stopping the block with the flags and close request of the grammar. |
| IoProtocol.Parser.ParseNamedLine | ioprotocol.c:455-577 | After a name and its colon, the rest of the line ends as `HeaderLine` says. |
| IoProtocol.Parser.ParseHeaderName | ioprotocol.c:435-483 | The name is read up to its colon, keeping 20 bytes. Otherwise the line stops as `HeaderLine` says. |
| IoProtocol.Parser.NameStop | ioprotocol.c:437-459 | The byte that ended a name without a colon: the block ends only at a CR or LF with no name before it; every other case is a BadRequest. |
| IoProtocol.Parser.RecognizeHeaderName | ioprotocol.c:465-480 | The name is rejected exactly as `NameRejected` says, and the flags become those of recognition. |
| IoProtocol.Parser.ParseHeaderValue | ioprotocol.c:498-559 | After the colon, the line ends as `ValuePart` says. |
| IoProtocol.Parser.ParseLineEnd | ioprotocol.c:561-577 | The CR and LF that end a header line, as `LineEnd` says. |
| IoProtocol.Parser.ParseHeaders | ioprotocol.c:365-582 | On a closed connection nothing changes. Otherwise the flags, the close request and the record match `ScanHeaders` from cleared flags. A completed block leaves the bytes from its ending CR or LF unread. |
| IoProtocol.Parser.ParseFurther | ioprotocol.c:586-643 | On a closed connection nothing changes. Otherwise the record matches `ScanFurther`, and after the CRLF the remaining bytes are unread. |
| IoProtocol.Parser.MatchBlankCrlf | ioprotocol.c:602-639 | The loop of `parse_further` ends as `ScanFurther` says. |
| IoProtocol.Halt | ioprotocol.c:160-290 | An early exit closes the connection and records BadRequest exactly for a bad byte; target and method stay. |
| IoProtocol.MethodNameIs | ioprotocol.c:188-207 | Comparing the kept 9 bytes with `GET` and `HEAD` gives the method code of the whole token. |
| IoProtocol.LineRunsOutInTarget | ioprotocol.c:160-166 | The peer closing inside a target of at most 8192 bytes cuts the line short. |
| IoProtocol.LineTargetTooLong | ioprotocol.c:229-233 | 8193 target bytes without a space reject the line. |
| IoProtocol.LineTargetRejected | ioprotocol.c:242-246 | An empty target, or one without `/`, rejects the line at its space. |
| IoProtocol.LineVersionStopped | ioprotocol.c:251-290 | A stop in the version phase rejects the line, or cuts it short when the peer closed. |
| IoProtocol.LineAccepted | ioprotocol.c:263-302 | `HTTP/1.1` CRLF after a complete target accepts the line, consuming through the LF. |
| IoProtocol.FurtherStops | ioprotocol.c:615-620 | A stop `p` bytes into CRLF is a BadRequest, or a cut when the stream ends there. |
| IoProtocol.DecimalRoundTrip | ioprotocol.c:776 | The decimal digits written for a size read back as that size, with no leading zero. |
| IoProtocol.Decimal | ioprotocol.c:776 | The text `sprintf("%lu")` writes is non-empty and made of decimal digits only. |
| IoProtocol.DecimalLength | ioprotocol.c:711-723 | The number of decimal digits of `n` is the least `d` with n < 10^d (1 for 0). |
| IoProtocol.Digits | ioprotocol.c:711-723 | `digits(val)` is the length of the decimal text of `val`. |
| IoProtocol.AppendDoubleCrlf | ioprotocol.c:731-736 | CR LF CR LF is written at `offset`; every other byte is unchanged. |
| IoProtocol.ContentLengthText | ioprotocol.c:767-777 | A buffer of digits + 10 bytes that, read as a C string, is the size in decimal followed by CR LF CR LF. |
| FileSearch.Body | filesearch.c:42-45 | A table line without its trailing newline, which the byte loop skips. |
| FileSearch.LayoutOf | filesearch.c:42-76 | The spans of a line are ordered and lie within it. A port, once begun, is non-empty. |
| FileSearch.ScanByte | filesearch.c:42-76 | One byte of the loop only sets flags and never clears one. The port blank comes only after a host. A field starts at the first non-blank that reaches it and its start never moves. A blank or newline changes no span end, and any other byte becomes the end of exactly the field the flags point at. |
| FileSearch.EntryOf | filesearch.c:42-76 | A line that has an entry has a non-empty resource and host without blanks, and a non-empty port that starts and ends with a non-blank byte. |
| FileSearch.FirstListed | filesearch.c:36-134 | The first line, from `k` on, whose resource equals the path; no earlier line matches. |
| FileSearch.Lookup | filesearch.c:36-134 | A found entry has the path as its resource and non-empty host and port. |
| FileSearch.LookupAt | filesearch.c:33-134 | The scan from the first line finds a line iff `Lookup` finds an entry, and it finds that entry. |
| FileSearch.AddressFits | filesearch.c:78-99 | The allocated size is at least the address, plus the CRLF CRLF the caller appends, plus a NUL. |
| FileSearch.LineReadsBack | filesearch.c:42-76 | A line made of resource, blanks, host, blanks, port (which may hold blanks inside), trailing blanks and an optional newline has exactly that entry. |
| FileSearch.LineLayout | filesearch.c:42-76 | The converse: every line that has an entry is made up that way. |
| FileSearch.ScannedAll | filesearch.c:42-76 | After the whole line, the three flags are all set iff the line has an entry, and the spans then locate its fields. |
| FileSearch.ScanLine | filesearch.c:42-76 | The byte loop over one line: the flags are all set iff the line has an entry, and the spans locate its fields. |
| FileSearch.ResourceIs | filesearch.c:81-87 | The resource comparison: true iff all three fields were seen and the line's bytes up to the resource span's end are exactly the path. |
| FileSearch.CopySpan | filesearch.c:103-131 | The bytes are copied at `pos`; the bytes before are kept and those after stay NUL. |
| FileSearch.BuildAddress | filesearch.c:89-131 | The fresh buffer of the allocated size holds `http://` host `:` port resource, then NULs. |
| FileSearch.FindLine | filesearch.c:36-135 | The line loop stops at the first matching line, or after the last. |
| FileSearch.MatchLine | filesearch.c:42-89 | One line matches iff its entry's resource is the path, and the spans then locate the entry. |
| FileSearch.SetAddress | filesearch.c:13-148 | No match leaves the buffer NULL, with -1 exactly when a `getline` ran out of memory. A match whose allocation fails gives -1. Any other match gives 0 and the address buffer of the first matching entry. |
| FileSearch.ListedIff | filesearch.c:81-87 | Matching by the spans agrees with matching by the entry. |
| FileSearch.StaleSpansAsWritten | filesearch.c:19-131 | As written, the line `/a` + LF with no host or port matches the path `/a`. The address built from the spans' initial values is `http:///://a`, though the line has no entry. |
| FileSearch.LineAsWritten | filesearch.c:36-76 | As written, the loop over a line takes the same step per byte as the corrected loop, but starts from the spans earlier lines left. A host or port never seen keeps those spans, and the resource end is kept or lies within the line. |
| FileSearch.LineAsWrittenReads | filesearch.c:36-76 | Started from a state with the same flags and the same spans for every field seen, the as-written loop ends in the same state as the corrected loop, up to the spans of fields never seen. |
| FileSearch.AsWrittenAgreesOnEntries | filesearch.c:19-131 | On a line that holds an entry, the carried spans do not matter: whatever they were, the as-written spans locate the entry's fields. The as-written comparison matches exactly when the line is listed for the path, and the address built is the entry's address. Stale spans therefore change the outcome only for lines without an entry. |
| Server.ScanHead | server.c:84-86 | A parsed head has a method and used at least one byte, no more than there are. |
| Server.Dispatch | server.c:89-213 | A decision that does not carry the unread bytes over closes the connection. One that carries them is for a parsed head and closes exactly when close was requested. There is no reply exactly for a head cut short and a 400 exactly for a rejected one. A 400, a 500 or a reply with `Connection: close` closes the connection. |
| Server.ResourceDecision | server.c:113-207 | The same for the part of the table after the path characters were checked. There is always a reply and never a 400; the error is recorded as internal exactly for a 500, and a 404 or 200 carries the close request it was given. |
| Server.IsPrefixOf | server.c:60-71 | True iff the first string is no longer than the second and the second begins with it; no `/` has to follow. |
| Server.CheckCorelated | ioprotocol.c:829-882 | -2 iff the table has no entry and no `getline` ran out of memory. 0 iff there is an entry, its buffer was allocated and the writes succeeded; the location is then its address and CRLF CRLF is appended. -1 otherwise. |
| Server.AddressBufferShape | filesearch.c:99-131 | The address buffer, read as a C string, is the address, with room for four more bytes before its end. |
| Server.AddressWithCrlf | ioprotocol.c:857 | After CRLF CRLF is appended at the address's end, the buffer read as a C string is the address followed by CRLF CRLF. |
| Server.PhasesMakeHead | server.c:84-86 | The three parsers, each run after the previous one, leave the record and the unread bytes as `ScanHead` describes. |
| Server.LineEndsHead | server.c:84-86 | A line that is not accepted decides the head; the later phases do nothing. |
| Server.HeadersEndHead | server.c:84-86 | A header block that is not completed decides the head; `parse_further` does nothing. |
| Server.FurtherEndsHead | server.c:84-86 | After a completed block, `parse_further` decides the head. |
| Server.ParseHead | server.c:80-86 | On a cleared record, the three parsers leave the record, the close request and the unread bytes as `ScanHead` describes. |
| Server.Respond | server.c:89-213 | The reply, the connection status, the error and the count handed back are those of `Dispatch`. BadRequest gives 400 and a cut head no reply, each without carrying the count over. |
| Server.AnswerParsed | server.c:106-213 | For a parsed head: 501 for an unknown method, 404 for a byte outside the path characters, otherwise the resource decision, all as `Dispatch` says. |
| Server.ServeResource | server.c:113-195 | The resolution, table and file outcomes give the reply and status of `ResourceDecision`. An early return closes the connection, and only 500 records InternalError. |
| Server.ProcessRequest | server.c:76-214 | Parses the head of the unread bytes and answers it as `Dispatch` says. The count handed back is that of the bytes after the head when the request was answered in full, and the given count otherwise. |
| Server.ServeClient | server.c:221-251 | The replies of a connection: 500 when the record cannot be allocated. Otherwise exactly `Conversation` over all the bytes the peer sends. |
| Server.ServeRound | server.c:234-238 | One pass of the loop: the reply is appended, the record is cleared, and either the connection is closed with all replies given, or the replies still due are those of the bytes left, which are fewer. |
| Server.ProcessCounted | server.c:236 | `process_request` in the loop: the same as `ServeRound`, before the record is cleared. |
| Server.ServedKeeps | server.c:234-238 | What `process_request` leaves keeps the conversation's remaining replies in step. |
| Server.ServedStep | server.c:234-238 | One decision either ends the conversation or leaves the replies of the bytes after the head, which are fewer. |
| Server.ConversationShape | server.c:234-238 | The replies of a connection hold no empty reply. A 400, a 500 or a reply sent with `Connection: close` is always the last one. There are none exactly when the first head is cut short. |

## Left out

- Socket I/O: `read` is the chunk sequence and `write` is the `Reply` or an oracle flag. A `read` returning -1, which the source does not handle, is not modelled.
- The canned response texts (ioprotocol.c:70-106) and the `send_*` functions (ioprotocol.c:647-697): the model names the response kind, not its bytes.
- `handle_file` (ioprotocol.c:740-825): `stat`, `fopen`, the `fread` loop and the writes are not modelled. Its result is an oracle; only the Content-Length text (`ContentLengthText`) is modelled.
- `realpath` (server.c:118): its result, including the ENOMEM case, is an oracle.
- `main`, socket setup, `accept`, `sigaction` and the `printf`/`perror` logging (server.c:38-53, 259-386) are not part of this model.
- `free`, `delete_request_data` and `close` of the client socket: memory and descriptors are not modelled. So `serve_client` calling `delete_request_data` on a record it failed to allocate is not modelled either.
- The plain accessors `get_path_length`, `get_array_size`, `get_method_type`, `get_error_status` and `is_connection_closed`: the model reads the fields directly (`IsConnectionClosed` is a predicate).
- Server.CheckCorelated: one `writeFails` flag stands for both writes (the 302 header and the address). Either failing gives -1, as in the source.
- Server.ResourceDecision: when `handle_file` fails after the 200 header went out, the model records only the resulting 500. It does not record the partial 200 sent before it.
- RequestData.Request.AppendChar: requires that the target still fits the array. The source writes past the allocation otherwise; the request-line parser never appends more than 8193 bytes.
- Integer widths: `size_t`/`ssize_t` are unbounded integers. No value in the modelled code comes near their range.
- `isalpha`, `isalnum` and `tolower` on a plain `char` (ioprotocol.c:181, 323, 358; request_data.c:141): where `char` is signed, a byte of 128 or more is a negative value, for which these calls are undefined behaviour in C. The model reads every byte as unsigned and, as the C locale does, treats bytes of 128 or more as non-letters that `tolower` leaves unchanged.
- IoProtocol.Parser.ParseMethodToken: follows the corrected leading-space behaviour (rejection with 400), not the endless loop of the source. The as-written behaviour is modelled separately by `RunMethodPhaseAsWritten` (see Findings).
- IoProtocol.Parser.MethodByte: follows the corrected leading-space behaviour; a space before any letter ends the method phase with BadRequest instead of repeating.
- The `request_data.h` comment (lines 98-102) lists the path characters without `-`; the model follows the code, which accepts `-`.

## Findings

| source | as written | input that shows it | evidently intended | confidence | as-written member | corrected member |
|---|---|---|---|---|---|---|
| ioprotocol.c:172-175 | A space before any method letter sets BadRequest but neither consumes the byte nor returns, so the loop repeats forever on it. | a request line starting with a space, e.g. ` GET / HTTP/1.1` CRLF | reject the request with 400 | high, not executed | RequestLineGrammar.LeadingSpaceSpinsAsWritten | RequestLineGrammar.LeadingSpaceIsBad |
| filesearch.c:19-24,37-40 | The span indices are set only when a field is seen and are never reset per line. A line with only a resource matches a path of its length, and the address is built from stale or initial spans. | the table line `/a` + LF and the path `/a` | a line matches only when it has its own resource, host and port | high, not executed | FileSearch.StaleSpansAsWritten | FileSearch.SetAddress |
