# Verified models of Fluent Bit's core decoders, tables and lifecycles

Fluent Bit's core turns byte streams that arrive in arbitrary pieces into fields, headers, bodies
and members, and keeps the shared structures its pipelines rest on. This project models ten of
these components in Dafny and proves what each is for.

| component | files | main result |
|---|---|---|
| streaming CSV parser | `CsvSpec`, `CsvReader`, `CsvRuns` | cutting the input anywhere changes no observable event; printed tables are read back |
| chunked decoding in place | `Chunked`, `InPlaceSpec`, `InPlaceClient`, `InPlaceErrors` | for every fragmentation and every consumption, consumed bytes and payload are the data of the chunks; which lines are refused |
| HTTP/1 client session and headers | `Http1Headers`, `Http1Loose`, `HeaderStore`, `Http1Spec`, `Http1Client`, `Http1Runs`, `Http1Framing`, `Http1Errors`, `Http1Surplus`, `DecodersAgree` | every split of a response framed by its literal words and numbers ends ready exactly at the last byte, with its data; every header name has the last value sent for it; headers print and parse back; both chunked decoders agree |
| hash table | `HashSpec`, `HashRuns`, `HashModel`, `HashChains`, `HashTable` | every run, with any eviction and any time to live, answers as a map of values, times and hits; eviction bounds every run |
| Base64 | `Base64Spec`, `Base64Alphabet`, `Base64Proofs`, `Base64` | the encoding is the base-64 digits in the printed alphabet; exactly what is accepted; round trip through any line breaks; the size computed first bounds what is written |
| chunk-trace contexts | `ChunkTrace`, `ChunkTraceEffects` | reference counts, no use after free, no early and no double free, in every run; what each step changes; exactly which runs use a missing context |
| downstream connections | `Downstream`, `DownstreamEffects` | one queue each, closed once, never freed while busy, no use after free, in every run; what is given up is closed at once and freed by the first sweep after its call has returned |
| decompression buffer, gzip header | `GzipSpec`, `GzipLayout`, `GzipRuns`, `GzipLimits`, `GzipMembers`, `Decompression` | the compacting buffer is a queue whose parts go to header, inflater and footer without loss; of a stream of members, however it is cut, the inflater gets the bodies and the footer step the footers; exactly which headers lead the resumable parser to the body where the one-shot one finds it |
| filter chain | `Filter` | record counts add up over the chain; the last reply, or the first that takes everything away, decides what is handed on; each superseded buffer is released once |
| environment templates | `EnvSpec`, `Env`, `EnvRuns` | a template becomes its literals and looked-up values; the last setting of a name counts, before the process environment |

`CString` holds the C library calls (`strstr`, `strtol` and relatives) on strings that end at a NUL; `Lists`
holds unlinking from lists, sums and strings cut into pieces; `Options` the optional value. `Notation` says how
words in any case and numerals are written, by their characters.

The components work by updating state, and so do the models: classes whose fields are those of the C
structures, arrays where the C code works in place, loops with invariants. A specification function
on values stands beside each class; the methods' contracts tie the new state to that function, and
the theorems are about the function and, through driver methods, about whole runs of the objects.
Pointers into buffers are offsets.

## What became a parameter

- The hash function, the clock and the random number of the hash table.
- The results of network reads, the owner's `bytes_consumed` and the pieces given to a session.
- The results of socket accepts and handshakes, and the clock of the connection sweeps.
- The inflater, which takes an arbitrary part of what is buffered, and the CRC function.
- The replies of the filters' callbacks.
- The process environment and the content of the files named by `file://` values.

## Where the code does not do what one would expect

The model follows the code. Each item names the member that states it; where a property one would
expect fails, that member says for all inputs when it holds.

- A last chunk of several zeros, which section 7.1 of RFC 9112 allows, is accepted by the in-place
  decoder if and only if there is one zero or there are three (`InPlaceSpec.LastChunkZeros`).
- A response head without any header line is never recognised (`Http1Runs.HeadNeedsHeader`).
- Printed headers come back if and only if no value is empty: the store takes length zero as "up to the
  NUL" (`Http1Headers.EmptyValues`).
- Response headers are kept in a table that folds case, so that of several headers of one name only the
  last value is kept, in the place of the first: of `Set-Cookie: a` and `Set-Cookie: b` only the
  second remains (`HeaderStore.TwoCookies`). The table is the list of headers that came if and only if
  no two names agree up to case (`HeaderStore.MergedIsStored`).
- The extent of a chunk is computed in 64 bits. If it does not fit, and what is left of it is not more
  than has come, bytes beyond the incoming data are copied, and only then, for every size line that
  `strtoull` reads (`Http1Runs.CopyInside`, with the size lines `-1` and sixteen `f` as instances in
  `Http1Runs.MinusOne` and `Http1Runs.HugeChunk`).
- A text that does not begin with `HTTP/1.1 ` or `HTTP/1.0 ` is ready with status 200 as soon as nine bytes
  have come, with no headers and an empty body (`Http1Errors.OldAnswer`).
- A status is cut to 32 bits before it is compared with 100 and 599 (`Http1Errors.StatusRange`), and of a
  declared length with more than twenty figures the first twenty are read (`Http1Loose.LongLength`).
- Bytes behind a body of a declared length become part of it if they come in the piece that completes it
  (`Http1Surplus.SurplusTaken`), and chunks behind the last chunk in the same piece are appended
  (`Http1Surplus.SecondBody`).
- The resumable gzip parser keeps lengths in 16 bits, takes an empty name for a missing one, does not skip
  the zero after a comment, and checks a header checksum against the fixed part with flags already
  cleared. For every header and every fragmentation it is in the body where the one-shot parser is if
  and only if there is no comment, the extra field has at most 65533 bytes, the name is not empty and
  shorter than 65535 bytes, and both ways of checking accept the checksum (`GzipLimits.ExactlyWhen`).
  With the checksum as the only optional field both ways are the same (`GzipRuns.CheckAlone`).
- A hash table whose case sensitivity is changed answers as a map over the newly folded keys if and only if
  every entry is in the chain of its newly folded key and no two keys fold to one
  (`HashTable.Table.SetCaseSensitivity`); `HashTable.LostByFolding` is a table that loses an entry.
- An input that found tracing on gives up the lock before it makes its trace, and making a trace does not
  test again. A run uses a missing context if and only if a trace is made while tracing is off
  (`ChunkTrace.EveryRun`); `ChunkTrace.DestroyedBetween` is the shortest such run.
- The size computed by the first Base64 pass is what the second pass writes if and only if the
  characters of an incomplete last group are all padding (`Base64Proofs.SizeAgrees`).
- A literal with a closing brace in front of a variable keeps a value from being translated at all
  (`EnvSpec.BraceInLiteral`); after a variable was replaced, a `${` that is not closed, is empty or
  is too long makes the text before the next closing brace disappear (`EnvSpec.TailLost`).
- Without a callback the CSV parser still buffers the text of a field that is cut, though its offset
  stays zero (`CsvReader.Reader.ParseField`).
- An addition to a full hash table evicts an entry even when it only replaces a value, so the table
  may shrink (`HashRuns.EvictingAdd`).

## Model

| member | source | states |
|---|---|---|
| `CsvSpec.TraceConcat` | src/flb_csv.c:217-307 | the events of an input cut anywhere are those of the first part followed by those of the second from the state reached |
| `CsvSpec.TraceEndRecord` | src/flb_csv.c:232-306 | a record ends at a line feed, or at any character after a carriage return, and only a line feed is consumed |
| `CsvReader.Reader.constructor` | src/flb_csv.c:205-215 | a new parser is in the initial state of the automaton, with nothing delivered |
| `CsvReader.Reader.ResetState` | src/flb_csv.c:41-51 | after a field the parser is between fields with an empty buffer, and keeps its field count |
| `CsvReader.Reader.InvokeFieldCallback` | src/flb_csv.c:53-88 | the callback gets the field with doubled quotes collapsed; the copy stays inside the field and the escape buffer because quotes come in adjacent pairs |
| `CsvReader.Collapse` | src/flb_csv.c:74-86 | the copy loop writes the field with each doubled quote once, inside the buffer |
| `CsvReader.Reader.ParseSimple` | src/flb_csv.c:90-108 | an unquoted field is scanned to its terminator or to the end of the data, without changing what the automaton observes in the rest |
| `CsvReader.Reader.ParseQuoted` | src/flb_csv.c:110-139 | a quoted field is scanned likewise, and the quotes inside it stay in adjacent pairs, with the flag raised at the first pair |
| `CsvReader.Reader.OpenField` | src/flb_csv.c:148-170 | a field is opened, or resumed on the buffered text followed by the new data, with the offset where the new data begins |
| `CsvReader.Reader.ScanField` | src/flb_csv.c:172-182 | the field ends exactly where the automaton ends it, or the data is used up |
| `CsvReader.Reader.ParseField` | src/flb_csv.c:141-203 | a field that ends is delivered once with the automaton's text; one that is cut is buffered, and with a callback the offset is the length of the buffer |
| `CsvReader.Reader.CountEmptyField` | src/flb_csv.c:296-303 | a separator or line end without a field just parsed delivers and counts an empty field |
| `CsvReader.Reader.AdvanceField` | src/flb_csv.c:273-293 | parsing one field advances by the bytes it took, possibly none for a resumed field, and preserves the events to come |
| `CsvReader.Reader.CountField` | src/flb_csv.c:287-293 | a complete field is counted and logged, and the state is reset |
| `CsvReader.Reader.AdvanceTerminator` | src/flb_csv.c:232-271 | commas and line ends between fields do what the automaton does, and the record ends with its field count |
| `CsvReader.Reader.ReadFields` | src/flb_csv.c:227-294 | the record loop terminates on bytes left and mid-field, and preserves the events to come |
| `CsvReader.Reader.ParseRecord` | src/flb_csv.c:217-307 | one call reports one record or the end of the data, with the count of its fields; events so far followed by what the automaton observes in the rest are unchanged |
| `CsvReader.FieldTextInBuffer` | src/flb_csv.c:53-88 | where the text of a finished field lies in the buffer, without its closing quote |
| `CsvRuns.ParsePieces` | src/flb_csv.c:217-307 | for every input and every way of cutting it, fields, record ends and counts are those of the automaton on the whole input |
| `CsvRuns.CutsAgree` | src/flb_csv.c:141-307 | two cuts of one input give the same events, and the same counts without a callback |
| `CsvRuns.FeedPiece` | src/flb_csv.c:217-307 | one piece fed record by record adds exactly the events the automaton observes in it |
| `CsvRuns.UnescapeDouble` | src/flb_csv.c:74-87 | collapsing doubled quotes undoes doubling, for every text |
| `CsvRuns.CellReadBack` | src/flb_csv.c:90-203 | a printed cell, quoted or plain, yields its text as one field |
| `CsvRuns.RowReadBack` | src/flb_csv.c:217-307 | a printed row yields its cells in order and then their number |
| `CsvRuns.TableReadBack` | src/flb_csv.c:217-307 | a printed table, with quoted or plain cells and CRLF or LF, yields exactly its cells and counts (section 2 of RFC 4180) |
| `CsvRuns.ReadPrintedTable` | src/flb_csv.c:217-307 | the parser object reads a printed table back however it is cut |
| `InPlaceSpec.LookAtChunk` | src/flb_http_client.c:293-368 | a complete chunk at the front is recognised with its size, whatever follows |
| `InPlaceSpec.LookAtPartialChunk` | src/flb_http_client.c:293-368 | every proper prefix of a chunk asks for more data |
| `InPlaceSpec.LookAtLastChunk` | src/flb_http_client.c:293-368 | the last chunk is recognised when its five bytes are there and not before |
| `InPlaceSpec.LastChunkZeros` | src/flb_http_client.c:293-368 | a last chunk of zeros is accepted if and only if there is one zero or there are three |
| `InPlaceErrors.EmptyOrLong` | src/flb_http_client.c:294-303 | an empty size line, or one of more than 31 characters, is refused |
| `InPlaceErrors.TooLarge` | src/flb_http_client.c:310-317 | a hexadecimal size that does not fit in a long integer is refused |
| `InPlaceErrors.Negative` | src/flb_http_client.c:318-320 | a negative size is refused, whatever its figures |
| `InPlaceErrors.MustEnd` | src/flb_http_client.c:329-338 | data of the announced size, in figures of either case, is taken if and only if a line end follows it |
| `InPlaceErrors.ErrorAfter` | src/flb_http_client.c:282-407 | after any number of whole chunks a line that is refused is an error, and the data of the chunks has been decoded |
| `InPlaceSpec.DecodePrefix` | src/flb_http_client.c:282-407 | decoding any prefix of an encoded stream yields whole chunks, keeps the rest of the stream and reports the end exactly when nothing is to come |
| `InPlaceSpec.ServeStream` | src/flb_http_client.c:1494-1563 | while the stream lasts, waiting ends with whole chunks and with the end exactly when all data is out |
| `InPlaceClient.Response.constructor` | src/flb_http_client.c:448-462 | when just the headers have come, the data begins at their end, and nothing is decoded and nothing is raw |
| `InPlaceClient.Response.ConsumeBytes` | src/flb_http_client.c:264-267 | the overlapping move keeps what is before and shifts the rest down |
| `InPlaceClient.Response.Drop` | src/flb_http_client.c:370-385 | bytes are cut out of the raw data, the bytes before stay, and a NUL ends the data |
| `InPlaceClient.Response.TakeChunk` | src/flb_http_client.c:370-388 | a complete chunk's data moves to the decoded side and its framing disappears |
| `InPlaceClient.Response.Examine` | src/flb_http_client.c:293-368 | the checks of the header line, the chunk end and the last chunk classify the raw bytes as the specification does |
| `InPlaceClient.Response.ProcessChunkedData` | src/flb_http_client.c:282-407 | one call moves all complete chunks to the decoded side; `chunk_processed_end` separates decoded from raw bytes |
| `InPlaceClient.Response.Receive` | src/flb_http_client.c:1527-1545 | a read is appended, ended by a NUL and decoded |
| `InPlaceClient.Response.Consume` | src/flb_http_client.c:1478-1492 | consuming takes exactly that many bytes off the front of the payload |
| `InPlaceClient.Response.GetResponseData` | src/flb_http_client.c:1457-1564 | consuming more than the payload is an error that changes nothing; otherwise reads go on until there are chunks or an end to report |
| `InPlaceClient.StreamStep` | src/flb_http_client.c:1494-1563 | each report takes the stream some chunks further |
| `InPlaceClient.ReceiveAll` | src/flb_http_client.c:282-1564 | for all chunks, all fragmentations and all legal consumptions, consumed bytes followed by the final payload are the data of the chunks |
| `Http1Headers.SkipSpaces` | src/flb_http_client_http1.c:608-647 | the index after the leading spaces |
| `Http1Headers.TrimSpaces` | src/flb_http_client_http1.c:608-647 | the length without the trailing spaces |
| `Http1Headers.ParseTerm` | src/flb_http_client_http1.c:608-647 | a term is found up to its delimiter, trimmed, or not at all |
| `Http1Headers.ParseHeaders` | src/flb_http_client_http1.c:649-723 | the loop hands each header to the store and keeps the declared length as the specification of the parser says; of a malformed block, those before the malformed line |
| `Http1Headers.ParsedNamed` | src/flb_http_client_http1.c:608-723 | no block makes the parser hand an empty name or value to the store |
| `Http1Headers.HeaderReadBack` | src/flb_http_client_http1.c:575-723 | one printed header is handed to the store as it was and the rest is parsed after it |
| `Http1Headers.ReadBack` | src/flb_http_client_http1.c:575-723 | printed headers and a blank line are handed to the store in order, with the declared length |
| `Http1Headers.DeclaredAsPrinted` | src/flb_http_client_http1.c:697-707 | a plain decimal length is declared with its value |
| `Http1Headers.EmptyValues` | src/flb_http_client_http1.c:649-723 | a list of printed headers comes back, with its declared length, if and only if no value in it is empty |
| `Http1Loose.LooseHeader` | src/flb_http_client_http1.c:575-647 | any number of spaces around name and value leave the parse of a header unchanged |
| `Http1Loose.LongLength` | src/flb_http_client_http1.c:697-707 | of a declared length with more than twenty figures the first twenty are read, at most the largest 64-bit number |
| `Notation.LowerTable` | src/flb_http_common.c:1448-1464 | lower case is the table of the alphabet and leaves every other character alone |
| `Notation.FigureTable` | src/flb_http_client_http1.c:258 | hexadecimal figures of both cases have their places as values, and no other character is a figure |
| `Notation.ReadAny` | src/flb_http_client_http1.c:258 | white space, a sign, a hexadecimal prefix and figures are read to the end of the figures |
| `Notation.DigitsRead` | src/flb_http_client_http1.c:704-706 | a printed numeral is read as its number, in any base up to sixteen |
| `Http1Framing.LengthName` | src/flb_http_client_http1.c:697-699 | a header declares the length if and only if its name is Content-Length letter by letter, in any case |
| `Http1Framing.VersionWord` | src/flb_http_client_http1.c:114-122 | a response has a head if and only if it begins with one of the two version words, in any case |
| `Http1Framing.ChunkedHead` | src/flb_http_client_http1.c:204-212 | the body is taken for chunked if and only if the last Transfer-Encoding begins with the word chunked, in any case, and no length is declared |
| `Http1Framing.FramedBody` | src/flb_http_client_http1.c:95-340 | for every response whose length is in decimal or whose chunks are in hexadecimal of any case, and every split: ready exactly at the last byte, with its status and its data |
| `Http1Framing.ReceiveFramed` | src/flb_http_client_http1.c:303-340 | the session object on such a response gives its status and its data |
| `Http1Framing.Hello` | src/flb_http_client_http1.c:303-340 | a response of five bytes written out, however it is cut, is ready with them |
| `Http1Errors.OldAnswer` | src/flb_http_client_http1.c:110-131 | a text without a version, however it is cut, is ready with status 200 and nothing else as soon as nine bytes have come |
| `Http1Errors.StatusRange` | src/flb_http_client_http1.c:152-159 | a complete head is refused if and only if its status, in 64 bits and then in 32, is not from 100 to 599 |
| `Http1Errors.NoColon` | src/flb_http_client_http1.c:660-670 | a line without a colon, with none after it, ends the parse, and the headers before it are kept |
| `Http1Errors.MalformedHead` | src/flb_http_client_http1.c:161-167 | a head with such a line is refused with the headers before it in the table |
| `Http1Errors.SizeTooLong` | src/flb_http_client_http1.c:256-264 | a chunk size fails the session if and only if it does not fit in 64 bits |
| `Http1Surplus.BodySoFar` | src/flb_http_client_http1.c:217-240 | while a body arrives a streaming session shows all that has come of it, any other nothing |
| `Http1Surplus.SurplusTaken` | src/flb_http_client_http1.c:231-240 | bytes behind a body in the piece that completes it become part of it |
| `Http1Surplus.LoopGoesOn` | src/flb_http_client_http1.c:246-298 | the chunk loop does not stop at the last chunk |
| `Http1Surplus.SecondBody` | src/flb_http_client_http1.c:246-298 | a second chunked body in the same piece is appended to the first |
| `HeaderStore.AddSets` | src/http_server/flb_http_server_http1.c:410-425 | adding to the table replaces the value of the name, in its place, or appends the name, whatever the hash function |
| `HeaderStore.GetLooksUp` | src/flb_http_common.c:959-986 | getting from the table finds the value of the name in any case and changes no header |
| `HeaderStore.LastWins` | src/flb_http_common.c:988-1032 | the store is the last-wins fold of the headers that came: for every name the last value, and no name twice |
| `HeaderStore.FirstOrder` | src/flb_http_common.c:988-1032 | names stand in the order in which they first came |
| `HeaderStore.MergedIsStored` | src/flb_http_common.c:988-1032 | the store is the list of headers that came if and only if no two names agree up to case |
| `HeaderStore.PrintedAndStored` | src/flb_http_client_http1.c:575-723 | headers that are printed, parsed and stored: every name has its last value, and the list comes back in order if and only if no two names agree up to case |
| `HeaderStore.TwoCookies` | src/flb_http_common.c:988-1032 | of two headers of one name the second is kept |
| `Http1Client.ClientSession.constructor` | src/flb_http_common.c:834-859 | a new session waits for headers with nothing received and an empty header table that folds case |
| `Http1Client.ClientSession.SetHeader` | src/flb_http_common.c:988-1032 | the name in lower case gets the value, in its place if it is there; an empty name is refused |
| `Http1Client.ClientSession.GetHeader` | src/flb_http_common.c:959-986 | the value stored for the name in any case, with the headers unchanged |
| `Http1Client.ClientSession.StoreHeaders` | src/flb_http_client_http1.c:649-723 | the headers of a block are stored one after the other |
| `Http1Client.ClientSession.ShiftIncoming` | src/flb_http_client_http1.c:72-93 | the first bytes of the incoming data are removed, all of it if there are fewer |
| `Http1Client.ClientSession.ReadFields` | src/flb_http_client_http1.c:152-168 | the status code, the headers and the declared length of a complete head are stored; of a malformed one, what came before the malformed line |
| `Http1Client.ClientSession.ReadHead` | src/flb_http_client_http1.c:95-178 | an incomplete head changes nothing, a complete one is stored in the table and removed, a malformed one fails |
| `Http1Client.ClientSession.Examine` | src/flb_http_client_http1.c:249-273 | the next chunk is waited for, rejected, too long for 64 bits or whole, as the specification says |
| `Http1Client.ClientSession.AppendChunk` | src/flb_http_client_http1.c:275-296 | the data of a whole chunk goes to the body, the chunk leaves the incoming data, and an empty one ends the body |
| `Http1Client.ClientSession.ReadChunks` | src/flb_http_client_http1.c:246-298 | whole chunks move from the incoming data to the body, a chunk too long for 64 bits is told apart |
| `Http1Client.ClientSession.ReadBody` | src/flb_http_client_http1.c:180-301 | a chunked, sized or unsized body is taken as far as the data goes |
| `Http1Client.ClientSession.Feed` | src/flb_http_client_http1.c:303-340 | one piece is appended and processed as its phase says |
| `Http1Runs.BlankLineFound` | src/flb_http_client_http1.c:132-147 | the blank line is found at the end of the header block and nowhere before |
| `Http1Runs.BlankLineCut` | src/flb_http_client_http1.c:132-147 | a header block that is cut has no blank line |
| `Http1Runs.HeadIncomplete` | src/flb_http_client_http1.c:95-178 | every proper prefix of a head leaves the session as it was |
| `Http1Runs.HeadComplete` | src/flb_http_client_http1.c:95-178 | a complete head is stored, its headers merged by name, and removed, whatever follows it |
| `Http1Runs.HeadNeedsHeader` | src/flb_http_client_http1.c:132-147 | a head is recognised if and only if it has a header line |
| `Http1Runs.SizeLine` | src/flb_http_client_http1.c:252-267 | a plain hexadecimal size line gives its value and its length |
| `Http1Runs.CopyInside` | src/flb_http_client_http1.c:269-281 | for every size line: the copy of a chunk leaves the incoming data if and only if the extent of the chunk exceeds 64 bits and what is left of it has come |
| `Http1Runs.MinusOne` | src/flb_http_client_http1.c:258-281 | a size of minus one is such a chunk |
| `Http1Runs.HugeChunk` | src/flb_http_client_http1.c:269-281 | a sixteen-digit size of two to the sixty-fourth less one is such a chunk |
| `Http1Runs.Sixteen` | src/flb_http_client_http1.c:258-264 | sixteen f are that size |
| `Http1Runs.ChunkLoopPrefix` | src/flb_http_client_http1.c:246-298 | on any prefix of a chunked body whole chunks are appended, and the session is ready only at the end |
| `Http1Runs.DataStep` | src/flb_http_client_http1.c:180-301 | more of the body keeps the session waiting, or makes it ready when the body is complete |
| `Http1Runs.IngestStep` | src/flb_http_client_http1.c:303-340 | one more piece of a response keeps the session where the bytes so far put it, without error |
| `Http1Runs.AnyFragmentation` | src/flb_http_client_http1.c:95-340 | for every well-formed response and every split, streamed or not: never failed, ready exactly at the last byte, then with its status and body and with the last-wins fold of its headers |
| `Http1Runs.ReceiveResponse` | src/flb_http_client_http1.c:303-340 | the session object has that result, and asked for any names it gives the last value that was sent for each, in any case |
| `DecodersAgree.BothDecode` | src/flb_http_client_http1.c:180-301 | the body the session assembles is what the in-place decoder hands out, whatever the fragmentations and consumptions |
| `HashSpec.ToMapIs` | src/flb_hash_table.c:401-494 | the records and the map have the same pairs and the same number |
| `HashSpec.StoreMap` | src/flb_hash_table.c:429-491 | storing updates the map at the folded key, whether or not it was there |
| `HashSpec.RemoveMap` | src/flb_hash_table.c:85-97 | removing a record removes its key from the map |
| `HashSpec.TouchMap` | src/flb_hash_table.c:357-399 | replacing a record's value in place updates only its own pair |
| `HashSpec.LeastUsed` | src/flb_hash_table.c:245-262 | the first of the entries with the fewest hits |
| `HashRuns.StepDistinct` | src/flb_hash_table.c:401-674 | no operation, with eviction and expiry or without, gives two entries to a key |
| `HashRuns.StepRefines` | src/flb_hash_table.c:401-674 | one operation without eviction and expiry answers and acts as on a finite map |
| `HashRuns.RunRefinesMap` | src/flb_hash_table.c:401-674 | so does every run, over keys or, with case folding, over lower-cased keys |
| `HashRuns.RunStaysBounded` | src/flb_hash_table.c:414-427 | with an evicting mode and a limit no run exceeds the limit |
| `HashRuns.EvictingAdd` | src/flb_hash_table.c:226-270 | an addition at the limit removes exactly the victim, first inserted or first of the least used, and then updates the map, even for a replacement |
| `HashModel.Coldest` | src/flb_hash_table.c:245-262 | the first of the keys with the fewest hits |
| `HashModel.StepIs` | src/flb_hash_table.c:401-674 | every operation, with any eviction and any time to live, answers and acts as on the map of values, times and hits |
| `HashModel.RunIs` | src/flb_hash_table.c:401-674 | so does every run |
| `HashModel.ModelOf` | src/flb_hash_table.c:401-494 | every list of records without a repeated key is such a map |
| `HashModel.LivesItsTime` | src/flb_hash_table.c:509-522 | a value that was added is got if and only if not more than its time to live has passed; getting it later removes exactly that key |
| `HashChains.LinkNew` | src/flb_hash_table.c:481-491 | appending an entry to its chain and to the list keeps both complete and the counters exact |
| `HashChains.UnlinkOne` | src/flb_hash_table.c:85-97 | unlinking an entry from both keeps them complete and the counters exact |
| `HashTable.Table.constructor` | src/flb_hash_table.c:99-137 | a new table is empty with all counters zero |
| `HashTable.Table.SetCaseSensitivity` | src/flb_hash_table.c:217-224 | on any table: the setting changes and nothing else; it then answers as a map over the newly folded keys if and only if every entry is in the chain of its key and no two keys fold to one |
| `HashTable.Table.AnswersExactly` | src/flb_hash_table.c:217-224 | on any table: what an owner sees is a map if and only if chains and keys agree with the folding |
| `HashTable.Table.GetEntry` | src/flb_hash_table.c:272-355 | looking in the key's chain only, with its short cuts, finds an entry of the folded key if and only if that chain has one, also after the case sensitivity was changed |
| `HashTable.Table.FindEntry` | src/flb_hash_table.c:272-355 | in a table that is a map, the entry of the folded key is found if and only if there is one |
| `HashTable.Table.FreeEntry` | src/flb_hash_table.c:85-97 | exactly that entry leaves its chain and the list |
| `HashTable.Table.EvictOlder` | src/flb_hash_table.c:264-270 | the first inserted entry is removed |
| `HashTable.Table.FindLessUsed` | src/flb_hash_table.c:245-262 | the loop finds the first entry with the fewest hits |
| `HashTable.Table.EvictLessUsed` | src/flb_hash_table.c:245-262 | the first entry with the fewest hits is removed |
| `HashTable.Table.EvictRandom` | src/flb_hash_table.c:226-243 | the entry at the drawn position is removed |
| `HashTable.Table.Evict` | src/flb_hash_table.c:414-427 | one entry is removed at the limit by the table's mode, otherwise none |
| `HashTable.Table.AppendEntry` | src/flb_hash_table.c:445-494 | a new entry is last in the list and in the chain of its hash |
| `HashTable.Table.Put` | src/flb_hash_table.c:401-494 | adding evicts, replaces or appends as on the list of records, and returns the chain or -1 |
| `HashTable.Table.CountHit` | src/flb_hash_table.c:517 | one record of the list, and no other, has one hit more |
| `HashTable.Table.Fetch` | src/flb_hash_table.c:496-522 | getting counts a hit and returns the value, or removes an expired entry and returns nothing |
| `HashTable.Table.Delete` | src/flb_hash_table.c:605-674 | deleting removes exactly the entry of the key, and fails if there is none |
| `HashTable.Table.Exists` | src/flb_hash_table.c:525-544 | looking in one chain only tells whether any entry was stored under the hash, which is the hash of a key unless the case sensitivity was changed |
| `HashTable.Table.Apply` | src/flb_hash_table.c:401-674 | one operation of a run acts and answers as on the list of records |
| `HashTable.RunFrom` | src/flb_hash_table.c:401-674 | every run from any such table answers as on the list of its records and as on the map of values, times and hits, and without eviction and expiry as on a finite map over the keys as they are folded now |
| `HashTable.RunTable` | src/flb_hash_table.c:99-674 | every run of the table, with any eviction and any time to live, answers as the list of records and as the map of values, times and hits; without these as a finite map |
| `HashTable.LostByFolding` | src/flb_hash_table.c:217-224 | a key that was found is not found any more after the case sensitivity is changed |
| `Base64Spec.FirstPassCounts` | src/flb_base64.c:162-198 | what the first pass accepts is data followed by at most two padding characters, and its counts are exact |
| `Base64Spec.AcceptedLines` | src/flb_base64.c:162-198 | text in lines without spaces is accepted if and only if its characters are so padded |
| `Base64Spec.AcceptedExactly` | src/flb_base64.c:162-198 | a text is accepted if and only if its characters are well padded, no carriage return is alone, and spaces stand only at line ends, but for runs whose 32-bit count is zero |
| `Base64Spec.TablesInverse` | src/flb_base64.c:55-81 | the decoding table undoes the encoding table |
| `Base64Alphabet.EncodingTable` | src/flb_base64.c:55-64 | the encoding table is the printed alphabet |
| `Base64Alphabet.DecodingTable` | src/flb_base64.c:66-81 | the decoding table gives the places in the alphabet, 64 for the padding character and 127 for every other |
| `Base64Alphabet.EncodeIs` | src/flb_base64.c:119-144 | an encoding is the base-64 digits of each three bytes taken as one number, as letters of the alphabet, with padding |
| `Base64Proofs.SizeFormula` | src/flb_base64.c:206-211 | the overflow-free formula is (6n+7)/8 for every n |
| `Base64Proofs.Written` | src/flb_base64.c:219-236 | how many bytes the second pass writes for every padding of every length |
| `Base64Proofs.SizeAgrees` | src/flb_base64.c:206-236 | for every accepted input the size does not underflow and bounds what is written, with equality if and only if an incomplete last group is all padding |
| `Base64Proofs.Bits` | src/flb_base64.c:224-235 | three bytes come back from their four groups of six bits, whatever the accumulator held before |
| `Base64Proofs.RoundTrip` | src/flb_base64.c:88-236 | the second pass on an encoding writes the bytes |
| `Base64.EncodeInto` | src/flb_base64.c:88-150 | the buffer holds the encoding, as letters of the printed alphabet, and a zero byte, and nothing else changed; or it is too small and the size needed is reported |
| `Base64.EncodeGroups` | src/flb_base64.c:117-129 | complete groups of three bytes are encoded in order |
| `Base64.EncodeRest` | src/flb_base64.c:131-144 | the one or two bytes left are encoded with padding |
| `Base64.Validate` | src/flb_base64.c:162-198 | the first pass with its 32-bit count of spaces accepts and counts as specified |
| `Base64.DecodeInto` | src/flb_base64.c:155-239 | invalid characters, a missing or short buffer and success, with the bytes written and everything else in the buffer unchanged |
| `Base64.WriteBytes` | src/flb_base64.c:219-236 | the second pass writes exactly its specification's bytes and stays inside the buffer |
| `Base64.WrappedRoundTrip` | src/flb_base64.c:155-239 | an encoding with LF or CRLF put in anywhere is accepted, has the exact size and decodes to the bytes |
| `Base64.EncodeBreakDecode` | src/flb_base64.c:88-239 | encoding, breaking into lines anywhere and decoding returns the bytes |
| `ChunkTrace.StepKeeps` | src/flb_chunk_trace.c:135-549 | every step its callers may take uses only contexts that are not freed and, unless it makes a trace while the input has no context, keeps the invariant |
| `ChunkTrace.EveryRun` | src/flb_chunk_trace.c:135-549 | in every run: no freed context is used, and a missing one if and only if a trace is made while tracing is off; otherwise `chunks` is the number of live traces, no context in use is freed, none is freed twice, one not in use waits for its traces, and in the end all are freed |
| `ChunkTrace.DestroyedBetween` | src/flb_chunk_trace.c:539-549 | a context destroyed between the test and the trace is such a run |
| `ChunkTrace.LastTraceFrees` | src/flb_chunk_trace.c:451-468 | a context marked for destruction is freed exactly when its last trace goes |
| `ChunkTraceEffects.AllocatedIfHeld` | src/flb_chunk_trace.c:135-549 | a context is allocated if and only if it is the input's or a live trace holds it |
| `ChunkTraceEffects.TraceEnds` | src/flb_chunk_trace.c:451-468 | the trace is gone, all others stay, and its context, marked or not, goes if and only if nothing holds it any more |
| `ChunkTraceEffects.TraceBegins` | src/flb_chunk_trace.c:414-449 | one new trace holds the input's context, which counts one more, and nothing else changes |
| `ChunkTraceEffects.ContextBegins` | src/flb_chunk_trace.c:371-412 | the input has a new context, and the one before goes if and only if no trace holds it |
| `ChunkTraceEffects.ContextEnds` | src/flb_chunk_trace.c:152-161 | the input has none, and the one it had goes if and only if no trace holds it |
| `ChunkTraceEffects.Counts` | src/flb_chunk_trace.c:135-549 | in every run the live traces are those made less those ended, and the contexts those made less those freed |
| `ChunkTrace.Input.DestroyOrMark` | src/flb_chunk_trace.c:135-150 | a context with chunks is marked, one without is freed |
| `ChunkTrace.Input.NewContext` | src/flb_chunk_trace.c:371-412 | a new context replaces the input's old one, which is freed or marked |
| `ChunkTrace.Input.DestroyContext` | src/flb_chunk_trace.c:152-161 | the input's context is freed or marked and the input has none |
| `ChunkTrace.Input.TestTracing` | src/flb_chunk_trace.c:539-546 | tracing is on if the input has a context, and the input is then about to make a trace |
| `ChunkTrace.Input.NewTrace` | src/flb_chunk_trace.c:414-449 | without a context the null pointer is followed; otherwise a trace is counted on the input's context and is never refused |
| `ChunkTrace.Input.DestroyTrace` | src/flb_chunk_trace.c:451-468 | the trace's context counts one less and is freed if it was marked and has none left |
| `Downstream.StepKeeps` | src/flb_downstream.c:207-545 | every step its callers may take uses only connections that are not freed, and keeps the invariant of queues, sockets and flags |
| `Downstream.EveryRun` | src/flb_downstream.c:207-545 | in every interleaving: no freed connection is used, one queue for each that is not freed, none freed while its get call runs, no socket closed twice, closed before freed, none freed twice |
| `Downstream.FreesOnlyIdle` | src/flb_downstream.c:258-274 | a step frees a connection if and only if it sweeps the destroy queue and the connection is there and not busy |
| `Downstream.SweepEffect` | src/flb_downstream.c:440-526 | what a sweep does to each connection: an expired one leaves the busy queue, all others stay |
| `Downstream.SweepClears` | src/flb_downstream.c:440-526 | after a timeout sweep no expired connection is in the busy queue, and no other was moved |
| `Downstream.KeptUntilDeadline` | src/flb_downstream.c:472-486 | a sweep takes a connection being accepted when the accept timeout has passed since the start, and a returned one when the I/O timeout has passed since then, and not before |
| `DownstreamEffects.ReleaseGivesUp` | src/flb_downstream.c:435-438 | a released connection is in the destroy queue only, its accepted socket is closed, and every other connection is unchanged |
| `DownstreamEffects.FailureGivesUp` | src/flb_downstream.c:342-348 | so is one whose acceptance failed, still busy, with its accept deadline set again |
| `DownstreamEffects.StartAdds` | src/flb_downstream.c:276-340 | one new connection, busy, in the busy queue, with the accepted socket and the accept deadline; all others unchanged |
| `DownstreamEffects.SuccessReturns` | src/flb_downstream.c:355-369 | the call has returned, the connection keeps its queue and its socket, and has its I/O deadline; all others unchanged |
| `DownstreamEffects.FailureReturns` | src/flb_downstream.c:350-352 | the call has returned and only the busy flag is cleared |
| `DownstreamEffects.TimeoutsGiveUp` | src/flb_downstream.c:440-526 | the sweep gives up exactly the expired connections of the busy queue |
| `DownstreamEffects.SweptWhenReturned` | src/flb_downstream.c:528-545 | the sweep of the destroy queue frees a connection if and only if its call has returned |
| `DownstreamEffects.GivenUpIsFreed` | src/flb_downstream.c:207-545 | in every run a connection that was given up stays so until the first sweep after its call has returned, which frees it |
| `DownstreamEffects.ReleasedIsFreed` | src/flb_downstream.c:207-545 | so every released connection is freed by that sweep, with its socket closed |
| `Downstream.Stream.constructor` | src/flb_downstream.c:96-164 | a new stream has no connections and empty queues |
| `Downstream.Stream.PrepareDestroyConn` | src/flb_downstream.c:207-238 | an open socket is closed once and the connection moves to the destroy queue |
| `Downstream.Stream.DestroyConn` | src/flb_downstream.c:258-274 | a busy connection stays, any other is freed and leaves its queue |
| `Downstream.Stream.BeginGet` | src/flb_downstream.c:317-340 | a new connection is busy, in the busy queue, with its deadline set |
| `Downstream.Stream.EndGet` | src/flb_downstream.c:355-369 | after acceptance the deadline is reset and the connection is no longer busy |
| `Downstream.Stream.FailGet` | src/flb_downstream.c:342-348 | a failed acceptance prepares the connection for destruction while it is still busy |
| `Downstream.Stream.ClearBusy` | src/flb_downstream.c:350-352 | the failed call ends by clearing the busy flag |
| `Downstream.Stream.ReleaseConn` | src/flb_downstream.c:435-438 | a released connection is prepared for destruction |
| `Downstream.Stream.ConnTimeouts` | src/flb_downstream.c:440-526 | the sweep over the busy queue prepares each expired connection for destruction |
| `Downstream.Stream.DestroyPending` | src/flb_downstream.c:528-545 | the sweep over the destroy queue frees what is not busy |
| `GzipRuns.ExtraFound` | src/flb_gzip.c:750-770 | an extra field is taken when it is complete and there is a third byte, and waited for otherwise |
| `GzipRuns.NameFound` | src/flb_gzip.c:777-793 | a name is taken when its zero is there, and waited for otherwise |
| `GzipRuns.FieldsAdvance` | src/flb_gzip.c:742-814 | the parser stops at a field boundary with the flags of what is still due, and passes all fields once a body byte is there |
| `GzipRuns.FeedOnTrack` | src/flb_gzip.c:683-861 | one more piece never loses or re-reads a field |
| `GzipRuns.OneShotFinds` | src/flb_gzip.c:270-344 | the one-shot skip finds the end of every header, whatever the lengths, if its checksum is sound, and rejects it otherwise |
| `GzipRuns.ResumableAgrees` | src/flb_gzip.c:683-861 | for every readable header with extra field, name and checksum, and every fragmentation: the body is entered at the end of the header, or the checksum is not accepted, as soon as a body byte is there |
| `GzipRuns.CheckAlone` | src/flb_gzip.c:816-846 | with the checksum as the only optional field both parsers accept the same ones |
| `GzipLayout.HeaderBytes` | src/flb_gzip.c:297-344 | the header byte by byte: fields in order, by the bits 4, 8, 16 and 2, lengths with the low byte first, texts with a final zero |
| `GzipLayout.BeginsOtherwise` | src/flb_gzip.c:683-740 | other magic bytes, methods or flags fail the parser as soon as ten bytes have come, however they are cut, and the one-shot skip refuses them |
| `GzipLayout.HeadStatus` | src/flb_gzip.c:683-861 | a header step reports a failure if and only if the beginning is another one, a corrupted header only for a checksum that does not agree, and ends in the failed state if and only if it reports one of the two |
| `GzipLayout.InflaterFails` | src/flb_gzip.c:862-895 | an inflater that fails fails the context and nothing is taken; without room it is not asked |
| `GzipLayout.FailedForever` | src/flb_gzip.c:943-990 | after a failure nothing is taken any more |
| `GzipLimits.FieldsOutcome` | src/flb_gzip.c:742-814 | extra field, name and comment in one call, whatever the bytes: waited for, or taken with their lengths in 16 bits |
| `GzipLimits.NameBehind` | src/flb_gzip.c:777-793 | a name that is taken from where the parser believes it to be does not lead past its end |
| `GzipLimits.CommentBehind` | src/flb_gzip.c:800-814 | a comment that is taken leads at most to its zero |
| `GzipLimits.AllAstray` | src/flb_gzip.c:742-861 | on an unreadable header, however it is cut, the parser never enters the body where it is |
| `GzipLimits.ExactlyWhen` | src/flb_gzip.c:683-861 | for every header and every fragmentation: in the body where the one-shot skip is if and only if there is no comment, the lengths fit, the name is not empty and both accept the checksum |
| `GzipLimits.CommentMissed` | src/flb_gzip.c:800-814 | a comment as the only field in one call: the parser waits or enters the body early, by one byte for comments shorter than 65536 bytes |
| `Decompression.Context.constructor` | src/flb_compression.c:151-219 | a new context has an empty queue of the size asked for, or of the default size, and waits for a header |
| `Decompression.Context.AdjustBuffer` | src/flb_compression.c:42-59 | compaction preserves the unread bytes and leaves the offset zero or below half the size |
| `Decompression.Context.AvailableSpace` | src/flb_compression.c:73-93 | the space reported is what lies after the unread bytes |
| `Decompression.Context.AppendBuffer` | src/flb_compression.c:61-71 | the owner writes right after the unread bytes |
| `Decompression.Context.Write` | src/flb_compression.c:61-71 | bytes written after the unread ones are the end of the queue |
| `Decompression.Context.Append` | src/flb_compression.c:61-93 | an append within the space extends the queue by its bytes; one is refused only if it would fill more than half of the buffer |
| `Decompression.Context.Take` | src/flb_gzip.c:700-705 | taking bytes removes them from the front of the queue |
| `Decompression.Context.ProcessHeader` | src/flb_gzip.c:683-740 | the fixed header is waited for, taken or rejected |
| `Decompression.Context.SkipField` | src/flb_gzip.c:788-792 | the bytes of a field leave the queue and its flag is cleared |
| `Decompression.Context.SkipExtra` | src/flb_gzip.c:750-770 | the extra field is skipped or waited for |
| `Decompression.Context.SkipName` | src/flb_gzip.c:772-793 | the name is skipped or waited for |
| `Decompression.Context.SkipComment` | src/flb_gzip.c:795-814 | the comment is skipped up to its zero or waited for |
| `Decompression.Context.SkipFields` | src/flb_gzip.c:742-814 | a return for want of data leaves the parser at a field boundary |
| `Decompression.Context.CheckHeaderCrc` | src/flb_gzip.c:816-846 | the header checksum is waited for, accepted or rejected, and then the body is expected |
| `Decompression.Context.ProcessOptionalHeaders` | src/flb_gzip.c:742-861 | one call takes what the specification of the optional fields takes, and ends in its state |
| `Decompression.Context.ProcessBodyChunk` | src/flb_gzip.c:863-919 | the inflater is shown all that is buffered, and exactly what it takes of that leaves the queue |
| `Decompression.Context.ProcessFooter` | src/flb_gzip.c:922-941 | eight bytes are waited for and taken, and an empty queue starts over at the beginning of the buffer |
| `Decompression.Context.ProcessHead` | src/flb_gzip.c:943-965 | header and optional fields are one step of the resumable parser |
| `Decompression.Context.ProcessTail` | src/flb_gzip.c:970-988 | body and footer take the next parts of the queue |
| `Decompression.Context.Dispatch` | src/flb_gzip.c:943-993 | one call gives the next parts of the queue to header, inflater and footer, as many bytes as each takes, and ends in their state |
| `Decompression.Conserved` | src/flb_compression.c:27-93 | in every run of a queue, what was given to header, inflater and footer, in order, followed by what is pending is what was accepted |
| `Decompression.Perform` | src/flb_gzip.c:943-993 | one append or call on the context is one on the queue |
| `Decompression.RunQueue` | src/flb_compression.c:27-93 | every run of the context is a run of the queue: the same parts go to header, inflater and footer, nothing is lost or repeated, and appends are refused only when half of the buffer would be exceeded |
| `Decompression.FeedPiece` | src/flb_gzip.c:943-993 | before the body, an append and a call are one step of the resumable parser |
| `Decompression.FindBody` | src/flb_gzip.c:943-993 | the context fed any pieces enters the first body exactly when the resumable parser does, at the same place |
| `Decompression.EnterMember` | src/flb_gzip.c:943-993 | the context fed any pieces of any header is in the body where the one-shot skip is if and only if the header is readable and both accept its checksum |
| `GzipMembers.MembersRead` | src/flb_gzip.c:683-990 | in every run on a stream of members, with any honest inflater: no failure; the inflater has been given the bodies of the members that are done and the beginning of the next, the footer step their footers; with everything taken these are all members and a header is expected |
| `GzipMembers.TailAt` | src/flb_gzip.c:862-941 | body and footer of a call: the body goes on, or ends and eight bytes are taken, and then the next member begins |
| `GzipMembers.HeadAt` | src/flb_gzip.c:683-861 | the header step of a call on such a stream succeeds and gives the header step header bytes only |
| `GzipMembers.ReadMembers` | src/flb_gzip.c:943-990 | the context, fed any pieces with a call after each, gives the inflater exactly the bodies and the footer step exactly the footers, and expects a header at the end |
| `Filter.FilterDo` | src/flb_filter.c:119-323 | added records plus all added minus all dropped are the surviving ones, in total and for each filter; `total_records` is earlier plus surviving; the result is the last buffer with the size of its reply, and exactly the buffers before it are released, in order |
| `Filter.SurvivingSnoc` | src/flb_filter.c:177-320 | the effect of one more filter on the surviving records, none once everything is gone |
| `Filter.SizeSnoc` | src/flb_filter.c:230-238 | one more filter leaves the size or replaces it by that of its reply |
| `Filter.CountDifference` | src/flb_filter.c:270-307 | a filter's counters balance its records in and out, and at most one of them is not zero |
| `Filter.ReleasedOnce` | src/flb_filter.c:230-238 | no buffer is released twice, and neither the caller's data nor the result is released |
| `Filter.NothingTouched` | src/flb_filter.c:177-195 | filters that are not active, do not match the tag or leave the data alone change neither records nor size |
| `Filter.LastReply` | src/flb_filter.c:230-320 | without a filter that takes everything away the last reply that replaced the data decides records and size |
| `Filter.AllTaken` | src/flb_filter.c:240-268 | after a filter that took everything away nothing is left and no later filter runs |
| `Filter.HandOn` | src/flb_filter.c:119-323 | for every chain: the caller's data, the last buffer or nothing is handed on, with its size and records, and every earlier buffer is released |
| `EnvSpec.VariableFound` | src/flb_env.c:231-234 | a variable is found right after a literal without one, even one that ends in a dollar sign |
| `EnvSpec.WalkPart` | src/flb_env.c:230-282 | one literal and variable become the literal and the value, and the rest is walked after them |
| `EnvSpec.WalkParts` | src/flb_env.c:230-282 | so for every list of them, whatever follows |
| `EnvSpec.TemplateTranslated` | src/flb_env.c:205-318 | a template translates to its literals and values, with closing braces allowed in the tail; a text without a variable is unchanged |
| `EnvSpec.TailLost` | src/flb_env.c:236-296 | after a replaced variable, a `${` where the loop stops loses the text up to the next closing brace, or all of it |
| `EnvSpec.Unchanged` | src/flb_env.c:230-245 | unless the first `${` and the first `}` enclose a name that fits, the value is unchanged |
| `EnvSpec.BraceInLiteral` | src/flb_env.c:230-245 | a variable after a literal is replaced if and only if the literal has no closing brace |
| `Env.Environment.constructor` | src/flb_env.c:70-93 | a new environment has no variables and 64 chains |
| `Env.Environment.Get` | src/flb_env.c:169-199 | the table's value, else a non-empty one of the process environment; looking up changes no variable |
| `Env.Environment.Set` | src/flb_env.c:101-167 | the variable gets the text, or the file's content without one line end, and nothing else changes; an empty name, a missing or an empty file changes nothing |
| `Env.Environment.ReplaceVars` | src/flb_env.c:230-282 | the loop yields the replaced text and the brace it looked at last |
| `Env.Environment.TranslateVars` | src/flb_env.c:205-318 | the loop and what follows it compute the translation with the environment's lookup |
| `EnvRuns.FileText` | src/flb_env.c:113-148 | a file value is the content of the file named after the prefix less one line end, and fails if there is no file or nothing is left |
| `EnvRuns.PlainText` | src/flb_env.c:113 | any other value stands for itself |
| `EnvRuns.SetThenGet` | src/flb_env.c:150-183 | a name that was set has its text up to the first NUL, whatever the process environment says; no other name is touched |
| `EnvRuns.NeverSet` | src/flb_env.c:185-198 | without a setting the process environment answers, and there an empty text is none |
| `EnvRuns.SetAndGet` | src/flb_env.c:101-199 | the environment object after any settings gives the last one that could be made, or else the process environment |

## Left out

- `process_data` and buffer growth in `src/flb_http_client.c`: the in-place decoder starts after the headers, on offsets in a buffer that is large enough; re-basing `payload` on reallocation is not modelled.
- Timeouts, the HTTP/1.0 end of stream and a broken connection in `flb_http_get_response_data`, and the redirect and keepalive handling after it.
- InPlaceClient.Response.GetResponseData: timeouts, the end of an HTTP/1.0 stream and a broken connection are not modelled.
- InPlaceClient.ReceiveAll: chunk sizes are plain hexadecimal of at most 31 digits, without extensions and trailers, which the code does not support or does not treat uniformly; sizes near LONG_MAX, where the sum with the line end overflows in C, are excluded by the length of the data.
- Http1Client.ClientSession.ReadChunks: nothing is said of what a copy beyond the incoming data does; the session is then in the phase `Overrun`.
- Http1Runs.AnyFragmentation: responses have at least one header and a body with an exact length or plain chunks; extensions, trailers and bodies that end with the connection are not framed by the session.
- Http1Headers.ParseHeaders: reads past the end of the block are modelled as reading the NUL there; parsing and storing are two loops where the source has one.
- The Content-Type copy and the HTTP/1 request side (`flb_http1_request_commit`).
- Memory allocation failures, in every component.
- `flb_hash_table_del_ptr`, `flb_hash_table_get_by_id` and keys with embedded NULs.
- HashTable.Table.Put: value sizes are not negative; a stored reference is an address whose target is not modelled.
- Decompression.Context.ProcessBodyChunk: what the inflater produces and its initialisation are not modelled; the footer is skipped as in the source, which does not compare it.
- `flb_decompression_context_resize_buffer` and `flb_gzip_uncompress_multi`.
- ChunkTrace.Input.NewTrace: nothing is said of what the program does after it followed a null pointer; the run ends there.
- Chunk-trace allocation and pipeline failures, pipeline threads, limits and record emission.
- Datagram transports, pause and resume, `flb_downstream_destroy`, TLS and the event loop around downstream connections.
- Filter.FilterDo: byte and latency metrics, filter matching other than running or not, and chunk tracing are not modelled; a filter that does not run is one that modifies nothing.
- Env.Environment.Set: an empty value is stored by reference in C and read as empty here, and the table's hit counters are not part of the contract; HOSTNAME is not preset.
- Everything else in the repository: engine, scheduler, plugins, configuration, record accessors, HTTP/2, storage and cryptography.
