# Verified model of a small web server

This project models the parsing and storage core of a small C web server and proves what that core
does, for every input and every way of cutting it into pieces.

* **HTTP requests** (`HttpParser.dfy`, `HttpGrammar.dfy`, `HttpRefusals.dfy`, `HttpStream.dfy`): the resumable
  byte-at-a-time parser with its 4096-byte token array. A grammar of unfinished request heads, with
  one constructor for each parser state, describes exactly which inputs are accepted, the whole
  state after each of them and every report made. On top of it: independence of chunking, the order
  of reports, and print-then-parse.
* **Environment** (`Env.dfy`): the packed `name NUL value NUL` heap as an ordered list of bindings,
  and any history of operations on it.
* **CSV** (`CsvReports.dfy`, `Csv2.dfy`, `Csv2Grammar.dfy`, `Csv1.dfy`, `Csv1Grammar.dfy`,
  `CsvTables.dfy`): both streaming parsers, the exact language and reports of each, and their
  agreement on printed tables.
* **Paths** (`FixPath.dfy`): in-place path cleaning and the path of a static file.
* **Line parsers** (`Buffers.dfy`, `LineStreams.dfy`, `RequestLine.dfy`, `Headers.dfy`, `HeadersGrammar.dfy`,
  `HeaderAgreement.dfy`): the resumable request-line and header parsers over bounded buffers, folded
  continuation lines included, and the agreement of the two header parsers.
* **Services** (`Services.dfy`): registration and longest-prefix lookup.
* **Connections** (`Channel.dfy`, `Httpd.dfy`, `HttpAnswers.dfy`): reads, partial writes and failures of
  an arbitrary socket around the parser, the environment and the answer, from a printed request to the
  text of its answer.

Every parser is a class whose methods are proved to compute a step function on values; the theorems
are about that function. `Bytes.dfy` holds C strings and character classes.

## How to read the main results

A grammar module has a datatype `Progress` of unfinished documents with their text, the reports they
call for and the parser state they lead to. `EveryStep` shows that the parser refuses a byte exactly
when the grammar does, `PrevIsLegal` that every progress is reached byte by byte, and
`AcceptsExactly` (or `CompletesExactly`) puts both together as an if-and-only-if over all inputs.

A theorem about callbacks that may refuse compares with the same parser whose callbacks allow
everything: `CutAt` is the first refused call, and `RefusalTruncates` says that the calls made are
those up to it.

## Where the code and its documentation part

Each of these has a lemma at inputs that show it and a theorem that says when it happens.

* RFC 4180 (section 2) ends rows with CR LF. csv2.c reports such a row and then refuses it, because
  the case for the LF after a CR runs on into the error case (`Csv2Grammar.CrLfRowIsRefused`).
  `Csv2Grammar.LoadsExactly` says which files are taken: those without a CR outside quotes.
* csv.c loses a quoted field that is followed by white space (`Csv1Grammar.QuotedBeforeBlankIsLost`,
  `Csv1Grammar.LostRow`) and does not report empty bare fields (`Csv1Grammar.EmptyFieldIsSilent`);
  `Csv1Grammar.LoadsExactly` includes both, and `CsvTables.ParsersAgree` says which tables it reads as
  csv2.c does.
* RFC 2616 (section 4.2) allows an empty header value. httpparser.c reports one for every CR between
  the colon and the value, but stays where it is, so a line that ends there is refused
  (`HttpRefusals.EmptyValueIsRefused`); `HttpGrammar.ReachesBodyExactly` says what is taken. A CR right
  after the URI ends the request line without a method report (`HttpRefusals.MethodNeedsVersion`).
* util_fixpath removes `.` and `..` components and does not resolve them
  (`FixPath.UpIsNotResolved`; `FixPath.CleanedIsKept` is what absolute paths become). In a relative
  path a `..` met when the output is a lone slash takes that slash back (`FixPath.SlashIsTakenBack`);
  `FixPath.CleanedIsKept` says when the output is exactly the kept components and
  `FixPath.RelativeIsTrimmed` what it is otherwise. With a one-byte buffer a relative path is refused
  as soon as one component is kept (`FixPath.OneByteBuffer`, `FixPath.Fix`).
* A comment in util.c wants relative paths to stay relative. A path like `.//x` does not
  (`FixPath.SlashIsUncovered`); `FixPath.RelativeIsTrimmed` says which do. So what open_path opens
  stays relative for every URI exactly if there is a base (`FixPath.BaseDecides`).
* env_delete moves as many bytes as are live after the deletion, more than follow the entry. The live
  bytes are right all the same (`Env.Environment.Delete`), but the move may go past the end of the heap.
  It stays inside exactly when the offset of the entry and the bytes in use together are at most the
  size of the heap (`Env.MoveFitsAt`), whatever is stored exactly up to half of the heap and one byte
  (`Env.FitsUpToHalf`). For a history of operations, and so for the headers of a connection, this is a
  bound on sizes (`Env.HistoryFitsExactly`, `Httpd.ServeNew`); a legal request that repeats its Host
  does not meet it (`Httpd.HostTwiceDoesNotFit`). The model gives the heap the room behind it that the
  move may touch, and counts in `reach` how far the moves go.
* Status 404 is not among those httpd_response knows, so 500 goes out in its place
  (`Channels.UnknownStatus`, `Httpd.RefusalsOnTheWire`).

## Model

| member | source | states |
|---|---|---|
| HttpParsing.HttpParser.constructor | httpparser.h:30-38 | a new parser is in the first state with an empty token |
| HttpParsing.HttpParser.TokAdd | httpparser.c:37-45 | a byte is appended while the array has room, otherwise nothing changes |
| HttpParsing.HttpParser.CloseStrings | httpparser.c:110-113 | both strings of a report, read from the whole array up to their first NUL, are those of the live bytes |
| HttpParsing.HttpParser.RequestLineByte | httpparser.c:88-136 | the request-line cases of the switch compute the step function on the token array in place |
| HttpParsing.HttpParser.HeaderByte | httpparser.c:137-205 | the header cases of the switch compute the step function on the token array in place |
| HttpParsing.HttpParser.Parse | httpparser.c:68-219 | one call leaves exactly the state, token and reports of the step function run over its bytes |
| HttpParsing.RunKeepsWf | httpparser.c:37-50 | in every reachable state, after a failed call too, the token fits and the second string starts right behind a NUL inside it |
| HttpGrammar.EveryStep | httpparser.c:87-206 | one byte is refused exactly when no request head goes on with it, and otherwise leads to the state of the longer head |
| HttpGrammar.DescribedIsReached | httpparser.c:87-206 | every valid unfinished head is accepted and leads to the whole state described |
| HttpGrammar.EveryRunIsDescribed | httpparser.c:74-219 | every input, accepted or not, splits into a valid unfinished head and what the call did not take |
| HttpGrammar.AcceptsExactly | httpparser.c:74-219 | a call succeeds if and only if its input can still become a request, and then the state is the one described |
| HttpGrammar.ReachesBodyExactly | httpparser.c:68-219 | the data state is reached if and only if the input starts with a request head whose string pairs fit |
| HttpGrammar.HeadIsParsed | httpparser.c:68-208 | the reports for a head are its pieces in order, then header-done, then the remaining bytes |
| HttpRefusals.RefusedAt | httpparser.c:87-219 | a byte with which no head goes on ends the call, with the reports made before it and no other |
| HttpRefusals.EmptyValueIsRefused | httpparser.c:161-174 | a header line that ends before a value has begun is refused, whatever stands behind its colon |
| HttpRefusals.FieldFitsExactly | httpparser.c:137-191 | behind any valid lines a header field is taken if and only if its name and its value fit in 4096 bytes, each with its NUL |
| HttpRefusals.MethodNeedsVersion | httpparser.c:107-119 | a head is reported with a method if and only if its request line has a version; one without is taken all the same |
| HttpStream.ChunkIndependence | httpparser.c:74-208 | result, state, token and merged reports do not depend on how the input is cut |
| HttpStream.EveryRunIsOrdered | httpparser.c:87-206 | every run, failing or not, reports at most one method, then headers, then at most one header-done, then body, and leaves a well-formed token |
| HttpStream.RoundTrip | httpparser.c:87-206 | a printed request is parsed back to exactly its method, URI, headers and body |
| Env.StringsOf | env.c:20-52 | both strings of a binding stand where the layout puts them, each with its NUL, and the next entry starts behind them |
| Env.StringsAt | env.c:20-52 | each of the two is the C string that is read there, whatever lies behind the live bytes |
| Env.Environment.constructor | env.h:27-31 | a new environment has no bindings |
| Env.Environment.Load | env.c:20-52 | loads a binding and finds the next entry at least two bytes on |
| Env.Environment.Find | env.c:54-72 | finds the binding of a name and its place, or that there is none |
| Env.Environment.TakeOut | env.c:79-80 | the entry is gone and the bytes around it are next to each other although too many are moved; the move ends as far behind its entry as there were bytes in use |
| Env.Environment.Delete | env.c:74-84 | exactly the binding of the name goes, the others keep their order, and the move stays inside the heap exactly when it fits |
| Env.MoveFitsAt | env.c:79-80 | the move for a binding stays inside the heap if and only if its offset and the bytes in use together are at most the size of the heap |
| Env.FitsUpToHalf | env.c:79-80 | the bytes in use alone keep every move inside the heap if and only if they are fewer than five or at most half of it and one |
| Env.ModestHistoriesFit | env.c:74-117 | no operation of a history moves past the heap if no name comes twice or all that is set takes at most half of the heap and one byte |
| Env.HistoryFitsExactly | env.c:74-117 | no operation of a history moves past the heap if and only if, for each on a name in effect, the bytes set before that name and all bytes in effect together fit in it |
| Env.LiveIsReplay | env.c:74-117 | the bindings are the sets in effect: those that fitted beside the others in effect then and whose name has not come since |
| Env.SetBehind | env.c:98-117 | a name set again behind another binding moves inside the heap if and only if twice the first entry and the old one fit in it |
| Env.Environment.Get | env.c:86-96 | the value bound to the name, or nothing |
| Env.Environment.Put | env.c:98-117 | succeeds exactly when the free bytes and those of the old entry have room for the new one; the name moves to the end, or is gone on failure; the bytes moved are inside the heap exactly when the deletion fits |
| Env.SetReplaces | env.c:98-117 | a bound name gets its new value if and only if the encoding of the other bindings and the new entry fit |
| Env.SetAdds | env.c:98-117 | a new name is bound if and only if its entry fits behind the others |
| Env.NoLongerFits | env.c:98-117 | a value can always be replaced by one that is no longer |
| Env.Environment.Accounting | env.c:98-117 | the bytes in use are the sum over the bindings of both lengths and two |
| Env.Iter.Next | env.c:119-137 | from a fresh iterator the bindings come once each in order, then nothing |
| Env.Collect | env.c:119-137 | a fresh iterator run to its end gives exactly the bindings in their order |
| Env.LookupSet | env.c:86-117 | after a set the other names are as before and the name has its new value if that fitted, none if not |
| Env.LookupIsCurrent | env.c:74-117 | after any history a name has the value of the last operation on it if that was a set that fitted, and none otherwise |
| Env.ReplayIsOrdered | env.c:74-117 | after any history names are distinct, the bound holds and bindings stand in the order they were last set |
| Buffers.Buffer.constructor | buffer.c:27-33 | an initialised buffer is empty and terminated |
| Buffers.Buffer.Reset | buffer.c:21-25 | the buffer is empty and terminated |
| Buffers.Buffer.Add | buffer.c:43-50 | a byte is appended while one place is left for the NUL, and refused otherwise |
| Buffers.Buffer.Consume | buffer.c:35-41 | the first bytes go, the others stay |
| Buffers.KeptSnoc | buffer.c:43-50 | adding byte by byte keeps the first max-1 bytes |
| Csv2.CsvParser.constructor | csv2.c:57-74 | a new parser is at the start of the first field |
| Csv2.CsvParser.NextField | csv2.c:25-37 | reports the field; a refusal is an error, otherwise the next column starts |
| Csv2.CsvParser.NextRow | csv2.c:39-47 | reports the field and, even if it was refused, the end of the row |
| Csv2.CsvParser.TakeByte | csv2.c:83-136 | the switch computes the step function on the buffer in place |
| Csv2.CsvParser.Parse | csv2.c:76-139 | one call computes the step function run over its bytes |
| Csv2.CsvParser.AtEof | csv2.c:141-156 | the end of input is accepted at the start of a field or in a bare one, which is then reported |
| Csv2.Load | csv2.c:158-199 | a file is loaded as its whole text would be, however it is read |
| Csv2.ChunkIndependence | csv2.c:76-139 | whatever the callbacks answer, result, calls and final state do not depend on how the input is cut |
| Csv2.RefusalTruncates | csv2.c:25-139 | the calls made are the ones callbacks that allow everything get, up to the first refused one and the row end behind a refused field; a refusal fails the call, and without one nothing changes |
| Csv2.LoadHeard | csv2.c:141-199 | the same for a whole file, where the refusal of a field that ends with the file is ignored |
| Csv2Grammar.EveryStep | csv2.c:83-136 | whatever the callbacks answer, one byte is refused exactly when no document goes on with it, and otherwise leads to the state of the longer one unless a call is refused |
| Csv2Grammar.AcceptsExactly | csv2.c:76-139 | a call succeeds if and only if its input is the beginning of a document of whose calls none is refused, and then the state is the one described |
| Csv2Grammar.LoadsExactly | csv2.c:158-199 | a file is accepted if and only if it is in the language and no call before its end is refused, and its fields and rows are reported with their numbers up to the first refusal |
| Csv2Grammar.EveryRunIsDescribed | csv2.c:76-139 | every input splits into the longest beginning of a document and what cannot follow, and the calls made are those of that beginning, with its row if it ends in CR LF |
| Csv2Grammar.CrLfRowIsRefused | csv2.c:129-135 | a row that ends in CR LF is reported and then refused |
| Csv1.CsvParser.constructor | csv.h:39-54 | a new parser is at the start of the first slot |
| Csv1.CsvParser.BufAdd | csv.c:23-33 | a byte is appended while one place is left for the NUL |
| Csv1.CsvParser.Report | csv.c:63-78 | reports the field without the NUL that closes it |
| Csv1.CsvParser.TakeByte | csv.c:105-182 | the switch computes the step function on the buffer in place |
| Csv1.CsvParser.Push | csv.c:92-191 | one call computes the step function run over its bytes |
| Csv1.CsvParser.AtEol | csv.c:193-216 | the end of input closes a field in progress and refuses an open quote |
| Csv1.ChunkIndependence | csv.c:92-191 | whatever the callback answers, result, calls and final state, position included, do not depend on how the input is cut |
| Csv1.TakenIsExact | csv.c:92-191 | a call reads everything, or up to the byte at which it fails |
| Csv1.PositionIsExact | csv.c:99-103 | after any call, failed or not, the line is one more than the LFs read and the offset counts the bytes since the last |
| Csv1.RunKeepsWf | csv.c:23-46 | wherever a field may be reported the buffer has room for its NUL |
| Csv1.RefusalTruncates | csv.c:63-191 | the calls made are the ones a callback that allows everything gets, up to the first refused field; a refusal fails the call, and without one nothing changes |
| Csv1Grammar.EveryStep | csv.c:105-182 | whatever the callback answers, one byte is taken exactly when a document goes on with it and no field that it ends is refused, and then leads to the state of the longer one |
| Csv1Grammar.AcceptsExactly | csv.c:92-191 | a call succeeds if and only if its input is the beginning of a document none of whose fields is refused, and then the state is the one described |
| Csv1Grammar.LoadsExactly | csv.c:92-216 | pushing a file in any pieces and closing it succeeds if and only if it is in the language and none of its fields is refused, with exactly its fields and rows reported up to the first refusal |
| Csv1Grammar.EveryRunIsDescribed | csv.c:92-191 | every input splits into the longest beginning of a document and what cannot follow, and the calls made are those of that beginning up to the first refused field |
| Csv1Grammar.EmptyFieldIsSilent | csv.c:110-112 | an empty bare field before a comma makes no call but counts as a column, wherever it stands |
| Csv1Grammar.QuotedBeforeBlankIsLost | csv.c:153-154 | a quoted field with white space behind it is accepted and changes no call, wherever it stands |
| Csv1Grammar.LostRow | csv.c:136-158 | a row that holds only such a field is accepted and reported without fields |
| CsvTables.RoundTrip2 | csv2.c:25-199 | csv2.c reads every printed table back with the right row and column numbers |
| CsvTables.RoundTrip1 | csv.c:92-216 | csv.c takes every printed table that fits it, however it is cut, and reads it back if and only if no bare field is empty or starts with white space |
| CsvTables.ParsersAgree | csv.c:92-216 | on every table that fits both, both parsers succeed and make the same calls if and only if no bare field is empty or starts with white space |
| FixPath.Fix | util.c:28-73 | succeeds exactly when the cleaned path and its NUL fit, which are then in the buffer; nothing outside is written |
| FixPath.BackUp | util.c:48-57 | the output goes back to its last slash, kept unless that would make a relative path absolute |
| FixPath.Lookahead | util.c:40-59 | the lookahead recognises exactly the dot components |
| FixPath.CleanedIsKept | util.c:28-73 | an absolute path loses exactly its dot components; so does a relative one, if and only if no `..` is met at a lone slash |
| FixPath.CleanedByComponent | util.c:35-72 | an absolute path keeps, in order, the components between its slashes that are neither `.` nor `..`, and no output has such a component |
| FixPath.CleanedIsClean | util.c:28-73 | the output has no dot component, is no longer than the path and is left alone by a second call |
| FixPath.BuildPath | mod_static_files.c:54-81 | the path is complete exactly when it fits, and is then base, separator and cleaned URI |
| FixPath.FitsExactly | mod_static_files.c:66-81 | the path is complete if and only if the base leaves two bytes and the whole fits in 4096 with its NUL, but for a base and slash of 4095 bytes, behind which nothing may be kept |
| FixPath.StrippedIsRest | mod_static_files.c:62-64 | what is taken off the URI is its leading slashes, all of them and nothing else |
| FixPath.PathOfFile | mod_static_files.c:66-77 | the cleaned URI stands right behind a base that ends in a slash, and behind one slash after any other base |
| FixPath.TokensOfFile | mod_static_files.c:66-77 | the components of the path are those of the base, closed by a slash, and those of the cleaned URI |
| FixPath.RelativeIsTrimmed | util.c:32-57 | a relative path loses its dot components and the leading lone slashes that a `..` takes back, and becomes absolute if and only if a lone slash is what remains in front |
| FixPath.SlashIsUncovered | util.c:55-57 | a relative path that becomes absolute |
| FixPath.SlashIsTakenBack | util.c:48-57 | a relative path that is not just filtered |
| FixPath.UpIsNotResolved | util.c:40-57 | in an absolute path a `..` behind any component goes and the component stays |
| FixPath.OneByteBuffer | util.c:35-72 | a relative path whose output is empty and which a one-byte buffer does not take |
| FixPath.OpenedPath | mod_static_files.c:62-81 | the string opened is the base, a separator if needed and a suffix without dot components |
| FixPath.OpensAbsolute | mod_static_files.c:62-85 | the path opened is absolute if and only if the base is, or there is none and the URI becomes absolute |
| FixPath.BaseDecides | mod_static_files.c:62-85 | every URI stays relative to the base if and only if there is a base |
| LineStreams.RunLeaves | victory.c:284-296 | what a call leaves in the buffer is the end of its input, and nothing is left when more is wanted |
| LineStreams.ChunkIndependence | victory.c:240-426 | however a request line or header block is cut, outcome, state and leftover are the same |
| RequestLine.LineParser.constructor | victory.c:228-232 | a new line parser is in the method with empty parts |
| RequestLine.LineParser.Parse | victory.c:240-297 | one call computes the step function, leaves the unread bytes in the input buffer and is done exactly when the line is complete |
| RequestLine.LineIsParsed | victory.c:247-289 | each part holds the first max-1 bytes of what was read and exactly what follows the LF is left |
| RequestLine.CompletesExactly | victory.c:240-297 | a request line is complete if and only if the input starts with one |
| Headers.HeadersParser.constructor | victory.c:234-238 | a new header parser is at a first character with empty buffers |
| Headers.HeadersParser.PassOn | victory.c:337-346 | a field is passed to env_set if it has a name, both strings up to their first NUL |
| Headers.HeadersParser.TakeByte | victory.c:334-410 | the switch computes the step function on both buffers in place |
| Headers.HeadersParser.Parse | victory.c:321-426 | one call computes the step function and leaves the unread bytes in the input buffer |
| HeadersGrammar.EveryStep | victory.c:334-410 | the parser goes on exactly when the grammar does, to the state of the longer block |
| HeadersGrammar.BlockIsParsed | victory.c:321-418 | the fields of a block are passed on in order, continuation lines appended, and exactly what follows the blank line is left |
| HeadersGrammar.CompletesExactly | victory.c:321-426 | a header block is complete if and only if the input starts with one |
| HeadersGrammar.EveryRunIsDescribed | victory.c:321-426 | every input splits into the longest beginning of a block and what cannot follow, and the calls made are those of that beginning, whether the call fails or not |
| HeaderAgreement.HeaderParsersAgree | victory.c:321-426 | on canonical blocks the deferred calls of env_set are the header reports of httpparser.c, one for one |
| Services.MatchSubpath | victory.c:601-613 | matches exactly the prefixes that end at a component, and prefix and rest make up the path |
| Services.MatchesByComponent | victory.c:601-613 | a prefix matches if and only if its components are the first of the path; one that ends in a slash only if the path goes on behind them |
| Services.Domain.constructor | victory.c:82-85 | a new domain has no services |
| Services.Domain.Find | victory.c:615-636 | finds a service if and only if some prefix matches, one with the longest, and the rest of the path |
| Services.BestIsLongest | victory.c:615-636 | the service found is one with a matching prefix of which every other matching prefix is a beginning |
| Services.Domain.FindExact | victory.c:638-647 | finds the service of a prefix or that there is none |
| Services.Domain.Register | victory.c:649-689 | adds a service at the head unless its module is unknown or its prefix taken; prefixes stay distinct |
| Services.RegisteredIsFirst | victory.c:649-689 | after any requests each prefix has the module of the first valid request for it |
| Services.BestIsUnique | victory.c:615-636 | the longest matching prefix is unique: lists with the same prefixes have the same best one |
| Services.OrderDoesNotMatter | victory.c:615-689 | the prefix chosen depends only on which prefixes were asked for |
| Channels.BufCheck | channel.c:26-33 | the smaller of the request and the room left |
| Channels.Channel.constructor | channel.c:41-48 | a new channel is open with an empty buffer |
| Channels.Channel.SetDone | channel.c:55-58 | the channel is done |
| Channels.Channel.Fill | channel.c:72-91 | what one read returns is appended to the buffer; nothing read stands for the end |
| Channels.Channel.Send | channel.c:93-111 | writes on through partial writes until all is sent, an error occurs or the channel is done |
| Channels.Channel.SendResponse | httpd.c:91-125 | writes the status line |
| Channels.Channel.SendHeader | httpd.c:127-133 | writes name, separator, value and line end |
| Channels.Channel.SendEndHeaders | httpd.c:135-138 | writes the blank line |
| Channels.UnknownStatus | httpd.c:112-122 | a status goes out as 500 if and only if it is 500 or none of those in the table |
| Channels.StatusLineShape | httpd.c:91-125 | a status goes out as one line with the version and its own digits if it is one of the eight and with those of 500 otherwise |
| Channels.WriteSendsCapacity | channel.c:93-111 | one call sends as much as the socket takes before an error, and fails, which closes the channel, if and only if that is not all |
| Channels.EverythingIsSent | channel.c:93-111 | a socket that takes a byte with every write for as long as there are any gets everything |
| Channels.TextOfCalls | httpd.c:91-138 | the calls mean to send their lines one after the other: status, name and value in this order, blank line, body |
| Channels.WirePrefix | channel.c:93-111 | under any partial writes and errors the bytes sent are a prefix of those intended, and all of them if no write failed; the channel is closed exactly after a failed write or a call of ch_done |
| Httpd.HttpChannel.constructor | httpd.c:231-238 | a new connection has a new parser and no headers |
| Httpd.HttpChannel.OnHeaderDone | httpd.c:157-194 | answers according to the Host found in the headers, and a module according to all of them |
| Httpd.HttpChannel.OnEvent | httpd.c:140-199 | a report sets method and URI, adds a header, answers, or is ignored; a header moves bytes past the heap exactly if its deletion does not fit |
| Httpd.HttpChannel.Serve | httpd.c:201-215 | the loop over reads leaves exactly the connection and the parser that the reports of all chunks call for, and its moves stay inside the heap exactly if those of the reports do |
| Httpd.ServeNew | httpd.c:231-270 | a new connection depends on the stream alone, and its memmoves stay inside the heap if and only if for every repeated header of the stream the headers before the old one and all in effect take at most 2040 bytes |
| Httpd.ReportsDependOnStream | httpd.c:201-215 | method, URI, headers and everything sent depend on the bytes delivered, not on how they arrive |
| Httpd.HostIsNeverStale | httpd.c:149-171 | at header-done the Host is the value of the last header so named if it fitted when set, and nothing otherwise |
| Httpd.HeaderMovesFit | httpd.c:149-155 | however the stream is cut, the moves for the headers that a connection handles fit if and only if the sizes of the headers in its stream meet that bound |
| Httpd.HostTwiceDoesNotFit | httpd.c:149-155 | a legal request whose second Host does not meet the bound |
| Httpd.AnswerIsSent | httpd.c:157-215 | what is sent is a prefix of the intended answer, and all of it if no write failed; the connection is closed exactly if one failed or the answer says so |
| Httpd.RequestIsAnswered | httpd.c:140-215 | a legal request whose headers fit is answered for the first 15 bytes of its method, its Host and the first 511 bytes of its URI: by the module given all headers in order, or with 501 or 500 |
| Httpd.HostMustFit | httpd.c:149-171 | a Host that comes last and does not fit in 2040 bytes beside the other headers gets a 400 |
| Httpd.HostIsNeeded | httpd.c:164-171 | a request without a header named exactly Host gets a 400 |
| HttpAnswers.HeaderIsReadBack | httpd.c:127-133 | a header line that is sent is read back by the request parser as that name and that value |
| HttpAnswers.AnswerText | httpd.c:91-138 | an answer is its status line, its printed headers, a blank line and its body |
| Httpd.RefusalsOnTheWire | httpd.c:157-215 | no Host sends exactly the 400 answer, a parse failure the 500 one, an unknown service the 500 one too, and nothing is sent before any, up to failing writes; only the parse failure leaves the connection open |

## Left out

- Sockets, accept, threads, signals, daemonising and the event loop: reads and writes are arbitrary lists of packets and results.
- The environment functions of victory.c: their lookup takes values for names and their deletion never shrinks the heap. headers_parse records its calls of env_set instead.
- The loops of ht_method and ht_headers: they wait for a result that ch_fill never returns. The parsers they call are modelled.
- grow, wi_grow and wi_start, the registries of ext.c, service.c and module.c, and the callbacks of serv.c: configuration and allocation without a hard property.
- Null callbacks: every parser reports to all its callbacks, and a missing one is one that never refuses.
- Allocation failure, logging and the byte counter that httpparser.c keeps for its messages. The position that csv.c keeps for its messages is modelled, without the wrap-around of a signed counter.
- util_basename: a single expression.
- process_header: it does nothing and always succeeds.
- Httpd.HttpChannel.Serve: the callbacks of one call of the parser are made after it returns. They cannot touch the parser, so only their timing differs.
- Httpd.HttpChannel.OnHeaderDone: the answer of a module is an arbitrary function of method, host, URI and headers. It cannot change the headers, which nothing reads afterwards.
- Channels.Channel.Send: an endless run of writes that take no byte is not modelled; once the list of write results is used up every write fails.
- Env.Environment.TakeOut: what a move that does not fit does to the memory behind the heap; the model has spare room there.
- FixPath.Fix: what the buffer holds after a failure is not stated.
- FixPath.BuildPath: opening the file, its status and its content type.
- Services.Domain.Register: the lookup of the module by name is a parameter.
- Httpd: the module-specific streaming of a file's contents is any list of raw writes.
