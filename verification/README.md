# The iBeacon exchange: server, client and the bytes between them

The repository is a beacon server and its client, speaking HTTP/1.0 over one connection per request. A client
posts `key=value` in the query part of a URL, another asks for a key or for the dump of all keys. This project
models that exchange from the user's key to the text on the screen, and proves how far the whole is a plain map:
exactly as far as the responses fit the client's buffer.

- `CString.dfy`, `Wire.dfy`: `strchr`, `strlen`, `sprintf("%d")` and `strtol` on buffers; header lines; copying.
- `Memory.dfy`: heap blocks that can be freed once, and static constants that cannot be freed.
- `HttpRequests.dfy`, `HttpResponses.dfy`: printing and parsing of requests and responses (sections 4.2, 5.1, 6.1
  and 7.2 of RFC 1945), the query in the URL, and the two records with their destructors.
- `Db.dfy`: the database as a map of terminated byte strings, and the dump of its keys.
- `ServerModel.dfy`: the transition table, each handler as a function on the parameters, steps and runs.
- `Exchange.dfy`: URL classification, and one whole exchange against a definition of the reply that mentions no
  steps, states or error codes.
- `Server.dfy`: the handlers as methods on the shared record, each proved against the functions of `ServerModel`.
- `Client.dfy`, `NcurseCli.dfy`: building and sending a request; receiving, splitting, selecting and showing.
- `EndToEnd.dfy`, `System.dfy`: client and server together.

Conventions. A C string is a sequence without NUL; a buffer is a sequence or an array in which NULs, and whatever
an earlier read left behind, are explicit. A parser function returns `None` where the C code would follow a null
pointer, copy a negative number of bytes or overrun its line buffer; the method that models the same C function
requires that this does not happen. Methods that change a record state the new record by a function of the old one;
what the repository promises is then proved about that function. `hide` statements only narrow what a proof sees.

What the code does where one might expect otherwise, and what is proved about it:

- Request headers come back with one leading space, a response status with one trailing carriage return, and response
  content behind CRLF CRLF, which only `showOneBeacon` removes (`RequestRoundTrip`, `ResponseRoundTrip`).
- Content-Length counts a terminator for stored values and pages, and none for a dump or the answer to a POST
  (`ReplyLength`, `WireIsHeadAndBody`).
- `showAllBeacons` splits a text that lacks the last four bytes of the dump, so the last key loses two characters or
  disappears. `HandedSplit` is the exact law, `HandedSelectionSound` says when only keys can be selected, and
  `HandedSelectionCounterexample` is a database where another string can be.
- The client reads responses into 1024 bytes and measures their end with `strlen`. A value gets through exactly when
  it has at most 894 characters, the page of a 404 at most 882, and a value without a space only in one read
  (`ResponsesFit`, `ReplyObserved`, `ValueDelivery`). The page in the repository has 2012 bytes, so no 404 of the
  shipped server gets through (`ShippedPageIsNotSeen`). The end-to-end theorem says of every answer whether it does
  (`SystemRefinesMap`), and for values and a page that fit it is a plain map (`SystemIsMap`).
- The completion test for a dump does not depend on how much has arrived, and the buffer for a dump is never cleared.
  `DumpCheckIgnoresLength` is the exact condition, `DumpCheckCounterexample` an incomplete dump the test accepts,
  `DumpExchange` what the client makes of every dump the server can send. The test for a stored value is exact
  (`ValueCheckExact`).
- The parsers go by position: header names do not count (`RequestByPosition`, `HeadByPosition`), nor does the path before
  a query (`QueryOfUrl`, `QueryIsAnswered`).
- The word DUMP, selected like a beacon, displays the dump without its last newline (`DumpObserved`).
- The server parses every read by itself, so it receives a request only when that comes in one read
  (`OnlyWholeRequestsAreSafe`).
- `get_html` cuts a page name behind its first 'l', so only names without one are found (`HtmlNameExtraction`).
- `accept_request` returns a state without a table entry for any method but GET and POST, and running
  `build_response` in an error state leads to a state without an entry (`DispatchHasEntry`,
  `BuildFromErrorStateIsStuck`). The user interface of the client prepares PUT for adding a beacon, which the server
  does not serve; values are posted with POST.

## Model

| member | source | states |
|---|---|---|
| CString.StrToLOfItoa | src/http/http_response.c:113-125 | for every integer, reading the decimal Content-Length gives back the size that was printed |
| CString.StrToLReads | src/http/http_response.c:113-125 | the value read from a Content-Length is that of its leading digits, with its sign, whatever follows them |
| CString.ItoaIsDecimal | src/server.c:424 | the size is printed in decimal: the ten digits as themselves, no leading zero, "0" only for zero, a sign exactly for negative numbers |
| CString.CanonicalIsItoa | src/server.c:424 | every numeral without leading zeros is what is printed for its value |
| CString.ItoaFitsBuffer | src/server.c:418-424 | every 32-bit size prints into the 12-byte buffer with its terminator, as a sign if negative and a numeral without leading zeros |
| HttpRequests.ParsedLineShape | src/http/http_request.c:225-259 | any request line that parses is method, space, URL, space, version, one dropped byte and the newline, cut at the first delimiters |
| HttpRequests.ParsedHeaderShape | src/http/http_request.c:209-222 | any header line that parses yields the text from its first space to one byte before the next newline, behind which the next line starts |
| HttpRequests.ParseRequestExtends | src/server.c:545-549 | a complete request parses the same whatever stands behind it in the receive buffer |
| HttpRequests.RequestLineParses | src/http/http_request.c:225-259 | any line of two spaces and a newline parses into the texts between them, less the last byte before the newline, and fails if nothing stands there |
| HttpRequests.HeaderLineParses | src/http/http_request.c:209-222 | any line with a space parses, whatever its name, into the space and what follows, less the last byte before the newline |
| HttpRequests.RequestByPosition | src/http/http_request.c:178-259 | what the parser makes of any line and three header lines, with anything behind: host, user agent and accept by position, whatever the names, if the line fits 50 bytes and has a version, and nothing otherwise |
| HttpRequests.RequestRoundTrip | src/http/http_request.c:178-259 | parsing the printed text of any clean request, with anything behind it, returns method, URL and version exactly and the three header values behind one space; it is defined exactly when the request line fits 50 bytes |
| HttpRequests.RequestArrayHoldsText | src/client.c:238-263 | the computed array size is the length of the printed request, for all field values |
| HttpRequests.EmptyLineIsLast | src/server.c:550-552 | in any list of newline-free lines, two newlines one byte apart occur only at the end |
| HttpRequests.EndCheckIsPrefixFree | src/server.c:547-553 | a prefix of a printed request ends in CRLF CRLF if and only if it is the whole request |
| HttpRequests.ParsedPrefixIsLong | src/http/http_request.c:201-222 | a prefix of a printed request that parses lacks at most its last two bytes |
| HttpRequests.QueryOfUrl | src/http/http_request.c:261-279 | whatever the path before the first '?': the key stands behind it up to the next '=', the value behind that, for every key without '=' and every value |
| HttpRequests.ParsedQueryShape | src/http/http_request.c:261-279 | whatever URL parses is a path without '?', that, a key without '=', that, and the value |
| HttpRequests.QueryRoundTrip | src/client.c:211 | key and value of a built URL come back |
| HttpRequests.QueryDefined | src/http/http_request.c:268-272 | the query parser is defined on exactly the URLs with an '=' behind the first '?' |
| HttpRequests.QueryUrlInjective | src/client.c:211 | different pairs make different URLs |
| HttpRequests.BuiltRequestText | src/client.c:197-263 | every byte of the GET and the POST the client sends, in literals |
| HttpRequests.BuiltRequestFits | src/http/http_request.c:182-192 | a built GET survives the 50-byte line buffer if and only if key and value have at most 32 characters together, a POST at most 31 |
| HttpRequests.HttpRequest.Destroy | src/http/http_request.c:160-170 | every string that is set is freed, each once, and the record; null fields are passed over |
| HttpRequests.ParseHttpRequest | src/http/http_request.c:178-198 | the record holds fresh, distinct strings with exactly the parsed fields |
| HttpRequests.ParseFirstLine | src/http/http_request.c:182-192 | the bounded copy of the line, with stack bytes behind it, parses like the line itself |
| HttpRequests.ParseHeaderLines | src/http/http_request.c:201-206 | three calls set host, user agent and accept, in this order, to fresh strings |
| HttpResponses.ParsedStatusShape | src/http/http_response.c:308-335 | any status line that parses is version, space, code, space, status and newline, cut at the first delimiters |
| HttpResponses.ParsedAttributeShape | src/http/http_response.c:282-297 | any attribute that parses stands between the first space and the next carriage return, where the cursor stays |
| HttpResponses.CursorWalk | src/http/http_response.c:270-297 | over any list of header lines the cursor steps return the values in order and stop at the last carriage return |
| HttpResponses.StatusLineParses | src/http/http_response.c:308-335 | any line of two spaces and a newline parses into the three texts between them |
| HttpResponses.HeadByPosition | src/http/http_response.c:248-297 | what the parser makes of any status line and any five header lines: date, server, last-modified, length and type by position, whatever the names, if the line fits 50 bytes |
| HttpResponses.HeadRoundTrip | src/http/http_response.c:248-279 | status line and headers come back from any buffer in which the carriage return of the last header line has arrived; defined exactly when the status line fits 50 bytes |
| HttpResponses.ResponseRoundTrip | src/http/http_response.c:248-335 | parsing a printed response returns seven fields exactly, the status with a carriage return, the content behind CRLF CRLF |
| HttpResponses.StatusPairs | include/http/http_constants.h:33-43 | the codes and texts of the code map, in literals |
| HttpResponses.StatusLineFits | src/http/http_response.c:252-261 | a status line of the code map fits its buffer if and only if version and status text have at most 43 characters; a version of 17 always fits |
| HttpResponses.ResponseText | src/server.c:505-523 | every byte printed behind the status line of a response with the fixed headers |
| HttpResponses.ResponseArrayArithmetic | src/server.c:489-503 | the array of `send_response` is the header text plus Content-Length bytes, for all field values |
| HttpResponses.WireIsHeadAndBody | src/server.c:505-527 | the bytes written are the printed text, with its terminator exactly when the length counts it, and the body has exactly Content-Length bytes |
| HttpResponses.HttpResponse.Destroy | src/http/http_response.c:228-246 | exactly the non-empty header strings and content are freed |
| HttpResponses.ParseHttpResponse | src/http/http_response.c:248-305 | the record holds fresh, distinct strings with exactly the parsed fields and content |
| HttpResponses.ParseAttributes | src/http/http_response.c:270-279 | five calls return the five attributes in order and the last cursor |
| Db.DumpSizeIgnoresOrder | src/db.c:56-66 | the size of the dump does not depend on the order in which the keys are visited |
| Db.AppendLine | src/db.c:61-64 | one turn of the loop appends key and CRLF at the write pointer and changes nothing behind |
| Db.Database.Store | src/db.c:3-12 | storing replaces or adds one key; the stored bytes are the terminated strings |
| Db.Database.Fetch | src/db.c:14-20 | fetching returns the terminated value of the key, or nothing |
| Db.Database.Delete | src/db.c:22-28 | deleting removes exactly the key and reports whether it was there |
| Db.Database.GetAllData | src/db.c:56-66 | for whatever order of the keys, the buffer starts with their CRLF-terminated concatenation, its length is the sum of key lengths plus two each, and nothing behind it changes |
| NcurseCli.SplitLaw | src/ncurse_cli.c:256-269 | the split loop returns the lines of any dump in order, however its last line is closed |
| NcurseCli.FullBodySplit | src/ncurse_cli.c:249-269 | splitting a whole dump body behind CRLF CRLF yields the empty string and then exactly the keys |
| NcurseCli.DumpInjective | src/db.c:56-66 | the dump determines the sequence of keys without carriage return |
| NcurseCli.HandedSplit | src/ncurse_cli.c:240-269 | the split of the text that is actually handed over: all keys but the last, which loses two characters or, when shorter, disappears |
| NcurseCli.SplitBeacons | src/ncurse_cli.c:249-272 | the loop terminates with exactly the split of the text in the first entries of its table |
| NcurseCli.TableHoldsExactly | src/ncurse_cli.c:255 | the table holds the entries of a whole dump if and only if there are at most 99 keys of at most 34 characters, and then those of the cut one |
| NcurseCli.KeyExistInServer | src/ncurse_cli.c:321-329 | the search answers whether the line is among the entries |
| NcurseCli.SelectBeacon | src/ncurse_cli.c:277-286 | the selection loop ends with the first typed line that is not empty and among the entries, and goes on while there is none |
| NcurseCli.FullSelectionSound | src/ncurse_cli.c:279-286 | with the whole body split, exactly the non-empty keys can be selected |
| NcurseCli.HandedSelectionSound | src/ncurse_cli.c:240-286 | with the text handed over, only keys can be selected if and only if the last key has at most two characters or its truncation is a key |
| NcurseCli.HandedSelectionCounterexample | src/ncurse_cli.c:240-286 | with the single key "abc", the string "a" can be selected |
| NcurseCli.ShowAllBeacons | src/ncurse_cli.c:232-289 | the text built from the response is split and counted; the selection is the first typed line that is on the list and not empty, and there is none while no line is |
| NcurseCli.ValueCheckExact | src/ncurse_cli.c:393-411 | for any part of a value response that has all headers, in a zero-filled buffer, the completion test holds if and only if the response is whole, and then points at the value |
| NcurseCli.DumpCheckIgnoresLength | src/ncurse_cli.c:344-360 | for any part of a dump response that has all headers, in a buffer of 1024 arbitrary bytes: `strlen` stops in the buffer if and only if there is a NUL behind what was read, and then the completion test holds if and only if that is the next byte |
| NcurseCli.HeadIsNeeded | src/ncurse_cli.c:393-402 | a first read parses only if it holds the whole head |
| NcurseCli.FullReadsExact | src/ncurse_cli.c:393-411 | with reads as large as they can be, the read loop is defined on a value or page response if and only if the whole response fits 1024 bytes, and then ends with all of it in the buffer |
| NcurseCli.CutInTwoExact | src/ncurse_cli.c:399-411 | any value response cut in two gets through if and only if the first part holds the whole head and Content-Length bytes and the second can be checked as a response of its own |
| NcurseCli.ValueReadsExact | src/ncurse_cli.c:399-411 | however the bytes of a response without a space in its body are divided into reads, the read loop is defined on them if and only if there is one read and it fits the buffer |
| NcurseCli.GetOneBeacon | src/ncurse_cli.c:393-415 | the read loop ends at the first read after which the test holds, and the record is the parse of that buffer |
| NcurseCli.ShownExactly | src/ncurse_cli.c:299-308 | what is displayed is the body short of its length less one: the value without its terminator, a dump without its last byte; it is defined if and only if the length is between one and one more than the body |
| NcurseCli.ShowOneBeacon | src/ncurse_cli.c:299-308 | the text displayed is the content behind CRLF CRLF, one byte short of Content-Length |
| ServerModel.TableLookup | src/server.c:59-81 | the handler of a pair of states is the one the table lists, and only one is listed |
| ServerModel.ErrorEntries | src/server.c:59-81 | a GET can fail only with a 404, a POST and the states before only with a 500, and a run can end only in SERVER_INIT |
| ServerModel.ReceivedExactly | src/server.c:545-554 | for any division into reads, the request kept is that of the first read ending in CRLF CRLF, or of the last; the loop is defined if and only if every read up to it has at most 8192 bytes and parses |
| ServerModel.AcceptedExactly | src/server.c:282-329 | the first connection that delivers anything is served, whatever stands before and behind |
| ServerModel.DispatchWords | src/server.c:318-329 | the word "GET" leads to HTTP_GET, "POST" to HTTP_POST, and any other to the end of the run |
| ServerModel.BuildDescribes | src/server.c:410-478 | after `build_response` the printed length reads back as the current size and describes the attached content, the file 404.html for a 404; the status line has the version of the request and "200 OK", "404 File Not Found" or "500 HTTP Internal Server Error" by the error |
| ServerModel.StepKeepsInv | src/server.c:157-536 | in every error-free step on a GET or POST the handler can run, its result has a table entry, the records are live exactly where they may be, and the rank counts down to the next response |
| ServerModel.RunInvariant | src/server.c:59-81 | over all runs: the invariant, at most one request in flight, and a response at every fifth step |
| ServerModel.ServerThroughput | src/server.c:59-81 | n steps from the start accept (n + 3) / 5 requests and send n / 5 responses |
| ServerModel.DanglingUntilInit | src/server.c:157-162 | a destroyed record stays in the parameters only until `init_server`, which runs next and does not depend on it |
| ServerModel.DispatchHasEntry | src/server.c:318-329 | the state returned by `accept_request` has an entry if and only if the method is GET or POST |
| ServerModel.BuildFromErrorStateIsStuck | src/server.c:63-77 | `build_response` leads to a state with an entry if and only if it ran in state BUILD_RESPONSE |
| Exchange.IsHtmlExactly | src/server.c:618-633 | a URL is a page if and only if "html" follows its first '.' |
| Exchange.IsQueryExactly | src/server.c:635-641 | a URL is a query if and only if it contains '?' and '=' anywhere |
| Exchange.BuiltUrlIsServable | src/client.c:211 | every built URL is a query with its pair, and no handler fails on it |
| Exchange.ServableExactly | src/server.c:335-408 | for every URL: a POST can be handled if and only if an '=' stands behind its first '?'; a GET if and only if it has a '/', an 'l' behind that if it is a page, and an '=' behind the first '?' if it is a query and no page |
| Exchange.DispatchClassification | src/server.c:346-386 | a GET for any path, key and value looks its key up if and only if the first '.' of the URL is not followed by "html"; otherwise the database has no influence |
| Exchange.HtmlNameExactly | src/server.c:571-582 | the file name runs from behind the first '/', wherever it is, to the first 'l' behind that; for a 404 it is "404.html" |
| Exchange.HtmlNameExtraction | src/server.c:571-582 | the file name is the URL without its slash if and only if the page name has no 'l', and otherwise ends behind its first 'l' |
| Exchange.OnlyWholeRequestsAreSafe | src/server.c:539-554 | however the bytes of a clean request are divided into reads, the read loop is defined on them if and only if there is one read, whose request line fits 50 bytes and whose text fits the buffer; it then receives what was printed |
| Exchange.GetThenBuild | src/server.c:335-478 | for every servable GET, `http_get` and `build_response` together make the defined reply |
| Exchange.ServeIsRun | src/server.c:59-81 | an exchange is a run of five steps |
| Exchange.ExchangeLaw | src/server.c:157-536 | five steps from idle to idle send exactly the defined reply, store a POST, and change nothing else on disk |
| Exchange.ReplyOnWire | src/server.c:464-527 | every reply on the wire: its length reads back, its bytes are head, body and terminator if counted |
| Exchange.ReplyLength | src/server.c:359-384 | on every path the length is the body, plus one except for a dump and a POST |
| Exchange.ReplyIgnoresValue | src/server.c:358-371 | the reply to a GET that reaches the database does not depend on the value in the URL |
| Exchange.PostIsAnswered | src/server.c:390-408 | a POST stores the pair of its URL, whatever the path, and is answered by an empty 200 |
| Exchange.PageIsAnswered | src/server.c:346-355 | a GET for a page is answered by the file of the extracted name, or by the 404 page |
| Exchange.QueryIsAnswered | src/server.c:356-378 | a GET for a query that is no page, whatever the path: "DUMP" is answered by the dump, or a 404 if there are no keys; any other key by its value with its terminator, or a 404 |
| Exchange.OtherIsAnswered | src/server.c:380-386 | a GET that is neither page nor query is answered 404 |
| Exchange.LookUpLaw | src/server.c:346-386 | a GET for a query, whatever the path, is answered from the database whatever is in it, if and only if its key is not "DUMP" and the first '.' of its URL is not followed by "html" |
| Server.ServerParams.InitServer | src/server.c:157-192 | the parameters are zeroed and the same database is opened |
| Server.ServerParams.ReceiveData | src/server.c:539-554 | the read loop, on a buffer that keeps old bytes, leaves the request of the read it ends with |
| Server.ServerParams.AcceptRequest | src/server.c:282-329 | the accept loop passes over empty connections, and the next state goes by the method |
| Server.ServerParams.GetHtml | src/server.c:556-616 | the page of the extracted name is attached with its length, or nothing changes; the name is freed |
| Server.ServerParams.QueryDatabase | src/server.c:359-378 | content, size and error after the database branch, for a value, a missing key, a dump and an empty dump |
| Server.ServerParams.HttpGet | src/server.c:335-388 | the parameters afterwards are those of the machine, and the request is untouched |
| Server.ServerParams.HttpPost | src/server.c:390-408 | the pair of the URL is stored and the parameters are unchanged |
| Server.ServerParams.BuildResponse | src/server.c:410-445 | the response is the one of the machine; it owns new header strings, shares content and version, and borrows code and status |
| Server.ServerParams.PrintResponse | src/server.c:489-523 | the array written has exactly the bytes of the wire format |
| Server.ServerParams.SendResponse | src/server.c:481-536 | the response is written; then every request string and every non-empty response string is freed, the shared version once and no code map constant |
| Server.DestroyQuery | src/http/http_request.c:281-297 | both strings of the query are freed |
| Server.ServeExchange | src/server.c:157-536 | the handlers, run on the shared record, write the defined reply and leave the database as defined |
| EndToEnd.ReplyTexts | src/server.c:410-527 | every byte of the answers to a GET for a value, for a missing key and for the dump, and to a POST, in literals |
| EndToEnd.ResponsesFit | src/ncurse_cli.c:344-350 | a value response fits 1024 bytes if and only if the value has at most 894 characters, a 404 if and only if its page has at most 882, a dump if and only if it has at most 895 |
| EndToEnd.CleanOpExactly | src/http/http_request.c:182-192 | the side conditions of a session in lengths: clean key and value of 32 characters together in a GET, of 31 in a POST, and for a GET a key that is neither "DUMP" nor mistaken for a page |
| EndToEnd.ReplyObserved | src/ncurse_cli.c:291-308 | every value or page sent goes through the read loop; code and body are seen as they were sent if and only if the response fits the buffer, and otherwise the loop is not defined |
| EndToEnd.ValueDelivery | src/ncurse_cli.c:399-411 | a value without a space gets through, for any division into reads, if and only if there is one read and the value has at most 894 characters |
| EndToEnd.AnswerObserved | src/ncurse_cli.c:399-415 | the client sees the answer of the map, a value or the page with code 404, if and only if it fits |
| EndToEnd.ShippedPageIsNotSeen | src/ncurse_cli.c:399-411 | a GET for a key that is not there, answered with a page of 2012 bytes, makes the client measure a string that starts before its buffer |
| EndToEnd.OperationRefines | src/server.c:335-408 | one POST or GET over the wire keeps the simulation of a plain map, sends the reply of the map, and shows the map's answer if and only if it fits the client's buffer |
| EndToEnd.SystemRefinesMap | src/server.c:335-408 | over every finite session of clean operations, from any database, the client sees exactly those answers of a plain map that fit its buffer, in order |
| EndToEnd.SystemIsMap | src/server.c:59-81 | from the start of the server, with stored values of at most 894 characters and a 404 page of at most 882, client and server are a plain map over every session |
| EndToEnd.LastPostIsDisplayed | src/ncurse_cli.c:291-303 | after any session a GET displays the value last posted for its key; if there was none, the value on disk or the page with code 404, if and only if that fits |
| EndToEnd.DumpExchange | src/ncurse_cli.c:331-360 | a GET for "DUMP" is answered by the dump and changes nothing; it arrives whole if and only if it has at most 895 characters; in a buffer of arbitrary bytes it can be checked if and only if a NUL stands behind it, and then its split follows the exact law and the test holds if and only if that NUL is next |
| EndToEnd.DumpObserved | src/ncurse_cli.c:291-308 | a dump that goes through the loop of `getOneBeacon` is displayed without its last newline if it has fewer than 895 characters, and otherwise overruns the buffer |
| EndToEnd.DumpCheckCounterexample | src/ncurse_cli.c:350-360 | the completion test accepts the dump of the key "k" one byte short, in a buffer of zeros |
| EndToEnd.SelectionIsServed | src/ncurse_cli.c:279-286 | with the whole body split, a selected beacon is in the database and the GET that follows is answered with its value, which is displayed if it fits |
| EndToEnd.HandedSelectionIsServed | src/ncurse_cli.c:240-286 | with the text handed over, the GET after a selection is answered 200 if and only if the line is a key, and a line that is none is the last key without its last two characters; all selections are answered 200 if and only if the last key has at most two characters or its truncation is a key |
| Client.ClientParams.BuildRequest | src/client.c:197-228 | the request has the built URL and the constant fields in strings of its own |
| Client.ClientParams.SendRequest | src/client.c:231-283 | the array of the computed size, all of it, is the printed request |
| System.Transmit | src/client.c:197-263 | building, sending and serving one operation writes the defined reply and applies the operation to the database |
| System.LookUp | src/ncurse_cli.c:378-428 | looking up a key whose answer fits displays its value, or the page when it is not there, and leaves the database alone |
| System.AskForDump | src/ncurse_cli.c:331-375 | the request for the dump is built, sent and served, and the record parsed from a buffer that was never cleared holds the dump; the database is unchanged |
| System.Browse | src/ncurse_cli.c:232-428 | a whole visit: the dump is asked for and offered, and the first typed line on the list is looked up and its answer displayed; with no such line, none was on the list |
| System.PublishThenLookUp | src/server.c:390-408 | a published value is displayed by the look-up that follows |

## Left out

- Sockets, signals, name resolution and the `dc_*` wrappers: a connection is the sequence of chunks its reads deliver.
- RunInvariant: error-free runs only, as the error transitions have no table entry to continue with; `dc_error` is not modelled.
- ndbm and its file: a finite map whose keys are visited once each, in any order.
- Server.ServerParams.GetHtml: reading the file is a lookup in a map from names to texts; the absolute path and the read loop are not modelled, and the page for a 404 is taken to exist.
- Server.ServerParams.PrintResponse: for a dump or a POST the printed terminator does not fit the computed array; only the bytes inside the array, which are the ones written, are modelled. The same holds for `send_request`.
- Server.ServerParams.BuildResponse: content replaced by the page of a 404 is not freed by the code; that such blocks are never freed is not counted.
- ParseHttpRequest: requires a message in which every delimiter is found and whose request line fits its buffer, because the code has no defined behaviour otherwise; likewise ParseHttpResponse.
- Terminators that intermediate copies of strings lack, allocation failure, and the URL allocation of `build_request`: heap strings are sequences.
- Client.ClientParams.BuildRequest: a null value, which prints as the C library pleases, is an arbitrary value text.
- NcurseCli.SplitBeacons: requires at most 100 beacons of fewer than 35 characters, the size of the table.
- NcurseCli.GetOneBeacon: requires at least one read and a buffer that can be checked after each, because the code has no defined behaviour otherwise; FullReadsExact and ValueReadsExact say when that is so.
- EndToEnd.DumpExchange: one read of `getAllListOfBeacons` and its completion test; further reads of a dump are not modelled.
- System.Browse: requires that the dump gets through in one read and that every typed line is a clean key whose answer fits; for other lines HandedSelectionIsServed and ReplyObserved say what is sent and whether it is seen.
- EndToEnd.ValueDelivery: a value with a space may contain a status line of its own; for such values CutInTwoExact gives the condition for two reads, and more than two are not treated.
- `strtol` on text with leading white space or '+', and beyond the range of `long`.
- Windows, drawing, the keyboard and the client's own state machine: user interface.
- `src/ib_cli.c`, which is commented out, `sendPUTrequest`, a stub, the Android files and the tests, which have no cases.
