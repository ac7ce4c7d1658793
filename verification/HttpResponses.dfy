/** The response half of the wire format (http_response.c, and the printer
    `send_response` of server.c): Status-Line, headers and body as in sections
    6.1, 4.2 and 7.2 of RFC 1945. */
module HttpResponses {
  import opened CString
  import opened Memory
  import opened Wire

  const STAT_LINE_BUFF := 50

  const STATUS_LINE_SPACE := 4
  const SPACE_RN_LEN := 3
  const RN_LEN := 2
  const DATE_LEN := 5
  const SERV_LEN := 7
  const LAST_MOD_LEN := 14
  const CONTENT_LENGTH_LEN := 15
  const CONTENT_TYPE_LEN := 13

  const HTTP_DATE: string := "unknown"
  const HTTP_SERVER: string := "MegaFucker 5000"
  const HTTP_LAST_MODIFIED: string := "unknown"
  const HTTP_CONTENT_TYPE: string := "text/html"

  datatype Response = Response(version: string, code: string, status: string, date: string, server: string,
                               lastModified: string, contentLength: string, contentType: string, content: string)

  datatype StatusCode = OKAY | FILE_NOT_FOUND | BAD_REQUEST | SERVER_ERROR | VERSION_NOT_SUPPORTED

  /** `status_code_map`: code and status. */
  function StatusPair(s: StatusCode): (string, string) {
    match s
    case OKAY => ("200", "OK")
    case FILE_NOT_FOUND => ("404", "File Not Found")
    case BAD_REQUEST => ("400", "Bad Request")
    case SERVER_ERROR => ("500", "HTTP Internal Server Error")
    case VERSION_NOT_SUPPORTED => ("505", "HTTP Version Not Supported")
  }

  // ------------------------------------------------------------- printing

  function StatusLine(r: Response): string {
    r.version + " " + r.code + " " + r.status + CRLF
  }

  /** A header line with its CRLF, and what follows. */
  function Line(name: string, value: string, rest: string): string {
    name + " " + value + CRLF + rest
  }

  /** The header lines, without the CRLF of the last. */
  function Headers(r: Response): string {
    Line("Date:", r.date,
    Line("Server:", r.server,
    Line("Last-Modified:", r.lastModified,
    Line("Content-Length:", r.contentLength,
    "Content-Type:" + " " + r.contentType))))
  }

  /** The text up to the '\r' of the last header line: all the parser needs. */
  function Head(r: Response): string {
    StatusLine(r) + Headers(r)
  }

  /** What `send_response` prints. */
  function Render(r: Response): string {
    Head(r) + CRLF + CRLF + r.content
  }

  /** The size `send_response` computes for its local array. */
  function ResponseArraySize(r: Response): int {
    |r.version| + |r.code| + |r.status| + STATUS_LINE_SPACE
    + DATE_LEN + |r.date| + SPACE_RN_LEN
    + SERV_LEN + |r.server| + SPACE_RN_LEN
    + LAST_MOD_LEN + |r.lastModified| + SPACE_RN_LEN
    + CONTENT_LENGTH_LEN + |r.contentLength| + SPACE_RN_LEN
    + CONTENT_TYPE_LEN + |r.contentType| + SPACE_RN_LEN + RN_LEN
    + StrToL(r.contentLength)
  }

  /** The bytes `send_response` writes to the socket: the array holds the printed
      text, or its start, and the terminator when there is room for it. */
  function WireOf(r: Response): string {
    var printed := Render(r) + [NUL];
    if 0 <= ResponseArraySize(r) <= |printed| then printed[..ResponseArraySize(r)] else printed
  }

  // ------------------------------------------------------------- parsing

  /** `parse_status_line`; the status runs up to the newline. */
  function ParseStatusLine(line: string): Option<Response> {
    var versionEnd :- StrChr(line, ' ', 0);
    var codeEnd :- StrChr(line, ' ', versionEnd + 1);
    var statusEnd :- StrChr(line, '\n', codeEnd + 1);
    Some(Response(line[..versionEnd], line[versionEnd + 1..codeEnd], line[codeEnd + 1..statusEnd],
                  "", "", "", "", "", ""))
  }

  /** `parse_response_line`: the attribute and the position of its '\r'. */
  function ParseResponseLine(text: string, headerLine: nat): Option<(string, nat)> {
    var space :- StrChr(text, ' ', headerLine);
    var end :- StrChr(text, '\r', space + 1);
    Some((text[space + 1..end], end))
  }

  datatype Attributes = Attributes(date: string, server: string, lastModified: string,
                                   contentLength: string, contentType: string)

  /** The five cursor steps of `parse_response_lines`, and where the cursor stops. */
  function ParseResponseLines(text: string, headerLines: nat): Option<(Attributes, nat)> {
    var (date, p1) :- ParseResponseLine(text, headerLines);
    var (server, p2) :- ParseResponseLine(text, p1);
    var (lastModified, p3) :- ParseResponseLine(text, p2);
    var (contentLength, p4) :- ParseResponseLine(text, p3);
    var (contentType, p5) :- ParseResponseLine(text, p4);
    Some((Attributes(date, server, lastModified, contentLength, contentType), p5))
  }

  function ParseHead(message: string): Option<(Response, nat)> {
    var lineEnd :- StrChr(message, '\n', 0);
    if lineEnd + 1 > STAT_LINE_BUFF then None
    else
      var r :- ParseStatusLine(message[..lineEnd + 1]);
      var (a, end) :- ParseResponseLines(message, lineEnd + 1);
      Some((r.(date := a.date, server := a.server, lastModified := a.lastModified,
               contentLength := a.contentLength, contentType := a.contentType), end))
  }

  /** `parse_http_response`: the content is the C string at the '\r' where the
      header cursor stopped. */
  function ParseResponse(message: string): Option<Response> {
    var (r, end) :- ParseHead(message);
    if end > |message| then None else Some(r.(content := CStr(message, end)))
  }

  // ------------------------------------------------- what any parse result means

  /** Whatever status line parses consists of version, space, code, space, status
      and the newline. */
  lemma ParsedStatusShape(line: string)
    requires ParseStatusLine(line).Some?
    ensures var r := ParseStatusLine(line).value;
      && Free(r.version, ' ') && Free(r.code, ' ') && Free(r.status, '\n')
      && r.version + " " + r.code + " " + r.status + "\n" <= line
  {
    hide StrChr;
    var versionEnd := StrChr(line, ' ', 0).value;
    var codeEnd := StrChr(line, ' ', versionEnd + 1).value;
    var statusEnd := StrChr(line, '\n', codeEnd + 1).value;
    StrChrCuts(line, ' ', 0);
    StrChrCuts(line, ' ', versionEnd + 1);
    StrChrCuts(line, '\n', codeEnd + 1);
    assert line[..statusEnd + 1] == line[..versionEnd] + " " + line[versionEnd + 1..codeEnd] + " "
                                    + line[codeEnd + 1..statusEnd] + "\n";
  }

  /** Whatever header line parses: the attribute stands behind the first space and
      stops at the first '\r' behind it, where the cursor stays. */
  lemma ParsedAttributeShape(text: string, headerLine: nat)
    requires ParseResponseLine(text, headerLine).Some?
    ensures var (attr, end) := ParseResponseLine(text, headerLine).value;
      && headerLine + |attr| < end < |text| && text[end] == '\r'
      && text[end - |attr|..end] == attr && text[end - |attr| - 1] == ' ' && Free(attr, '\r')
      && Free(text[headerLine..end - |attr| - 1], ' ')
  {
    hide StrChr;
    StrChrCuts(text, ' ', headerLine);
    StrChrCuts(text, '\r', StrChr(text, ' ', headerLine).value + 1);
  }

  // ------------------------------------------------------------ round trip

  predicate CleanStatus(r: Response) {
    && Free(r.version, ' ') && Free(r.version, '\n')
    && Free(r.code, ' ') && Free(r.code, '\n') && Free(r.status, '\n')
  }

  predicate CleanHead(r: Response) {
    && CleanStatus(r)
    && Free(r.date, '\r') && Free(r.server, '\r') && Free(r.lastModified, '\r')
    && Free(r.contentLength, '\r') && Free(r.contentType, '\r')
  }

  /** What comes back of the head: the status keeps its carriage return. */
  function Returned(r: Response, content: string): Response {
    r.(status := r.status + "\r", content := content)
  }

  lemma StatusLineCuts(t: string, v: string, c: string, s: string)
    requires At(t, 0, v + " " + c + " " + s + "\n")
    requires Free(v, ' ') && Free(c, ' ') && Free(s, '\n')
    ensures StrChr(t, ' ', 0) == Some(|v|)
    ensures StrChr(t, ' ', |v| + 1) == Some(|v| + 1 + |c|)
    ensures StrChr(t, '\n', |v| + |c| + 2) == Some(|v| + |c| + 2 + |s|)
    ensures At(t, 0, v) && At(t, |v| + 1, c) && At(t, |v| + |c| + 2, s)
  {
    hide StrChr, At;
    AtSplit3(t, 0, v + " " + c + " ", s, "\n");
    AtSplit4(t, 0, v, " ", c, " ");
    StrChrBehind(t, ' ', 0, v, " ");
    StrChrBehind(t, ' ', |v| + 1, c, " ");
    StrChrBehind(t, '\n', |v| + |c| + 2, s, "\n");
  }

  /** Any line of two spaces and a newline parses as a status line. */
  lemma StatusLineParses(t: string, v: string, c: string, s: string)
    requires At(t, 0, v + " " + c + " " + s + "\n")
    requires Free(v, ' ') && Free(c, ' ') && Free(s, '\n')
    ensures ParseStatusLine(t) == Some(Response(v, c, s, "", "", "", "", "", ""))
  {
    hide StrChr, Free;
    StatusLineCuts(t, v, c, s);
  }

  lemma StatusLineRoundTrip(t: string, r: Response)
    requires CleanStatus(r) && At(t, 0, StatusLine(r))
    ensures ParseStatusLine(t) == Some(Response(r.version, r.code, r.status + "\r", "", "", "", "", "", ""))
  {
    hide StrChr, ParseStatusLine, At;
    assert StatusLine(r) == r.version + " " + r.code + " " + (r.status + "\r") + "\n";
    StatusLineParses(t, r.version, r.code, r.status + "\r");
  }

  lemma StatusLineIsFirstLine(t: string, r: Response)
    requires CleanStatus(r) && At(t, 0, StatusLine(r))
    ensures StrChr(t, '\n', 0) == Some(|StatusLine(r)| - 1)
  {
    var body := r.version + " " + r.code + " " + r.status;
    AtSplit(t, 0, body, CRLF);
    LineEnd(t, 0, body);
  }

  /** Header lines as a list of names and values, CRLF between them. */
  function HeaderText(hs: seq<(string, string)>): string {
    if hs == [] then ""
    else if |hs| == 1 then hs[0].0 + " " + hs[0].1
    else Line(hs[0].0, hs[0].1, HeaderText(hs[1..]))
  }

  /** The cursor steps from `cursor` return the values of `hs` in order and stop at `end`. */
  ghost predicate Walks(text: string, cursor: nat, hs: seq<(string, string)>, end: nat)
    decreases hs
  {
    if hs == [] then cursor == end
    else
      var line := ParseResponseLine(text, cursor);
      line.Some? && line.value.0 == hs[0].1 && Walks(text, line.value.1, hs[1..], end)
  }

  predicate CleanHeaders(hs: seq<(string, string)>) {
    forall h | h in hs :: Free(h.0, ' ') && Free(h.1, '\r')
  }

  /** One step of the header cursor: over the rest of the line before and the name
      to the '\r' behind the value. */
  lemma CursorStep(t: string, cursor: nat, gap: string, name: string, value: string)
    requires At(t, cursor, gap + (name + " " + value)) && At(t, cursor + |gap + (name + " " + value)|, "\r")
    requires Free(gap, ' ') && Free(name, ' ') && Free(value, '\r')
    ensures ParseResponseLine(t, cursor) == Some((value, cursor + |gap + (name + " " + value)|))
  {
    hide StrChr;
    AtSplit(t, cursor, gap, name + " " + value);
    AtSplit3(t, cursor + |gap|, name, " ", value);
    AtSplit(t, cursor, gap, name);
    StrChrBehind(t, ' ', cursor, gap + name, " ");
    StrChrBehind(t, '\r', cursor + |gap| + |name| + 1, value, "\r");
  }

  /** The cursor steps return the values in order, whatever the names, and the
      cursor stops at the '\r' behind the last. */
  lemma {:induction false} CursorWalk(t: string, cursor: nat, gap: string, hs: seq<(string, string)>)
    requires hs != [] && CleanHeaders(hs) && Free(gap, ' ')
    requires At(t, cursor, gap + HeaderText(hs)) && At(t, cursor + |gap + HeaderText(hs)|, "\r")
    ensures Walks(t, cursor, hs, cursor + |gap + HeaderText(hs)|)
    decreases hs
  {
    hide ParseResponseLine;
    var (name, value) := hs[0];
    var line := name + " " + value;
    assert hs[0] in hs;
    if |hs| == 1 {
      assert HeaderText(hs) == line;
      CursorStep(t, cursor, gap, name, value);
    } else {
      var tail := HeaderText(hs[1..]);
      assert gap + HeaderText(hs) == gap + line + (CRLF + tail);
      var next := cursor + |gap + line|;
      AtSplit(t, cursor, gap + line, CRLF + tail);
      FirstOf(t, next, tail);
      CursorStep(t, cursor, gap, name, value);
      CursorWalk(t, next, CRLF, hs[1..]);
    }
  }

  lemma FirstOf(t: string, p: nat, tail: string)
    requires At(t, p, CRLF + tail)
    ensures At(t, p, "\r")
  {
    assert CRLF + tail == "\r" + ("\n" + tail);
    AtSplit(t, p, "\r", "\n" + tail);
  }

  function HeaderList(r: Response): seq<(string, string)> {
    [("Date:", r.date), ("Server:", r.server), ("Last-Modified:", r.lastModified),
     ("Content-Length:", r.contentLength), ("Content-Type:", r.contentType)]
  }

  lemma HeaderTextUnfolds(h: (string, string), hs: seq<(string, string)>)
    requires hs != []
    ensures HeaderText([h] + hs) == Line(h.0, h.1, HeaderText(hs))
  {
    assert ([h] + hs)[1..] == hs;
  }

  lemma FiveLines(h1: (string, string), h2: (string, string), h3: (string, string),
                  h4: (string, string), h5: (string, string))
    ensures HeaderText([h1, h2, h3, h4, h5]) ==
      Line(h1.0, h1.1, Line(h2.0, h2.1, Line(h3.0, h3.1, Line(h4.0, h4.1, h5.0 + " " + h5.1))))
  {
    HeaderTextUnfolds(h4, [h5]);
    HeaderTextUnfolds(h3, [h4, h5]);
    HeaderTextUnfolds(h2, [h3, h4, h5]);
    HeaderTextUnfolds(h1, [h2, h3, h4, h5]);
    assert [h4] + [h5] == [h4, h5] && [h3] + [h4, h5] == [h3, h4, h5];
    assert [h2] + [h3, h4, h5] == [h2, h3, h4, h5] && [h1] + [h2, h3, h4, h5] == [h1, h2, h3, h4, h5];
  }

  lemma HeaderListIsClean(r: Response)
    requires CleanHead(r)
    ensures CleanHeaders(HeaderList(r))
    ensures HeaderText(HeaderList(r)) == Headers(r)
  {
    hide HeaderText, Line, Free, CleanStatus;
    NamesAreClean();
    var hs := HeaderList(r);
    assert forall h | h in hs :: h == hs[0] || h == hs[1] || h == hs[2] || h == hs[3] || h == hs[4];
    HeadersAreLines(r);
  }

  lemma NamesAreClean()
    ensures Free("Date:", ' ') && Free("Server:", ' ') && Free("Last-Modified:", ' ')
    ensures Free("Content-Length:", ' ') && Free("Content-Type:", ' ')
  {
  }

  lemma HeadersAreLines(r: Response)
    ensures HeaderText(HeaderList(r)) == Headers(r)
  {
    hide HeaderText, Line;
    FiveLines(("Date:", r.date), ("Server:", r.server), ("Last-Modified:", r.lastModified),
              ("Content-Length:", r.contentLength), ("Content-Type:", r.contentType));
  }

  lemma FiveSteps(text: string, p: nat, hs: seq<(string, string)>, end: nat)
    requires |hs| == 5 && Walks(text, p, hs, end)
    ensures ParseResponseLines(text, p) == Some((Attributes(hs[0].1, hs[1].1, hs[2].1, hs[3].1, hs[4].1), end))
  {
    hide ParseResponseLine;
    var p1 := ParseResponseLine(text, p).value.1;
    var hs1 := hs[1..];
    assert Walks(text, p1, hs1, end);
    var p2 := ParseResponseLine(text, p1).value.1;
    var hs2 := hs1[1..];
    assert Walks(text, p2, hs2, end);
    var p3 := ParseResponseLine(text, p2).value.1;
    var hs3 := hs2[1..];
    assert Walks(text, p3, hs3, end);
    var p4 := ParseResponseLine(text, p3).value.1;
    assert Walks(text, p4, hs3[1..], end);
  }

  /** What the parser makes of any status line and any five header lines: the header
      names do not count, only their order. */
  lemma HeadByPosition(t: string, v: string, c: string, s: string, hs: seq<(string, string)>)
    requires Free(v, ' ') && Free(v, '\n') && Free(c, ' ') && Free(c, '\n') && Free(s, '\n')
    requires |hs| == 5 && CleanHeaders(hs)
    requires At(t, 0, v + " " + c + " " + s + "\n" + HeaderText(hs) + "\r")
    ensures ParseHead(t) ==
      if |v| + |c| + |s| + 3 > STAT_LINE_BUFF then None
      else Some((Response(v, c, s, hs[0].1, hs[1].1, hs[2].1, hs[3].1, hs[4].1, ""),
                 |v| + |c| + |s| + 3 + |HeaderText(hs)|))
  {
    hide StrChr, ParseStatusLine, ParseResponseLines, HeaderText, Walks, CleanHeaders;
    var line := v + " " + c + " " + s + "\n";
    AtSplit3(t, 0, line, HeaderText(hs), "\r");
    FirstNewline(t, v + " " + c + " " + s);
    assert t[..|line|] == line;
    StatusLineParses(line, v, c, s);
    assert "" + HeaderText(hs) == HeaderText(hs);
    CursorWalk(t, |line|, "", hs);
    FiveSteps(t, |line|, hs, |line| + |HeaderText(hs)|);
  }

  lemma FirstNewline(t: string, line: string)
    requires Free(line, '\n') && At(t, 0, line + "\n")
    ensures StrChr(t, '\n', 0) == Some(|line|)
  {
    AtSplit(t, 0, line, "\n");
    StrChrBehind(t, '\n', 0, line, "\n");
  }

  lemma HeadersRoundTrip(t: string, r: Response)
    requires CleanHead(r) && At(t, |StatusLine(r)|, Headers(r)) && At(t, |Head(r)|, "\r")
    ensures ParseResponseLines(t, |StatusLine(r)|) ==
      Some((Attributes(r.date, r.server, r.lastModified, r.contentLength, r.contentType), |Head(r)|))
  {
    hide Walks, HeaderText, At, ParseResponseLines, CleanHead, CleanHeaders, StatusLine, Headers;
    HeaderListIsClean(r);
    assert "" + Headers(r) == Headers(r);
    CursorWalk(t, |StatusLine(r)|, "", HeaderList(r));
    FiveSteps(t, |StatusLine(r)|, HeaderList(r), |Head(r)|);
  }

  /** The head comes back from any buffer that starts with it, as soon as the
      '\r' of the last header line has arrived. */
  lemma HeadRoundTrip(t: string, r: Response)
    requires CleanHead(r) && At(t, 0, Head(r) + "\r")
    ensures ParseHead(t) ==
      if |StatusLine(r)| <= STAT_LINE_BUFF then Some((Returned(r, ""), |Head(r)|)) else None
  {
    hide StrChr, ParseResponseLines, ParseStatusLine;
    AtSplit3(t, 0, StatusLine(r), Headers(r), "\r");
    StatusLineIsFirstLine(t, r);
    HeadersRoundTrip(t, r);
    StatusLineRoundTrip(t[..|StatusLine(r)|], r);
  }

  /** Parsing a printed response returns every field exactly, except the status,
      which keeps one carriage return, and the content, which comes back behind
      CRLF CRLF. */
  lemma ResponseRoundTrip(r: Response, rest: string)
    requires CleanHead(r) && NUL !in r.content
    requires rest != "" ==> rest[0] == NUL
    ensures ParseResponse(Render(r) + rest) ==
      if |StatusLine(r)| <= STAT_LINE_BUFF then Some(Returned(r, "\r\n\r\n" + r.content)) else None
  {
    hide StrLen, ParseHead, StatusLine, Headers;
    var t, body := Render(r) + rest, "\r\n\r\n" + r.content;
    assert t == Head(r) + body + rest && body == "\r" + ("\n\r\n" + r.content);
    AtSplit3(t, 0, Head(r), body, rest);
    AtSplit(t, |Head(r)|, "\r", "\n\r\n" + r.content);
    AtSplit(t, 0, Head(r), "\r");
    HeadRoundTrip(t, r);
    if rest != "" {
      assert t[|Render(r)|] == rest[0];
    }
    StrLenAt(t, |Head(r)|, body);
  }

  /** A status line of the code map fits its 50-byte buffer exactly when version and
      status text have at most 43 characters: 17 for the version are always enough,
      and for the longest texts no more will do. */
  lemma StatusLineFits(r: Response, s: StatusCode)
    requires (r.code, r.status) == StatusPair(s)
    ensures |StatusLine(r)| <= STAT_LINE_BUFF <==> |r.version| + |r.status| <= 43
    ensures |r.version| <= 17 ==> |StatusLine(r)| <= STAT_LINE_BUFF
    ensures s in {SERVER_ERROR, VERSION_NOT_SUPPORTED} ==> (|StatusLine(r)| <= STAT_LINE_BUFF <==> |r.version| <= 17)
  {
    assert |StatusLine(r)| == |r.version| + |r.code| + |r.status| + 4;
    match s
    case OKAY =>
    case FILE_NOT_FOUND =>
    case BAD_REQUEST =>
    case SERVER_ERROR =>
    case VERSION_NOT_SUPPORTED =>
  }

  // ------------------------------------------------------- the bytes in full

  /** The code map. */
  lemma StatusPairs()
    ensures StatusPair(OKAY) == ("200", "OK") && StatusPair(FILE_NOT_FOUND) == ("404", "File Not Found")
    ensures StatusPair(BAD_REQUEST) == ("400", "Bad Request")
    ensures StatusPair(SERVER_ERROR) == ("500", "HTTP Internal Server Error")
    ensures StatusPair(VERSION_NOT_SUPPORTED) == ("505", "HTTP Version Not Supported")
  {
  }

  lemma StatusTexts()
    ensures "HTTP/1.0" + " " + "200" + " " + "OK" + CRLF == "HTTP/1.0 200 OK\r\n"
    ensures "HTTP/1.0" + " " + "404" + " " + "File Not Found" + CRLF == "HTTP/1.0 404 File Not Found\r\n"
  {
  }

  lemma FixedHeaderTexts()
    ensures "Date:" + " " + HTTP_DATE + CRLF == "Date: unknown\r\n"
    ensures "Last-Modified:" + " " + HTTP_LAST_MODIFIED + CRLF == "Last-Modified: unknown\r\n"
    ensures "Content-Type:" + " " + HTTP_CONTENT_TYPE + CRLF == "Content-Type: text/html\r\n"
    ensures "Content-Length:" + " " == "Content-Length: " && CRLF == "\r\n"
  {
  }

  lemma ServerText()
    ensures "Server:" + " " + HTTP_SERVER + CRLF == "Server: MegaFucker 5000\r\n"
  {
  }

  /** Five header lines one behind the other. */
  lemma LinesInRow(d: string, s: string, m: string, l: string, t: string, r: Response)
    requires d == "Date:" + " " + r.date + CRLF && s == "Server:" + " " + r.server + CRLF
    requires m == "Last-Modified:" + " " + r.lastModified + CRLF
    requires l == "Content-Length:" + " " + r.contentLength + CRLF && t == "Content-Type:" + " " + r.contentType + CRLF
    ensures Headers(r) + CRLF == d + s + m + l + t
  {
    var (fifth, fourth) := ("Content-Type:" + " " + r.contentType,
                            Line("Content-Length:", r.contentLength, "Content-Type:" + " " + r.contentType));
    assert fourth + CRLF == l + t;
    var third := Line("Last-Modified:", r.lastModified, fourth);
    assert third + CRLF == m + l + t;
    var second := Line("Server:", r.server, third);
    assert second + CRLF == s + m + l + t;
    assert Headers(r) == d + second;
  }

  /** Every byte of a response with the fixed headers, behind its status line. */
  lemma ResponseText(r: Response)
    requires r.date == HTTP_DATE && r.server == HTTP_SERVER && r.lastModified == HTTP_LAST_MODIFIED
    requires r.contentType == HTTP_CONTENT_TYPE
    ensures Render(r) == StatusLine(r)
      + ("Date: unknown\r\n" + "Server: MegaFucker 5000\r\n" + "Last-Modified: unknown\r\n"
         + ("Content-Length: " + r.contentLength + "\r\n") + "Content-Type: text/html\r\n")
      + "\r\n" + r.content
  {
    hide Headers, StatusLine;
    FixedHeaderTexts();
    ServerText();
    var (d, s, m, t) := ("Date: unknown\r\n", "Server: MegaFucker 5000\r\n", "Last-Modified: unknown\r\n",
                         "Content-Type: text/html\r\n");
    var l := "Content-Length: " + r.contentLength + "\r\n";
    LinesInRow(d, s, m, l, t, r);
    Regroup(StatusLine(r), Headers(r), d + s + m + l + t, r.content);
  }

  lemma Regroup(statusLine: string, headers: string, lines: string, content: string)
    requires headers + CRLF == lines
    ensures statusLine + headers + CRLF + CRLF + content == statusLine + lines + CRLF + content
  {
    assert statusLine + headers + CRLF == statusLine + (headers + CRLF);
  }

  // --------------------------------------------------------- size arithmetic

  /** The array of `send_response` is the header text plus Content-Length bytes. */
  lemma ResponseArrayArithmetic(r: Response)
    ensures ResponseArraySize(r) == |Head(r) + CRLF + CRLF| + StrToL(r.contentLength)
  {
  }

  /** With a length of content plus one (stored values, HTML pages) the wire is
      the printed text and its terminator; with the length of the content (DUMP,
      POST) it is the printed text alone.  Either way the body on the wire has
      exactly Content-Length bytes. */
  lemma WireIsHeadAndBody(r: Response)
    requires StrToL(r.contentLength) in {|r.content|, |r.content| + 1}
    ensures WireOf(r) == Render(r) + (if StrToL(r.contentLength) == |r.content| then "" else [NUL])
    ensures |WireOf(r)| - |Head(r) + CRLF + CRLF| == StrToL(r.contentLength)
  {
    ResponseArrayArithmetic(r);
    assert |Render(r)| == |Head(r) + CRLF + CRLF| + |r.content|;
  }

  // -------------------------------------------------------- the record in C

  class HttpResponse {
    var version: Block?
    var code: Block?
    var status: Block?
    var date: Block?
    var server: Block?
    var lastModified: Block?
    var contentLength: Block?
    var contentType: Block?
    var content: Block?
    var freed: bool

    ghost function View(): Response
      reads this
    {
      Response(TextOf(version), TextOf(code), TextOf(status), TextOf(date), TextOf(server),
               TextOf(lastModified), TextOf(contentLength), TextOf(contentType), TextOf(content))
    }

    ghost function Strings(): set<Block?>
      reads this
    {
      {date, server, lastModified, contentLength, contentType, content}
    }

    /** What the destructor frees: the header strings, and the content if any. */
    ghost predicate OwnsStrings()
      reads this, date, server, lastModified, contentLength, contentType, content
    {
      && !freed
      && Owned(date) && Owned(server) && Owned(lastModified) && Owned(contentLength) && Owned(contentType)
      && (content != null ==> Owned(content))
      && date != server && date != lastModified && date != contentLength && date != contentType && date != content
      && server != lastModified && server != contentLength && server != contentType && server != content
      && lastModified != contentLength && lastModified != contentType && lastModified != content
      && contentLength != contentType && contentLength != content && contentType != content
    }

    /** `http_response_constructor`; the other fields are set by the caller. */
    constructor (version: Block, code: Block, status: Block)
      ensures this.version == version && this.code == code && this.status == status && !freed
      ensures date == server == lastModified == contentLength == contentType == content == null
    {
      this.version, this.code, this.status := version, code, status;
      date, server, lastModified, contentLength, contentType, content := null, null, null, null, null, null;
      freed := false;
    }

    /** The setters. */
    method SetAttributes(date: Block, server: Block, lastModified: Block, contentLength: Block,
                         contentType: Block, content: Block?)
      modifies `date, `server, `lastModified, `contentLength, `contentType, `content
      ensures this.date == date && this.server == server && this.lastModified == lastModified
      ensures this.contentLength == contentLength && this.contentType == contentType && this.content == content
    {
      this.date, this.server, this.lastModified := date, server, lastModified;
      this.contentLength, this.contentType, this.content := contentLength, contentType, content;
    }

    /** `destroy_http_response`: the non-empty header strings and content, then the
        record; version, code and status stay. */
    method Destroy()
      requires OwnsStrings()
      modifies this, date, server, lastModified, contentLength, contentType, content
      ensures freed
      ensures forall b | b in old({date, server, lastModified, contentLength, contentType}) ::
        b != null && (b.freed <==> b.text != "")
      ensures old(content) != null ==> (old(content).freed <==> old(content).text != "")
    {
      FreeHeaders();
      if content != null {
        FreeIfNotEmpty(content);
      }
      version, code, status, date, server, lastModified := null, null, null, null, null, null;
      contentLength, contentType, content := null, null, null;
      freed := true;
    }

    method FreeHeaders()
      requires OwnsStrings()
      modifies date, server, lastModified, contentLength, contentType
      ensures date.freed <==> date.text != ""
      ensures server.freed <==> server.text != ""
      ensures lastModified.freed <==> lastModified.text != ""
      ensures contentLength.freed <==> contentLength.text != ""
      ensures contentType.freed <==> contentType.text != ""
    {
      FreeIfNotEmpty(date);
      FreeIfNotEmpty(server);
      FreeIfNotEmpty(lastModified);
      FreeIfNotEmpty(contentLength);
      FreeIfNotEmpty(contentType);
    }
  }

  /** `if (*(p)) { free(p); }` */
  method FreeIfNotEmpty(b: Block)
    requires Owned(b)
    modifies b
    ensures b.freed <==> b.text != ""
  {
    if b.Read() != "" {
      b.Free();
    }
  }

  /** The record and all its strings were allocated since the old state. */
  twostate predicate AllFresh(new http: HttpResponse)
    reads http
  {
    && fresh(http) && fresh(http.version) && fresh(http.code) && fresh(http.status) && fresh(http.date)
    && fresh(http.server) && fresh(http.lastModified) && fresh(http.contentLength) && fresh(http.contentType)
    && fresh(http.content)
  }

  lemma ParseStatusLineExtends(s: string, t: string)
    requires s <= t && ParseStatusLine(s).Some?
    ensures ParseStatusLine(t) == ParseStatusLine(s)
  {
    hide StrChr;
    StrChrExtends(s, t, ' ', 0);
    var versionEnd := StrChr(s, ' ', 0).value;
    StrChrExtends(s, t, ' ', versionEnd + 1);
    var codeEnd := StrChr(s, ' ', versionEnd + 1).value;
    StrChrExtends(s, t, '\n', codeEnd + 1);
    SliceExtends(s, t, 0, versionEnd);
    SliceExtends(s, t, versionEnd + 1, codeEnd);
    SliceExtends(s, t, codeEnd + 1, StrChr(s, '\n', codeEnd + 1).value);
  }

  /** `parse_http_response`. */
  method ParseHttpResponse(message: string) returns (http: HttpResponse)
    requires ParseResponse(message).Some?
    ensures AllFresh(http) && http.OwnsStrings()
    ensures http.View() == ParseResponse(message).value
  {
    hide ParseResponseLine, ParseStatusLine, ParseResponseLines, CStr, StrChr;
    var lineEnd := StrChr(message, '\n', 0).value;
    http := ParseFirstLine(message[..lineEnd + 1]);
    var date, server, lastModified, contentLength, contentType, end := ParseAttributes(message, lineEnd + 1);
    var content := new Block.Alloc(CStr(message, end));
    http.SetAttributes(date, server, lastModified, contentLength, contentType, content);
  }

  /** The 50-byte status line buffer of `parse_http_response`. */
  method ParseFirstLine(line: string) returns (http: HttpResponse)
    requires |line| <= STAT_LINE_BUFF && ParseStatusLine(line).Some?
    ensures fresh(http) && http.View() == ParseStatusLine(line).value && !http.freed
    ensures fresh(http.version) && fresh(http.code) && fresh(http.status)
  {
    var statusLine := new char[STAT_LINE_BUFF];
    CopyInto(statusLine, 0, line);
    assert line <= statusLine[..];
    ParseStatusLineExtends(line, statusLine[..]);
    http := ParseStatusLineInto(statusLine[..]);
  }

  method ParseStatusLineInto(line: string) returns (http: HttpResponse)
    requires ParseStatusLine(line).Some?
    ensures fresh(http) && http.View() == ParseStatusLine(line).value && !http.freed
    ensures fresh(http.version) && fresh(http.code) && fresh(http.status)
  {
    var versionEnd := StrChr(line, ' ', 0).value;
    var codeEnd := StrChr(line, ' ', versionEnd + 1).value;
    var statusEnd := StrChr(line, '\n', codeEnd + 1).value;
    var version := new Block.Alloc(line[..versionEnd]);
    var code := new Block.Alloc(line[versionEnd + 1..codeEnd]);
    var status := new Block.Alloc(line[codeEnd + 1..statusEnd]);
    http := new HttpResponse(version, code, status);
  }

  method ParseResponseLineAt(text: string, headerLine: nat) returns (attr: Block, end: nat)
    requires ParseResponseLine(text, headerLine).Some?
    ensures fresh(attr) && Owned(attr)
    ensures (attr.text, end) == ParseResponseLine(text, headerLine).value
  {
    var space := StrChr(text, ' ', headerLine).value;
    end := StrChr(text, '\r', space + 1).value;
    attr := new Block.Alloc(text[space + 1..end]);
  }

  /** The five calls of `parse_response_lines`. */
  method ParseAttributes(text: string, headerLines: nat)
    returns (date: Block, server: Block, lastModified: Block, contentLength: Block, contentType: Block, end: nat)
    requires ParseResponseLines(text, headerLines).Some?
    ensures fresh(date) && fresh(server) && fresh(lastModified) && fresh(contentLength) && fresh(contentType)
    ensures Owned(date) && Owned(server) && Owned(lastModified) && Owned(contentLength) && Owned(contentType)
    ensures date != server && date != lastModified && date != contentLength && date != contentType
    ensures server != lastModified && server != contentLength && server != contentType
    ensures lastModified != contentLength && lastModified != contentType && contentLength != contentType
    ensures ParseResponseLines(text, headerLines).value ==
      (Attributes(date.text, server.text, lastModified.text, contentLength.text, contentType.text), end)
  {
    date, end := ParseResponseLineAt(text, headerLines);
    server, end := ParseResponseLineAt(text, end);
    lastModified, end := ParseResponseLineAt(text, end);
    contentLength, end := ParseResponseLineAt(text, end);
    contentType, end := ParseResponseLineAt(text, end);
  }
}
