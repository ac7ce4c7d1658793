/** The request half of the wire format (http_request.c, and the printer
    `send_request` of client.c): Request-Line and headers as in sections 5.1 and
    4.2 of RFC 1945. */
module HttpRequests {
  import opened CString
  import opened Memory
  import opened Wire

  const REQ_LINE_BUFF := 50
  const END_OF_REQUEST: string := "\r\n\r\n"

  const HTTP_VERSION: string := "HTTP/1.0"
  const HTTP_HOST: string := "localhost"
  const HTTP_USER_AGENT: string := "Mozilla/5.0"
  const ACCEPT_TYPE: string := "text/html"
  const REQUEST_GET: string := "GET"
  const REQUEST_POST: string := "POST"

  datatype Request = Request(httpMethod: string, url: string, version: string,
                             host: string, userAgent: string, accept: string)

  // ------------------------------------------------------------- printing

  function RequestLine(r: Request): string {
    r.httpMethod + " " + r.url + " " + r.version + CRLF
  }

  /** What `send_request` prints. */
  function Render(r: Request): string {
    RequestLine(r) + Header("Host:", r.host) + Header("User-agent:", r.userAgent)
    + Header("Accept:", r.accept) + CRLF
  }

  /** The size `send_request` computes for its local array. */
  function RequestArraySize(r: Request): nat {
    |r.httpMethod| + |r.url| + |r.version| + 4
    + 5 + |r.host| + 3
    + 11 + |r.userAgent| + 3
    + 7 + |r.accept| + 3 + 2
  }

  // ------------------------------------------------------------- parsing

  /** `parse_request_line`; the last byte before the newline is dropped. */
  function ParseRequestLine(line: string): Option<Request> {
    var methodEnd :- StrChr(line, ' ', 0);
    var urlEnd :- StrChr(line, ' ', methodEnd + 1);
    var versionEnd :- StrChr(line, '\n', urlEnd + 1);
    if versionEnd == urlEnd + 1 then None
    else Some(Request(line[..methodEnd], line[methodEnd + 1..urlEnd],
                      line[urlEnd + 1..versionEnd - 1], "", "", ""))
  }

  /** `parse_header_line`: the attribute and the start of the next line. */
  function ParseHeaderLine(text: string, headerLine: nat): Option<(string, nat)> {
    var attrStart :- StrChr(text, ' ', headerLine);
    var attrEnd :- StrChr(text, '\n', attrStart);
    Some((text[attrStart..attrEnd - 1], attrEnd + 1))
  }

  /** `parse_header_lines`: host, user agent and accept. */
  function ParseHeaders(text: string, headerLines: nat): Option<(string, string, string)> {
    var (host, line2) :- ParseHeaderLine(text, headerLines);
    var (userAgent, line3) :- ParseHeaderLine(text, line2);
    var (accept, _) :- ParseHeaderLine(text, line3);
    Some((host, userAgent, accept))
  }

  /** `parse_http_request`.  `None`: a delimiter is missing, or the request line
      does not fit its buffer, and the C code has no defined behaviour. */
  function ParseRequest(message: string): Option<Request> {
    var lineEnd :- StrChr(message, '\n', 0);
    if lineEnd + 1 > REQ_LINE_BUFF then None
    else
      var r :- ParseRequestLine(message[..lineEnd + 1]);
      var (host, userAgent, accept) :- ParseHeaders(message, lineEnd + 1);
      Some(r.(host := host, userAgent := userAgent, accept := accept))
  }

  // --------------------------------------- bytes behind the text do not matter

  lemma ParseRequestLineExtends(s: string, t: string)
    requires s <= t && ParseRequestLine(s).Some?
    ensures ParseRequestLine(t) == ParseRequestLine(s)
  {
    hide StrChr;
    StrChrExtends(s, t, ' ', 0);
    var methodEnd := StrChr(s, ' ', 0).value;
    StrChrExtends(s, t, ' ', methodEnd + 1);
    var urlEnd := StrChr(s, ' ', methodEnd + 1).value;
    StrChrExtends(s, t, '\n', urlEnd + 1);
    var versionEnd := StrChr(s, '\n', urlEnd + 1).value;
    SliceExtends(s, t, 0, methodEnd);
    SliceExtends(s, t, methodEnd + 1, urlEnd);
    if versionEnd > urlEnd + 1 {
      SliceExtends(s, t, urlEnd + 1, versionEnd - 1);
    }
  }

  lemma ParseHeaderLineExtends(s: string, t: string, p: nat)
    requires s <= t && ParseHeaderLine(s, p).Some?
    ensures ParseHeaderLine(t, p) == ParseHeaderLine(s, p)
  {
    StrChrExtends(s, t, ' ', p);
    StrChrExtends(s, t, '\n', StrChr(s, ' ', p).value);
    var attrStart := StrChr(s, ' ', p).value;
    SliceExtends(s, t, attrStart, StrChr(s, '\n', attrStart).value - 1);
  }

  lemma ParseHeadersExtends(s: string, t: string, p: nat)
    requires s <= t && ParseHeaders(s, p).Some?
    ensures ParseHeaders(t, p) == ParseHeaders(s, p)
  {
    ParseHeaderLineExtends(s, t, p);
    var line2 := ParseHeaderLine(s, p).value.1;
    ParseHeaderLineExtends(s, t, line2);
    ParseHeaderLineExtends(s, t, ParseHeaderLine(s, line2).value.1);
  }

  /** A request parses the same whatever an earlier read left behind it. */
  lemma ParseRequestExtends(s: string, t: string)
    requires s <= t && ParseRequest(s).Some?
    ensures ParseRequest(t) == ParseRequest(s)
  {
    hide StrChr, ParseRequestLine, ParseHeaders;
    StrChrExtends(s, t, '\n', 0);
    var lineEnd := StrChr(s, '\n', 0).value;
    SliceExtends(s, t, 0, lineEnd + 1);
    ParseHeadersExtends(s, t, lineEnd + 1);
  }

  /** A message that parses is longer than the end marker `receive_data` compares. */
  lemma ParsedIsLong(s: string)
    requires ParseRequest(s).Some?
    ensures |s| >= 4
  {
    var lineEnd := StrChr(s, '\n', 0).value;
    var line2 := ParseHeaderLine(s, lineEnd + 1).value.1;
    assert line2 >= lineEnd + 3;
  }

  // ------------------------------------------------- what any parse result means

  /** Whatever request line parses consists of method, space, URL, space, version,
      one more byte and the newline, cut at the first space, the next space and the
      first newline behind that. */
  lemma ParsedLineShape(line: string)
    requires ParseRequestLine(line).Some?
    ensures var r := ParseRequestLine(line).value;
      var text := r.httpMethod + " " + r.url + " " + r.version;
      && Free(r.httpMethod, ' ') && Free(r.url, ' ') && Free(r.version, '\n')
      && |text| + 2 <= |line| && line[..|text|] == text
      && line[|text|] != '\n' && line[|text| + 1] == '\n'
  {
    hide StrChr, Free;
    var methodEnd := StrChr(line, ' ', 0).value;
    var urlEnd := StrChr(line, ' ', methodEnd + 1).value;
    var versionEnd := StrChr(line, '\n', urlEnd + 1).value;
    assert line[0..methodEnd] == line[..methodEnd];
    StrChrCuts(line, ' ', 0);
    StrChrCuts(line, ' ', methodEnd + 1);
    StrChrCuts(line, '\n', urlEnd + 1);
    ButLast(line, urlEnd + 1, versionEnd);
    assert line[..versionEnd - 1] == line[..methodEnd] + " " + line[methodEnd + 1..urlEnd] + " "
                                     + line[urlEnd + 1..versionEnd - 1];
  }

  lemma ButLast(line: string, start: nat, end: nat)
    requires start < end <= |line| && Free(line[start..end], '\n')
    ensures Free(line[start..end - 1], '\n') && line[end - 1] != '\n'
  {
    assert forall i | 0 <= i < end - 1 - start :: line[start..end - 1][i] == line[start..end][i];
    assert line[end - 1] == line[start..end][end - 1 - start];
  }

  /** Whatever header line parses: the attribute starts at the first space and stops
      one byte before the first newline behind it, where the next line starts. */
  lemma ParsedHeaderShape(text: string, headerLine: nat)
    requires ParseHeaderLine(text, headerLine).Some?
    ensures var (attr, next) := ParseHeaderLine(text, headerLine).value;
      && headerLine + |attr| + 2 <= next <= |text| && text[next - 1] == '\n'
      && var start := next - 2 - |attr|;
      && text[start..next - 2] == attr && text[start] == ' ' && Free(attr, '\n')
      && Free(text[headerLine..start], ' ')
  {
    hide StrChr;
    var attrStart := StrChr(text, ' ', headerLine).value;
    var attrEnd := StrChr(text, '\n', attrStart).value;
    StrChrCuts(text, ' ', headerLine);
    StrChrCuts(text, '\n', attrStart);
    ButLast(text, attrStart, attrEnd);
  }

  // ------------------------------------------------------------ round trip

  /** Method and URL have no space or newline, the other fields no newline. */
  predicate Clean(r: Request) {
    && Free(r.httpMethod, ' ') && Free(r.httpMethod, '\n')
    && Free(r.url, ' ') && Free(r.url, '\n')
    && Free(r.version, '\n') && Free(r.host, '\n')
    && Free(r.userAgent, '\n') && Free(r.accept, '\n')
  }

  /** What comes back: each header value with one leading space. */
  function Spaced(r: Request): Request {
    r.(host := " " + r.host, userAgent := " " + r.userAgent, accept := " " + r.accept)
  }

  lemma RequestLineCuts(t: string, m: string, u: string, w: string)
    requires At(t, 0, m + " " + u + " " + w + "\n")
    requires Free(m, ' ') && Free(u, ' ') && Free(w, '\n')
    ensures StrChr(t, ' ', 0) == Some(|m|)
    ensures StrChr(t, ' ', |m| + 1) == Some(|m| + 1 + |u|)
    ensures StrChr(t, '\n', |m| + |u| + 2) == Some(|m| + |u| + 2 + |w|)
    ensures At(t, 0, m) && At(t, |m| + 1, u) && At(t, |m| + |u| + 2, w)
  {
    hide StrChr, At;
    AtSplit3(t, 0, m + " " + u + " ", w, "\n");
    AtSplit4(t, 0, m, " ", u, " ");
    StrChrBehind(t, ' ', 0, m, " ");
    StrChrBehind(t, ' ', |m| + 1, u, " ");
    StrChrBehind(t, '\n', |m| + |u| + 2, w, "\n");
  }

  /** Any line of two spaces and a newline parses, unless nothing stands between the
      second space and the newline; the last byte before the newline is dropped,
      whatever it is. */
  lemma RequestLineParses(t: string, m: string, u: string, w: string)
    requires At(t, 0, m + " " + u + " " + w + "\n")
    requires Free(m, ' ') && Free(u, ' ') && Free(w, '\n')
    ensures ParseRequestLine(t) == if w == "" then None else Some(Request(m, u, w[..|w| - 1], "", "", ""))
  {
    hide StrChr, Free;
    RequestLineCuts(t, m, u, w);
    if w != "" {
      assert t[|m| + |u| + 2..|m| + |u| + 2 + |w|][..|w| - 1] == t[|m| + |u| + 2..|m| + |u| + 1 + |w|];
    }
  }

  lemma RequestLineRoundTrip(t: string, r: Request)
    requires Clean(r) && At(t, 0, RequestLine(r))
    ensures ParseRequestLine(t) == Some(r.(host := "", userAgent := "", accept := ""))
  {
    hide StrChr, ParseRequestLine, At;
    var w := r.version + "\r";
    assert RequestLine(r) == r.httpMethod + " " + r.url + " " + w + "\n";
    assert Free(w, '\n') && w[..|w| - 1] == r.version;
    RequestLineParses(t, r.httpMethod, r.url, w);
  }

  lemma HeaderLineCuts(t: string, p: nat, a: string, w: string)
    requires At(t, p, a + " " + w + "\n") && Free(a, ' ') && Free(w, '\n')
    ensures StrChr(t, ' ', p) == Some(p + |a|)
    ensures StrChr(t, '\n', p + |a|) == Some(p + |a| + 1 + |w|)
    ensures At(t, p + |a|, " " + w)
  {
    hide StrChr, At;
    AtSplit4(t, p, a, " ", w, "\n");
    AtSplit(t, p + |a|, " ", w);
    StrChrBehind(t, ' ', p, a, " ");
    StrChrBehind(t, '\n', p + |a|, " " + w, "\n");
  }

  /** Any header line with a space parses, whatever its name; the attribute is the
      space and what follows it, short of its last byte. */
  lemma HeaderLineParses(t: string, p: nat, a: string, w: string)
    requires At(t, p, a + " " + w + "\n") && Free(a, ' ') && Free(w, '\n')
    ensures ParseHeaderLine(t, p) == Some(((" " + w)[..|w|], p + |a + " " + w + "\n"|))
  {
    hide StrChr, Free;
    HeaderLineCuts(t, p, a, w);
    assert t[p + |a|..p + |a| + 1 + |w|][..|w|] == t[p + |a|..p + |a| + |w|];
  }

  lemma HeaderLineRoundTrip(t: string, p: nat, name: string, value: string)
    requires At(t, p, Header(name, value))
    requires Free(name, ' ') && Free(value, '\n')
    ensures ParseHeaderLine(t, p) == Some((" " + value, p + |Header(name, value)|))
  {
    hide StrChr, At, ParseHeaderLine;
    var w := value + "\r";
    assert Header(name, value) == name + " " + w + "\n";
    assert Free(w, '\n') && (" " + w)[..|w|] == " " + value;
    HeaderLineParses(t, p, name, w);
  }

  /** What the parser makes of any text of a line and three header lines: the header
      names do not count, only their order. */
  lemma RequestByPosition(t: string, m: string, u: string, w: string, a1: string, w1: string,
                          a2: string, w2: string, a3: string, w3: string)
    requires Free(m, ' ') && Free(m, '\n') && Free(u, ' ') && Free(u, '\n') && Free(w, '\n')
    requires Free(a1, ' ') && Free(w1, '\n') && Free(a2, ' ') && Free(w2, '\n') && Free(a3, ' ') && Free(w3, '\n')
    requires m + " " + u + " " + w + "\n" + (a1 + " " + w1 + "\n") + (a2 + " " + w2 + "\n")
      + (a3 + " " + w3 + "\n") <= t
    ensures ParseRequest(t) ==
      if w == "" || |m| + |u| + |w| + 3 > REQ_LINE_BUFF then None
      else Some(Request(m, u, w[..|w| - 1], (" " + w1)[..|w1|], (" " + w2)[..|w2|], (" " + w3)[..|w3|]))
  {
    hide StrChr, ParseRequestLine, ParseHeaderLine, Free;
    var line := m + " " + u + " " + w + "\n";
    var (h1, h2, h3) := (a1 + " " + w1 + "\n", a2 + " " + w2 + "\n", a3 + " " + w3 + "\n");
    assert At(t, 0, line + h1 + h2 + h3);
    AtSplit4(t, 0, line, h1, h2, h3);
    HeaderLineParses(t, |line|, a1, w1);
    HeaderLineParses(t, |line + h1|, a2, w2);
    HeaderLineParses(t, |line + h1| + |h2|, a3, w3);
    FirstNewline(t, m + " " + u + " ", m, u, w);
    assert t[..|line|] == line;
    RequestLineParses(line, m, u, w);
  }

  lemma FirstNewline(t: string, front: string, m: string, u: string, w: string)
    requires front == m + " " + u + " " && Free(m, '\n') && Free(u, '\n') && Free(w, '\n')
    requires At(t, 0, front + w + "\n")
    ensures StrChr(t, '\n', 0) == Some(|front| + |w|)
  {
    hide StrChr, At;
    assert Free(front + w, '\n');
    AtSplit(t, 0, front + w, "\n");
    StrChrBehind(t, '\n', 0, front + w, "\n");
  }

  lemma RenderLayout(t: string, r: Request)
    requires At(t, 0, Render(r))
    ensures var p := |RequestLine(r)|;
      && At(t, 0, RequestLine(r))
      && At(t, p, Header("Host:", r.host))
      && At(t, p + |Header("Host:", r.host)|, Header("User-agent:", r.userAgent))
      && At(t, p + |Header("Host:", r.host)| + |Header("User-agent:", r.userAgent)|, Header("Accept:", r.accept))
  {
    var (l, h) := (RequestLine(r), Header("Host:", r.host));
    var (u, a) := (Header("User-agent:", r.userAgent), Header("Accept:", r.accept));
    AtSplit(t, 0, l + h + u + a, CRLF);
    AtSplit4(t, 0, l, h, u, a);
  }

  /** The request line ends at the first newline. */
  lemma RequestLineIsFirstLine(t: string, r: Request)
    requires Clean(r) && At(t, 0, RequestLine(r))
    ensures StrChr(t, '\n', 0) == Some(|RequestLine(r)| - 1)
  {
    var body := r.httpMethod + " " + r.url + " " + r.version;
    AtSplit(t, 0, body, CRLF);
    LineEnd(t, 0, body);
  }

  lemma HeaderLinesRoundTrip(t: string, r: Request)
    requires Clean(r) && At(t, 0, Render(r))
    ensures ParseHeaders(t, |RequestLine(r)|) == Some((" " + r.host, " " + r.userAgent, " " + r.accept))
  {
    hide At, ParseHeaderLine, Header, RequestLine, Render;
    var p := |RequestLine(r)|;
    RenderLayout(t, r);
    HeaderLineRoundTrip(t, p, "Host:", r.host);
    p := p + |Header("Host:", r.host)|;
    HeaderLineRoundTrip(t, p, "User-agent:", r.userAgent);
    p := p + |Header("User-agent:", r.userAgent)|;
    HeaderLineRoundTrip(t, p, "Accept:", r.accept);
  }

  lemma RequestTextRoundTrip(t: string, r: Request)
    requires Clean(r) && At(t, 0, Render(r))
    ensures ParseRequest(t) == if |RequestLine(r)| <= REQ_LINE_BUFF then Some(Spaced(r)) else None
  {
    RenderLayout(t, r);
    RequestLineIsFirstLine(t, r);
    HeaderLinesRoundTrip(t, r);
    RequestLineRoundTrip(t[..|RequestLine(r)|], r);
  }

  /** Parsing a printed request returns method, URL and version exactly and each
      header value behind exactly one space, whenever the line fits its buffer,
      and is undefined otherwise; bytes behind the text change nothing. */
  lemma RequestRoundTrip(r: Request, rest: string)
    requires Clean(r)
    ensures ParseRequest(Render(r) + rest) ==
      if |RequestLine(r)| <= REQ_LINE_BUFF then Some(Spaced(r)) else None
  {
    AtSplit(Render(r) + rest, 0, Render(r), rest);
    RequestTextRoundTrip(Render(r) + rest, r);
  }

  /** The array of `send_request` holds the printed text exactly. */
  lemma RequestArrayHoldsText(r: Request)
    ensures RequestArraySize(r) == |Render(r)|
  {
  }

  // ------------------------------------------------------------- end check

  /** The comparison of `receive_data` on the last four bytes read. */
  predicate EndsRequest(chunk: string) {
    |chunk| >= 4 && chunk[|chunk| - 4..] == END_OF_REQUEST
  }

  function Lines(ls: seq<string>): string {
    if ls == [] then CRLF else ls[0] + CRLF + Lines(ls[1..])
  }

  /** Two newlines one byte apart occur only where the lines end. */
  lemma {:induction false} EmptyLineIsLast(ls: seq<string>, n: nat)
    requires forall l | l in ls :: '\n' !in l
    requires forall i | 1 <= i < |ls| :: ls[i] != ""
    requires 3 <= n <= |Lines(ls)|
    requires Lines(ls)[n - 1] == '\n' && Lines(ls)[n - 3] == '\n'
    ensures n == |Lines(ls)|
  {
    if ls == [] {
    } else {
      var l, rest := ls[0], Lines(ls[1..]);
      assert Lines(ls) == l + CRLF + rest;
      assert l in ls;
      assert |ls| > 1 ==> ls[1] in ls && rest == ls[1] + CRLF + Lines(ls[1..][1..]);
      assert n - 3 >= |l| + 1;
      if n - 3 > |l| + 1 {
        EmptyLineIsLast(ls[1..], n - |l| - 2);
      } else {
        assert Lines(ls)[n - 1] == rest[1];
      }
    }
  }

  function RequestLines(r: Request): seq<string> {
    [r.httpMethod + " " + r.url + " " + r.version, "Host: " + r.host,
     "User-agent: " + r.userAgent, "Accept: " + r.accept]
  }

  lemma RenderIsLines(r: Request)
    ensures Render(r) == Lines(RequestLines(r))
  {
    var ls := RequestLines(r);
    var (l0, l1, l2, l3) := (ls[0], ls[1], ls[2], ls[3]);
    assert ls[1..] == [l1, l2, l3] && [l1, l2, l3][1..] == [l2, l3] && [l2, l3][1..] == [l3];
    assert Lines([l3]) == l3 + CRLF + CRLF;
    assert Lines([l2, l3]) == l2 + CRLF + Lines([l3]);
    assert Lines([l1, l2, l3]) == l1 + CRLF + Lines([l2, l3]);
  }

  lemma RequestLinesAreLines(r: Request)
    requires Clean(r)
    ensures forall l | l in RequestLines(r) :: '\n' !in l
    ensures forall i | 1 <= i < |RequestLines(r)| :: RequestLines(r)[i] != ""
  {
    var ls := RequestLines(r);
    assert forall l | l in ls :: l == ls[0] || l == ls[1] || l == ls[2] || l == ls[3];
  }

  lemma EndMarker(chunk: string)
    requires EndsRequest(chunk)
    ensures |chunk| >= 4 && chunk[|chunk| - 1] == '\n' && chunk[|chunk| - 3] == '\n'
  {
    assert chunk[|chunk| - 1] == chunk[|chunk| - 4..][3] && chunk[|chunk| - 3] == chunk[|chunk| - 4..][1];
  }

  lemma RenderEnds(r: Request)
    ensures EndsRequest(Render(r))
  {
    var t := Render(r);
    assert t == RequestLine(r) + Header("Host:", r.host) + Header("User-agent:", r.userAgent)
                + ("Accept:" + " " + r.accept) + END_OF_REQUEST;
  }

  /** The loop test of `receive_data` recognises precisely the complete request. */
  lemma EndCheckIsPrefixFree(r: Request, n: nat)
    requires Clean(r) && n <= |Render(r)|
    ensures EndsRequest(Render(r)[..n]) <==> n == |Render(r)|
  {
    hide Lines, Render, EndsRequest, RequestLines;
    var t := Render(r);
    RenderEnds(r);
    assert t[..|t|] == t;
    if EndsRequest(t[..n]) {
      EndMarker(t[..n]);
      RenderIsLines(r);
      RequestLinesAreLines(r);
      EmptyLineIsLast(RequestLines(r), n);
    }
  }

  /** Only the last two bytes of a request may be missing for it to parse. */
  lemma ParsedPrefixIsLong(r: Request, c: string)
    requires Clean(r) && c <= Render(r) && ParseRequest(c).Some?
    ensures |c| + 2 >= |Render(r)|
  {
    hide ParseRequestLine, ParseHeaders, RequestLine, Render, StrChr;
    var t := Render(r);
    assert t[0..|t|] == t;
    RenderLayout(t, r);
    RequestLineIsFirstLine(t, r);
    StrChrExtends(c, t, '\n', 0);
    LastHeaderArrives(r, c);
  }

  lemma LastHeaderArrives(r: Request, c: string)
    requires Clean(r) && c <= Render(r) && At(Render(r), 0, Render(r))
    requires ParseHeaders(c, |RequestLine(r)|).Some?
    ensures |c| + 2 >= |Render(r)|
  {
    hide At, ParseHeaderLine, Header, RequestLine;
    var t, p := Render(r), |RequestLine(r)|;
    RenderLayout(t, r);
    HeaderLineRoundTrip(t, p, "Host:", r.host);
    ParseHeaderLineExtends(c, t, p);
    p := p + |Header("Host:", r.host)|;
    HeaderLineRoundTrip(t, p, "User-agent:", r.userAgent);
    ParseHeaderLineExtends(c, t, p);
    p := p + |Header("User-agent:", r.userAgent)|;
    HeaderLineRoundTrip(t, p, "Accept:", r.accept);
    ParseHeaderLineExtends(c, t, p);
    ParsedHeaderShape(c, p);
  }

  // ------------------------------------------------------------------ query

  /** The URL `build_request` makes. */
  function QueryUrl(key: string, value: string): string {
    "/?" + key + "=" + value
  }

  /** `parse_query`: key and value, or `None` when a delimiter is missing. */
  function ParseQuery(url: string): Option<(string, string)> {
    var question :- StrChr(url, '?', 0);
    var keyEnd :- StrChr(url, '=', question + 1);
    Some((url[question + 1..keyEnd], CStr(url, keyEnd + 1)))
  }

  lemma QueryCuts(url: string, path: string, key: string, value: string)
    requires At(url, 0, path + "?" + key + "=" + value) && Free(path, '?') && Free(key, '=')
    ensures StrChr(url, '?', 0) == Some(|path|) && StrChr(url, '=', |path| + 1) == Some(|path| + 1 + |key|)
    ensures At(url, |path| + 1, key) && At(url, |path| + |key| + 2, value)
  {
    hide StrChr, At;
    AtSplit(url, 0, path + "?" + key + "=", value);
    AtSplit4(url, 0, path, "?", key, "=");
    StrChrBehind(url, '?', 0, path, "?");
    StrChrBehind(url, '=', |path| + 1, key, "=");
  }

  /** Whatever the path: the key stands between the first '?' and the next '=', the
      value behind that; the key may contain further question marks. */
  lemma QueryOfUrl(path: string, key: string, value: string)
    requires Free(path, '?') && Free(key, '=') && NUL !in value
    ensures ParseQuery(path + "?" + key + "=" + value) == Some((key, value))
  {
    hide StrChr, StrLen, Free;
    var url := path + "?" + key + "=" + value;
    AtWhole(url);
    QueryCuts(url, path, key, value);
    StrLenAt(url, |path| + |key| + 2, value);
  }

  /** And whatever URL parses has this form. */
  lemma ParsedQueryShape(url: string) returns (path: string)
    requires NUL !in url && ParseQuery(url).Some?
    ensures var (key, value) := ParseQuery(url).value;
      url == path + "?" + key + "=" + value && Free(path, '?') && Free(key, '=')
  {
    hide StrChr, Free, CStr;
    var question := StrChr(url, '?', 0).value;
    var keyEnd := StrChr(url, '=', question + 1).value;
    path := url[..question];
    StrChrCuts(url, '?', 0);
    StrChrCuts(url, '=', question + 1);
    assert url[0..question] == path;
    CStrToEnd(url, keyEnd + 1);
    assert url == path + "?" + url[question + 1..keyEnd] + "=" + url[keyEnd + 1..];
  }

  lemma CStrToEnd(s: string, p: nat)
    requires NUL !in s && p <= |s|
    ensures CStr(s, p) == s[p..]
  {
    StrLenAt(s, p, s[p..]);
  }

  /** The pair of a built URL comes back. */
  lemma QueryRoundTrip(key: string, value: string)
    requires Free(key, '=') && NUL !in value
    ensures ParseQuery(QueryUrl(key, value)) == Some((key, value))
  {
    hide ParseQuery;
    QueryOfUrl("/", key, value);
    assert "/" + "?" == "/?";
  }

  /** Key and value are C strings, whatever the URL. */
  lemma QueryIsText(url: string)
    requires ParseQuery(url).Some?
    ensures NUL !in ParseQuery(url).value.0 && NUL !in ParseQuery(url).value.1
  {
    hide StrChr;
    var question := StrChr(url, '?', 0).value;
    StrChrCuts(url, '=', question + 1);
  }

  /** `parse_query` is defined on exactly the URLs with an '=' behind the first '?'. */
  lemma QueryDefined(path: string, rest: string)
    requires Free(path, '?') && NUL !in rest
    ensures ParseQuery(path + "?" + rest).Some? <==> '=' in rest
  {
    hide StrChr;
    var url := path + "?" + rest;
    AtSplit3(url, 0, path, "?", rest);
    StrChrBehind(url, '?', 0, path, "?");
    assert url[|path| + 1..] == rest;
    if '=' in rest {
      StrChrFindsIn(url, '=', |path| + 1, rest);
    } else {
      StrChrMisses(url, '=', |path| + 1);
    }
  }

  lemma QueryUrlInjective(k1: string, v1: string, k2: string, v2: string)
    requires Free(k1, '=') && Free(k2, '=') && NUL !in v1 && NUL !in v2
    requires QueryUrl(k1, v1) == QueryUrl(k2, v2)
    ensures k1 == k2 && v1 == v2
  {
    QueryRoundTrip(k1, v1);
    QueryRoundTrip(k2, v2);
  }

  /** The request `build_request` fills in for a method, a key and a value. */
  function BuiltRequest(httpMethod: string, key: string, value: string): Request {
    Request(httpMethod, QueryUrl(key, value), HTTP_VERSION, HTTP_HOST, HTTP_USER_AGENT, ACCEPT_TYPE)
  }

  /** Keys and values that travel in a request line. */
  predicate CleanPair(key: string, value: string) {
    && Free(key, ' ') && Free(key, '\n') && Free(key, '=')
    && Free(value, ' ') && Free(value, '\n')
  }

  lemma BuiltRequestIsClean(httpMethod: string, key: string, value: string)
    requires CleanPair(key, value) && httpMethod in {REQUEST_GET, REQUEST_POST}
    ensures Clean(BuiltRequest(httpMethod, key, value))
  {
    var url := QueryUrl(key, value);
    assert Free(url, ' ') && Free(url, '\n');
    assert Free(HTTP_VERSION, '\n') && Free(HTTP_HOST, '\n') && Free(HTTP_USER_AGENT, '\n') && Free(ACCEPT_TYPE, '\n');
  }

  lemma RequestTexts(start: string, end: string, httpMethod: string, key: string, value: string)
    requires start == httpMethod + " " + "/?" && end == " " + HTTP_VERSION + CRLF
    ensures RequestLine(BuiltRequest(httpMethod, key, value)) == start + key + "=" + value + end
  {
    var url := QueryUrl(key, value);
    assert httpMethod + " " + url == start + key + "=" + value;
    assert RequestLine(BuiltRequest(httpMethod, key, value)) == httpMethod + " " + url + end;
  }

  lemma FixedHeaders()
    ensures Header("Host:", HTTP_HOST) == "Host: localhost\r\n"
    ensures Header("User-agent:", HTTP_USER_AGENT) == "User-agent: Mozilla/5.0\r\n"
    ensures Header("Accept:", ACCEPT_TYPE) == "Accept: text/html\r\n"
  {
  }

  lemma RequestWords()
    ensures REQUEST_GET + " " + "/?" == "GET /?" && REQUEST_POST + " " + "/?" == "POST /?"
    ensures " " + HTTP_VERSION + CRLF == " HTTP/1.0\r\n"
  {
  }

  /** Every byte of the two requests the client sends. */
  lemma BuiltRequestText(key: string, value: string)
    ensures var headers := "Host: localhost\r\n" + "User-agent: Mozilla/5.0\r\n" + "Accept: text/html\r\n" + "\r\n";
      && Render(BuiltRequest(REQUEST_GET, key, value)) == "GET /?" + key + "=" + value + " HTTP/1.0\r\n" + headers
      && Render(BuiltRequest(REQUEST_POST, key, value)) == "POST /?" + key + "=" + value + " HTTP/1.0\r\n" + headers
  {
    hide RequestLine, Header;
    RequestWords();
    FixedHeaders();
    RequestTexts("GET /?", " HTTP/1.0\r\n", REQUEST_GET, key, value);
    RequestTexts("POST /?", " HTTP/1.0\r\n", REQUEST_POST, key, value);
    FourAndEnd("GET /?" + key + "=" + value + " HTTP/1.0\r\n", "Host: localhost\r\n",
               "User-agent: Mozilla/5.0\r\n", "Accept: text/html\r\n", "\r\n");
    FourAndEnd("POST /?" + key + "=" + value + " HTTP/1.0\r\n", "Host: localhost\r\n",
               "User-agent: Mozilla/5.0\r\n", "Accept: text/html\r\n", "\r\n");
  }

  lemma FourAndEnd(a: string, b: string, c: string, d: string, e: string)
    ensures a + b + c + d + e == a + (b + c + d + e)
  {
  }

  /** A built GET survives the 50-byte request line buffer of the server exactly
      when key and value together have at most 32 characters, a POST at most 31. */
  lemma BuiltRequestFits(httpMethod: string, key: string, value: string)
    requires CleanPair(key, value) && httpMethod in {REQUEST_GET, REQUEST_POST}
    ensures var r := BuiltRequest(httpMethod, key, value);
      && Clean(r)
      && ParseRequest(Render(r)) ==
         if |key| + |value| <= (if httpMethod == REQUEST_GET then 32 else 31) then Some(Spaced(r)) else None
  {
    hide ParseRequest, Render, Clean;
    var r := BuiltRequest(httpMethod, key, value);
    BuiltRequestIsClean(httpMethod, key, value);
    RequestRoundTrip(r, "");
    assert Render(r) + "" == Render(r);
    assert |RequestLine(r)| == |httpMethod| + |key| + |value| + 15;
  }

  // -------------------------------------------------------- the record in C

  class HttpRequest {
    var version: Block?
    var httpMethod: Block?
    var url: Block?
    var host: Block?
    var userAgent: Block?
    var accept: Block?
    var freed: bool

    ghost function Fields(): set<Block?>
      reads this
    {
      {version, httpMethod, url, host, userAgent, accept}
    }

    /** What the destructor can free: the fields that are set, each a block of its own. */
    ghost predicate Destroyable()
      reads this, version, httpMethod, url, host, userAgent, accept
    {
      && !freed
      && (version != null ==> Owned(version) && version !in {httpMethod, url, host, userAgent, accept})
      && (httpMethod != null ==> Owned(httpMethod) && httpMethod !in {url, host, userAgent, accept})
      && (url != null ==> Owned(url) && url !in {host, userAgent, accept})
      && (host != null ==> Owned(host) && host !in {userAgent, accept})
      && (userAgent != null ==> Owned(userAgent) && userAgent != accept)
      && (accept != null ==> Owned(accept))
    }

    /** A complete record: every field is set. */
    ghost predicate Valid()
      reads this, version, httpMethod, url, host, userAgent, accept
    {
      Destroyable() && null !in Fields()
    }

    ghost function View(): Request
      reads this
    {
      Request(TextOf(httpMethod), TextOf(url), TextOf(version), TextOf(host), TextOf(userAgent), TextOf(accept))
    }

    /** `http_request_constructor`; the header fields are set by the caller. */
    constructor (httpMethod: Block, url: Block, version: Block)
      ensures this.httpMethod == httpMethod && this.url == url && this.version == version && !freed
      ensures host == userAgent == accept == null
    {
      this.httpMethod, this.url, this.version := httpMethod, url, version;
      host, userAgent, accept, freed := null, null, null, false;
    }

    /** `destroy_http_request`: every field that is set and then the record. */
    method Destroy()
      requires Destroyable()
      modifies this, Fields()
      ensures freed && forall b | b in old(Fields()) && b != null :: b.freed
    {
      FreeThree(version, httpMethod, url);
      FreeThree(host, userAgent, accept);
      version, httpMethod, url, host, userAgent, accept := null, null, null, null, null, null;
      freed := true;
    }
  }

  method FreeThree(a: Block?, b: Block?, c: Block?)
    requires a != null ==> Owned(a) && a != b && a != c
    requires b != null ==> Owned(b) && b != c
    requires c != null ==> Owned(c)
    modifies a, b, c
    ensures (a != null ==> a.freed) && (b != null ==> b.freed) && (c != null ==> c.freed)
  {
    FreeIfSet(a);
    FreeIfSet(b);
    FreeIfSet(c);
  }

  /** `if (p) { free(p); }` */
  method FreeIfSet(b: Block?)
    requires b != null ==> Owned(b)
    modifies b
    ensures b != null ==> b.freed
  {
    if b != null {
      b.Free();
    }
  }

  /** The record and all its strings were allocated since the old state. */
  twostate predicate AllFresh(new http: HttpRequest)
    reads http
  {
    && fresh(http) && fresh(http.version) && fresh(http.httpMethod) && fresh(http.url)
    && fresh(http.host) && fresh(http.userAgent) && fresh(http.accept)
  }

  /** `parse_http_request`. */
  method ParseHttpRequest(message: string) returns (http: HttpRequest)
    requires ParseRequest(message).Some?
    ensures AllFresh(http) && http.Valid()
    ensures http.View() == ParseRequest(message).value
  {
    hide StrChr, ParseRequestLine, ParseHeaders;
    var lineEnd := StrChr(message, '\n', 0).value;
    http := ParseFirstLine(message[..lineEnd + 1]);
    ParseHeaderLines(http, message, lineEnd + 1);
  }

  /** The 50-byte request line buffer of `parse_http_request`: behind the copied
      line it holds whatever was on the stack. */
  method ParseFirstLine(line: string) returns (http: HttpRequest)
    requires |line| <= REQ_LINE_BUFF && ParseRequestLine(line).Some?
    ensures fresh(http) && http.View() == ParseRequestLine(line).value && !http.freed
    ensures fresh(http.version) && fresh(http.httpMethod) && fresh(http.url)
    ensures Owned(http.version) && Owned(http.httpMethod) && Owned(http.url)
    ensures http.version != http.httpMethod && http.version != http.url && http.httpMethod != http.url
  {
    var requestLine := new char[REQ_LINE_BUFF];
    CopyInto(requestLine, 0, line);
    assert line <= requestLine[..];
    ParseRequestLineExtends(line, requestLine[..]);
    http := ParseRequestLineInto(requestLine[..]);
  }

  method ParseRequestLineInto(line: string) returns (http: HttpRequest)
    requires ParseRequestLine(line).Some?
    ensures fresh(http) && http.View() == ParseRequestLine(line).value && !http.freed
    ensures fresh(http.version) && fresh(http.httpMethod) && fresh(http.url)
    ensures Owned(http.version) && Owned(http.httpMethod) && Owned(http.url)
    ensures http.version != http.httpMethod && http.version != http.url && http.httpMethod != http.url
  {
    var methodEnd := StrChr(line, ' ', 0).value;
    var urlEnd := StrChr(line, ' ', methodEnd + 1).value;
    var versionEnd := StrChr(line, '\n', urlEnd + 1).value;
    var httpMethod := new Block.Alloc(line[..methodEnd]);
    var url := new Block.Alloc(line[methodEnd + 1..urlEnd]);
    var version := new Block.Alloc(line[urlEnd + 1..versionEnd - 1]);
    http := new HttpRequest(httpMethod, url, version);
  }

  method ParseHeaderLineAt(text: string, headerLine: nat) returns (attr: Block, next: nat)
    requires ParseHeaderLine(text, headerLine).Some?
    ensures fresh(attr) && Owned(attr)
    ensures (attr.text, next) == ParseHeaderLine(text, headerLine).value
  {
    var attrStart := StrChr(text, ' ', headerLine).value;
    var attrEnd := StrChr(text, '\n', attrStart).value;
    attr := new Block.Alloc(text[attrStart..attrEnd - 1]);
    next := attrEnd + 1;
  }

  method ParseHeaderLines(http: HttpRequest, text: string, headerLines: nat)
    requires ParseHeaders(text, headerLines).Some?
    modifies http`host, http`userAgent, http`accept
    ensures fresh(http.host) && fresh(http.userAgent) && fresh(http.accept)
    ensures Owned(http.host) && Owned(http.userAgent) && Owned(http.accept)
    ensures http.host != http.userAgent && http.host != http.accept && http.userAgent != http.accept
    ensures (http.host.text, http.userAgent.text, http.accept.text) == ParseHeaders(text, headerLines).value
  {
    var next: nat;
    http.host, next := ParseHeaderLineAt(text, headerLines);
    http.userAgent, next := ParseHeaderLineAt(text, next);
    http.accept, next := ParseHeaderLineAt(text, next);
  }
}
