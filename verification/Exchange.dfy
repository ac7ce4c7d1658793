/** One whole exchange on the server, against a definition of the reply that does
    not mention steps, states or error codes. */
module Exchange {
  import opened CString
  import opened Wire
  import opened Db
  import opened ServerModel
  import Req = HttpRequests
  import Res = HttpResponses

  // ------------------------------------------------------------------- URLs

  /** `is_html`: no '.' makes no page, and with one only what follows the first
      counts. */
  lemma IsHtmlExactly(path: string, rest: string)
    requires Free(path, '.')
    ensures !IsHtml(path)
    ensures IsHtml(path + "." + rest) <==> "html" <= rest
  {
    hide StrChr;
    var url := path + "." + rest;
    StrChrMisses(path, '.', 0);
    AtSplit3(url, 0, path, ".", rest);
    StrChrBehind(url, '.', 0, path, ".");
    assert url[|path| + 1..] == rest;
    assert |rest| >= 4 ==> url[|path| + 1..|path| + 5] == rest[..4];
  }

  /** `is_query`: a '?' and an '=' anywhere, in any order. */
  lemma IsQueryExactly(url: string)
    requires NUL !in url
    ensures IsQuery(url) <==> '?' in url && '=' in url
  {
    if '?' in url && '=' in url {
      var i :| 0 <= i < |url| && url[i] == '?';
      var j :| 0 <= j < |url| && url[j] == '=';
      StrChrFinds(url, '?', 0, i);
      StrChrFinds(url, '=', 0, j);
    }
  }

  /** Every URL `build_request` makes is a query whose '=' follows the first '?',
      and no handler is asked for anything it cannot do with it. */
  lemma BuiltUrlIsServable(httpMethod: string, key: string, value: string)
    requires Free(key, '=') && NUL !in value
    ensures var url := Req.QueryUrl(key, value);
      IsQuery(url) && Req.ParseQuery(url) == Some((key, value))
    ensures Servable(Req.BuiltRequest(httpMethod, key, value))
  {
    var url := Req.QueryUrl(key, value);
    Req.QueryRoundTrip(key, value);
    assert url[0] == '/' && url[1] == '?' && url[2 + |key|] == '=';
    assert NUL !in url;
    StrChrFinds(url, '?', 0, 1);
    StrChrFinds(url, '=', 0, 2 + |key|);
    StrChrFinds(url, '/', 0, 0);
    if IsHtml(url) {
      var dot := StrChr(url, '.', 0).value;
      assert url[dot + 4] == url[dot + 1..dot + 5][3] == 'l';
      StrChrFinds(url, 'l', 0, dot + 4);
    }
  }

  lemma QueryUrlParses(path: string, key: string, value: string)
    requires Free(path, '?') && Free(key, '=') && NUL !in value
    ensures var url := path + "?" + key + "=" + value;
      NUL !in url && IsQuery(url) && Req.ParseQuery(url) == Some((key, value))
  {
    hide Req.ParseQuery, IsQuery;
    var url := path + "?" + key + "=" + value;
    Req.QueryOfUrl(path, key, value);
    assert url[|path|] == '?' && url[|path| + 1 + |key|] == '=';
    assert NUL !in url;
    IsQueryExactly(url);
  }

  /** `http_get` reaches the database with a query exactly when the first '.' of the
      URL is not followed by "html": then the key is looked up, whatever the path, and
      otherwise the answer does not depend on the database at all. */
  lemma DispatchClassification(p: Params, path: string, key: string, value: string, disk: map<string, string>,
                               files: Files, order: seq<string>)
    requires Free(path, '?') && Free(key, '=') && NUL !in value && p.error.None?
    requires Servable(Req.Request("GET", path + "?" + key + "=" + value, "", "", "", ""))
    ensures var url := path + "?" + key + "=" + value;
      if IsHtml(url) then forall other :: Get(p, url, other, files, order) == Get(p, url, disk, files, order)
      else Get(p, url, disk, files, order) == QueryContent(p, key, disk, order)
  {
    hide IsHtml, IsQuery, QueryContent, HtmlName, Req.ParseQuery;
    QueryUrlParses(path, key, value);
  }

  lemma PageUrlIsHtml(name: string)
    requires Free(name, '.')
    ensures IsHtml("/" + name + ".html")
  {
    var url := "/" + name + ".html";
    AtSplit3(url, 0, "/", name, ".html");
    AtSplit(url, 0, "/", name);
    StrChrBehind(url, '.', 0, "/" + name, ".html");
    assert url[|name| + 2..|name| + 6] == "html";
  }

  /** The first 'l' of a page URL is in the name, if the name has one. */
  lemma FirstLInName(a: string, b: string)
    requires Free(a, 'l')
    ensures StrChr("/" + (a + "l" + b) + ".html", 'l', 0) == Some(|a| + 1)
    ensures StrChr(a + "l" + b, 'l', 0) == Some(|a|)
  {
    hide StrChr;
    assert "/" + (a + "l" + b) + ".html" == ("/" + a) + "l" + (b + ".html");
    FirstLBehind("/" + a, b + ".html");
    FirstLBehind(a, b);
  }

  lemma FirstLBehind(a: string, b: string)
    requires Free(a, 'l')
    ensures StrChr(a + "l" + b, 'l', 0) == Some(|a|)
  {
    hide StrChr;
    AtSplit3(a + "l" + b, 0, a, "l", b);
    StrChrBehind(a + "l" + b, 'l', 0, a, "l");
  }

  lemma PlusAssociates(a: string, b: string, c: string)
    ensures a + (b + c) == a + b + c
  {
  }

  /** Otherwise it ends the URL. */
  lemma FirstLAtEnd(page: string)
    requires Free(page, 'l')
    ensures StrChr(page + "l", 'l', 0) == Some(|page|)
  {
    hide StrChr;
    AtSplit(page + "l", 0, page, "l");
    StrChrBehind(page + "l", 'l', 0, page, "l");
  }

  lemma PageNameEnds(url: string, end: nat)
    requires url != "" && url[0] == '/' && StrChr(url, 'l', 0) == Some(end)
    ensures end < |url| && HtmlName(url, None) == Some(url[1..end + 1])
  {
    HitIsStrChr(url, '/', 0, 0);
  }

  lemma PageNameCut(a: string, b: string)
    requires Free(a, 'l')
    ensures HtmlName("/" + (a + "l" + b) + ".html", None) == Some(a + "l")
  {
    hide StrChr, HtmlName;
    var url := "/" + (a + "l" + b) + ".html";
    FirstLInName(a, b);
    PageNameEnds(url, |a| + 1);
    assert url[1..|a| + 2] == a + "l";
  }

  lemma PageNameWithL(name: string)
    requires NUL !in name && 'l' in name
    ensures StrChr(name, 'l', 0).Some?
    ensures HtmlName("/" + name + ".html", None) == Some(name[..StrChr(name, 'l', 0).value + 1])
  {
    hide StrChr, HtmlName;
    var i :| 0 <= i < |name| && name[i] == 'l';
    StrChrFinds(name, 'l', 0, i);
    var cut := StrChr(name, 'l', 0).value;
    StrChrCuts(name, 'l', 0);
    assert name == name[..cut] + "l" + name[cut + 1..];
    PageNameCut(name[..cut], name[cut + 1..]);
    assert name[..cut + 1] == name[..cut] + "l";
  }

  lemma PageNameWithoutL(name: string)
    requires Free(name, 'l')
    ensures HtmlName("/" + name + ".html", None) == Some(("/" + name + ".html")[1..]) == Some(name + ".html")
  {
    hide StrChr, HtmlName;
    var url := "/" + name + ".html";
    assert ".htm" + "l" == ".html";
    PlusAssociates("/" + name, ".htm", "l");
    FirstLAtEnd("/" + name + ".htm");
    PageNameEnds(url, |name| + 5);
    assert url[1..|name| + 6] == url[1..] == name + ".html";
  }

  /** For a page URL, slash, name, ".html", with no '.' or '/' in the name: the file
      name `get_html` makes is the URL without its slash exactly when the name has
      no 'l'; otherwise it ends behind the first 'l' of the name. */
  lemma HtmlNameExtraction(name: string)
    requires Free(name, '.') && Free(name, '/')
    ensures var (url, found) := ("/" + name + ".html", StrChr(name, 'l', 0));
      && IsHtml(url)
      && HtmlName(url, None) == Some(if found.Some? then name[..found.value + 1] else name + ".html")
      && (HtmlName(url, None) == Some(url[1..]) <==> 'l' !in name)
  {
    hide IsHtml, StrChr, HtmlName;
    PageUrlIsHtml(name);
    assert |("/" + name + ".html")[1..]| == |name| + 5;
    if 'l' in name {
      PageNameWithL(name);
    } else {
      PageNameWithoutL(name);
      StrChrMisses(name, 'l', 0);
    }
  }

  /** Whatever stands before the first '/': the name runs from there to the first 'l'
      behind it, that included; for a 404 it is the page of that name. */
  lemma HtmlNameExactly(prefix: string, a: string, rest: string)
    requires Free(prefix, '/') && Free(a, 'l')
    ensures HtmlName(prefix + "/" + a + "l" + rest, None) == Some(a + "l")
    ensures HtmlName(prefix + "/" + rest, Some(ERROR_404)) == Some("404.html")
  {
    hide StrChr;
    FirstSlash(prefix, rest);
    FirstSlash(prefix, a + "l" + rest);
    var url := prefix + "/" + a + "l" + rest;
    assert url == prefix + "/" + (a + "l" + rest);
    NameEnd(url, prefix, a, rest);
    assert url[|prefix| + 1..|prefix| + 2 + |a|] == a + "l";
  }

  lemma FirstSlash(prefix: string, rest: string)
    requires Free(prefix, '/')
    ensures StrChr(prefix + "/" + rest, '/', 0) == Some(|prefix|)
  {
    hide StrChr;
    AtSplit3(prefix + "/" + rest, 0, prefix, "/", rest);
    AtWhole(prefix + "/" + rest);
    StrChrBehind(prefix + "/" + rest, '/', 0, prefix, "/");
  }

  lemma NameEnd(url: string, prefix: string, a: string, rest: string)
    requires url == prefix + "/" + a + "l" + rest && Free(a, 'l')
    ensures StrChr(url, 'l', |prefix|) == Some(|prefix| + 1 + |a|)
  {
    hide StrChr;
    assert url[|prefix|..|prefix| + |"/" + a|] == "/" + a;
    assert url[|prefix| + 1 + |a|..|prefix| + 1 + |a| + 1] == "l";
    StrChrBehind(url, 'l', |prefix|, "/" + a, "l");
  }

  /** What stands behind the first `c`; nothing if there is none. */
  function Behind(s: string, c: char): string {
    if s == "" then "" else if s[0] == c then s[1..] else Behind(s[1..], c)
  }

  lemma {:induction false} BehindFound(s: string, c: char, p: nat, i: nat)
    requires Hits(s, c, p, i)
    ensures Behind(s[p..], c) == s[i + 1..]
    decreases i - p
  {
    if i == p {
    } else {
      assert s[p..][1..] == s[p + 1..];
      BehindFound(s, c, p + 1, i);
    }
  }

  lemma BehindStrChr(s: string, c: char)
    requires NUL !in s
    ensures StrChr(s, c, 0).Some? <==> c in s
    ensures c in s ==> StrChr(s, c, 0).value < |s| && s[StrChr(s, c, 0).value + 1..] == Behind(s, c)
  {
    hide StrChr;
    if c in s {
      var i :| 0 <= i < |s| && s[i] == c;
      StrChrFinds(s, c, 0, i);
      StrChrHits(s, c, 0);
      BehindFound(s, c, 0, StrChr(s, c, 0).value);
      assert s[0..] == s;
    }
  }

  lemma FoundBehind(s: string, c: char, from: nat)
    requires NUL !in s && from <= |s|
    ensures StrChr(s, c, from).Some? <==> c in s[from..]
  {
    hide StrChr;
    if c in s[from..] {
      StrChrFindsIn(s, c, from, s[from..]);
    } else {
      StrChrMisses(s, c, from);
    }
  }

  lemma QueryIsDefined(url: string)
    requires NUL !in url
    ensures Req.ParseQuery(url).Some? <==> '?' in url && '=' in Behind(url, '?')
  {
    hide StrChr, Behind;
    BehindStrChr(url, '?');
    if '?' in url {
      FoundBehind(url, '=', StrChr(url, '?', 0).value + 1);
    }
  }

  lemma NameIsDefined(url: string)
    requires NUL !in url
    ensures HtmlName(url, None).Some? <==> '/' in url && 'l' in Behind(url, '/')
  {
    hide StrChr, Behind;
    BehindStrChr(url, '/');
    if '/' in url {
      var start := StrChr(url, '/', 0).value;
      FoundBehind(url, 'l', start);
      assert url[start..] == ['/'] + url[start + 1..];
    }
  }

  /** What the handlers demand of a request, for every URL: a POST an '=' behind its
      first '?'; anything else a '/', an 'l' behind that if it is a page, and an '='
      behind the first '?' if it is a query and no page. */
  lemma ServableExactly(r: Req.Request)
    requires NUL !in r.url
    ensures r.httpMethod == "POST" ==> (Servable(r) <==> '?' in r.url && '=' in Behind(r.url, '?'))
    ensures r.httpMethod != "POST" ==> (Servable(r) <==>
      && '/' in r.url
      && (IsHtml(r.url) ==> 'l' in Behind(r.url, '/'))
      && (!IsHtml(r.url) && '?' in r.url && '=' in r.url ==> '=' in Behind(r.url, '?')))
  {
    hide StrChr, IsHtml, HtmlName, IsQuery, Req.ParseQuery, Behind;
    QueryIsDefined(r.url);
    NameIsDefined(r.url);
    IsQueryExactly(r.url);
    BehindStrChr(r.url, '/');
  }

  // ------------------------------------------------------------ reading whole

  lemma FirstTwo(chunks: Connection)
    requires |chunks| >= 2
    ensures |chunks[0]| + |chunks[1]| <= |Joined(chunks)| && chunks[0] <= Joined(chunks)
  {
    assert Joined(chunks[1..]) == chunks[1] + Joined(chunks[1..][1..]);
  }

  /** Cut in two or more reads, a request is lost: either the first part lacks a
      delimiter the parser follows, or the second is too short for the end check. */
  lemma SplitReadsAreUnsafe(r: Req.Request, chunks: Connection)
    requires Req.Clean(r) && |chunks| >= 2 && chunks[1] != "" && Joined(chunks) == Req.Render(r)
    ensures !ReceivesSafely(chunks)
  {
    hide Req.ParseRequest, Req.EndsRequest, Req.Render, Req.Clean;
    FirstTwo(chunks);
    var first, second := chunks[0], chunks[1];
    assert Req.Render(r)[..|first|] == first;
    Req.EndCheckIsPrefixFree(r, |first|);
    if ReceivesSafely(chunks) {
      Req.ParsedPrefixIsLong(r, first);
      assert ReceivesSafely(chunks[1..]);
      Req.ParsedIsLong(second);
      assert false;
    }
  }

  /** However the bytes of a printed request are divided into reads, the server
      receives it exactly when it comes in one read, its request line fits and it is
      no longer than the receive buffer; then it receives what was printed. */
  lemma OnlyWholeRequestsAreSafe(r: Req.Request, chunks: Connection)
    requires Req.Clean(r) && Joined(chunks) == Req.Render(r) && "" !in chunks
    ensures ReceivesSafely(chunks) <==>
      |chunks| == 1 && |Req.RequestLine(r)| <= 50 && |Req.Render(r)| <= 8192
    ensures ReceivesSafely(chunks) ==> Received(chunks) == Some(Req.Spaced(r))
  {
    hide Req.ParseRequest, Req.EndsRequest, Req.Clean, Req.RequestLine, Req.Render;
    Req.RenderEnds(r);
    Req.EndMarker(Req.Render(r));
    if |chunks| == 1 {
      JoinedOne(chunks);
      Req.RequestRoundTrip(r, "");
      assert Req.Render(r) + "" == Req.Render(r);
    } else {
      assert chunks != [] && chunks[1] in chunks;
      SplitReadsAreUnsafe(r, chunks);
    }
  }

  // ----------------------------------------------------------------- replies

  datatype Reply = Reply(status: Res.StatusCode, body: string, length: nat)

  function PageNotFound(files: Files): Reply
    requires NOT_FOUND_PAGE in files
  {
    Reply(Res.FILE_NOT_FOUND, files[NOT_FOUND_PAGE], |files[NOT_FOUND_PAGE]| + 1)
  }

  /** The reply to a request, given the database, the pages and the order of a dump. */
  function ReplyTo(r: Req.Request, disk: map<string, string>, files: Files, order: seq<string>): Reply
    requires Servable(r) && NOT_FOUND_PAGE in files
  {
    if r.httpMethod == Req.REQUEST_POST then Reply(Res.OKAY, "", 0)
    else if IsHtml(r.url) then
      var name := HtmlName(r.url, None).value;
      if name in files then Reply(Res.OKAY, files[name], |files[name]| + 1) else PageNotFound(files)
    else if !IsQuery(r.url) then PageNotFound(files)
    else
      var key := Req.ParseQuery(r.url).value.0;
      if key == DUMP_KEY then
        if order == [] then PageNotFound(files) else Reply(Res.OKAY, Dump(order), DumpSize(order))
      else if key in disk then Reply(Res.OKAY, disk[key], |disk[key]| + 1)
      else PageNotFound(files)
  }

  function DiskAfter(r: Req.Request, disk: map<string, string>): map<string, string>
    requires Servable(r)
  {
    if r.httpMethod == Req.REQUEST_POST
    then var (key, value) := Req.ParseQuery(r.url).value; disk[key := value]
    else disk
  }

  /** The response that carries a reply. */
  function Carries(version: string, reply: Reply): Res.Response {
    Answer(version, reply.status, reply.length, reply.body)
  }

  /** Between two exchanges: the server is about to be (re)initialised. */
  ghost predicate Idle(m: Machine) {
    Inv(m) && m.to == SERVER_INIT
  }

  /** The world offers one request to an idle server. */
  ghost predicate Offers(m: Machine, i: Input, r: Req.Request) {
    && AcceptsSafely(i.conns) && Accepted(i.conns) == Some(r)
    && r.httpMethod in {Req.REQUEST_GET, Req.REQUEST_POST} && Servable(r)
    && (r.httpMethod == Req.REQUEST_GET ==> DumpFits(r.url, m.disk, i.order))
  }

  /** Five steps with the same input. */
  ghost function Serve(m: Machine, i: Input, files: Files): Machine {
    Step(Step(Step(Step(Step(m, i, files), i, files), i, files), i, files), i, files)
  }

  lemma ServeIsRun(m: Machine, i: Input, files: Files)
    ensures Serve(m, i, files) == Run(m, [i, i, i, i, i], files)
  {
    var one := Step(m, i, files);
    var two := Step(one, i, files);
    var three := Step(two, i, files);
    var four := Step(three, i, files);
    assert [i, i, i, i, i][1..] == [i, i, i, i] && [i, i, i, i][1..] == [i, i, i];
    assert [i, i, i][1..] == [i, i] && [i, i][1..] == [i];
    assert Run(four, [i], files) == Step(four, i, files);
    assert Run(three, [i, i], files) == Run(four, [i], files);
    assert Run(two, [i, i, i], files) == Run(three, [i, i], files);
    assert Run(one, [i, i, i, i], files) == Run(two, [i, i, i], files);
  }

  /** What a servable GET guarantees the page lookups. */
  lemma PageNames(r: Req.Request)
    requires r.httpMethod == Req.REQUEST_GET && Servable(r)
    ensures HtmlName(r.url, Some(ERROR_404)) == Some(NOT_FOUND_PAGE)
    ensures IsHtml(r.url) ==> HtmlName(r.url, None).Some?
    ensures !IsHtml(r.url) && IsQuery(r.url) ==> Req.ParseQuery(r.url).Some?
    ensures Servable(Req.Request(Req.REQUEST_GET, r.url, "", "", "", ""))
  {
  }

  /** What `http_get` and `build_response` make of a GET between them. */
  lemma GetThenBuild(r: Req.Request, disk: map<string, string>, files: Files, order: seq<string>)
    requires r.httpMethod == Req.REQUEST_GET && Servable(r) && FilesOk(files)
    ensures var p := Get(ZEROED.(request := Live(r)), r.url, disk, files, order);
      && p.request == Live(r) && (p.error == Some(ERROR_404) ==> HtmlName(r.url, p.error).Some?)
      && Build(p, files).request == Live(r)
      && Build(p, files).response == Live(Carries(r.version, ReplyTo(r, disk, files, order)))
  {
    hide IsHtml, IsQuery, HtmlName, StrChr, Req.ParseQuery, Answer;
    PageNames(r);
    DumpLength(order);
  }

  // the machine behind the second, third and fourth step of an exchange

  function AfterAccept(m: Machine, r: Req.Request): Machine {
    Machine(ACCEPT_REQUEST, Dispatch(r.httpMethod), ZEROED.(request := Live(r)), m.disk, m.accepted + 1, m.sent)
  }

  function AfterHandler(m: Machine, r: Req.Request, files: Files, order: seq<string>): Machine
    requires Servable(r)
  {
    var p := ZEROED.(request := Live(r));
    Machine(Dispatch(r.httpMethod), BUILD_RESPONSE,
            if r.httpMethod == Req.REQUEST_POST then p else Get(p, r.url, m.disk, files, order),
            DiskAfter(r, m.disk), m.accepted + 1, m.sent)
  }

  lemma AcceptSteps(m: Machine, i: Input, r: Req.Request, files: Files)
    requires Idle(m) && Offers(m, i, r)
    ensures Step(Step(m, i, files), i, files) == AfterAccept(m, r)
  {
    hide Servable, Accepted, AcceptsSafely, DumpFits;
    assert Step(m, i, files) == Goto(m.(serv := ZEROED), ACCEPT_REQUEST);
  }

  lemma HandlerStep(m: Machine, i: Input, r: Req.Request, files: Files)
    requires Idle(m) && Offers(m, i, r)
    ensures Step(AfterAccept(m, r), i, files) == AfterHandler(m, r, files, i.order)
  {
    hide Get, DumpFits, IsHtml, HtmlName, IsQuery, AcceptsSafely, Accepted;
    assert AfterAccept(m, r).serv.request.value == r;
  }

  lemma BuildStep(m: Machine, i: Input, r: Req.Request, files: Files)
    requires Offers(m, i, r) && FilesOk(files)
    ensures var n := Step(AfterHandler(m, r, files, i.order), i, files);
      n == AfterHandler(m, r, files, i.order).(from := BUILD_RESPONSE, to := SEND_RESPONSE, serv := n.serv)
      && n.serv.request == Live(r)
      && n.serv.response == Live(Carries(r.version, ReplyTo(r, m.disk, files, i.order)))
  {
    hide Get, DumpFits, ReplyTo, Servable, Build, Carries, IsHtml, HtmlName, AcceptsSafely, Accepted;
    if r.httpMethod == Req.REQUEST_GET {
      GetThenBuild(r, m.disk, files, i.order);
    } else {
      PostThenBuild(r, m.disk, files, i.order);
    }
  }

  lemma PostThenBuild(r: Req.Request, disk: map<string, string>, files: Files, order: seq<string>)
    requires r.httpMethod == Req.REQUEST_POST && Servable(r) && FilesOk(files)
    ensures var q := Build(ZEROED.(request := Live(r)), files);
      q.request == Live(r) && q.response == Live(Carries(r.version, ReplyTo(r, disk, files, order)))
  {
  }

  lemma SendStep(n: Machine, i: Input, files: Files)
    requires n.from == BUILD_RESPONSE && n.to == SEND_RESPONSE && n.accepted == |n.sent| + 1
    requires n.serv.request.Live? && n.serv.response.Live?
    ensures Step(n, i, files) == n.(from := SEND_RESPONSE, to := SERVER_INIT,
      serv := n.serv.(request := Dangling, response := Dangling),
      sent := n.sent + [Res.WireOf(n.serv.response.value)])
    ensures Idle(Step(n, i, files))
  {
    hide Res.WireOf;
  }

  /** Five steps serve one request: the reply goes out, a POST is stored, and the
      server is idle again. */
  lemma ExchangeLaw(m: Machine, i: Input, r: Req.Request, files: Files)
    requires Idle(m) && FilesOk(files) && Offers(m, i, r)
    ensures var n := Serve(m, i, files);
      && Idle(n) && n.disk == DiskAfter(r, m.disk) && n.accepted == m.accepted + 1
      && n.sent == m.sent + [Res.WireOf(Carries(r.version, ReplyTo(r, m.disk, files, i.order)))]
  {
    hide Get, DumpFits, ReplyTo, Servable, Build, Carries, Dispatch, DiskAfter, Res.WireOf, HtmlName, Step;
    AcceptSteps(m, i, r, files);
    HandlerStep(m, i, r, files);
    BuildStep(m, i, r, files);
    assert m.accepted == |m.sent|;
    SendStep(Step(AfterHandler(m, r, files, i.order), i, files), i, files);
  }

  /** The bytes on the wire: the printed reply, with a terminator exactly when the
      length counts one; the body has exactly Content-Length bytes. */
  lemma ReplyOnWire(version: string, reply: Reply)
    requires reply.length in {|reply.body|, |reply.body| + 1}
    ensures var r := Carries(version, reply);
      && StrToL(r.contentLength) == reply.length
      && Res.WireOf(r) == Res.Render(r) + (if reply.length == |reply.body| then "" else [NUL])
      && |Res.WireOf(r)| == |Res.Head(r)| + 4 + reply.length
  {
    var r := Carries(version, reply);
    StrToLOfItoa(reply.length);
    Res.WireIsHeadAndBody(r);
  }

  /** Which length goes with which reply, on every path. */
  lemma ReplyLength(r: Req.Request, disk: map<string, string>, files: Files, order: seq<string>)
    requires Servable(r) && FilesOk(files)
    ensures var reply := ReplyTo(r, disk, files, order);
      reply.length == |reply.body| +
        (if r.httpMethod == Req.REQUEST_POST || (reply.status == Res.OKAY && IsDump(r.url)) then 0 else 1)
  {
    DumpLength(order);
  }

  /** The reply to a GET that reaches the database does not depend on the value part
      of the URL. */
  lemma ReplyIgnoresValue(key: string, v1: string, v2: string, disk: map<string, string>,
                          files: Files, order: seq<string>)
    requires Free(key, '=') && NUL !in v1 && NUL !in v2 && NOT_FOUND_PAGE in files
    requires !IsHtml(Req.QueryUrl(key, v1)) && !IsHtml(Req.QueryUrl(key, v2))
    ensures Servable(Req.BuiltRequest(Req.REQUEST_GET, key, v1)) && Servable(Req.BuiltRequest(Req.REQUEST_GET, key, v2))
    ensures ReplyTo(Req.BuiltRequest(Req.REQUEST_GET, key, v1), disk, files, order)
         == ReplyTo(Req.BuiltRequest(Req.REQUEST_GET, key, v2), disk, files, order)
  {
    BuiltUrlIsServable(Req.REQUEST_GET, key, v1);
    BuiltUrlIsServable(Req.REQUEST_GET, key, v2);
  }

  /** The reply of a plain map. */
  function MapReply(key: string, disk: map<string, string>, files: Files): Reply
    requires NOT_FOUND_PAGE in files
  {
    if key in disk then Reply(Res.OKAY, disk[key], |disk[key]| + 1) else PageNotFound(files)
  }

  /** The page every 404 carries. */
  lemma NotFoundPage(files: Files)
    requires "404.html" in files
    ensures PageNotFound(files) == Reply(Res.FILE_NOT_FOUND, files["404.html"], |files["404.html"]| + 1)
  {
  }

  /** A POST stores the pair of its URL, whatever the path, and gets an empty 200. */
  lemma PostIsAnswered(r: Req.Request, path: string, key: string, value: string, disk: map<string, string>,
                       files: Files, order: seq<string>)
    requires r.httpMethod == "POST" && r.url == path + "?" + key + "=" + value && "404.html" in files
    requires Free(path, '?') && Free(key, '=') && NUL !in value
    ensures Servable(r) && DiskAfter(r, disk) == disk[key := value]
    ensures ReplyTo(r, disk, files, order) == Reply(Res.OKAY, "", 0)
  {
    hide Req.ParseQuery;
    Req.QueryOfUrl(path, key, value);
  }

  /** A GET for a page is answered with the file of the extracted name, if there is one. */
  lemma PageIsAnswered(r: Req.Request, prefix: string, a: string, rest: string, disk: map<string, string>,
                       files: Files, order: seq<string>)
    requires r.httpMethod == "GET" && r.url == prefix + "/" + a + "l" + rest && "404.html" in files
    requires Free(prefix, '/') && Free(a, 'l') && IsHtml(r.url)
    ensures Servable(r) && DiskAfter(r, disk) == disk
    ensures ReplyTo(r, disk, files, order) ==
      if a + "l" in files then Reply(Res.OKAY, files[a + "l"], |files[a + "l"]| + 1) else PageNotFound(files)
  {
    hide IsHtml, IsQuery, HtmlName, Req.ParseQuery;
    HtmlNameExactly(prefix, a, rest);
    FirstSlash(prefix, a + "l" + rest);
    assert r.url == prefix + "/" + (a + "l" + rest);
  }

  /** A GET for a query that is no page: the word DUMP asks for all keys, any other key
      is looked up, and there is a 404 for what is not there. */
  lemma QueryIsAnswered(r: Req.Request, path: string, key: string, value: string, disk: map<string, string>,
                        files: Files, order: seq<string>)
    requires r.httpMethod == "GET" && r.url == path + "?" + key + "=" + value && "404.html" in files
    requires Free(path, '?') && Free(key, '=') && NUL !in value && Servable(r) && !IsHtml(r.url)
    ensures DiskAfter(r, disk) == disk && (IsDump(r.url) <==> key == "DUMP")
    ensures ReplyTo(r, disk, files, order) ==
      if key == "DUMP" then
        if order == [] then PageNotFound(files) else Reply(Res.OKAY, Dump(order), DumpSize(order))
      else if key in disk then Reply(Res.OKAY, disk[key], |disk[key]| + 1)
      else PageNotFound(files)
  {
    hide IsHtml, IsQuery, HtmlName, Req.ParseQuery, Dump, DumpSize;
    QueryUrlParses(path, key, value);
  }

  /** A GET that is neither page nor query is answered 404. */
  lemma OtherIsAnswered(r: Req.Request, disk: map<string, string>, files: Files, order: seq<string>)
    requires r.httpMethod == "GET" && NUL !in r.url && '/' in r.url && "404.html" in files
    requires !IsHtml(r.url) && ('?' !in r.url || '=' !in r.url)
    ensures Servable(r) && DiskAfter(r, disk) == disk && ReplyTo(r, disk, files, order) == PageNotFound(files)
  {
    hide IsHtml, IsQuery, HtmlName, Req.ParseQuery, Behind;
    ServableExactly(r);
    IsQueryExactly(r.url);
  }

  /** A GET is answered from the database, whatever is in it. */
  ghost predicate AnswersLikeMap(r: Req.Request, key: string)
    requires Servable(r)
  {
    forall disk: map<string, string>, files: Files, order: seq<string> | NOT_FOUND_PAGE in files ::
      ReplyTo(r, disk, files, order) == MapReply(key, disk, files)
  }

  /** Exactly which queries the server answers like a map, whatever the path: those
      whose key is not the word DUMP and whose URL is not mistaken for a page. */
  lemma LookUpLaw(r: Req.Request, path: string, key: string, value: string)
    requires r.httpMethod == "GET" && r.url == path + "?" + key + "=" + value && Servable(r)
    requires Free(path, '?') && Free(key, '=') && NUL !in value
    ensures AnswersLikeMap(r, key) <==> key != "DUMP" && !IsHtml(r.url)
  {
    hide IsHtml, IsQuery, HtmlName, Req.ParseQuery;
    QueryUrlParses(path, key, value);
    var pages: Files := map[NOT_FOUND_PAGE := ""];
    if IsHtml(r.url) {
      assert ReplyTo(r, map[], pages, []) != MapReply(key, map[], pages)
          || ReplyTo(r, map[key := "v"], pages, []) != MapReply(key, map[key := "v"], pages);
    } else if key == "DUMP" {
      assert ReplyTo(r, map[], pages, ["k"]) != MapReply(key, map[], pages);
    }
  }
}
