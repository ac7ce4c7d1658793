/** Client and server together: what is posted over the wire is what a later GET
    displays, so the system refines a plain map. */
module EndToEnd {
  import opened CString
  import opened Wire
  import opened Db
  import opened ServerModel
  import opened Exchange
  import opened NcurseCli
  import Req = HttpRequests
  import Res = HttpResponses

  /** The longest value and page whose response fits the client's buffer. */
  const VALUE_LIMIT := 894
  const PAGE_LIMIT := 882

  // -------------------------------------------------- the head of an answer

  lemma DigitsAreClean(n: nat, c: char)
    requires !IsDigit(c)
    ensures c !in Digits(n)
  {
  }

  lemma ConstantsAreClean()
    ensures Free(Res.HTTP_DATE, '\r') && Free(Res.HTTP_SERVER, '\r')
    ensures Free(Res.HTTP_LAST_MODIFIED, '\r') && Free(Res.HTTP_CONTENT_TYPE, '\r')
    ensures |Res.HTTP_DATE| + |Res.HTTP_SERVER| + |Res.HTTP_LAST_MODIFIED| + |Res.HTTP_CONTENT_TYPE| == 38
  {
  }

  lemma CodeIsClean(s: Res.StatusCode)
    ensures var code := Res.StatusPair(s).0;
      Free(code, ' ') && Free(code, '\n') && |code| == 3
  {
  }

  lemma StatusIsClean(s: Res.StatusCode)
    ensures var status := Res.StatusPair(s).1;
      Free(status, '\n') && |status| <= 26
  {
    match s
    case OKAY =>
    case FILE_NOT_FOUND =>
    case BAD_REQUEST =>
    case SERVER_ERROR => ServerErrorIsClean();
    case VERSION_NOT_SUPPORTED => VersionErrorIsClean();
  }

  lemma ServerErrorIsClean()
    ensures Free("HTTP Internal Server Error", '\n') && |"HTTP Internal Server Error"| == 26
  {
  }

  lemma VersionErrorIsClean()
    ensures Free("HTTP Version Not Supported", '\n') && |"HTTP Version Not Supported"| == 26
  {
  }

  /** Every answer has a clean head whose status line fits its buffer. */
  lemma AnswerIsClean(version: string, reply: Reply)
    requires Free(version, ' ') && Free(version, '\n') && |version| <= 17
    requires reply.length < 0x8000_0000
    ensures var r := Carries(version, reply);
      && Res.CleanHead(r) && |Res.StatusLine(r)| <= Res.STAT_LINE_BUFF
      && |Res.Head(r)| <= 166
  {
    hide Res.StatusPair;
    var r := Carries(version, reply);
    ConstantsAreClean();
    CodeIsClean(reply.status);
    StatusIsClean(reply.status);
    DigitsAreClean(reply.length, '\r');
    DigitsAreClean(reply.length, NUL);
    ItoaFitsBuffer(reply.length);
    assert |Res.StatusLine(r)| == |version| + |r.code| + |r.status| + 4;
    HeadersSize(r);
  }

  lemma HeadersSize(r: Res.Response)
    ensures |Res.Headers(r)| == 67 + |r.date| + |r.server| + |r.lastModified| + |r.contentLength| + |r.contentType|
  {
  }

  // ---------------------------------------------------------------- sizes

  lemma WireSize(reply: Reply)
    requires reply.length in {|reply.body|, |reply.body| + 1}
    ensures |Res.WireOf(Carries(Req.HTTP_VERSION, reply))|
         == 124 + |Res.StatusPair(reply.status).1| + |Itoa(reply.length)| + reply.length
  {
    hide Itoa, Res.WireOf;
    var r := Carries(Req.HTTP_VERSION, reply);
    ConstantsAreClean();
    CodeIsClean(reply.status);
    HeadersSize(r);
    ReplyOnWire(Req.HTTP_VERSION, reply);
    assert |Res.StatusLine(r)| == |Req.HTTP_VERSION| + |r.code| + |r.status| + 4;
  }

  lemma AtLeastThreeDigits(n: nat)
    requires n >= 100
    ensures |Itoa(n)| >= 3
  {
    assert |Digits(n / 10)| >= 2;
  }

  /** The digits of the length itself decide nothing: the bound has three. */
  lemma SizeFits(head: nat, length: nat)
    requires 24 < head < 920
    ensures head + |Itoa(length)| + length <= DATA_BUFF <==> length <= DATA_BUFF - 3 - head
  {
    hide Itoa;
    if length < 1000 {
      AtMostThreeDigits(length);
    }
    if length >= 100 {
      AtLeastThreeDigits(length);
    }
  }

  lemma AtMostThreeDigits(n: nat)
    requires n < 1000
    ensures 1 <= |Itoa(n)| <= 3
  {
    assert Power10(3) == 1000;
    DigitsLength(n, 3, 1000);
  }

  function ValueReply(value: string): Reply { Reply(Res.OKAY, value, |value| + 1) }

  function PageReply(page: string): Reply { Reply(Res.FILE_NOT_FOUND, page, |page| + 1) }

  function DumpReply(order: seq<string>): Reply { Reply(Res.OKAY, Dump(order), DumpSize(order)) }

  /** The bytes the server sends for a reply. */
  function SentFor(reply: Reply): string {
    Res.WireOf(Carries(Req.HTTP_VERSION, reply))
  }

  /** Exactly which responses fit the 1024 bytes the client reads into. */
  lemma ResponsesFit(value: string, page: string, order: seq<string>)
    ensures |SentFor(ValueReply(value))| <= 1024 <==> |value| <= 894
    ensures |SentFor(PageReply(page))| <= 1024 <==> |page| <= 882
    ensures |SentFor(DumpReply(order))| <= 1024 <==> DumpSize(order) <= 895
    ensures |SentFor(DumpReply(order))| < 1024 <==> DumpSize(order) < 895
  {
    hide Itoa, Res.WireOf, Carries;
    assert |Res.StatusPair(Res.OKAY).1| == 2 && |Res.StatusPair(Res.FILE_NOT_FOUND).1| == 14;
    WireSize(ValueReply(value));
    SizeFits(126, |value| + 1);
    WireSize(PageReply(page));
    SizeFits(138, |page| + 1);
    DumpLength(order);
    WireSize(DumpReply(order));
    SizeFits(126, DumpSize(order));
    SizeFits(127, DumpSize(order));
  }

  /** Every byte of the answers to a GET for a value, for what is not there and for the
      dump, and to a POST. */
  lemma ReplyTexts(value: string, page: string, order: seq<string>)
    ensures var unknown := "Date: unknown\r\n" + "Server: MegaFucker 5000\r\n" + "Last-Modified: unknown\r\n";
      var end := "Content-Type: text/html\r\n";
      && SentFor(ValueReply(value)) == "HTTP/1.0 200 OK\r\n"
           + (unknown + ("Content-Length: " + Itoa(|value| + 1) + "\r\n") + end) + "\r\n" + value + [NUL]
      && SentFor(PageReply(page)) == "HTTP/1.0 404 File Not Found\r\n"
           + (unknown + ("Content-Length: " + Itoa(|page| + 1) + "\r\n") + end) + "\r\n" + page + [NUL]
      && SentFor(DumpReply(order)) == "HTTP/1.0 200 OK\r\n"
           + (unknown + ("Content-Length: " + Itoa(|Dump(order)|) + "\r\n") + end) + "\r\n" + Dump(order)
      && SentFor(Reply(Res.OKAY, "", 0)) == "HTTP/1.0 200 OK\r\n"
           + (unknown + ("Content-Length: " + "0" + "\r\n") + end) + "\r\n" + ""
  {
    hide Dump, Itoa;
    DumpLength(order);
    ItoaIsDecimal(0);
    assert ['0'] == "0";
    OneReplyText(ValueReply(value), "HTTP/1.0 200 OK\r\n");
    OneReplyText(PageReply(page), "HTTP/1.0 404 File Not Found\r\n");
    OneReplyText(DumpReply(order), "HTTP/1.0 200 OK\r\n");
    OneReplyText(Reply(Res.OKAY, "", 0), "HTTP/1.0 200 OK\r\n");
  }

  lemma OneReplyText(reply: Reply, statusLine: string)
    requires reply.length in {|reply.body|, |reply.body| + 1}
    requires reply.status in {Res.OKAY, Res.FILE_NOT_FOUND}
    requires reply.status == Res.OKAY ==> statusLine == "HTTP/1.0 200 OK\r\n"
    requires reply.status == Res.FILE_NOT_FOUND ==> statusLine == "HTTP/1.0 404 File Not Found\r\n"
    ensures SentFor(reply) == statusLine
      + ("Date: unknown\r\n" + "Server: MegaFucker 5000\r\n" + "Last-Modified: unknown\r\n"
         + ("Content-Length: " + Itoa(reply.length) + "\r\n") + "Content-Type: text/html\r\n")
      + "\r\n" + reply.body + (if reply.length == |reply.body| then "" else [NUL])
  {
    hide Res.WireOf, Res.Render, Itoa, Res.StatusPair;
    var r := Carries(Req.HTTP_VERSION, reply);
    Res.StatusPairs();
    Res.StatusTexts();
    assert Res.StatusLine(r) == statusLine;
    Res.ResponseText(r);
    ReplyOnWire(Req.HTTP_VERSION, reply);
  }

  // ------------------------------------------------------------- delivery

  /** The connections deliver one text, in one read, behind any that deliver nothing.
      A text divided into more reads is not received (`OnlyWholeRequestsAreSafe`). */
  ghost predicate Delivers(conns: seq<Connection>, text: string)
    decreases conns
  {
    conns != [] && (conns[0] == [text] || (conns[0] == [] && Delivers(conns[1..], text)))
  }

  lemma {:induction false} Delivery(conns: seq<Connection>, text: string)
    requires Delivers(conns, text) && |text| <= LARGE_BUFF && Req.ParseRequest(text).Some?
    ensures AcceptsSafely(conns) && Accepted(conns) == Req.ParseRequest(text)
    decreases conns
  {
    if conns[0] == [text] {
    } else {
      Delivery(conns[1..], text);
    }
  }

  // ---------------------------------------------------------- observations

  /** What the client makes of a response: the code in its record and the text that
      `showOneBeacon` displays.  The client never looks at the code. */
  datatype Seen = Seen(code: string, text: string)

  /** A response goes through the read loop of `getOneBeacon`, the parse behind it and
      `showOneBeacon`.  `None`: the loop would measure or parse what is not there. */
  function Observe(wire: string): Option<Seen> {
    if !Readable(Zeros(DATA_BUFF), ReadsOf(wire)) then None
    else
      var r :- Res.ParseResponse(AfterReads(Zeros(DATA_BUFF), ReadsOf(wire)));
      var text :- Shown(r);
      Some(Seen(r.code, text))
  }

  /** A value or a page gets through exactly when its response fits the buffer, and
      then code and body are seen as they were sent. */
  lemma ReplyObserved(reply: Reply)
    requires reply.length == |reply.body| + 1 < 0x8000_0000 && NUL !in reply.body
    ensures Readable(Zeros(DATA_BUFF), ReadsOf(SentFor(reply))) <==> |SentFor(reply)| <= DATA_BUFF
    ensures Observe(SentFor(reply)) ==
      if |SentFor(reply)| <= DATA_BUFF then Some(Seen(Res.StatusPair(reply.status).0, reply.body)) else None
  {
    hide Res.ParseResponse, StrLen, StrToL, Res.Head, Res.StatusLine, Res.CleanHead, Itoa, Res.WireOf, Readable,
      ReadsOf, AfterReads, Shown, Res.StatusPair;
    var r := Carries(Req.HTTP_VERSION, reply);
    VersionIsClean();
    AnswerIsClean(Req.HTTP_VERSION, reply);
    ReplyOnWire(Req.HTTP_VERSION, reply);
    FullReadsExact(r);
    var wire := SentFor(reply);
    if |wire| <= DATA_BUFF {
      var rest := [NUL] + Zeros(DATA_BUFF)[|wire|..];
      assert Overwritten(Zeros(DATA_BUFF), wire) == Res.Render(r) + rest;
      Res.ResponseRoundTrip(r, rest);
      ShownIsBody(Res.Returned(r, CRLFCRLF + reply.body), reply.body);
    }
  }

  lemma ShownIsBody(r: Res.Response, body: string)
    requires r.content == CRLFCRLF + body && StrToL(r.contentLength) == |body| + 1 && NUL !in body
    ensures Shown(r) == Some(body)
  {
    hide StrToL;
    assert r.content[4..|body| + 4] == body;
    StrLenAt(body, 0, body);
  }

  /** However the response to a GET for a value without a space is divided into reads,
      the client gets through exactly when it comes in one and the value fits.  Every
      later read overwrites the head of the response. */
  lemma ValueDelivery(value: string, chunks: seq<string>)
    requires Free(value, ' ') && |value| + 1 < 0x8000_0000
    requires Joined(chunks) == SentFor(ValueReply(value)) && "" !in chunks
    ensures Readable(Zeros(DATA_BUFF), chunks) <==> |chunks| == 1 && |value| <= VALUE_LIMIT
  {
    hide Readable, Res.WireOf, Res.CleanHead, Res.StatusLine, StrToL, Itoa;
    VersionIsClean();
    AnswerIsClean(Req.HTTP_VERSION, ValueReply(value));
    ReplyOnWire(Req.HTTP_VERSION, ValueReply(value));
    ValueReadsExact(Carries(Req.HTTP_VERSION, ValueReply(value)), chunks);
    ResponsesFit(value, "", []);
  }

  // ------------------------------------------------------------ refinement

  datatype Op = Post(key: string, value: string) | Get(key: string, value: string)

  function RequestOf(op: Op): Req.Request {
    Req.BuiltRequest(if op.Post? then Req.REQUEST_POST else Req.REQUEST_GET, op.key, op.value)
  }

  /** The side conditions: clean key and value, a request line that fits, and for a
      GET a key that is neither the dump nor mistaken for a page. */
  predicate CleanOp(op: Op) {
    && Req.CleanPair(op.key, op.value)
    && |Req.RequestLine(RequestOf(op))| <= Req.REQ_LINE_BUFF
    && (op.Get? ==> op.key != DUMP_KEY && !IsHtml(Req.QueryUrl(op.key, op.value)))
  }

  /** In terms of lengths: the request line of a GET has room for 32 characters of key
      and value together, that of a POST for 31. */
  lemma CleanOpExactly(op: Op)
    ensures CleanOp(op) <==>
      && Req.CleanPair(op.key, op.value)
      && |op.key| + |op.value| <= (if op.Get? then 32 else 31)
      && (op.Get? ==> op.key != "DUMP" && !IsHtml("/?" + op.key + "=" + op.value))
  {
    hide IsHtml, Req.CleanPair;
    assert |Req.RequestLine(RequestOf(op))| == |RequestOf(op).httpMethod| + |op.key| + |op.value| + 15;
  }

  function Apply(db: map<string, string>, op: Op): map<string, string> {
    if op.Post? then db[op.key := op.value] else db
  }

  /** What a plain map answers: the value, or the page for what is not there. */
  function Answered(db: map<string, string>, key: string, page: string): Seen {
    if key in db then Seen("200", db[key]) else Seen("404", page)
  }

  /** The response with this answer fits the client's buffer. */
  predicate Fits(a: Seen) {
    |a.text| <= if a.code == "200" then VALUE_LIMIT else PAGE_LIMIT
  }

  /** What comes through of an answer. */
  function Visible(a: Seen): Option<Seen> {
    if Fits(a) then Some(a) else None
  }

  /** Stored values are C strings whose size, terminator included, is an `int`. */
  ghost predicate Texts(db: map<string, string>) {
    forall k | k in db :: NUL !in db[k] && |db[k]| + 1 < 0x8000_0000
  }

  /** The simulation relation. */
  ghost predicate Simulates(m: Machine, db: map<string, string>) {
    Idle(m) && m.disk == db && Texts(db)
  }

  /** A server that has just started simulates the database it finds on disk. */
  lemma StartSimulates(disk: map<string, string>)
    requires Texts(disk)
    ensures Simulates(START.(disk := disk), disk)
  {
  }

  /** The answer of the map is seen exactly when it fits. */
  lemma AnswerObserved(db: map<string, string>, key: string, files: Files)
    requires Texts(db) && FilesOk(files)
    ensures Observe(SentFor(MapReply(key, db, files))) == Visible(Answered(db, key, files[NOT_FOUND_PAGE]))
  {
    hide Observe, Res.WireOf, Carries, Readable;
    if key in db {
      ReplyObserved(ValueReply(db[key]));
      ResponsesFit(db[key], "", []);
    } else {
      ReplyObserved(PageReply(files[NOT_FOUND_PAGE]));
      ResponsesFit("", files[NOT_FOUND_PAGE], []);
    }
  }

  lemma OpArrives(op: Op, conns: seq<Connection>)
    requires CleanOp(op) && Delivers(conns, Req.Render(RequestOf(op)))
    ensures AcceptsSafely(conns) && Accepted(conns) == Some(Req.Spaced(RequestOf(op)))
    ensures Servable(Req.Spaced(RequestOf(op)))
  {
    hide Req.ParseRequest, Req.Render, Req.RequestLine, Req.Clean, AcceptsSafely, Accepted, Delivers, IsHtml, HtmlName,
      IsQuery;
    var r := RequestOf(op);
    Req.BuiltRequestIsClean(r.httpMethod, op.key, op.value);
    Req.RequestRoundTrip(r, "");
    assert Req.Render(r) + "" == Req.Render(r);
    RequestIsShort(r);
    Delivery(conns, Req.Render(r));
    BuiltUrlIsServable(r.httpMethod, op.key, op.value);
  }

  lemma RequestIsShort(r: Req.Request)
    requires |Req.RequestLine(r)| <= Req.REQ_LINE_BUFF
    requires r.host == Req.HTTP_HOST && r.userAgent == Req.HTTP_USER_AGENT && r.accept == Req.ACCEPT_TYPE
    ensures |Req.Render(r)| <= LARGE_BUFF
  {
    assert |Req.HTTP_HOST| + |Req.HTTP_USER_AGENT| + |Req.ACCEPT_TYPE| == 29;
  }

  lemma ReplyToOp(op: Op, db: map<string, string>, files: Files, order: seq<string>)
    requires CleanOp(op) && FilesOk(files) && Servable(Req.Spaced(RequestOf(op)))
    ensures var r := Req.Spaced(RequestOf(op));
      && DiskAfter(r, db) == Apply(db, op)
      && (op.Get? ==> !IsDump(r.url))
      && (op.Get? ==> ReplyTo(r, db, files, order) == MapReply(op.key, db, files))
  {
    hide IsHtml, Req.RequestLine, HtmlName;
    BuiltUrlIsServable(RequestOf(op).httpMethod, op.key, op.value);
  }

  /** One operation: the machine keeps simulating the map, a GET is answered with the
      reply of the map, and the client sees the map's answer if it fits. */
  lemma OperationRefines(m: Machine, db: map<string, string>, op: Op, i: Input, files: Files)
    requires Simulates(m, db) && CleanOp(op) && FilesOk(files)
    requires Delivers(i.conns, Req.Render(RequestOf(op)))
    ensures var n := Serve(m, i, files);
      && Simulates(n, Apply(db, op)) && |n.sent| == |m.sent| + 1
      && (op.Get? ==>
            && n.sent == m.sent + [SentFor(MapReply(op.key, db, files))]
            && Observe(n.sent[|m.sent|]) == Visible(Answered(db, op.key, files[NOT_FOUND_PAGE])))
  {
    hide ReplyTo, DiskAfter, Servable, Observe, Carries, Res.WireOf, Serve, Delivers, AcceptsSafely, Accepted,
      IsHtml, Req.Render, Req.RequestLine, IsDump, Visible, Answered, MapReply;
    var r := Req.Spaced(RequestOf(op));
    OpArrives(op, i.conns);
    ReplyToOp(op, db, files, i.order);
    assert Offers(m, i, r);
    ExchangeLaw(m, i, r, files);
    TextsStay(db, op);
    AnswerObserved(db, op.key, files);
  }

  lemma VersionIsClean()
    ensures Free(Req.HTTP_VERSION, ' ') && Free(Req.HTTP_VERSION, '\n') && |Req.HTTP_VERSION| <= 17
  {
  }

  lemma TextsStay(db: map<string, string>, op: Op)
    requires Texts(db) && CleanOp(op)
    ensures Texts(Apply(db, op)) && |op.value| <= VALUE_LIMIT
  {
    assert |Req.QueryUrl(op.key, op.value)| >= |op.value|;
  }

  /** The page of the repository, of 2012 bytes, is too long: a GET for a key that is not there makes
      the client measure a string that starts before its buffer. */
  lemma ShippedPageIsNotSeen(m: Machine, key: string, ignored: string, i: Input, files: Files)
    requires Simulates(m, m.disk) && FilesOk(files) && CleanOp(Get(key, ignored)) && key !in m.disk
    requires Delivers(i.conns, Req.Render(RequestOf(Get(key, ignored))))
    requires |files["404.html"]| == 2012
    ensures var n := Serve(m, i, files);
      && |n.sent| == |m.sent| + 1 && Observe(n.sent[|m.sent|]) == None
      && |n.sent[|m.sent|]| > DATA_BUFF
      && LengthIn(Overwritten(Zeros(DATA_BUFF), n.sent[|m.sent|][..DATA_BUFF])) == Some(2013)
  {
    hide Observe, Serve, Simulates, CleanOp, Delivers, Req.Render, LengthIn, Res.WireOf, Carries;
    OperationRefines(m, m.disk, Get(key, ignored), i, files);
    ResponsesFit("", files[NOT_FOUND_PAGE], []);
    PageLengthArrives(files[NOT_FOUND_PAGE]);
  }

  lemma PageLengthArrives(page: string)
    requires |page| < LARGE_BUFF && |SentFor(PageReply(page))| > DATA_BUFF
    ensures LengthIn(Overwritten(Zeros(DATA_BUFF), SentFor(PageReply(page))[..DATA_BUFF])) == Some(|page| + 1)
  {
    hide LengthIn, Res.WireOf, Res.CleanHead, Res.StatusLine, Res.Head, StrToL, Itoa;
    var r := Carries(Req.HTTP_VERSION, PageReply(page));
    VersionIsClean();
    AnswerIsClean(Req.HTTP_VERSION, PageReply(page));
    ReplyOnWire(Req.HTTP_VERSION, PageReply(page));
    HeadArrives(r, DATA_BUFF, Zeros(DATA_BUFF)[DATA_BUFF..]);
    LengthArrives(Overwritten(Zeros(DATA_BUFF), Res.WireOf(r)[..DATA_BUFF]), r);
  }

  // -------------------------------------------------------------- sessions

  /** What the client sees, operation by operation, of a session with the server. */
  ghost function Session(m: Machine, ops: seq<Op>, worlds: seq<Input>, files: Files): seq<Option<Seen>>
    requires |worlds| == |ops|
    decreases ops
  {
    if ops == [] then []
    else
      var n := Serve(m, worlds[0], files);
      (if ops[0].Get? && |n.sent| > |m.sent| then [Observe(n.sent[|m.sent|])] else [])
      + Session(n, ops[1..], worlds[1..], files)
  }

  /** What a user of a plain map is answered. */
  function PlainSession(db: map<string, string>, ops: seq<Op>, page: string): seq<Seen>
    decreases ops
  {
    if ops == [] then []
    else
      (if ops[0].Get? then [Answered(db, ops[0].key, page)] else [])
      + PlainSession(Apply(db, ops[0]), ops[1..], page)
  }

  /** Every answer as far as it comes through. */
  function AllVisible(answers: seq<Seen>): seq<Option<Seen>> {
    seq(|answers|, i requires 0 <= i < |answers| => Visible(answers[i]))
  }

  /** The operations of a session are clean and their requests delivered. */
  ghost predicate SessionArrives(ops: seq<Op>, worlds: seq<Input>) {
    && |worlds| == |ops|
    && forall k | 0 <= k < |ops| :: CleanOp(ops[k]) && Delivers(worlds[k].conns, Req.Render(RequestOf(ops[k])))
  }

  /** The end-to-end theorem: over every finite session of clean operations, from
      any database and whatever connections come to nothing in between, the client
      sees exactly those answers of a plain map whose responses fit its buffer. */
  lemma {:induction false} SystemRefinesMap(m: Machine, ops: seq<Op>, worlds: seq<Input>, files: Files)
    requires Simulates(m, m.disk) && FilesOk(files) && SessionArrives(ops, worlds)
    ensures Session(m, ops, worlds, files) == AllVisible(PlainSession(m.disk, ops, files[NOT_FOUND_PAGE]))
    decreases ops
  {
    hide Observe, Serve, CleanOp, Delivers, Req.Render, Simulates, Answered, Visible, SentFor, MapReply;
    if ops == [] {
    } else {
      SimulationDisk(m, m.disk);
      var n := Serve(m, worlds[0], files);
      OperationRefines(m, m.disk, ops[0], worlds[0], files);
      SimulationDisk(n, Apply(m.disk, ops[0]));
      SystemRefinesMap(n, ops[1..], worlds[1..], files);
    }
  }

  lemma SimulationDisk(m: Machine, db: map<string, string>)
    requires Simulates(m, db)
    ensures m.disk == db
  {
  }

  ghost predicate ValuesFit(db: map<string, string>) {
    forall k | k in db :: |db[k]| <= VALUE_LIMIT
  }

  lemma {:induction false} AnswersFit(db: map<string, string>, ops: seq<Op>, page: string)
    requires ValuesFit(db) && |page| <= PAGE_LIMIT && forall k | 0 <= k < |ops| :: |ops[k].value| <= VALUE_LIMIT
    ensures forall a | a in PlainSession(db, ops, page) :: Fits(a)
    decreases ops
  {
    if ops == [] {
    } else {
      AnswersFit(Apply(db, ops[0]), ops[1..], page);
    }
  }

  /** From the start of the server, on any database of values that fit and with a page
      that fits, client and server together are a plain map. */
  lemma SystemIsMap(disk: map<string, string>, ops: seq<Op>, worlds: seq<Input>, files: Files)
    requires Texts(disk) && ValuesFit(disk) && FilesOk(files) && |files[NOT_FOUND_PAGE]| <= PAGE_LIMIT
    requires SessionArrives(ops, worlds)
    ensures var seen := Session(START.(disk := disk), ops, worlds, files);
      var answers := PlainSession(disk, ops, files[NOT_FOUND_PAGE]);
      |seen| == |answers| && forall k | 0 <= k < |answers| :: seen[k] == Some(answers[k])
  {
    hide Session, CleanOp, Delivers, Req.Render, Simulates, PlainSession, Fits;
    StartSimulates(disk);
    SystemRefinesMap(START.(disk := disk), ops, worlds, files);
    forall k | 0 <= k < |ops| ensures |ops[k].value| <= VALUE_LIMIT {
      TextsStay(map[], ops[k]);
    }
    AnswersFit(disk, ops, files[NOT_FOUND_PAGE]);
  }

  /** The map after a session. */
  function MapAfter(db: map<string, string>, ops: seq<Op>): map<string, string>
    decreases ops
  {
    if ops == [] then db else MapAfter(Apply(db, ops[0]), ops[1..])
  }

  /** In the plain map a GET answers the last value posted for its key, and what the
      database held before if nothing was. */
  lemma {:induction false} LastPostWins(db: map<string, string>, ops: seq<Op>, key: string, page: string, last: int)
    requires -1 <= last < |ops|
    requires last >= 0 ==> ops[last].Post? && ops[last].key == key
    requires forall j | last < j < |ops| :: !(ops[j].Post? && ops[j].key == key)
    ensures Answered(MapAfter(db, ops), key, page) ==
      if last >= 0 then Seen("200", ops[last].value) else Answered(db, key, page)
    decreases ops
  {
    if ops == [] {
    } else {
      LastPostWins(Apply(db, ops[0]), ops[1..], key, page, if last >= 0 then last - 1 else -1);
    }
  }

  lemma {:induction false} PlainSessionAppend(db: map<string, string>, ops: seq<Op>, op: Op, page: string)
    ensures PlainSession(db, ops + [op], page) == PlainSession(db, ops, page)
      + (if op.Get? then [Answered(MapAfter(db, ops), op.key, page)] else [])
    decreases ops
  {
    if ops == [] {
      assert [op][1..] == [];
      assert ops + [op] == [op];
    } else {
      assert (ops + [op])[1..] == ops[1..] + [op];
      PlainSessionAppend(Apply(db, ops[0]), ops[1..], op, page);
    }
  }

  /** In the words of a user: after any session, a GET for a key displays the value
      last posted for it.  If none was, it displays what the server started with, or
      the page of a 404, as far as that fits. */
  lemma LastPostIsDisplayed(m: Machine, ops: seq<Op>, key: string, ignored: string, worlds: seq<Input>,
                            files: Files, last: int)
    requires Simulates(m, m.disk) && FilesOk(files) && SessionArrives(ops + [Get(key, ignored)], worlds)
    requires -1 <= last < |ops|
    requires last >= 0 ==> ops[last].Post? && ops[last].key == key
    requires forall j | last < j < |ops| :: !(ops[j].Post? && ops[j].key == key)
    ensures var seen := Session(m, ops + [Get(key, ignored)], worlds, files);
      seen != [] && seen[|seen| - 1] ==
        if last >= 0 then Some(Seen("200", ops[last].value))
        else if key in m.disk then if |m.disk[key]| <= 894 then Some(Seen("200", m.disk[key])) else None
        else if |files["404.html"]| <= 882 then Some(Seen("404", files["404.html"])) else None
  {
    hide Session, PlainSession, CleanOp, Delivers, Simulates, Req.Render, MapAfter;
    var page := files[NOT_FOUND_PAGE];
    SystemRefinesMap(m, ops + [Get(key, ignored)], worlds, files);
    PlainSessionAppend(m.disk, ops, Get(key, ignored), page);
    LastPostWins(m.disk, ops, key, page, last);
    if last >= 0 {
      assert (ops + [Get(key, ignored)])[last] == ops[last];
      TextsStay(map[], ops[last]);
    }
  }

  // -------------------------------------------------- dump, selection, lookup

  /** The client has received the dump: it parses, with its length, the dump stands
      behind CRLF CRLF, and the split of the text handed over obeys `HandedSplit`. */
  ghost predicate SeesDump(data: string, order: seq<string>)
    requires order != []
  {
    var got := Res.ParseResponse(data);
    && got.Some? && got.value.code == "200" && CRLFCRLF + Dump(order) <= got.value.content
    && StrToL(got.value.contentLength) == |Dump(order)|
    && Split(HandedText(|Dump(order)|, got.value.content), 0) == Some([""] + Displayed(order))
  }

  /** The buffer of `getAllListOfBeacons`, with `stale` bytes in it, after a read that
      is as large as it can be. */
  function DumpRead(stale: string, order: seq<string>): (string, nat)
    requires |stale| == DATA_BUFF
  {
    var wire := SentFor(DumpReply(order));
    var n := if |wire| <= DATA_BUFF then |wire| else DATA_BUFF;
    (Overwritten(stale, wire[..n]), n)
  }

  /** The client asks for the dump of a non-empty database.  The dump arrives whole
      exactly when it has at most 895 characters.  Its buffer was never cleared, so it
      can be checked exactly when a byte behind the response happens to be NUL; then
      the client sees the dump, and its test holds exactly when that is the next byte.
      In the zero-filled buffer of `getOneBeacon` the same response is displayed without
      its last newline, if it leaves a byte free. */
  lemma DumpExchange(m: Machine, i: Input, value: string, files: Files, stale: string)
    requires Idle(m) && FilesOk(files) && |stale| == DATA_BUFF
    requires Req.CleanPair("DUMP", value) && |value| <= 28 && !IsHtml(Req.QueryUrl("DUMP", value))
    requires Delivers(i.conns, Req.Render(Req.BuiltRequest("GET", "DUMP", value)))
    requires IsEnumeration(i.order, m.disk.Keys) && DumpSize(i.order) < 1024
    requires i.order != [] && CleanKeys(i.order)
    ensures var next := Serve(m, i, files);
      Idle(next) && next.disk == m.disk && next.sent == m.sent + [SentFor(DumpReply(i.order))]
    ensures var (data, n) := DumpRead(stale, i.order);
      && (n == |SentFor(DumpReply(i.order))| <==> DumpSize(i.order) <= 895)
      && (Checkable(data, n) <==> NUL in stale[n..])
      && (Checkable(data, n) ==> SeesDump(data, i.order) && (DumpComplete(data, n) <==> stale[n] == NUL))
    ensures Observe(SentFor(DumpReply(i.order))) == if DumpSize(i.order) < 895
      then Some(Seen("200", Dump(i.order)[..|Dump(i.order)| - 1])) else None
  {
    hide ReplyTo, DiskAfter, Servable, Carries, Res.WireOf, Serve, Delivers, AcceptsSafely, Accepted, IsHtml,
      Req.Render, Req.RequestLine, IsDump, SeesDump, IsEnumeration, LengthIn, Checkable, DumpComplete, Observe;
    DumpLength(i.order);
    DumpObserved(i.order);
    var r := Req.Spaced(Req.BuiltRequest(Req.REQUEST_GET, DUMP_KEY, value));
    DumpArrives(i, value);
    DumpIsAnswered(r, value, m.disk, files, i.order);
    ExchangeLaw(m, i, r, files);
    ResponsesFit("", "", i.order);
    DumpReceived(i.order, stale);
  }

  lemma DumpArrives(i: Input, value: string)
    requires Req.CleanPair(DUMP_KEY, value) && |DUMP_KEY| + |value| <= 32
    requires Delivers(i.conns, Req.Render(Req.BuiltRequest(Req.REQUEST_GET, DUMP_KEY, value)))
    ensures var r := Req.Spaced(Req.BuiltRequest(Req.REQUEST_GET, DUMP_KEY, value));
      AcceptsSafely(i.conns) && Accepted(i.conns) == Some(r) && Servable(r)
  {
    hide Req.ParseRequest, Req.Render, AcceptsSafely, Accepted, Delivers, IsHtml, HtmlName, IsQuery;
    var r := Req.BuiltRequest(Req.REQUEST_GET, DUMP_KEY, value);
    Req.BuiltRequestFits(Req.REQUEST_GET, DUMP_KEY, value);
    BuiltUrlIsServable(Req.REQUEST_GET, DUMP_KEY, value);
    assert |Req.RequestLine(r)| == |DUMP_KEY| + |value| + 18;
    RequestIsShort(r);
    Delivery(i.conns, Req.Render(r));
  }

  lemma DumpIsAnswered(r: Req.Request, value: string, disk: map<string, string>, files: Files, order: seq<string>)
    requires Servable(r) && FilesOk(files) && r.httpMethod == Req.REQUEST_GET
    requires r.url == Req.QueryUrl(DUMP_KEY, value) && Free(DUMP_KEY, '=') && NUL !in value
    requires !IsHtml(r.url) && order != []
    ensures IsDump(r.url)
    ensures ReplyTo(r, disk, files, order) == DumpReply(order) && DiskAfter(r, disk) == disk
  {
    hide IsHtml, HtmlName;
    BuiltUrlIsServable(Req.REQUEST_GET, DUMP_KEY, value);
  }

  /** What `DumpReply` sends has a head the client can parse. */
  lemma DumpHead(order: seq<string>)
    requires DumpSize(order) < DUMP_BUFF && forall k | k in order :: NUL !in k
    ensures var r := Carries(Req.HTTP_VERSION, DumpReply(order));
      && Res.CleanHead(r) && |Res.StatusLine(r)| <= Res.STAT_LINE_BUFF && |Res.Head(r)| <= 166
      && r.content == Dump(order) && r.code == "200" && StrToL(r.contentLength) == |r.content| && NUL !in r.content
      && Res.WireOf(r) == Res.Render(r) == Res.Head(r) + CRLFCRLF + Dump(order)
  {
    hide Res.WireOf, Res.CleanHead, Res.StatusLine, Res.Head, StrToL, Itoa, Dump;
    DumpLength(order);
    DumpHasNoNul(order);
    VersionIsClean();
    AnswerIsClean(Req.HTTP_VERSION, DumpReply(order));
    ReplyOnWire(Req.HTTP_VERSION, DumpReply(order));
    WireOfDump(Carries(Req.HTTP_VERSION, DumpReply(order)));
  }

  lemma DumpReceived(order: seq<string>, stale: string)
    requires CleanKeys(order) && order != [] && DumpSize(order) < DUMP_BUFF && |stale| == DATA_BUFF
    ensures var (data, n) := DumpRead(stale, order);
      && (Checkable(data, n) <==> NUL in stale[n..])
      && (Checkable(data, n) ==> SeesDump(data, order) && (DumpComplete(data, n) <==> stale[n] == NUL))
  {
    hide Res.ParseResponse, StrToL, Res.Head, Res.StatusLine, Res.CleanHead, Itoa, Split, Displayed, HandedText, StrLen,
      Res.WireOf, Carries, Checkable, DumpComplete, SeesDump, Dump;
    var r := Carries(Req.HTTP_VERSION, DumpReply(order));
    var (data, n) := DumpRead(stale, order);
    DumpHead(order);
    DumpLength(order);
    DumpCheckIgnoresLength(r, n, stale);
    if n < DATA_BUFF {
      assert Res.WireOf(r)[..n] == Res.WireOf(r);
      WholeDumpIsSeen(order, stale[n..]);
    }
  }

  /** A whole dump is seen whatever stands behind it. */
  lemma WholeDumpIsSeen(order: seq<string>, rest: string)
    requires CleanKeys(order) && order != [] && DumpSize(order) < DUMP_BUFF
    ensures SeesDump(SentFor(DumpReply(order)) + rest, order)
  {
    hide Res.ParseResponse, StrToL, Res.Head, Res.CleanHead, Split, Displayed, HandedText, Res.Render, Res.WireOf,
      Carries, Dump, CStr, Res.StatusLine;
    var r := Carries(Req.HTTP_VERSION, DumpReply(order));
    DumpHead(order);
    WholeDumpParses(r, rest);
    var content := CStr(Res.WireOf(r) + rest, |Res.Head(r)|);
    HandedIgnoresRest(Dump(order), content);
    HandedSplit(order);
  }

  lemma WholeDumpParses(r: Res.Response, rest: string)
    requires Res.CleanHead(r) && |Res.StatusLine(r)| <= Res.STAT_LINE_BUFF && NUL !in r.content
    requires Res.WireOf(r) == Res.Render(r) == Res.Head(r) + CRLFCRLF + r.content
    ensures var content := CStr(Res.WireOf(r) + rest, |Res.Head(r)|);
      && Res.ParseResponse(Res.WireOf(r) + rest) == Some(Res.Returned(r, content))
      && CRLFCRLF + r.content <= content
  {
    hide Res.ParseResponse, Res.Head, Res.CleanHead, Res.StatusLine, Res.WireOf, Res.Render, StrToL, CStr, Res.Returned;
    WholeHeadArrives(r, Res.WireOf(r), rest);
    LengthArrives(Res.WireOf(r) + rest, r);
    PlusAssociates(Res.Head(r), CRLFCRLF, r.content);
    CStrBehind(Res.Head(r), CRLFCRLF + r.content, rest);
  }

  lemma WholeHeadArrives(r: Res.Response, wire: string, rest: string)
    requires wire == Res.WireOf(r) == Res.Render(r) == Res.Head(r) + CRLFCRLF + r.content
    ensures At(wire + rest, 0, Res.Head(r) + "\r")
  {
    hide Res.Head, Res.WireOf, Res.Render, At;
    assert wire[..|wire|] == wire;
    HeadArrives(r, |wire|, rest);
  }

  lemma CStrBehind(head: string, body: string, rest: string)
    requires NUL !in body
    ensures body <= CStr(head + body + rest, |head|)
  {
    hide CStr;
    assert (head + body + rest)[|head|..|head| + |body|] == body;
    CStrStarts(head + body + rest, |head|, body);
  }

  /** Only Content-Length bytes of the content are handed over. */
  lemma HandedIgnoresRest(dump: string, content: string)
    requires CRLFCRLF + dump <= content
    ensures HandedText(|dump|, content) == HandedText(|dump|, CRLFCRLF + dump)
  {
    assert content[..|dump|] == (CRLFCRLF + dump)[..|dump|];
  }

  lemma CStrStarts(s: string, p: nat, w: string)
    requires p + |w| <= |s| && s[p..p + |w|] == w && NUL !in w
    ensures w <= CStr(s, p)
  {
    assert forall i | p <= i < p + |w| :: s[i] == w[i - p];
  }

  /** The word DUMP selected like a beacon: `getOneBeacon` waits for a byte that a dump
      does not have, gets through when the connection ends, if there is a byte left in
      its buffer, and displays the dump without its last newline. */
  lemma DumpObserved(order: seq<string>)
    requires order != [] && DumpSize(order) < 1024 && forall k | k in order :: NUL !in k
    ensures Observe(SentFor(DumpReply(order))) ==
      if DumpSize(order) < 895 then Some(Seen("200", Dump(order)[..|Dump(order)| - 1])) else None
  {
    hide Res.ParseResponse, StrToL, Res.Head, Res.StatusLine, Res.CleanHead, Itoa, StrLen, Res.WireOf, Carries, Dump,
      Readable, AfterReads, ReadsOf, Shown;
    var (r, wire) := (Carries(Req.HTTP_VERSION, DumpReply(order)), SentFor(DumpReply(order)));
    DumpHead(order);
    DumpLength(order);
    ResponsesFit("", "", order);
    assert |Dump(order)| == DumpSize(order) >= 2;
    if |wire| < DATA_BUFF {
      DumpIsReadable(r);
      var rest := Zeros(DATA_BUFF)[|wire|..];
      assert rest[0] == NUL;
      Res.ResponseRoundTrip(r, rest);
      ShownExactly(Res.Returned(r, "\r\n\r\n" + Dump(order)), Dump(order));
    } else {
      WireOfDump(r);
      FullReadIsLost(wire);
    }
  }

  lemma DumpIsReadable(r: Res.Response)
    requires Res.CleanHead(r) && |Res.StatusLine(r)| <= Res.STAT_LINE_BUFF && NUL !in r.content
    requires StrToL(r.contentLength) == |r.content| && |Res.WireOf(r)| < DATA_BUFF
    ensures ReadsOf(Res.WireOf(r)) == [Res.WireOf(r)] && Readable(Zeros(DATA_BUFF), [Res.WireOf(r)])
    ensures AfterReads(Zeros(DATA_BUFF), [Res.WireOf(r)]) == Overwritten(Zeros(DATA_BUFF), Res.WireOf(r))
    ensures Overwritten(Zeros(DATA_BUFF), Res.WireOf(r)) == Res.WireOf(r) + Zeros(DATA_BUFF)[|Res.WireOf(r)|..]
  {
    hide Res.WireOf, Res.CleanHead, Res.StatusLine, Res.Head, StrToL, LengthIn, Checkable, StrLen;
    var n := |Res.WireOf(r)|;
    WireOfDump(r);
    assert Res.WireOf(r)[..n] == Res.WireOf(r);
    DumpCheckIgnoresLength(r, n, Zeros(DATA_BUFF));
    assert Zeros(DATA_BUFF)[n..][0] == NUL;
    OneMoreRead(Zeros(DATA_BUFF), Res.WireOf(r));
    LastReadStays(Zeros(DATA_BUFF), Res.WireOf(r));
  }

  lemma LastReadStays(data: string, chunk: string)
    requires Readable(data, [chunk])
    ensures AfterReads(data, [chunk]) == Overwritten(data, chunk)
  {
    assert [chunk][1..] == [];
  }

  lemma FullReadIsLost(wire: string)
    requires |wire| >= DATA_BUFF && NUL !in wire
    ensures !Readable(Zeros(DATA_BUFF), ReadsOf(wire))
  {
    hide Checkable;
    var first := wire[..DATA_BUFF];
    assert ReadsOf(wire)[0] == first;
    FullReadFails(Zeros(DATA_BUFF), first);
  }

  /** The test accepts an incomplete dump: one byte of the key "k" short, in a buffer
      of zeros. */
  lemma DumpCheckCounterexample()
    ensures var wire := SentFor(DumpReply(["k"]));
      && 0 < |wire| <= DATA_BUFF
      && var (data, n) := (Overwritten(Zeros(DATA_BUFF), wire[..|wire| - 1]), |wire| - 1);
      Checkable(data, n) && DumpComplete(data, n)
  {
    hide Res.StatusLine, Res.CleanHead, Res.Head, StrToL, Res.WireOf, Carries, Checkable, DumpComplete;
    var r := Carries(Req.HTTP_VERSION, DumpReply(["k"]));
    DumpHead(["k"]);
    ResponsesFit("", "", ["k"]);
    DumpCheckIgnoresLength(r, |Res.WireOf(r)| - 1, Zeros(DATA_BUFF));
    assert Zeros(DATA_BUFF)[|Res.WireOf(r)| - 1..][0] == NUL;
  }

  /** With the whole body split, a selected beacon is served: the GET that follows
      on the unchanged database displays its value. */
  lemma SelectionIsServed(m: Machine, order: seq<string>, line: string, value: string, i: Input, files: Files)
    requires Simulates(m, m.disk) && FilesOk(files)
    requires IsEnumeration(order, m.disk.Keys) && CleanKeys(order)
    requires Split(CRLFCRLF + Dump(order), 0).Some? && Selectable(Split(CRLFCRLF + Dump(order), 0).value, line)
    requires CleanOp(Get(line, value)) && Delivers(i.conns, Req.Render(RequestOf(Get(line, value))))
    ensures line in m.disk
    ensures var n := Serve(m, i, files);
      n.sent == m.sent + [SentFor(ValueReply(m.disk[line]))]
      && Observe(n.sent[|m.sent|]) == Visible(Seen("200", m.disk[line]))
  {
    hide Observe, Serve, Simulates, Split, CleanOp, Delivers, Req.Render, SentFor;
    FullSelectionSound(order, line);
    OperationRefines(m, m.disk, Get(line, value), i, files);
  }

  /** With the text that is really handed over, a selected beacon is served unless it
      is the truncation of the last key and not itself a key; then the answer is 404.
      So all of them are served exactly when the last key has at most two characters
      or its truncation is a key. */
  lemma HandedSelectionIsServed(m: Machine, order: seq<string>, line: string, value: string, i: Input, files: Files)
    requires Simulates(m, m.disk) && FilesOk(files) && order != []
    requires IsEnumeration(order, m.disk.Keys) && CleanKeys(order)
    requires Selectable([""] + Displayed(order), line)
    requires CleanOp(Get(line, value)) && Delivers(i.conns, Req.Render(RequestOf(Get(line, value))))
    ensures var n := Serve(m, i, files);
      && n.sent == m.sent + [SentFor(if line in m.disk then ValueReply(m.disk[line])
                                   else PageReply(files[NOT_FOUND_PAGE]))]
      && Observe(n.sent[|m.sent|]) == Visible(Answered(m.disk, line, files[NOT_FOUND_PAGE]))
    ensures var last := order[|order| - 1];
      && (line !in m.disk ==> |last| > 2 && line == last[..|last| - 2])
      && ((forall l | Selectable([""] + Displayed(order), l) :: l in m.disk)
          <==> |last| <= 2 || last[..|last| - 2] in m.disk)
  {
    hide Observe, Serve, Simulates, CleanOp, Delivers, Req.Render, SentFor, Visible, Answered;
    OperationRefines(m, m.disk, Get(line, value), i, files);
    var front, last := order[..|order| - 1], order[|order| - 1];
    assert forall k | k in front :: k in order;
    HandedSelectionSound(order);
  }
}
