/** Client and server handlers run against each other: one GET and one POST, from
    the user's key to what the user sees. */
module System {
  import opened CString
  import opened Memory
  import opened Wire
  import opened Db
  import opened ServerModel
  import opened Exchange
  import opened EndToEnd
  import opened Client
  import opened Server
  import Req = HttpRequests
  import Res = HttpResponses
  import Cli = NcurseCli

  /** The client builds and sends a request, and the server serves it. */
  method Transmit(op: Op, serv: ServerParams, files: Files, ghost m: Machine)
    returns (wire: array<char>, ghost i: Input)
    requires Simulates(m, serv.disk.contents) && serv.disk.Valid() && FilesOk(files) && CleanOp(op)
    modifies serv, serv.disk
    ensures i.conns == [[Req.Render(RequestOf(op))]]
    ensures serv.disk.Valid() && serv.disk.contents == Apply(old(serv.disk.contents), op)
    ensures wire[..] == Res.WireOf(Carries(Req.HTTP_VERSION, ReplyOf(op, m.disk, files, i.order)))
  {
    hide AcceptsSafely, Accepted, Servable, IsHtml, ReplyTo, DiskAfter, Carries, Req.Render, IsDump, Database.Valid,
      Req.RequestLine, Res.WireOf, Serve;
    var httpMethod := new Block.Alloc(if op.Post? then Req.REQUEST_POST else Req.REQUEST_GET);
    var client := new ClientParams(op.key, op.value, httpMethod);
    client.BuildRequest();
    var text := client.SendRequest();
    var conns := [[text[..]]];
    ghost var r := Req.Spaced(RequestOf(op));
    OpArrives(op, conns);
    ReplyToOp(op, m.disk, files, []);
    wire, i := ServeExchange(serv, conns, files, m, r);
    ReplyToOp(op, m.disk, files, i.order);
  }

  /** The reply to a clean operation. */
  ghost function ReplyOf(op: Op, disk: map<string, string>, files: Files, order: seq<string>): Reply
    requires CleanOp(op) && FilesOk(files)
  {
    BuiltUrlIsServable(RequestOf(op).httpMethod, op.key, op.value);
    ReplyTo(Req.Spaced(RequestOf(op)), disk, files, order)
  }

  /** Looking up a key displays the answer of the map if its response fits the client's
      buffer, be it the value or the page of a 404, and leaves the database alone. */
  method LookUp(key: string, ignored: string, serv: ServerParams, files: Files, ghost m: Machine)
    returns (shown: string)
    requires Simulates(m, serv.disk.contents) && serv.disk.Valid() && FilesOk(files)
    requires CleanOp(Get(key, ignored)) && Fits(Answered(serv.disk.contents, key, files[NOT_FOUND_PAGE]))
    modifies serv, serv.disk
    ensures shown == Answered(old(serv.disk.contents), key, files[NOT_FOUND_PAGE]).text
    ensures serv.disk.Valid() && serv.disk.contents == old(serv.disk.contents)
  {
    hide CleanOp, ReplyTo, Carries, Res.WireOf, Res.ParseResponse, Cli.Readable, Cli.AfterReads, Cli.Shown,
      Database.Valid, Inv, Answered, Fits, Cli.ReadsOf;
    var op := Get(key, ignored);
    ReplyToGet(op, serv.disk.contents, files);
    AnswerObserved(serv.disk.contents, key, files);
    var wire, i := Transmit(op, serv, files, m);
    var chunks := Cli.ReadsOf(wire[..]);
    ReadsAreSome(wire[..]);
    var http := Cli.GetOneBeacon(chunks);
    shown := Cli.ShowOneBeacon(http);
  }

  lemma ReadsAreSome(wire: string)
    ensures Cli.ReadsOf(wire) != []
  {
  }

  lemma ReplyToGet(op: Op, db: map<string, string>, files: Files)
    requires CleanOp(op) && op.Get? && FilesOk(files)
    ensures forall order :: ReplyOf(op, db, files, order) == MapReply(op.key, db, files)
  {
    hide ReplyTo;
    forall order ensures ReplyOf(op, db, files, order) == MapReply(op.key, db, files) {
      BuiltUrlIsServable(RequestOf(op).httpMethod, op.key, op.value);
      ReplyToOp(op, db, files, order);
    }
  }

  /** Publishing a value stores it, and a look-up that follows displays it. */
  method PublishThenLookUp(key: string, value: string, ignored: string, serv: ServerParams, files: Files,
                           ghost m: Machine)
    returns (shown: string)
    requires Simulates(m, serv.disk.contents) && serv.disk.Valid() && FilesOk(files)
    requires CleanOp(Post(key, value)) && CleanOp(Get(key, ignored))
    modifies serv, serv.disk
    ensures shown == value && serv.disk.Valid() && serv.disk.contents == old(serv.disk.contents)[key := value]
  {
    hide CleanOp, Database.Valid, Inv;
    var op := Post(key, value);
    ghost var text := Req.Render(RequestOf(op));
    var wire, i := Transmit(op, serv, files, m);
    assert Delivers(i.conns, text);
    OperationRefines(m, m.disk, op, i, files);
    TextsStay(m.disk, op);
    shown := LookUp(key, ignored, serv, files, Serve(m, i, files));
  }

  // ------------------------------------------------------ browsing the dump

  /** Whatever order the dump comes in, the server can print it, the client's buffer can
      be checked behind it, and its table holds the entries. */
  ghost predicate DumpGetsThrough(keys: set<string>, stale: string)
    requires |stale| == Cli.DATA_BUFF
  {
    forall order | IsEnumeration(order, keys) ::
      && DumpSize(order) < DUMP_BUFF && Cli.TableHolds([""] + order)
      && var (data, n) := DumpRead(stale, order); Cli.Checkable(data, n)
  }

  /** `getAllListOfBeacons`, with its request served and one read. */
  method AskForDump(serv: ServerParams, files: Files, ghost m: Machine, stale: string)
    returns (http: Res.HttpResponse, ghost i: Input)
    requires Simulates(m, serv.disk.contents) && serv.disk.Valid() && FilesOk(files)
    requires serv.disk.contents != map[] && forall k | k in serv.disk.contents :: Free(k, '\r')
    requires |stale| == Cli.DATA_BUFF && DumpGetsThrough(serv.disk.contents.Keys, stale)
    modifies serv, serv.disk
    ensures serv.disk.Valid() && serv.disk.contents == old(serv.disk.contents)
    ensures Simulates(Serve(m, i, files), serv.disk.contents)
    ensures IsEnumeration(i.order, serv.disk.contents.Keys) && i.order != [] && Cli.TableHolds([""] + i.order)
    ensures Res.AllFresh(http) && http.OwnsStrings()
    ensures var data := DumpRead(stale, i.order).0;
      Res.ParseResponse(data) == Some(http.View()) && SeesDump(data, i.order)
  {
    hide Serve, SeesDump, Cli.Checkable, Res.ParseResponse, IsEnumeration, Inv, Delivers, DumpRead, Database.Valid,
      Req.Render, SentFor, IsHtml, Cli.TableHolds;
    var wire;
    wire, i := TransmitDump(serv, files, m);
    DumpWord();
    DumpExchange(m, i, DUMP_KEY, files, stale);
    http := ReadDump(wire, i.order, stale);
  }

  /** The request for the dump, built, sent and served. */
  method TransmitDump(serv: ServerParams, files: Files, ghost m: Machine) returns (wire: array<char>, ghost i: Input)
    requires Simulates(m, serv.disk.contents) && serv.disk.Valid() && FilesOk(files)
    requires serv.disk.contents != map[] && forall k | k in serv.disk.contents :: Free(k, '\r')
    requires forall o | IsEnumeration(o, serv.disk.contents.Keys) :: DumpSize(o) < DUMP_BUFF
    modifies serv, serv.disk
    ensures serv.disk.Valid() && serv.disk.contents == old(serv.disk.contents)
    ensures Delivers(i.conns, Req.Render(Req.BuiltRequest(Req.REQUEST_GET, DUMP_KEY, DUMP_KEY)))
    ensures IsEnumeration(i.order, serv.disk.contents.Keys) && i.order != [] && Cli.CleanKeys(i.order)
    ensures wire[..] == SentFor(DumpReply(i.order))
  {
    hide AcceptsSafely, Accepted, Servable, IsHtml, ReplyTo, DiskAfter, Carries, Req.Render, IsDump, Database.Valid,
      Req.RequestLine, Res.WireOf, Serve, IsEnumeration, Inv, Offers;
    var httpMethod := new Block.Alloc(Req.REQUEST_GET);
    var client := new ClientParams(DUMP_KEY, DUMP_KEY, httpMethod);
    client.BuildRequest();
    var text := client.SendRequest();
    var conns := [[text[..]]];
    ghost var r := Req.Spaced(Req.BuiltRequest(Req.REQUEST_GET, DUMP_KEY, DUMP_KEY));
    DumpWord();
    DumpArrives(Input(conns, []), DUMP_KEY);
    wire, i := ServeExchange(serv, conns, files, m, r);
    DumpOffered(m, i, r, files);
  }

  /** One read into the buffer that was never cleared, and the parse. */
  method ReadDump(wire: array<char>, ghost order: seq<string>, stale: string) returns (http: Res.HttpResponse)
    requires wire[..] == SentFor(DumpReply(order)) && |stale| == Cli.DATA_BUFF
    requires var (data, n) := DumpRead(stale, order); Cli.Checkable(data, n)
    ensures Res.AllFresh(http) && http.OwnsStrings()
    ensures Res.ParseResponse(DumpRead(stale, order).0) == Some(http.View())
  {
    hide Cli.Checkable, Res.ParseResponse, SentFor;
    var n := if wire.Length <= Cli.DATA_BUFF then wire.Length else Cli.DATA_BUFF;
    var data := new char[Cli.DATA_BUFF](k requires 0 <= k < |stale| => stale[k]);
    assert data[..] == stale;
    CopyInto(data, 0, wire[..n]);
    assert data[..] == DumpRead(stale, order).0;
    Cli.CheckableParses(data[..], n);
    http := Res.ParseHttpResponse(data[..]);
  }

  lemma DumpWord()
    ensures Req.CleanPair(DUMP_KEY, DUMP_KEY) && |DUMP_KEY| + |DUMP_KEY| <= 32
    ensures !IsHtml(Req.QueryUrl(DUMP_KEY, DUMP_KEY))
  {
    var url := Req.QueryUrl(DUMP_KEY, DUMP_KEY);
    assert '.' !in url && url[0..] == url;
    StrChrMisses(url, '.', 0);
  }

  /** What the exchange says of the order of the visit. */
  lemma DumpOffered(m: Machine, i: Input, r: Req.Request, files: Files)
    requires r == Req.Spaced(Req.BuiltRequest(Req.REQUEST_GET, DUMP_KEY, DUMP_KEY))
    requires Offers(m, i, r) && FilesOk(files) && m.disk != map[]
    requires forall k | k in m.disk :: Free(k, '\r')
    ensures IsEnumeration(i.order, m.disk.Keys) && i.order != [] && Cli.CleanKeys(i.order)
    ensures ReplyTo(r, m.disk, files, i.order) == DumpReply(i.order) && DiskAfter(r, m.disk) == m.disk
  {
    hide IsHtml, Req.ParseQuery, IsQuery, HtmlName, AcceptsSafely, Accepted, StrChr;
    DumpWord();
    assert r.url == "/" + "?" + DUMP_KEY + "=" + DUMP_KEY;
    QueryIsAnswered(r, "/", DUMP_KEY, DUMP_KEY, m.disk, files, i.order);
    var k :| k in m.disk;
    assert k in i.order;
  }

  /** What the client found in its buffer can be shown. */
  lemma DumpIsShown(data: string, order: seq<string>)
    requires order != [] && SeesDump(data, order) && Cli.TableHolds([""] + order)
    ensures var r := Res.ParseResponse(data).value;
      && NUL !in r.content && 0 <= StrToL(r.contentLength) <= |r.content|
      && var split := Cli.Split(Cli.HandedText(StrToL(r.contentLength), r.content), 0);
      split == Some([""] + Cli.Displayed(order)) && Cli.TableHolds(split.value)
  {
    hide Res.ParseHead, StrToL, Cli.Split, Cli.HandedText, Cli.Displayed, Cli.TableHolds, Dump;
    Cli.TableHoldsExactly(order);
  }

  /** A whole visit: the client asks for the dump, offers it, reads lines until one can
      be selected, and looks that one up.  With no line left it has offered every line in
      vain; otherwise it displays the map's answer for the first line on the list. */
  method Browse(lines: seq<string>, ignored: string, serv: ServerParams, files: Files, ghost m: Machine, stale: string)
    returns (selection: Option<string>, shown: string, ghost order: seq<string>)
    requires Simulates(m, serv.disk.contents) && serv.disk.Valid() && FilesOk(files)
    requires serv.disk.contents != map[] && forall k | k in serv.disk.contents :: Free(k, '\r')
    requires |stale| == Cli.DATA_BUFF && DumpGetsThrough(serv.disk.contents.Keys, stale)
    requires forall l | l in lines ::
      CleanOp(Get(l, ignored)) && Fits(Answered(serv.disk.contents, l, files[NOT_FOUND_PAGE]))
    modifies serv, serv.disk
    ensures serv.disk.Valid() && serv.disk.contents == old(serv.disk.contents)
    ensures IsEnumeration(order, serv.disk.contents.Keys) && order != []
    ensures selection.None? ==> forall l | l in lines :: !Cli.Selectable([""] + Cli.Displayed(order), l)
    ensures selection.Some? ==>
      && (exists i :: Cli.FirstSelectable([""] + Cli.Displayed(order), lines, i) && lines[i] == selection.value)
      && shown == Answered(old(serv.disk.contents), selection.value, files["404.html"]).text
  {
    hide CleanOp, Database.Valid, Inv, Answered, Fits, IsEnumeration, SeesDump, Res.ParseResponse, Cli.Split, StrToL,
      Cli.HandedText, Cli.Displayed, Cli.TableHolds, Cli.Selectable, DumpRead, DumpGetsThrough, Simulates, Serve, Free;
    var http, i := AskForDump(serv, files, m, stale);
    order := i.order;
    DumpIsShown(DumpRead(stale, order).0, order);
    var beacons;
    selection, beacons := Cli.ShowAllBeacons(http, lines);
    shown := "";
    if selection.Some? {
      shown := LookUp(selection.value, ignored, serv, files, Serve(m, i, files));
    }
  }
}
