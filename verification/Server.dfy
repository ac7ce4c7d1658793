/** The handlers of server.c on the record they share, each proved against the
    state machine of `ServerModel`, and the loop that runs them. */
module Server {
  import opened CString
  import opened Memory
  import opened Wire
  import opened Db
  import opened ServerModel
  import opened Exchange
  import Req = HttpRequests
  import Res = HttpResponses

  class ServerParams {
    var request: Req.HttpRequest?
    var response: Res.HttpResponse?
    var db: Database?
    var dsize: int
    var error: Option<State>
    var content: Block?
    /** The database file, which `init_server` opens anew for every request. */
    const disk: Database

    constructor (disk: Database)
      ensures this.disk == disk
    {
      this.disk := disk;
      request, response, db, dsize, error, content := null, null, null, 0, None, null;
    }

    ghost function View(): Params
      reads this, request, response
    {
      Params(if request == null then Null else if request.freed then Dangling else Live(request.View()),
             if response == null then Null else if response.freed then Dangling else Live(response.View()),
             if content == null then None else Some(content.text), dsize, error)
    }

    /** The content is a block of its own, apart from the strings of the request. */
    ghost predicate OwnsContent()
      reads this, request, content
    {
      content != null ==> Owned(content) && (request != null ==> content !in request.Fields())
    }

    /** While a request is in flight: the database is open, the request record and
        the content are live and own their strings apart from each other. */
    ghost predicate Serving()
      reads this, disk, request, content,
        if request == null then {} else request.Fields()
    {
      && db == disk && disk.Valid()
      && request != null && request.Valid()
      && OwnsContent()
    }

    /** The response owns its header strings, shares the content with the record and
        the version with the request, and borrows code and status. */
    ghost predicate Answering()
      reads this, disk, request, content, response,
        if request == null then {} else request.Fields(),
        if response == null then {} else response.Strings() + {response.code, response.status}
    {
      && Serving() && response != null && response.OwnsStrings()
      && response.content == content && response.version == request.version
      && response.code != null && response.code.isStatic && !response.code.freed
      && response.status != null && response.status.isStatic && !response.status.freed
      && response.Strings() !! request.Fields()
    }

    /** `init_server`. */
    method InitServer() returns (next: State)
      modifies this
      ensures View() == ZEROED && request == null && content == null && response == null
      ensures db == disk && next == ACCEPT_REQUEST
    {
      request, response, db, dsize, error, content := null, null, null, 0, None, null;
      db := disk;
      return ACCEPT_REQUEST;
    }

    /** `receive_data`: the buffer keeps what earlier reads left behind the bytes of
        the last one. */
    method ReceiveData(chunks: Connection)
      requires ReceivesSafely(chunks) && request == null
      modifies `request
      ensures if chunks == [] then request == null
        else request != null && Req.AllFresh(request) && request.Valid() && Received(chunks) == Some(request.View())
    {
      hide Req.ParseRequest, Req.EndsRequest, Database.Valid;
      var data := new char[LARGE_BUFF];
      var i := 0;
      while i < |chunks|
        invariant 0 <= i <= |chunks| && ReceivesSafely(chunks[i..])
        invariant i < |chunks| ==> Received(chunks[i..]) == Received(chunks)
        invariant i == 0 ==> request == null
        invariant i > 0 ==> request != null && Req.AllFresh(request) && request.Valid()
        invariant i > 0 && i == |chunks| ==> Received(chunks) == Some(request.View())
      {
        var chunk := chunks[i];
        ghost var left := chunks[i..];
        assert left[1..] == chunks[i + 1..];
        CopyInto(data, 0, chunk);
        assert chunk <= data[..];
        Req.ParseRequestExtends(chunk, data[..]);
        request := Req.ParseHttpRequest(data[..]);
        i := i + 1;
        Req.ParsedIsLong(chunk);
        LastFour(chunk, data[..]);
        var checkEnd := data[|chunk| - 4..|chunk|];
        if checkEnd == Req.END_OF_REQUEST {
          return;
        }
      }
    }

    /** The accept loop and the dispatch of `accept_request`. */
    method AcceptRequest(conns: seq<Connection>) returns (next: State)
      requires AcceptsSafely(conns)
      requires View() == ZEROED && request == null && content == null && db == disk && disk.Valid()
      modifies `request
      ensures Serving() && Req.AllFresh(request) && content == null && response == old(response)
      ensures Accepted(conns) == Some(request.View())
      ensures View() == old(View()).(request := Live(Accepted(conns).value))
      ensures next == Dispatch(Accepted(conns).value.httpMethod)
    {
      hide ReceivesSafely, Received, Database.Valid;
      var i, exitFlag := 0, false;
      while !exitFlag
        invariant 0 <= i <= |conns|
        invariant !exitFlag ==> request == null && AcceptsSafely(conns[i..]) && Accepted(conns[i..]) == Accepted(conns)
        invariant exitFlag ==> request != null && Req.AllFresh(request) && request.Valid()
        invariant exitFlag ==> Accepted(conns) == Some(request.View())
        decreases |conns| - i, !exitFlag
      {
        ghost var left := conns[i..];
        assert left[1..] == conns[i + 1..];
        NothingIsSafe(conns[i]);
        ReceiveData(conns[i]);
        i := i + 1;
        exitFlag := request != null;
      }
      if request.httpMethod.Read() == Req.REQUEST_GET {
        return HTTP_GET;
      } else if request.httpMethod.Read() == Req.REQUEST_POST {
        return HTTP_POST;
      } else {
        return FSM_EXIT;
      }
    }

    /** The start of `get_html`: the name of the file. */
    method PageName() returns (filename: Block)
      requires Serving() && HtmlName(request.View().url, error).Some?
      ensures fresh(filename) && Owned(filename) && filename.text == HtmlName(request.View().url, error).value
    {
      hide StrChr, Database.Valid;
      var url := request.url.Read();
      var filenameStart := StrChr(url, '/', 0).value;
      var filenameEnd := StrChr(url, 'l', filenameStart);
      if error == Some(ERROR_404) {
        filename := new Block.Alloc(NOT_FOUND_PAGE);
      } else {
        filename := new Block.Alloc(url[filenameStart + 1..filenameEnd.value + 1]);
      }
    }

    /** `get_html`: the name of the page, and the file if it can be opened; a
        negative result says it cannot. */
    method GetHtml(files: Files) returns (fd: int)
      requires Serving() && HtmlName(request.View().url, error).Some?
      modifies `content, `dsize
      ensures Serving() && request == old(request) && (content == old(content) || fresh(content))
      ensures (View(), fd >= 0) == ServerModel.GetHtml(old(View()), request.View().url, files)
    {
      hide StrChr, Database.Valid, HtmlName, Req.HttpRequest.View;
      var filename := PageName();
      if filename.Read() in files {
        content := new Block.Alloc(files[filename.Read()]);
        dsize := |content.Read()| + 1;
        fd := 0;
      } else {
        fd := -1;
      }
      filename.Free();
    }

    /** `fetch_data` and the copy of what it returns. */
    method FetchContent(key: string)
      requires Serving() && NUL !in key
      modifies `content, `dsize
      ensures Serving() && request == old(request) && fresh(content)
      ensures key in disk.contents ==>
        content.text == disk.contents[key] && dsize == |Terminated(disk.contents[key])|
      ensures key !in disk.contents ==> content.text == "" && dsize == 0
    {
      hide Database.Valid;
      var fetched := db.Fetch(key);
      dsize := fetched.DSize();
      var bytes := if fetched.Missing? then "" else Name(fetched.bytes);
      content := new Block.Alloc(bytes);
    }

    /** `getAllData` into a zero-filled buffer and the copy of the string in it. */
    method DumpContent() returns (ghost order: seq<string>)
      requires Serving()
      requires forall o | IsEnumeration(o, disk.contents.Keys) :: DumpSize(o) < DUMP_BUFF
      modifies `content, `dsize
      ensures Serving() && request == old(request) && fresh(content)
      ensures IsEnumeration(order, disk.contents.Keys)
      ensures content.text == Dump(order) && dsize == |Dump(order)|
    {
      hide IsEnumeration;
      var buffer := new char[DUMP_BUFF](_ => NUL);
      order := db.GetAllData(buffer);
      DumpInBuffer(buffer[..], order, disk.contents);
      content := new Block.Alloc(CStr(buffer[..], 0));
      dsize := StrLen(buffer[..], 0);
    }

    /** The database branch of `http_get`, given the key. */
    method QueryDatabase(key: string) returns (ghost order: seq<string>)
      requires Serving() && NUL !in key
      requires key == DUMP_KEY ==> forall o | IsEnumeration(o, disk.contents.Keys) :: DumpSize(o) < DUMP_BUFF
      modifies `content, `dsize, `error
      ensures Serving() && request == old(request) && fresh(content)
      ensures key == DUMP_KEY ==> IsEnumeration(order, disk.contents.Keys)
      ensures View() == QueryContent(old(View()), key, disk.contents, order)
    {
      hide IsEnumeration, Dump, DumpSize, Database.Valid, Req.HttpRequest.View;
      order := [];
      if key != DUMP_KEY {
        FetchContent(key);
      } else {
        order := DumpContent();
      }
      if dsize == 0 {
        error := Some(ERROR_404);
      }
    }

    method GetQuery() returns (ghost order: seq<string>)
      requires Serving() && Req.ParseQuery(request.View().url).Some?
      requires IsDump(request.View().url) ==>
        forall o | IsEnumeration(o, disk.contents.Keys) :: DumpSize(o) < DUMP_BUFF
      requires !IsHtml(request.View().url) && IsQuery(request.View().url)
      modifies `content, `dsize, `error
      ensures Serving() && request == old(request) && fresh(content)
      ensures DumpFits(request.View().url, disk.contents, order)
      ensures View() == QueryContent(old(View()), Req.ParseQuery(request.View().url).value.0, disk.contents, order)
    {
      hide StrChr, CStr, StrLen, Req.ParseQuery, IsEnumeration, IsHtml, IsQuery, Dump, DumpSize, QueryContent,
        Database.Valid;
      var key, value := ParseQueryInto(request.url.Read());
      Req.QueryIsText(request.url.Read());
      order := QueryDatabase(key.Read());
      DestroyQuery(key, value);
    }

    /** `http_get`. */
    method HttpGet(files: Files) returns (next: State, ghost order: seq<string>)
      requires Serving() && error.None? && Servable(request.View()) && request.View().httpMethod == Req.REQUEST_GET
      requires IsDump(request.View().url) ==>
        forall o | IsEnumeration(o, disk.contents.Keys) :: DumpSize(o) < DUMP_BUFF
      modifies `content, `dsize, `error
      ensures Serving() && request == old(request) && (content == old(content) || fresh(content))
      ensures DumpFits(request.View().url, disk.contents, order) && next == BUILD_RESPONSE
      ensures Servable(Req.Request(Req.REQUEST_GET, request.View().url, "", "", "", ""))
      ensures View() == Get(old(View()), request.View().url, disk.contents, files, order)
    {
      hide StrChr, Req.ParseQuery, IsHtml, IsQuery, HtmlName, IsEnumeration, QueryContent, ServerModel.GetHtml,
        Database.Valid;
      order := [];
      ghost var url := request.View().url;
      DumpIsQuery(url, disk.contents, order);
      if IsHtml(request.url.Read()) {
        var fd := GetHtml(files);
        if fd < 0 {
          error := Some(ERROR_404);
        }
      } else if IsQuery(request.url.Read()) {
        order := GetQuery();
      } else {
        error := Some(ERROR_404);
      }
      return BUILD_RESPONSE, order;
    }

    /** `http_post`. */
    method HttpPost() returns (next: State)
      requires Serving() && Req.ParseQuery(request.View().url).Some?
      modifies disk
      ensures Serving() && View() == old(View()) && next == BUILD_RESPONSE
      ensures var (key, value) := Req.ParseQuery(request.View().url).value;
        disk.contents == old(disk.contents)[key := value]
    {
      hide StrChr, CStr, Req.ParseQuery, Database.Valid;
      var key, value := ParseQueryInto(request.url.Read());
      Req.QueryIsText(request.url.Read());
      db.Store(key.Read(), value.Read());
      DestroyQuery(key, value);
      return BUILD_RESPONSE;
    }

    /** `response_construct_handler`: code and status are entries of the code map. */
    method ConstructResponse(files: Files)
      requires Serving() && (error == Some(ERROR_404) ==> HtmlName(request.View().url, error).Some?)
      modifies `content, `dsize, `response
      ensures Serving() && request == old(request) && (content == old(content) || fresh(content))
      ensures fresh(response) && !response.freed && response.version == request.version
      ensures response.code != null && response.code.isStatic && !response.code.freed
      ensures response.status != null && response.status.isStatic && !response.status.freed
      ensures response.content == null
      ensures var q := Build(old(View()), files);
        && View().content == q.content && View().dsize == q.dsize && error == old(error)
        && (response.View().code, response.View().status) == (q.response.value.code, q.response.value.status)
    {
      hide StrChr, HtmlName, Itoa, Database.Valid;
      var status := Res.OKAY;
      if error == Some(ERROR_500) {
        status := Res.SERVER_ERROR;
      } else if error == Some(ERROR_404) {
        status := Res.FILE_NOT_FOUND;
        var _ := GetHtml(files);
      }
      var code := new Block.Static(Res.StatusPair(status).0);
      var text := new Block.Static(Res.StatusPair(status).1);
      response := new Res.HttpResponse(request.version, code, text);
    }

    /** `build_response`. */
    method BuildResponse(files: Files) returns (next: State)
      requires Serving() && (error == Some(ERROR_404) ==> HtmlName(request.View().url, error).Some?)
      modifies `content, `dsize, `response
      ensures Answering() && request == old(request) && (content == old(content) || fresh(content))
      ensures fresh(response) && FreshHeaders(response) && disk.Valid()
      ensures View() == Build(old(View()), files) && next == SEND_RESPONSE
    {
      hide StrChr, HtmlName, Itoa, Build, Database.Valid;
      BuildFields(View(), files);
      ConstructResponse(files);
      FillIn();
      return SEND_RESPONSE;
    }

    /** The copies and setters at the end of `build_response`. */
    method FillIn()
      requires Serving() && response != null && !response.freed && response.version == request.version
      requires response.code != null && response.code.isStatic && !response.code.freed
      requires response.status != null && response.status.isStatic && !response.status.freed
      modifies response
      ensures Answering() && FreshHeaders(response)
      ensures response.View() == old(response.View()).(date := Res.HTTP_DATE, server := Res.HTTP_SERVER,
        lastModified := Res.HTTP_LAST_MODIFIED, contentLength := Itoa(dsize),
        contentType := Res.HTTP_CONTENT_TYPE, content := TextOf(content))
    {
      hide Itoa, Database.Valid, Res.HttpResponse.View;
      FillResponse(response, Itoa(dsize), content);
    }

    /** The printing half of `send_response`: the local array of computed size holds
        the printed text and its terminator, as far as they fit. */
    method PrintResponse() returns (wire: array<char>)
      requires Answering() && Described(View())
      ensures fresh(wire) && wire[..] == Res.WireOf(response.View())
    {
      hide Database.Valid;
      var http := response;
      var body := if http.content == null then "" else http.content.Read();
      var r := Res.Response(http.version.Read(), http.code.Read(), http.status.Read(), http.date.Read(),
                            http.server.Read(), http.lastModified.Read(), http.contentLength.Read(),
                            http.contentType.Read(), body);
      assert r == response.View();
      Res.WireIsHeadAndBody(r);
      Res.ResponseArrayArithmetic(r);
      hide Res.Render, Res.Head, Res.ResponseArraySize, StrToL;
      var size := Res.ResponseArraySize(r);
      var printed := Res.Render(r) + [NUL];
      wire := new char[size](i requires 0 <= i < |printed| => printed[i]);
      assert wire[..] == printed[..size];
    }

    /** `send_response`: the response is printed and written, then both records are
        destroyed.  Every string of the request is freed, the version with it, every
        string of the response too unless it is empty, and none of the code map. */
    method SendResponse() returns (next: State, wire: array<char>)
      requires Answering() && Described(View())
      modifies request, response, request.Fields(), response.Strings()
      ensures next == SERVER_INIT && fresh(wire) && wire[..] == Res.WireOf(old(response.View()))
      ensures View() == old(View()).(request := Dangling, response := Dangling)
      ensures forall b | b in old(request.Fields()) :: b != null && b.freed
      ensures forall b | b in old(response.Strings()) && b != null :: b.freed <==> b.text != ""
      ensures old(response.version).freed && !old(response.code).freed && !old(response.status).freed
    {
      hide Database.Valid, Res.WireOf, Described, Req.HttpRequest.View;
      wire := PrintResponse();
      DestroyRecords();
      return SERVER_INIT, wire;
    }

    /** The two destructors at the end of `send_response`. */
    method DestroyRecords()
      requires Answering()
      modifies request, response, request.Fields(), response.Strings()
      ensures View() == old(View()).(request := Dangling, response := Dangling)
      ensures forall b | b in old(request.Fields()) :: b != null && b.freed
      ensures forall b | b in old(response.Strings()) && b != null :: b.freed <==> b.text != ""
      ensures old(response.version).freed && !old(response.code).freed && !old(response.status).freed
    {
      hide Database.Valid, Req.HttpRequest.View, Res.HttpResponse.View;
      request.Destroy();
      response.Destroy();
    }
  }

  lemma BuildFields(p: Params, files: Files)
    requires p.request.Live?
    requires p.error == Some(ERROR_404) ==> HtmlName(p.request.value.url, p.error).Some?
    ensures var q := Build(p, files);
      && q.request == p.request && q.error == p.error && q.response.Live?
      && q.response.value == Res.Response(p.request.value.version, q.response.value.code, q.response.value.status,
           Res.HTTP_DATE, Res.HTTP_SERVER, Res.HTTP_LAST_MODIFIED, Itoa(q.dsize), Res.HTTP_CONTENT_TYPE,
           if q.content.Some? then q.content.value else "")
  {
    hide Itoa, Res.StatusPair;
  }

  /** The header strings of the response were allocated since the old state. */
  twostate predicate FreshHeaders(new http: Res.HttpResponse)
    reads http
  {
    fresh(http.date) && fresh(http.server) && fresh(http.lastModified)
    && fresh(http.contentLength) && fresh(http.contentType)
  }

  /** New header strings for a response. */
  method FillResponse(http: Res.HttpResponse, contentLength: string, content: Block?)
    requires !http.freed && (content != null ==> Owned(content))
    modifies http`date, http`server, http`lastModified, http`contentLength, http`contentType, http`content
    ensures http.OwnsStrings() && http.content == content
    ensures fresh(http.date) && fresh(http.server) && fresh(http.lastModified)
    ensures fresh(http.contentLength) && fresh(http.contentType)
    ensures http.View() == old(http.View()).(date := Res.HTTP_DATE, server := Res.HTTP_SERVER,
      lastModified := Res.HTTP_LAST_MODIFIED, contentLength := contentLength,
      contentType := Res.HTTP_CONTENT_TYPE, content := TextOf(content))
  {
    var date := new Block.Alloc(Res.HTTP_DATE);
    var server := new Block.Alloc(Res.HTTP_SERVER);
    var lastModified := new Block.Alloc(Res.HTTP_LAST_MODIFIED);
    var length := new Block.Alloc(contentLength);
    var contentType := new Block.Alloc(Res.HTTP_CONTENT_TYPE);
    http.SetAttributes(date, server, lastModified, length, contentType, content);
  }

  /** `parse_query`: the two strings of the `Query` record. */
  method ParseQueryInto(url: string) returns (key: Block, value: Block)
    requires Req.ParseQuery(url).Some?
    ensures fresh(key) && fresh(value) && key != value && Owned(key) && Owned(value)
    ensures (key.text, value.text) == Req.ParseQuery(url).value
  {
    var question := StrChr(url, '?', 0).value;
    var keyEnd := StrChr(url, '=', question + 1).value;
    key := new Block.Alloc(url[question + 1..keyEnd]);
    value := new Block.Alloc(CStr(url, keyEnd + 1));
  }

  /** `destroy_query`. */
  method DestroyQuery(key: Block, value: Block)
    requires Owned(key) && Owned(value) && key != value
    modifies key, value
    ensures key.freed && value.freed
  {
    key.Free();
    value.Free();
  }

  /** `&data[count - 4]`. */
  lemma LastFour(chunk: string, data: string)
    requires chunk <= data && |chunk| >= 4
    ensures data[|chunk| - 4..|chunk|] == Req.END_OF_REQUEST <==> Req.EndsRequest(chunk)
  {
    assert data[|chunk| - 4..|chunk|] == chunk[|chunk| - 4..];
  }

  lemma NothingIsSafe(chunks: Connection)
    ensures chunks == [] ==> ReceivesSafely(chunks)
  {
  }

  /** The C string in the zero-filled buffer behind a dump is the dump. */
  lemma DumpInBuffer(buffer: string, order: seq<string>, disk: map<string, string>)
    requires IsEnumeration(order, disk.Keys) && DumpSize(order) < |buffer|
    requires forall k | k in disk :: NUL !in k
    requires buffer[..DumpSize(order)] == Dump(order) && buffer[DumpSize(order)] == NUL
    ensures CStr(buffer, 0) == Dump(order) && StrLen(buffer, 0) == |Dump(order)|
  {
    DumpLength(order);
    DumpHasNoNul(order);
    StrLenAt(buffer, 0, Dump(order));
  }

  lemma DumpIsQuery(url: string, disk: map<string, string>, order: seq<string>)
    ensures IsHtml(url) || !IsQuery(url) ==> DumpFits(url, disk, order)
  {
  }

  /** The handlers in the order of one exchange, from an idle server: they end with
      the database and the bytes on the wire that the definition of the reply asks
      for, and with the parameters of the machine behind five steps. */
  method ServeExchange(serv: ServerParams, conns: seq<Connection>, files: Files, ghost m: Machine, ghost r: Req.Request)
    returns (wire: array<char>, ghost i: Input)
    requires Idle(m) && serv.disk.Valid() && serv.disk.contents == m.disk && FilesOk(files)
    requires AcceptsSafely(conns) && Accepted(conns) == Some(r) && Servable(r)
    requires r.httpMethod in {Req.REQUEST_GET, Req.REQUEST_POST}
    requires r.httpMethod == Req.REQUEST_GET && IsDump(r.url) ==>
      forall o | IsEnumeration(o, m.disk.Keys) :: DumpSize(o) < DUMP_BUFF
    modifies serv, serv.disk
    ensures i.conns == conns && Offers(m, i, r)
    ensures serv.View() == Serve(m, i, files).serv
    ensures serv.disk.Valid() && serv.disk.contents == DiskAfter(r, m.disk)
    ensures wire[..] == Res.WireOf(Carries(r.version, ReplyTo(r, m.disk, files, i.order)))
  {
    hide Servable, Accepted, AcceptsSafely, IsDump, Build, ReplyTo, Res.WireOf, Database.Valid, HtmlName, Carries,
      ServerParams.Serving, Described, Req.HttpRequest.View, Res.HttpResponse.View, Serve, DiskAfter, AfterHandler, Inv;
    ghost var order := HandleRequest(serv, conns, files, m, r);
    i := Input(conns, order);
    ReadyToBuild(m, i, r, files);
    var next := serv.BuildResponse(files);
    next, wire := serv.SendResponse();
  }

  /** The first three steps of an exchange. */
  method HandleRequest(serv: ServerParams, conns: seq<Connection>, files: Files, ghost m: Machine, ghost r: Req.Request)
    returns (ghost order: seq<string>)
    requires Idle(m) && serv.disk.Valid() && serv.disk.contents == m.disk
    requires AcceptsSafely(conns) && Accepted(conns) == Some(r) && Servable(r)
    requires r.httpMethod in {Req.REQUEST_GET, Req.REQUEST_POST}
    requires r.httpMethod == Req.REQUEST_GET && IsDump(r.url) ==>
      forall o | IsEnumeration(o, m.disk.Keys) :: DumpSize(o) < DUMP_BUFF
    modifies serv, serv.disk
    ensures serv.Serving() && Req.AllFresh(serv.request) && (serv.content == null || fresh(serv.content))
    ensures Offers(m, Input(conns, order), r)
    ensures serv.View() == AfterHandler(m, r, files, order).serv && serv.disk.contents == DiskAfter(r, m.disk)
  {
    hide Servable, Accepted, AcceptsSafely, IsDump, IsHtml, Get, Database.Valid, IsEnumeration, HtmlName,
      Req.ParseQuery, ServerParams.Serving, Req.HttpRequest.View, DumpFits, Inv;
    order := [];
    var next := serv.InitServer();
    next := serv.AcceptRequest(conns);
    if next == HTTP_GET {
      next, order := serv.HttpGet(files);
    } else {
      PostIsQuery(r);
      next := serv.HttpPost();
    }
  }

  lemma PostIsQuery(r: Req.Request)
    requires r.httpMethod == Req.REQUEST_POST && Servable(r)
    ensures Req.ParseQuery(r.url).Some?
  {
  }

  /** What the last two handlers of an exchange find and make. */
  lemma ReadyToBuild(m: Machine, i: Input, r: Req.Request, files: Files)
    requires Idle(m) && FilesOk(files) && Offers(m, i, r)
    ensures var p := AfterHandler(m, r, files, i.order).serv;
      && (p.error == Some(ERROR_404) ==> HtmlName(r.url, p.error).Some?)
      && p.request == Live(r)
      && Described(Build(p, files))
      && Build(p, files).response == Live(Carries(r.version, ReplyTo(r, m.disk, files, i.order)))
      && Serve(m, i, files).serv == Build(p, files).(request := Dangling, response := Dangling)
  {
    hide Get, DumpFits, ReplyTo, Build, Carries, IsHtml, HtmlName, AcceptsSafely, Accepted, Servable, Described;
    AcceptSteps(m, i, r, files);
    HandlerStep(m, i, r, files);
    var three := AfterHandler(m, r, files, i.order);
    ThirdIsReady(m, i, r, files);
    StepKeepsInv(three, i, files);
    BuildStep(m, i, r, files);
    if r.httpMethod == Req.REQUEST_GET {
      GetThenBuild(r, m.disk, files, i.order);
    }
  }

  lemma ThirdIsReady(m: Machine, i: Input, r: Req.Request, files: Files)
    requires Idle(m) && FilesOk(files) && Offers(m, i, r)
    ensures Inv(AfterHandler(m, r, files, i.order)) && Admissible(AfterHandler(m, r, files, i.order), i)
  {
    hide Get, DumpFits, IsHtml, HtmlName, AcceptsSafely, Accepted;
    AcceptSteps(m, i, r, files);
    HandlerStep(m, i, r, files);
    assert m.accepted == |m.sent|;
    StepKeepsInv(AfterAccept(m, r), i, files);
  }
}
