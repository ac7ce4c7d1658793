/** The server of server.c as a state machine: the transition table, what each
    handler does to the parameters, and runs. */
module ServerModel {
  import opened CString
  import opened Wire
  import opened Db
  import Req = HttpRequests
  import Res = HttpResponses

  const LARGE_BUFF := 8192
  const NOT_FOUND_PAGE: string := "404.html"
  const DUMP_KEY: string := "DUMP"

  /** The files of the html directory: name and text. */
  type Files = map<string, string>

  // -------------------------------------------------------- transition table

  datatype State = FSM_INIT | SERVER_INIT | ACCEPT_REQUEST | HTTP_GET | HTTP_POST | BUILD_RESPONSE
                 | SEND_RESPONSE | ERROR_404 | ERROR_500 | FSM_EXIT

  datatype Handler = InitServer | AcceptRequest | HttpGet | HttpPost | BuildResponse | SendResponse | NoHandler

  datatype Transition = Transition(from: State, to: State, perform: Handler)

  const TRANSITIONS: seq<Transition> := [
    Transition(FSM_INIT, SERVER_INIT, InitServer),
    Transition(SERVER_INIT, ACCEPT_REQUEST, AcceptRequest),
    Transition(SERVER_INIT, ERROR_500, BuildResponse),
    Transition(ACCEPT_REQUEST, HTTP_POST, HttpPost),
    Transition(ACCEPT_REQUEST, HTTP_GET, HttpGet),
    Transition(ACCEPT_REQUEST, ERROR_500, BuildResponse),
    Transition(HTTP_POST, BUILD_RESPONSE, BuildResponse),
    Transition(HTTP_POST, ERROR_500, BuildResponse),
    Transition(HTTP_GET, BUILD_RESPONSE, BuildResponse),
    Transition(HTTP_GET, ERROR_404, BuildResponse),
    Transition(ERROR_500, BUILD_RESPONSE, BuildResponse),
    Transition(ERROR_404, BUILD_RESPONSE, BuildResponse),
    Transition(BUILD_RESPONSE, SEND_RESPONSE, SendResponse),
    Transition(SEND_RESPONSE, SERVER_INIT, InitServer),
    Transition(SERVER_INIT, FSM_EXIT, NoHandler)
  ]

  /** The handler of a table entry; `None`: no entry, a bad state change. */
  function HandlerFor(from: State, to: State): Option<Handler> {
    match (from, to)
    case (FSM_INIT, SERVER_INIT) => Some(InitServer)
    case (SEND_RESPONSE, SERVER_INIT) => Some(InitServer)
    case (SERVER_INIT, ACCEPT_REQUEST) => Some(AcceptRequest)
    case (ACCEPT_REQUEST, HTTP_POST) => Some(HttpPost)
    case (ACCEPT_REQUEST, HTTP_GET) => Some(HttpGet)
    case (BUILD_RESPONSE, SEND_RESPONSE) => Some(SendResponse)
    case (SERVER_INIT, FSM_EXIT) => Some(NoHandler)
    case (SERVER_INIT, ERROR_500) => Some(BuildResponse)
    case (ACCEPT_REQUEST, ERROR_500) => Some(BuildResponse)
    case (HTTP_POST, ERROR_500) => Some(BuildResponse)
    case (HTTP_GET, ERROR_404) => Some(BuildResponse)
    case (_, BUILD_RESPONSE) =>
      if from in {HTTP_POST, HTTP_GET, ERROR_500, ERROR_404} then Some(BuildResponse) else None
    case _ => None
  }

  /** `HandlerFor` is the table, and the table is deterministic. */
  lemma TableLookup(from: State, to: State, h: Handler)
    ensures HandlerFor(from, to) == Some(h) <==> Transition(from, to, h) in TRANSITIONS
  {
    if HandlerFor(from, to) == Some(h) {
      HandlersAreListed(from, to);
    }
    ListedHandlers();
  }

  lemma ListedHandlers()
    ensures forall t | t in TRANSITIONS :: HandlerFor(t.from, t.to) == Some(t.perform)
  {
  }

  lemma HandlersAreListed(from: State, to: State)
    requires HandlerFor(from, to).Some?
    ensures Transition(from, to, HandlerFor(from, to).value) in TRANSITIONS
  {
  }

  /** Which states may fail, and how: a GET only with a 404, the others before the
      reply only with a 500; the run may end only in SERVER_INIT. */
  lemma ErrorEntries(from: State)
    ensures HandlerFor(from, ERROR_500) == Some(BuildResponse) <==> from in {SERVER_INIT, ACCEPT_REQUEST, HTTP_POST}
    ensures HandlerFor(from, ERROR_404) == Some(BuildResponse) <==> from == HTTP_GET
    ensures HandlerFor(from, BUILD_RESPONSE) == Some(BuildResponse)
      <==> from in {HTTP_GET, HTTP_POST, ERROR_404, ERROR_500}
    ensures HandlerFor(from, FSM_EXIT) == Some(NoHandler) <==> from == SERVER_INIT
  {
  }

  // -------------------------------------------------------------- parameters

  /** A record pointer: null, live, or left behind after the record was freed. */
  datatype Slot<+T> = Null | Live(value: T) | Dangling

  /** `struct server_params`; `error` is 0 or an error state. */
  datatype Params = Params(request: Slot<Req.Request>, response: Slot<Res.Response>,
                           content: Option<string>, dsize: int, error: Option<State>)

  const ZEROED := Params(Null, Null, None, 0, None)

  // -------------------------------------------------------- URL classification

  /** `is_html`: the first '.' is followed by "html". */
  predicate IsHtml(url: string) {
    var dot := StrChr(url, '.', 0);
    dot.Some? && dot.value + 5 <= |url| && url[dot.value + 1..dot.value + 5] == "html"
  }

  /** `is_query`. */
  predicate IsQuery(url: string) {
    StrChr(url, '?', 0).Some? && StrChr(url, '=', 0).Some?
  }

  /** The file name `get_html` makes: the fixed page after a 404, otherwise the
      text behind the first '/' up to the first 'l'. */
  function HtmlName(url: string, error: Option<State>): Option<string> {
    var start :- StrChr(url, '/', 0);
    if error == Some(ERROR_404) then Some(NOT_FOUND_PAGE)
    else
      var end :- StrChr(url, 'l', start);
      Some(url[start + 1..end + 1])
  }

  /** What the handlers demand of a URL: a slash to start file names at, a name
      ending for pages, and an '=' behind the '?' for queries. */
  predicate Servable(r: Req.Request) {
    if r.httpMethod == Req.REQUEST_POST then Req.ParseQuery(r.url).Some?
    else
      && StrChr(r.url, '/', 0).Some?
      && (IsHtml(r.url) ==> HtmlName(r.url, None).Some?)
      && (!IsHtml(r.url) && IsQuery(r.url) ==> Req.ParseQuery(r.url).Some?)
  }

  // ------------------------------------------------------- receiving a request

  /** One connection: the chunks its reads deliver, none empty. */
  type Connection = seq<string>

  /** `receive_data`: every read is parsed, and the loop ends behind a read that
      ends in CRLF CRLF or with the connection. */
  function Received(chunks: Connection): Option<Req.Request>
    decreases chunks
  {
    if chunks == [] then None
    else if Req.EndsRequest(chunks[0]) || |chunks| == 1 then Req.ParseRequest(chunks[0])
    else Received(chunks[1..])
  }

  predicate ReceivesSafely(chunks: Connection)
    decreases chunks
  {
    chunks == [] ||
    (|chunks[0]| <= LARGE_BUFF && Req.ParseRequest(chunks[0]).Some?
     && (Req.EndsRequest(chunks[0]) || ReceivesSafely(chunks[1..])))
  }

  /** The accept loop: the first connection that delivers anything. */
  function Accepted(conns: seq<Connection>): Option<Req.Request>
    decreases conns
  {
    if conns == [] then None
    else if conns[0] == [] then Accepted(conns[1..])
    else Received(conns[0])
  }

  predicate AcceptsSafely(conns: seq<Connection>)
    decreases conns
  {
    conns != [] && if conns[0] == [] then AcceptsSafely(conns[1..]) else ReceivesSafely(conns[0])
  }

  /** The loop of `receive_data` ends behind read `k`: the first that ends in CRLF
      CRLF, or the last of the connection. */
  predicate EndsBehind(chunks: Connection, k: nat) {
    && k < |chunks|
    && (Req.EndsRequest(chunks[k]) || k == |chunks| - 1)
    && forall j | 0 <= j < k :: !Req.EndsRequest(chunks[j])
  }

  /** The request of the read the loop ends behind is kept, whatever the reads before
      it; and the loop is defined exactly when each read up to it fits and parses. */
  lemma {:induction false} ReceivedExactly(chunks: Connection, k: nat)
    requires EndsBehind(chunks, k)
    ensures Received(chunks) == Req.ParseRequest(chunks[k])
    ensures ReceivesSafely(chunks) <==>
      forall j | 0 <= j <= k :: |chunks[j]| <= 8192 && Req.ParseRequest(chunks[j]).Some?
    decreases k
  {
    hide Req.ParseRequest, Req.EndsRequest;
    if k == 0 {
      assert |chunks| == 1 ==> ReceivesSafely(chunks[1..]);
    } else {
      var rest := chunks[1..];
      assert rest[k - 1] == chunks[k] && forall j | 0 <= j < k - 1 :: rest[j] == chunks[j + 1];
      ReceivedExactly(rest, k - 1);
      assert !Req.EndsRequest(chunks[0]);
      Shifted(chunks, k);
    }
  }

  lemma Shifted(chunks: Connection, k: nat)
    requires 1 <= k < |chunks|
    ensures (forall j | 0 <= j <= k :: |chunks[j]| <= 8192 && Req.ParseRequest(chunks[j]).Some?) <==>
      |chunks[0]| <= 8192 && Req.ParseRequest(chunks[0]).Some?
      && forall j | 0 <= j <= k - 1 :: |chunks[1..][j]| <= 8192 && Req.ParseRequest(chunks[1..][j]).Some?
  {
    hide Req.ParseRequest;
    assert forall j | 1 <= j <= k :: chunks[j] == chunks[1..][j - 1];
  }

  /** The first connection that delivers anything is served, whatever comes behind. */
  lemma {:induction false} AcceptedExactly(conns: seq<Connection>, k: nat)
    requires k < |conns| && conns[k] != [] && forall j | 0 <= j < k :: conns[j] == []
    ensures Accepted(conns) == Received(conns[k])
    ensures AcceptsSafely(conns) <==> ReceivesSafely(conns[k])
    decreases k
  {
    hide Received, ReceivesSafely;
    if k == 0 {
    } else {
      assert conns[1..][k - 1] == conns[k] && forall j | 0 <= j < k - 1 :: conns[1..][j] == conns[j + 1];
      AcceptedExactly(conns[1..], k - 1);
    }
  }

  lemma {:induction false} ReceivesSomething(chunks: Connection)
    requires ReceivesSafely(chunks) && chunks != []
    ensures Received(chunks).Some?
    decreases chunks
  {
    if Req.EndsRequest(chunks[0]) || |chunks| == 1 {
    } else {
      ReceivesSomething(chunks[1..]);
    }
  }

  lemma {:induction false} AcceptsSomething(conns: seq<Connection>)
    requires AcceptsSafely(conns)
    ensures Accepted(conns).Some?
    decreases conns
  {
    if conns[0] != [] {
      ReceivesSomething(conns[0]);
    } else {
      AcceptsSomething(conns[1..]);
    }
  }

  // ---------------------------------------------------------------- handlers

  /** `get_html`; the flag says whether the file could be opened. */
  function GetHtml(p: Params, url: string, files: Files): (Params, bool)
    requires HtmlName(url, p.error).Some?
  {
    var name := HtmlName(url, p.error).value;
    if name in files then (p.(content := Some(files[name]), dsize := |files[name]| + 1), true) else (p, false)
  }

  /** The database branch of `http_get`. */
  function QueryContent(p: Params, key: string, disk: map<string, string>, order: seq<string>): Params {
    var q :=
      if key == DUMP_KEY then p.(content := Some(Dump(order)), dsize := |Dump(order)|)
      else if key in disk then p.(content := Some(disk[key]), dsize := |Terminated(disk[key])|)
      else p.(content := Some(""), dsize := 0);
    if q.dsize == 0 then q.(error := Some(ERROR_404)) else q
  }

  /** `http_get` for a request with this URL. */
  function Get(p: Params, url: string, disk: map<string, string>, files: Files, order: seq<string>): Params
    requires p.error.None?
    requires Servable(Req.Request(Req.REQUEST_GET, url, "", "", "", ""))
  {
    if IsHtml(url) then
      var (q, found) := GetHtml(p, url, files);
      if found then q else q.(error := Some(ERROR_404))
    else if IsQuery(url) then QueryContent(p, Req.ParseQuery(url).value.0, disk, order)
    else p.(error := Some(ERROR_404))
  }

  /** `build_response` with `response_construct_handler`. */
  function Build(p: Params, files: Files): Params
    requires p.request.Live?
    requires p.error == Some(ERROR_404) ==> HtmlName(p.request.value.url, p.error).Some?
  {
    var q := if p.error == Some(ERROR_404) then GetHtml(p, p.request.value.url, files).0 else p;
    var status :=
      if p.error == Some(ERROR_500) then Res.SERVER_ERROR
      else if p.error == Some(ERROR_404) then Res.FILE_NOT_FOUND
      else Res.OKAY;
    q.(response := Live(Answer(p.request.value.version, status, q.dsize,
                               if q.content.Some? then q.content.value else "")))
  }

  /** The response the server fills in. */
  function Answer(version: string, status: Res.StatusCode, dsize: int, content: string): Res.Response {
    var (code, text) := Res.StatusPair(status);
    Res.Response(version, code, text, Res.HTTP_DATE, Res.HTTP_SERVER, Res.HTTP_LAST_MODIFIED,
                 Itoa(dsize), Res.HTTP_CONTENT_TYPE, content)
  }

  // -------------------------------------------------------------------- runs

  /** What the world supplies at a step: connections for `accept`, and the order
      in which ndbm visits the keys. */
  datatype Input = Input(conns: seq<Connection>, order: seq<string>)

  /** `from` and `to` are the states of `dc_fsm_run`: the handler of (from, to) runs
      next.  `disk` is the database file, which outlives the parameters. */
  datatype Machine = Machine(from: State, to: State, serv: Params, disk: map<string, string>,
                             accepted: nat, sent: seq<string>)

  const START := Machine(FSM_INIT, SERVER_INIT, ZEROED, map[], 0, [])

  predicate FilesOk(files: Files) {
    NOT_FOUND_PAGE in files && forall f | f in files :: NUL !in files[f] && |files[f]| < LARGE_BUFF
  }

  /** The state after a handler is what it returned. */
  function Goto(m: Machine, next: State): Machine {
    m.(from := m.to, to := next)
  }

  /** The URL asks for the dump. */
  predicate IsDump(url: string) {
    !IsHtml(url) && IsQuery(url) && Req.ParseQuery(url).Some? && Req.ParseQuery(url).value.0 == DUMP_KEY
  }

  /** When asked for the dump, ndbm visits each key once, and the dump with its
      terminator fits the buffer of `http_get`. */
  ghost predicate DumpFits(url: string, disk: map<string, string>, order: seq<string>) {
    IsDump(url) ==> IsEnumeration(order, disk.Keys) && DumpSize(order) < DUMP_BUFF
  }

  /** What each handler demands of the machine and the world when it runs. */
  ghost predicate CanPerform(m: Machine, h: Handler, i: Input) {
    match h
    case InitServer => true
    case AcceptRequest => AcceptsSafely(i.conns)
    case HttpGet => m.serv.request.Live? && m.serv.error.None? && m.serv.request.value.httpMethod == Req.REQUEST_GET
      && Servable(m.serv.request.value) && DumpFits(m.serv.request.value.url, m.disk, i.order)
    case HttpPost => m.serv.request.Live? && Req.ParseQuery(m.serv.request.value.url).Some?
    case BuildResponse => m.serv.request.Live?
      && (m.serv.error == Some(ERROR_404) ==> HtmlName(m.serv.request.value.url, m.serv.error).Some?)
    case SendResponse => m.serv.request.Live? && m.serv.response.Live?
    case NoHandler => true
  }

  /** The next state `accept_request` returns. */
  function Dispatch(httpMethod: string): State {
    if httpMethod == Req.REQUEST_GET then HTTP_GET
    else if httpMethod == Req.REQUEST_POST then HTTP_POST
    else FSM_EXIT
  }

  ghost function Perform(m: Machine, h: Handler, i: Input, files: Files): Machine
    requires CanPerform(m, h, i)
  {
    match h
    case InitServer => Goto(m.(serv := ZEROED), ACCEPT_REQUEST)
    case AcceptRequest =>
      AcceptsSomething(i.conns);
      var r := Accepted(i.conns).value;
      Goto(m.(serv := m.serv.(request := Live(r)), accepted := m.accepted + 1), Dispatch(r.httpMethod))
    case HttpGet =>
      Goto(m.(serv := Get(m.serv, m.serv.request.value.url, m.disk, files, i.order)), BUILD_RESPONSE)
    case HttpPost =>
      var (key, value) := Req.ParseQuery(m.serv.request.value.url).value;
      Goto(m.(disk := m.disk[key := value]), BUILD_RESPONSE)
    case BuildResponse => Goto(m.(serv := Build(m.serv, files)), SEND_RESPONSE)
    case SendResponse =>
      Goto(m.(serv := m.serv.(request := Dangling, response := Dangling),
              sent := m.sent + [Res.WireOf(m.serv.response.value)]), SERVER_INIT)
    case NoHandler => m
  }

  /** The machine can take a step: the table has an entry, and its handler can run. */
  ghost predicate CanStep(m: Machine, i: Input) {
    var h := HandlerFor(m.from, m.to);
    h.Some? && h.value != NoHandler && CanPerform(m, h.value, i)
  }

  /** One turn of `dc_fsm_run`; without an entry the machine stays where it is. */
  ghost function Step(m: Machine, i: Input, files: Files): Machine {
    if CanStep(m, i) then Perform(m, HandlerFor(m.from, m.to).value, i, files) else m
  }

  ghost function Run(m: Machine, inputs: seq<Input>, files: Files): Machine
    decreases inputs
  {
    if inputs == [] then m else Run(Step(m, inputs[0], files), inputs[1..], files)
  }

  // ---------------------------------------------------------- run invariant

  /** The world plays by the rules at this step: a safe connection with a servable
      GET or POST when the server accepts, and a dump that fits when it is asked
      for one. */
  ghost predicate Admissible(m: Machine, i: Input) {
    && (m.to == ACCEPT_REQUEST ==>
          AcceptsSafely(i.conns)
          && var r := Accepted(i.conns);
             r.Some? && r.value.httpMethod in {Req.REQUEST_GET, Req.REQUEST_POST} && Servable(r.value))
    && (m.to == HTTP_GET && m.serv.request.Live? ==> DumpFits(m.serv.request.value.url, m.disk, i.order))
  }

  ghost predicate AdmissibleRun(m: Machine, inputs: seq<Input>, files: Files)
    decreases inputs
  {
    inputs == [] || (Admissible(m, inputs[0]) && AdmissibleRun(Step(m, inputs[0], files), inputs[1..], files))
  }

  /** Length and content agree: a stored value or page counts its terminator, a
      dump or the empty body of a POST does not. */
  predicate Consistent(p: Params) {
    var body := if p.content.Some? then p.content.value else "";
    p.dsize in {|body|, |body| + 1}
  }

  /** The response in the slot describes the content attached to it. */
  predicate Described(p: Params) {
    p.response.Live? &&
    var r := p.response.value;
    && StrToL(r.contentLength) == p.dsize
    && r.content == (if p.content.Some? then p.content.value else "")
    && Consistent(p)
  }

  /** What holds whenever the handler of (from, to) is about to run. */
  ghost predicate Inv(m: Machine) {
    match (m.from, m.to)
    case (FSM_INIT, SERVER_INIT) => m.serv == ZEROED && m.accepted == |m.sent|
    case (SEND_RESPONSE, SERVER_INIT) =>
      m.serv.request == Dangling && m.serv.response == Dangling && m.accepted == |m.sent|
    case (SERVER_INIT, ACCEPT_REQUEST) => m.serv == ZEROED && m.accepted == |m.sent|
    case (ACCEPT_REQUEST, HTTP_GET) => InFlight(m, Req.REQUEST_GET)
    case (ACCEPT_REQUEST, HTTP_POST) => InFlight(m, Req.REQUEST_POST)
    case (HTTP_GET, BUILD_RESPONSE) =>
      && m.serv.request.Live? && m.serv.response == Null && m.accepted == |m.sent| + 1
      && m.serv.error in {None, Some(ERROR_404)} && HtmlName(m.serv.request.value.url, Some(ERROR_404)).Some?
      && (m.serv.error.None? ==> Consistent(m.serv))
    case (HTTP_POST, BUILD_RESPONSE) =>
      m.serv == ZEROED.(request := m.serv.request) && m.serv.request.Live? && m.accepted == |m.sent| + 1
    case (BUILD_RESPONSE, SEND_RESPONSE) =>
      m.serv.request.Live? && m.serv.response.Live? && Described(m.serv) && m.accepted == |m.sent| + 1
    case _ => false
  }

  /** One request accepted and not yet answered. */
  ghost predicate InFlight(m: Machine, httpMethod: string) {
    && m.serv == ZEROED.(request := m.serv.request) && m.serv.request.Live?
    && m.serv.request.value.httpMethod == httpMethod && Servable(m.serv.request.value)
    && m.accepted == |m.sent| + 1
  }

  /** Steps until the next response has been sent. */
  function Rank(to: State): nat {
    match to
    case SEND_RESPONSE => 1
    case BUILD_RESPONSE => 2
    case HTTP_GET => 3
    case HTTP_POST => 3
    case ACCEPT_REQUEST => 4
    case _ => 5
  }

  lemma QueryContentConsistent(p: Params, key: string, disk: map<string, string>, order: seq<string>)
    ensures var q := QueryContent(p, key, disk, order);
      q.error.None? ==> Consistent(q)
    ensures var q := QueryContent(p, key, disk, order);
      q.request == p.request && q.response == p.response && q.error in {p.error, Some(ERROR_404)}
  {
  }

  lemma GetKeepsInv(p: Params, url: string, disk: map<string, string>, files: Files, order: seq<string>)
    requires p.error.None? && Servable(Req.Request(Req.REQUEST_GET, url, "", "", "", ""))
    ensures var q := Get(p, url, disk, files, order);
      && q.request == p.request && q.response == p.response && q.error in {None, Some(ERROR_404)}
      && (q.error.None? ==> Consistent(q))
    ensures HtmlName(url, Some(ERROR_404)).Some?
  {
    if !IsHtml(url) && IsQuery(url) {
      QueryContentConsistent(p, Req.ParseQuery(url).value.0, disk, order);
    }
  }

  /** After `build_response` the printed Content-Length reads back as the current
      `fetched.dsize` and describes the content attached, page of a 404 included. */
  lemma BuildDescribes(p: Params, files: Files)
    requires FilesOk(files) && p.request.Live? && p.error in {None, Some(ERROR_404), Some(ERROR_500)}
    requires p.error == Some(ERROR_404) ==> HtmlName(p.request.value.url, p.error).Some?
    requires p.error != Some(ERROR_404) ==> Consistent(p)
    ensures var q := Build(p, files);
      var line := (q.response.value.version, q.response.value.code, q.response.value.status);
      && Described(q) && q.request == p.request
      && (p.error == Some(ERROR_404) ==> q.content == Some(files["404.html"]) && q.dsize == |files["404.html"]| + 1)
      && (p.error != Some(ERROR_404) ==> q.content == p.content && q.dsize == p.dsize)
      && line == (p.request.value.version,
                  if p.error.None? then "200" else if p.error == Some(ERROR_404) then "404" else "500",
                  if p.error.None? then "OK" else if p.error == Some(ERROR_404) then "File Not Found"
                  else "HTTP Internal Server Error")
  {
    StrToLOfItoa(Build(p, files).dsize);
  }

  /** Whether a request is servable depends on its method and URL only. */
  lemma ServableUrl(r: Req.Request)
    requires Servable(r)
    ensures r.httpMethod == Req.REQUEST_GET ==> Servable(Req.Request(Req.REQUEST_GET, r.url, "", "", "", ""))
    ensures r.httpMethod == Req.REQUEST_POST ==> Req.ParseQuery(r.url).Some?
  {
  }

  /** In every error-free step on a GET or POST the value the handler returns has an
      entry in the table, the invariant is kept, and the rank counts down by one
      or, when the response is sent, starts again at five. */
  lemma StepKeepsInv(m: Machine, i: Input, files: Files)
    requires Inv(m) && Admissible(m, i) && FilesOk(files)
    ensures CanStep(m, i)
    ensures var n := Step(m, i, files);
      && Inv(n) && HandlerFor(n.from, n.to).Some? && HandlerFor(n.from, n.to).value != NoHandler
      && (if m.to == SEND_RESPONSE then |n.sent| == |m.sent| + 1 && Rank(n.to) == 5
          else n.sent == m.sent && Rank(n.to) == Rank(m.to) - 1)
  {
    hide Get, Build, AcceptsSafely, Accepted, IsDump, DumpFits, HtmlName, Servable, Described, Consistent, Res.WireOf,
      Req.ParseQuery;
    match m.to
    case HTTP_GET =>
      ServableUrl(m.serv.request.value);
      GetKeepsInv(m.serv, m.serv.request.value.url, m.disk, files, i.order);
    case HTTP_POST => ServableUrl(m.serv.request.value);
    case BUILD_RESPONSE => BuildDescribes(m.serv, files);
    case _ =>
  }

  /** The run invariant, over all runs, and their throughput: starting with rank k,
      a response goes out at step k and then at every fifth step, never more than
      one request is in flight, and the machine never lacks a transition. */
  lemma {:induction false} RunInvariant(m: Machine, inputs: seq<Input>, files: Files)
    requires Inv(m) && FilesOk(files) && AdmissibleRun(m, inputs, files)
    ensures var n := Run(m, inputs, files);
      && Inv(n) && |n.sent| <= n.accepted <= |n.sent| + 1
      && HandlerFor(n.from, n.to).Some? && HandlerFor(n.from, n.to).value != NoHandler
      && m.sent <= n.sent && |n.sent| == |m.sent| + (|inputs| + 5 - Rank(m.to)) / 5
      && Rank(n.to) == 5 - (|inputs| + 5 - Rank(m.to)) % 5
    decreases inputs
  {
    if inputs == [] {
    } else {
      StepKeepsInv(m, inputs[0], files);
      RunInvariant(Step(m, inputs[0], files), inputs[1..], files);
    }
  }

  /** From the start of the server: n steps send n / 5 responses. */
  lemma ServerThroughput(disk: map<string, string>, inputs: seq<Input>, files: Files)
    requires FilesOk(files) && AdmissibleRun(START.(disk := disk), inputs, files)
    ensures var n := Run(START.(disk := disk), inputs, files);
      |n.sent| == |inputs| / 5 && n.accepted == (|inputs| + 3) / 5
  {
    RunInvariant(START.(disk := disk), inputs, files);
  }

  /** A destroyed record is left in the parameters only until `init_server`, which
      runs next and reads neither, has zeroed them. */
  lemma DanglingUntilInit(m: Machine, i: Input, files: Files)
    requires Inv(m) && (m.serv.request.Dangling? || m.serv.response.Dangling?)
    ensures HandlerFor(m.from, m.to) == Some(InitServer)
    ensures forall p :: Step(m.(serv := p), i, files).serv == ZEROED
  {
  }

  /** The words of the two methods that are served. */
  lemma DispatchWords(httpMethod: string)
    ensures Dispatch(httpMethod) == HTTP_GET <==> httpMethod == "GET"
    ensures Dispatch(httpMethod) == HTTP_POST <==> httpMethod == "POST"
    ensures Dispatch(httpMethod) == FSM_EXIT <==> httpMethod != "GET" && httpMethod != "POST"
  {
  }

  /** Any other method ends the run: `accept_request` returns a state that has an
      entry exactly for GET and POST. */
  lemma DispatchHasEntry(httpMethod: string)
    ensures HandlerFor(ACCEPT_REQUEST, Dispatch(httpMethod)).Some?
      <==> httpMethod in {"GET", "POST"}
  {
  }

  /** `build_response` always returns SEND_RESPONSE, which has an entry only when it
      ran in state BUILD_RESPONSE: the entries that run it in an error state lead
      nowhere. */
  lemma BuildFromErrorStateIsStuck(t: Transition)
    requires t in TRANSITIONS && t.perform == BuildResponse
    ensures HandlerFor(t.to, SEND_RESPONSE).Some? <==> t.to == BUILD_RESPONSE
  {
  }
}
