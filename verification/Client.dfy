/** The client parameters of client.c, and building and sending a request. */
module Client {
  import opened CString
  import opened Memory
  import opened HttpRequests

  class ClientParams {
    var key: string
    var value: string
    var httpMethod: Block
    var request: HttpRequest?

    /** `userInput`; a null value prints as whatever the C library makes of it. */
    constructor (key: string, value: string, httpMethod: Block)
      ensures this.key == key && this.value == value && this.httpMethod == httpMethod && request == null
    {
      this.key, this.value, this.httpMethod, request := key, value, httpMethod, null;
    }

    /** `build_request`: the request owns new strings, except the method, which is
        the string of the user input itself. */
    method BuildRequest()
      requires Owned(httpMethod)
      modifies `request
      ensures fresh(request) && request.Valid() && request.httpMethod == httpMethod
      ensures request.View() == BuiltRequest(httpMethod.text, key, value)
    {
      var version := new Block.Alloc(HTTP_VERSION);
      var url := new Block.Alloc(QueryUrl(key, value));
      var http := new HttpRequest(httpMethod, url, version);
      var host := new Block.Alloc(HTTP_HOST);
      var userAgent := new Block.Alloc(HTTP_USER_AGENT);
      var accept := new Block.Alloc(ACCEPT_TYPE);
      http.host, http.userAgent, http.accept := host, userAgent, accept;
      request := http;
    }

    /** `send_request`: the local array has the computed size, and all of it goes to
        the socket. */
    method SendRequest() returns (wire: array<char>)
      requires request != null && request.Valid()
      ensures fresh(wire) && wire[..] == Render(request.View())
    {
      ghost var r := request.View();
      var size := |request.httpMethod.Read()| + |request.url.Read()| + |request.version.Read()| + 4
        + 5 + |request.host.Read()| + 3
        + 11 + |request.userAgent.Read()| + 3
        + 7 + |request.accept.Read()| + 3 + 2;
      RequestArrayHoldsText(r);
      var text := Render(Request(request.httpMethod.Read(), request.url.Read(), request.version.Read(),
                                 request.host.Read(), request.userAgent.Read(), request.accept.Read()));
      assert size == RequestArraySize(r) == |text|;
      wire := new char[size](i requires 0 <= i < |text| => text[i]);
      assert wire[..] == text;
    }
  }
}
