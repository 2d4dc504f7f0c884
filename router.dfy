/** controller.New's route table and responseHandler (article/controller/controller.go):
    which handler a method and path reach, and the JSON envelope, status and headers
    every response carries. */
module Router {
  import opened Wrappers
  import opened Decimal
  import opened DateTime
  import opened ArticleTypes
  import opened ArticleCodec
  import opened ArticleStore
  import opened ArticleController

  datatype Handler = GetAllHandler | CreateHandler | GetHandler | PutHandler | DeleteHandler

  /** A matched route: the handler and the {id} path variable (empty for the
      collection routes, which have none). */
  datatype Match = Match(handler: Handler, id: string)

  predicate IdChar(c: char) {
    IsDigit(c) || c == ')'
  }

  /** The pattern [0-9)]+ of the {id} variable. */
  predicate IdPattern(s: string) {
    |s| > 0 && forall i :: 0 <= i < |s| ==> IdChar(s[i])
  }

  const Prefix: string := "/article/"

  /** The paths /article and /article/. */
  predicate IsCollection(path: string) {
    path == "/article" || path == "/article/"
  }

  /** The {id} of a path /article/{id} or /article/{id}/, if it has that shape. */
  function IdSegment(path: string): (r: Option<string>)
    ensures r.Some? ==> IdPattern(r.value)
    ensures r.Some? ==> path == Prefix + r.value || path == Prefix + r.value + "/"
  {
    if |path| <= |Prefix| || path[..|Prefix|] != Prefix then None
    else
      var rest := path[|Prefix|..];
      var seg := if rest[|rest| - 1] == '/' then rest[..|rest| - 1] else rest;
      if !IdPattern(seg) then None
      else
        assert path == Prefix + rest;
        assert rest == seg || rest == seg + "/";
        Some(seg)
  }

  /** The router the four method subrouters make up; None where gorilla/mux would
      answer 404 or 405. */
  function Route(verb: string, path: string): (r: Option<Match>)
    ensures r.Some? ==> verb in {"GET", "POST", "PUT", "DELETE"}
    ensures r.Some? && r.value.handler in {GetAllHandler, CreateHandler} ==>
              IsCollection(path) && r.value.id == ""
    ensures r.Some? && r.value.handler in {GetHandler, PutHandler, DeleteHandler} ==>
              IdSegment(path) == Some(r.value.id)
  {
    if IsCollection(path) then
      if verb == "GET" then Some(Match(GetAllHandler, ""))
      else if verb == "POST" then Some(Match(CreateHandler, ""))
      else None
    else
      match IdSegment(path)
      case None => None
      case Some(id) =>
        if verb == "GET" then Some(Match(GetHandler, id))
        else if verb == "PUT" then Some(Match(PutHandler, id))
        else if verb == "DELETE" then Some(Match(DeleteHandler, id))
        else None
  }

  /** Every id the pattern admits is found with and without the trailing slash. */
  lemma IdSegmentOf(s: string)
    requires IdPattern(s)
    ensures IdSegment(Prefix + s) == Some(s)
    ensures IdSegment(Prefix + s + "/") == Some(s)
  {
    var p1 := Prefix + s;
    assert p1[..|Prefix|] == Prefix && p1[|Prefix|..] == s;
    assert s[|s| - 1] != '/' by { assert IdChar(s[|s| - 1]); }
    var p2 := Prefix + s + "/";
    assert p2[..|Prefix|] == Prefix && p2[|Prefix|..] == s + "/";
    assert (s + "/")[..|s|] == s;
  }

  /** The registrations of controller.New, both with and without a trailing slash. */
  lemma RouteTable(id: string)
    requires IdPattern(id)
    ensures forall p :: p in {"/article", "/article/"} ==>
              && Route("GET", p) == Some(Match(GetAllHandler, ""))
              && Route("POST", p) == Some(Match(CreateHandler, ""))
              && Route("PUT", p).None? && Route("DELETE", p).None?
    ensures forall p :: p in {Prefix + id, Prefix + id + "/"} ==>
              && Route("GET", p) == Some(Match(GetHandler, id))
              && Route("PUT", p) == Some(Match(PutHandler, id))
              && Route("DELETE", p) == Some(Match(DeleteHandler, id))
              && Route("POST", p).None?
  {
    IdSegmentOf(id);
    assert !IsCollection(Prefix + id) && !IsCollection(Prefix + id + "/") by {
      assert |Prefix + id| > |"/article/"|;
      assert |Prefix + id + "/"| > |"/article/"|;
    }
  }

  // ---------------------------------------------------------------------------
  // responseHandler.

  /** The JSON the encoder writes for a handler's data: null, an article through
      MarshalJSON, a list of them, or the error string. */
  datatype Payload =
    | JsonNull
    | JsonObject(fields: seq<(string, Json)>)
    | JsonArray(items: seq<seq<(string, Json)>>)
    | JsonString(text: string)

  /** The `response` struct: {"success": ..., "data": ...}. */
  datatype Envelope = Envelope(success: bool, data: Payload)

  function Encode(d: Data): (p: Payload)
    ensures d.Null? <==> p.JsonNull?
    ensures d.One? ==> p == JsonObject(MarshalJSON(d.article))
    ensures d.Many? ==> p.JsonArray? && |p.items| == |d.articles|
    ensures d.Many? ==> forall i :: 0 <= i < |d.articles| ==> p.items[i] == MarshalJSON(d.articles[i])
  {
    match d
    case Null => JsonNull
    case One(a) => JsonObject(MarshalJSON(a))
    case Many(s) => JsonArray(seq(|s|, i requires 0 <= i < |s| => MarshalJSON(s[i])))
  }

  /** On an error the data is replaced by the error's message, and success is
      whether there was no error. */
  function EnvelopeOf(data: Data, err: Option<Error>): (e: Envelope)
    ensures e.success <==> err.None?
    ensures err.Some? ==> e.data.JsonString? && e.data.text == Message(err.value)
    ensures err.None? ==> e.data == Encode(data)
  {
    match err
    case Some(x) => Envelope(false, JsonString(Message(x)))
    case None => Envelope(true, Encode(data))
  }

  const AllowOrigin: string := "Access-Control-Allow-Origin"
  const ContentType: string := "application/json"

  /** An http.ResponseWriter: the header map, the status written, and the values
      encoded into the body. */
  class ResponseWriter {
    var header: map<string, string>
    var status: int
    var body: seq<Envelope>

    constructor ()
      ensures header == map[] && status == 0 && body == []
    {
      header := map[];
      status := 0;
      body := [];
    }

    /** wr.Header().Set(key, value). */
    method SetHeader(key: string, value: string)
      modifies this
      ensures header == old(header)[key := value]
      ensures status == old(status) && body == old(body)
    {
      header := header[key := value];
    }

    /** wr.WriteHeader(code). */
    method WriteHeader(code: int)
      modifies this
      ensures status == code
      ensures header == old(header) && body == old(body)
    {
      status := code;
    }

    /** json.NewEncoder(wr).Encode(e). */
    method Write(e: Envelope)
      modifies this
      ensures body == old(body) + [e]
      ensures header == old(header) && status == old(status)
    {
      body := body + [e];
    }
  }

  /** The function responseHandler returns, run on a handler that produced
      (data, status, err): CORS header, content type, status, then the envelope. */
  method ResponseHandler(w: ResponseWriter, data: Data, status: int, err: Option<Error>)
    modifies w
    ensures w.header == old(w.header)[AllowOrigin := "*"]["Content-Type" := ContentType]
    ensures w.status == status
    ensures w.body == old(w.body) + [EnvelopeOf(data, err)]
  {
    w.SetHeader(AllowOrigin, "*");
    var payload := if err.Some? then JsonString(Message(err.value)) else Encode(data);
    w.SetHeader("Content-Type", ContentType);
    w.WriteHeader(status);
    w.Write(Envelope(err.None?, payload));
  }

  // ---------------------------------------------------------------------------
  // A request end to end.

  /** A request as the handlers see it: method, path, query and decoded body. */
  datatype Request = Request(verb: string, path: string, query: Query, body: Body)

  datatype Response = Response(status: int, headers: map<string, string>, envelope: Envelope)

  /** The two headers responseHandler sets on every response. */
  const Headers: map<string, string> := map[AllowOrigin := "*", "Content-Type" := ContentType]

  function Dispatch(db: Db, m: Match, req: Request, now: DateTime): Outcome {
    match m.handler
    case GetAllHandler => GetAll(db, req.query)
    case CreateHandler => Create(db, req.body, now)
    case GetHandler => Get(db, m.id)
    case PutHandler => Put(db, m.id, req.body, now)
    case DeleteHandler => Delete(db, m.id)
  }

  /** A routed request: the response and the database afterwards. The envelope
      reports success exactly when the status is 2xx, and every failure is a 400. */
  function Serve(db: Db, req: Request, now: DateTime): (r: Option<(Response, Db)>)
    ensures r.None? <==> Route(req.verb, req.path).None?
    ensures r.Some? ==> r.value.0.headers == Headers
    ensures r.Some? ==>
              (r.value.0.envelope.success <==> r.value.0.status in {StatusOK, StatusCreated, StatusNoContent})
    ensures r.Some? && !r.value.0.envelope.success ==> r.value.0.status == StatusBadRequest
  {
    match Route(req.verb, req.path)
    case None => None
    case Some(m) =>
      var o := Dispatch(db, m, req, now);
      Some((Response(o.status, Headers, EnvelopeOf(o.data, o.err)), o.db))
  }
}
