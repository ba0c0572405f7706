/** The API behind the gates (src/server.cpp, lines 124-129 and 183-239):
    responses, the four routes and the not-found fallback.  Parsing the body
    of `POST /users` is done by a JSON library that is not part of this
    model; its outcome is a `Payload`. */
module Api {
  import opened Wrappers
  import opened Text

  /** The statuses the server can send. */
  datatype Status = Ok | Created | BadRequest | Unauthorized | NotFound
                  | UnprocessableEntity | TooManyRequests

  /** The status text written after "HTTP/1.1 ". */
  function StatusText(s: Status): string {
    match s
    case Ok => "200 OK"
    case Created => "201 Created"
    case BadRequest => "400 Bad Request"
    case Unauthorized => "401 Unauthorized"
    case NotFound => "404 Not Found"
    case UnprocessableEntity => "422 Unprocessable Entity"
    case TooManyRequests => "429 Too Many Requests"
  }

  datatype ContentType = TextPlain | ApplicationJson

  function MediaType(c: ContentType): string {
    match c
    case TextPlain => "text/plain"
    case ApplicationJson => "application/json"
  }

  /** What a request produces before it is written out. */
  datatype Response = Response(status: Status, contentType: ContentType, body: string)

  /** What the JSON library makes of a body: not JSON at all, or a JSON
      value whose `name` member is missing (also when the value is not an
      object), a string, or something else. */
  datatype NameMember = NoName | NameString(name: string) | NameNotString
  datatype Payload = NotJson | Json(member: NameMember)

  /* ---------------------------------------------------------------------
     Bodies
     --------------------------------------------------------------------- */

  /** A user as the JSON library dumps it, keys in order: `{"id":<id>,"name":"<name>"}`.
      Names are written as they are, without JSON escaping. */
  function UserObject(id: nat, name: string): string {
    IdKey + Decimal(id) + NameKey + name + "\"}"
  }

  /** Reads a user object back. */
  function ReadUserObject(s: string): Option<(nat, string)> {
    if |s| < |IdKey| || s[..|IdKey|] != IdKey then None else ReadIdAndName(s[|IdKey|..])
  }

  const IdKey: string := "{\"id\":"
  const NameKey: string := ",\"name\":\""

  /** The decimal id up to the first ',', then the name member. */
  function ReadIdAndName(s: string): Option<(nat, string)> {
    match IndexOf(s, ',')
    case None => None
    case Some(comma) =>
      var digits := s[..comma];
      if digits == [] || !AllDigits(digits) then None
      else
        match ReadName(s[comma..])
        case None => None
        case Some(name) => Some((DigitsValue(digits), name))
  }

  /** `,"name":"<name>"}` */
  function ReadName(s: string): Option<string> {
    if |s| < |NameKey| + 2 || s[..|NameKey|] != NameKey || s[|s| - 2..] != "\"}" then None
    else Some(s[|NameKey|..|s| - 2])
  }

  /** The body of a created user gives back its id and its name, whatever
      the name holds. */
  lemma UserObjectRoundTrip(id: nat, name: string)
    ensures ReadUserObject(UserObject(id, name)) == Some((id, name))
  {
    var d := Decimal(id);
    var tail := NameKey + name + "\"}";
    var s := UserObject(id, name);
    assert s == IdKey + (d + tail);
    assert s[..|IdKey|] == IdKey && s[|IdKey|..] == d + tail;
    IdAndNameRoundTrip(d, name);
    DecimalRoundTrip(id);
  }

  lemma IdAndNameRoundTrip(d: string, name: string)
    requires d != [] && AllDigits(d)
    ensures ReadIdAndName(d + (NameKey + name + "\"}")) == Some((DigitsValue(d), name))
  {
    var tail := NameKey + name + "\"}";
    var s := d + tail;
    assert ',' !in d by {
      forall i | 0 <= i < |d| ensures d[i] != ',' {
        assert IsDigit(d[i]);
      }
    }
    assert s[..|d|] == d && s[|d|] == ',';
    IndexOfIsFirst(s, ',', |d|);
    assert s[|d|..] == tail;
    NameRoundTrip(name);
  }

  lemma NameRoundTrip(name: string)
    ensures ReadName(NameKey + name + "\"}") == Some(name)
  {
    var s := NameKey + name + "\"}";
    assert s[..|NameKey|] == NameKey;
    assert s[|s| - 2..] == "\"}";
    assert s[|NameKey|..|s| - 2] == name;
  }

  /** Distinct users have distinct bodies. */
  lemma UserObjectInjective(id1: nat, name1: string, id2: nat, name2: string)
    requires UserObject(id1, name1) == UserObject(id2, name2)
    ensures id1 == id2 && name1 == name2
  {
    UserObjectRoundTrip(id1, name1);
    UserObjectRoundTrip(id2, name2);
  }

  const SeedUsers: string := "[" + UserObject(1, "Kailash") + "," + UserObject(2, "Alex") + "]"
  const Me: string := UserObject(1, "Kailash")

  const InvalidJsonError: string := "{\"error\":\"invalid JSON\"}"
  const NameRequiredError: string := "{\"error\":\"name is required\"}"

  /* ---------------------------------------------------------------------
     Routing
     --------------------------------------------------------------------- */

  /** The routing table: exact (method, path) pairs. */
  const Routes: set<(string, string)> :=
    {("GET", "/health"), ("GET", "/users"), ("GET", "/users/me"), ("POST", "/users")}

  /** The response of a routed request and the id counter afterwards. */
  datatype Routed = Routed(response: Response, nextUserId: nat)

  /** `POST /users` (lines 209-233): a string `name` creates a user with
      the next id; the counter moves only then.  A body that is not JSON
      gets 400 and a missing or non-string `name` gets 422, each with its
      fixed error object. */
  function CreateUser(payload: Payload, nextUserId: nat): (r: Routed)
    ensures r.response.status == Created <==> payload.Json? && payload.member.NameString?
    ensures r.response.status == BadRequest <==> payload.NotJson?
    ensures r.response.status == UnprocessableEntity <==> payload.Json? && !payload.member.NameString?
    ensures r.response.contentType == ApplicationJson
    ensures r.response.status == Created ==>
      r.response.body == UserObject(nextUserId, payload.member.name)
    ensures r.response.status == BadRequest ==> r.response.body == InvalidJsonError
    ensures r.response.status == UnprocessableEntity ==> r.response.body == NameRequiredError
    ensures r.nextUserId == nextUserId + (if r.response.status == Created then 1 else 0)
  {
    match payload
    case NotJson => Routed(Response(BadRequest, ApplicationJson, InvalidJsonError), nextUserId)
    case Json(NameString(name)) =>
      Routed(Response(Created, ApplicationJson, UserObject(nextUserId, name)), nextUserId + 1)
    case Json(_) => Routed(Response(UnprocessableEntity, ApplicationJson, NameRequiredError), nextUserId)
  }

  /** The router (lines 183-239), reached with status "200 OK" still set.
      A pair outside the table gets 404 "Not Found" as plain text; the GET
      routes answer 200 with fixed bodies; only a created user advances
      the id counter. */
  function Route(verb: string, path: string, body: string, nextUserId: nat,
                 parseJson: string -> Payload): (r: Routed)
    ensures r.response.status == NotFound <==> (verb, path) !in Routes
    ensures r.response.status == NotFound ==> r.response == Response(NotFound, TextPlain, "Not Found")
    ensures r.response.status == Ok <==> verb == "GET" && (verb, path) in Routes
    ensures verb == "GET" && path == "/health" ==> r.response == Response(Ok, TextPlain, "OK")
    ensures verb == "GET" && path == "/users" ==> r.response == Response(Ok, ApplicationJson, SeedUsers)
    ensures verb == "GET" && path == "/users/me" ==> r.response == Response(Ok, ApplicationJson, Me)
    ensures verb == "POST" && path == "/users" ==> r == CreateUser(parseJson(body), nextUserId)
    ensures r.nextUserId == nextUserId + (if r.response.status == Created then 1 else 0)
  {
    if verb == "GET" && path == "/health" then
      Routed(Response(Ok, TextPlain, "OK"), nextUserId)
    else if verb == "GET" && path == "/users" then
      Routed(Response(Ok, ApplicationJson, SeedUsers), nextUserId)
    else if verb == "GET" && path == "/users/me" then
      Routed(Response(Ok, ApplicationJson, Me), nextUserId)
    else if verb == "POST" && path == "/users" then
      CreateUser(parseJson(body), nextUserId)
    else
      Routed(Response(NotFound, TextPlain, "Not Found"), nextUserId)
  }
}
