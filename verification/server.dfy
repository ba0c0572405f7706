/** One pass of the accept loop (src/server.cpp, lines 46-53 and 57-253)
    as a step function: the state that outlives a connection is the table
    of buckets and the next user id; each connection delivers a client
    address, the request text and the time it is handled. */
module Server {
  import opened Wrappers
  import opened Text
  import opened Request
  import opened RateLimit
  import opened Auth
  import opened Api
  import opened Wire

  /** What the loop keeps from one connection to the next. */
  datatype State = State(limits: map<string, Bucket>, nextUserId: nat)

  /** Lines 46 and 51: ids 1 and 2 belong to the seed users, so the first
      created user gets 3; no client has a bucket yet. */
  const Start: State := State(map[], 3)

  /** Every bucket in the state holds 0 to `MaxTokens` tokens. */
  predicate BucketsValid(s: State) {
    RateLimit.Valid(s.limits)
  }

  const UnauthorizedReply: Response :=
    Response(Unauthorized, ApplicationJson, "{\"error\":\"unauthorized\"}")
  const RateLimitedReply: Response :=
    Response(TooManyRequests, ApplicationJson, "{\"error\":\"rate limit exceeded\"}")

  /** The state after a connection and the response sent, if any. */
  datatype Outcome = Outcome(state: State, reply: Option<Response>)

  /** A parsed request through the two gates and the router (lines
      124-239).  A denied request is answered 401 and consumes nothing; any
      other leaves the buckets as the rate gate does, and an admitted one is
      routed; whatever the gates decide, only the requester's bucket can
      change, and only a created user moves the id counter. */
  function Respond(s: State, ip: string, req: Request, now: int,
                   parseJson: string -> Payload): (o: Outcome)
    ensures o.reply.Some?
    ensures o.reply.value.status == Unauthorized <==> Denied(req.path, req.headers)
    ensures Denied(req.path, req.headers) ==> o == Outcome(s, Some(UnauthorizedReply))
    ensures o.reply.value.status == TooManyRequests <==>
      !Denied(req.path, req.headers) && !Admit(s.limits, ip, now).admitted
    ensures !Denied(req.path, req.headers) ==> o.state.limits == Admit(s.limits, ip, now).limits
    ensures !Denied(req.path, req.headers) ==> o.state.limits.Keys == s.limits.Keys + {ip}
    ensures forall k :: k in s.limits && k != ip ==> o.state.limits[k] == s.limits[k]
    ensures BucketsValid(s) ==> BucketsValid(o.state) && o.reply.value.status != TooManyRequests
    ensures BucketsValid(s) && !Denied(req.path, req.headers) ==>
      o.reply.value == Route(req.verb, req.path, req.body, s.nextUserId, parseJson).response
    ensures o.state.nextUserId == s.nextUserId + (if o.reply.value.status == Created then 1 else 0)
    ensures o.reply.value.status == Created ==>
      var p := parseJson(req.body);
      req.verb == "POST" && req.path == "/users" && p.Json? && p.member.NameString?
      && o.reply.value.body == UserObject(s.nextUserId, p.member.name)
  {
    if Denied(req.path, req.headers) then Outcome(s, Some(UnauthorizedReply))
    else
      var d := Admit(s.limits, ip, now);
      if !d.admitted then Outcome(State(d.limits, s.nextUserId), Some(RateLimitedReply))
      else
        var routed := Route(req.verb, req.path, req.body, s.nextUserId, parseJson);
        Outcome(State(d.limits, routed.nextUserId), Some(routed.response))
  }

  /** One connection (lines 57-253): a request without a "\r\n" is dropped
      with no response and no change; any other is parsed and answered. */
  function Step(s: State, ip: string, raw: string, now: int,
                parseJson: string -> Payload): (o: Outcome)
    ensures o.reply.None? <==> !exists i :: OccursAt(raw, LineEnd, i)
    ensures o.reply.None? ==> o.state == s
    ensures o.reply.Some? ==> o == Respond(s, ip, Parse(raw).value, now, parseJson)
  {
    match Parse(raw)
    case None => Outcome(s, None)
    case Some(req) => Respond(s, ip, req, now, parseJson)
  }

  /** One connection with the response as the bytes written back.  The
      text sent reads back, through the same parser, as the response's
      body and headers. */
  function Handle(s: State, ip: string, raw: string, now: int,
                  parseJson: string -> Payload): (h: (State, Option<string>))
    ensures h.0 == Step(s, ip, raw, now, parseJson).state
    ensures h.1.None? <==> Step(s, ip, raw, now, parseJson).reply.None?
    ensures h.1.Some? ==>
      var sent := Step(s, ip, raw, now, parseJson).reply.value;
      var line := ParseRequestLine(StatusLine(sent.status));
      Parse(h.1.value)
        == Some(Request(line.verb, line.path, line.version, ResponseHeaders(sent), sent.body))
  {
    var o := Step(s, ip, raw, now, parseJson);
    match o.reply
    case None => (o.state, None)
    case Some(r) => ResponseReadsBack(r); (o.state, Some(Serialize(r)))
  }

  /* ---------------------------------------------------------------------
     Runs of connections
     --------------------------------------------------------------------- */

  /** A connection: the client's address, the request text, the time. */
  datatype Arrival = Arrival(ip: string, raw: string, now: int)

  /** Connections handled one after another: the final state and the
      response to each (None for a dropped one). */
  function Run(s: State, arrivals: seq<Arrival>, parseJson: string -> Payload)
    : (r: (State, seq<Option<Response>>))
    ensures |r.1| == |arrivals|
    decreases |arrivals|
  {
    if arrivals == [] then (s, [])
    else
      var a := arrivals[0];
      var o := Step(s, a.ip, a.raw, a.now, parseJson);
      var rest := Run(o.state, arrivals[1..], parseJson);
      (rest.0, [o.reply] + rest.1)
  }

  /** A connection whose text holds no "\r\n". */
  ghost predicate Unframed(raw: string) {
    !exists j :: OccursAt(raw, LineEnd, j)
  }

  /** The replies leave out exactly the unframed connections. */
  ghost predicate AnswersFramed(replies: seq<Option<Response>>, arrivals: seq<Arrival>) {
    |replies| == |arrivals|
    && forall i :: 0 <= i < |arrivals| ==> (replies[i].None? <==> Unframed(arrivals[i].raw))
  }

  /** No reply is 429. */
  predicate NoneRateLimited(replies: seq<Option<Response>>) {
    forall i :: 0 <= i < |replies| && replies[i].Some? ==> replies[i].value.status != TooManyRequests
  }

  predicate IsCreated(reply: Option<Response>) {
    reply.Some? && reply.value.status == Created
  }

  /** How many of the replies created a user. */
  function CountCreated(replies: seq<Option<Response>>): nat
    decreases |replies|
  {
    if replies == [] then 0
    else (if IsCreated(replies[0]) then 1 else 0) + CountCreated(replies[1..])
  }

  /** In any run, exactly the unframed connections go unanswered. */
  lemma {:induction false} RunDropsUnframed(s: State, arrivals: seq<Arrival>,
                                            parseJson: string -> Payload)
    ensures AnswersFramed(Run(s, arrivals, parseJson).1, arrivals)
    decreases |arrivals|
  {
    if arrivals != [] {
      var a := arrivals[0];
      var o := Step(s, a.ip, a.raw, a.now, parseJson);
      var later := Run(o.state, arrivals[1..], parseJson).1;
      RunDropsUnframed(o.state, arrivals[1..], parseJson);
      StepDropsUnframed(s, a, parseJson);
      assert Run(s, arrivals, parseJson).1 == [o.reply] + later;
      AnswersFramedCons(o.reply, later, arrivals);
    }
  }

  lemma StepDropsUnframed(s: State, a: Arrival, parseJson: string -> Payload)
    ensures Step(s, a.ip, a.raw, a.now, parseJson).reply.None? <==> Unframed(a.raw)
  {
  }

  lemma AnswersFramedCons(first: Option<Response>, later: seq<Option<Response>>,
                          arrivals: seq<Arrival>)
    requires arrivals != []
    requires first.None? <==> Unframed(arrivals[0].raw)
    requires AnswersFramed(later, arrivals[1..])
    ensures AnswersFramed([first] + later, arrivals)
  {
    var replies := [first] + later;
    forall i | 0 <= i < |arrivals| ensures replies[i].None? <==> Unframed(arrivals[i].raw) {
      if i > 0 {
        assert replies[i] == later[i - 1] && arrivals[i] == arrivals[1..][i - 1];
      }
    }
  }

  /** Over any run from valid buckets no reply is 429, and the buckets
      stay valid. */
  lemma {:induction false} RunNeverRateLimits(s: State, arrivals: seq<Arrival>,
                                              parseJson: string -> Payload)
    requires BucketsValid(s)
    ensures BucketsValid(Run(s, arrivals, parseJson).0)
    ensures NoneRateLimited(Run(s, arrivals, parseJson).1)
    decreases |arrivals|
  {
    if arrivals != [] {
      var a := arrivals[0];
      var o := Step(s, a.ip, a.raw, a.now, parseJson);
      var later := Run(o.state, arrivals[1..], parseJson).1;
      StepKeepsValid(s, a, parseJson);
      RunNeverRateLimits(o.state, arrivals[1..], parseJson);
      assert Run(s, arrivals, parseJson).1 == [o.reply] + later;
      NoneRateLimitedCons(o.reply, later);
    }
  }

  lemma StepKeepsValid(s: State, a: Arrival, parseJson: string -> Payload)
    requires BucketsValid(s)
    ensures var o := Step(s, a.ip, a.raw, a.now, parseJson);
      BucketsValid(o.state) && (o.reply.Some? ==> o.reply.value.status != TooManyRequests)
  {
  }

  lemma NoneRateLimitedCons(first: Option<Response>, later: seq<Option<Response>>)
    requires first.Some? ==> first.value.status != TooManyRequests
    requires NoneRateLimited(later)
    ensures NoneRateLimited([first] + later)
  {
    var replies := [first] + later;
    assert forall i :: 0 < i < |replies| ==> replies[i] == later[i - 1];
  }

  /** The id counter moves by exactly the number of users created. */
  lemma {:induction false} RunCountsUsers(s: State, arrivals: seq<Arrival>,
                                          parseJson: string -> Payload)
    ensures Run(s, arrivals, parseJson).0.nextUserId
         == s.nextUserId + CountCreated(Run(s, arrivals, parseJson).1)
    decreases |arrivals|
  {
    if arrivals != [] {
      var a := arrivals[0];
      var o := Step(s, a.ip, a.raw, a.now, parseJson);
      RunCountsUsers(o.state, arrivals[1..], parseJson);
      StepCountsUser(s, a, parseJson);
      var later := Run(o.state, arrivals[1..], parseJson).1;
      var replies := Run(s, arrivals, parseJson).1;
      assert replies == [o.reply] + later;
      assert replies[1..] == later;
    }
  }

  lemma StepCountsUser(s: State, a: Arrival, parseJson: string -> Payload)
    ensures var o := Step(s, a.ip, a.raw, a.now, parseJson);
      o.state.nextUserId == s.nextUserId + (if IsCreated(o.reply) then 1 else 0)
  {
  }

  /** Every reply that created a user carries, as its body, a user object
      whose id is `start` plus the number of users created before it. */
  predicate IdsFrom(replies: seq<Option<Response>>, start: nat) {
    forall i :: 0 <= i < |replies| && IsCreated(replies[i]) ==>
      ReadUserObject(replies[i].value.body).Some?
      && ReadUserObject(replies[i].value.body).value.0 == start + CountCreated(replies[..i])
  }

  /** Created users get consecutive ids: the k-th creation in a run
      (counting from 0) answers with id `s.nextUserId + k`; from `Start`
      the ids are 3, 4, 5, ... */
  lemma {:induction false} CreatedIdsConsecutive(s: State, arrivals: seq<Arrival>,
                                                 parseJson: string -> Payload)
    ensures IdsFrom(Run(s, arrivals, parseJson).1, s.nextUserId)
    decreases |arrivals|
  {
    if arrivals != [] {
      var a := arrivals[0];
      var o := Step(s, a.ip, a.raw, a.now, parseJson);
      var later := Run(o.state, arrivals[1..], parseJson).1;
      CreatedIdsConsecutive(o.state, arrivals[1..], parseJson);
      StepCountsUser(s, a, parseJson);
      if IsCreated(o.reply) {
        StepCreatesNextId(s, a, parseJson);
      }
      IdsCons(o.reply, later, s.nextUserId);
      assert Run(s, arrivals, parseJson).1 == [o.reply] + later;
    }
  }

  lemma IdsCons(first: Option<Response>, later: seq<Option<Response>>, start: nat)
    requires IsCreated(first) ==>
      ReadUserObject(first.value.body).Some? && ReadUserObject(first.value.body).value.0 == start
    requires IdsFrom(later, start + (if IsCreated(first) then 1 else 0))
    ensures IdsFrom([first] + later, start)
  {
    var replies := [first] + later;
    forall i | 0 <= i < |replies| && IsCreated(replies[i])
      ensures ReadUserObject(replies[i].value.body).Some?
      ensures ReadUserObject(replies[i].value.body).value.0 == start + CountCreated(replies[..i])
    {
      if i == 0 {
        assert replies[..0] == [];
      } else {
        assert replies[i] == later[i - 1];
        assert replies[..i][1..] == later[..i - 1];
      }
    }
  }

  /** A connection that creates a user answers with the user object of
      the current counter value. */
  lemma StepCreatesNextId(s: State, a: Arrival, parseJson: string -> Payload)
    requires IsCreated(Step(s, a.ip, a.raw, a.now, parseJson).reply)
    ensures var body := Step(s, a.ip, a.raw, a.now, parseJson).reply.value.body;
      ReadUserObject(body).Some? && ReadUserObject(body).value.0 == s.nextUserId
  {
    var req := Parse(a.raw).value;
    var name := parseJson(req.body).member.name;
    UserObjectRoundTrip(s.nextUserId, name);
  }

  /* ---------------------------------------------------------------------
     Whole requests
     --------------------------------------------------------------------- */

  /** A request for the protected path without the token is answered 401
      whatever its method, other headers or body, and leaves the buckets
      and the id counter as they were. */
  lemma UnauthorizedConsumesNothing(s: State, ip: string, raw: string, now: int,
                                    parseJson: string -> Payload)
    requires Parse(raw).Some?
    requires Parse(raw).value.path == ProtectedPath
    requires !Authenticated(Parse(raw).value.headers)
    ensures Step(s, ip, raw, now, parseJson) == Outcome(s, Some(UnauthorizedReply))
  {
  }

  /** `GET /health` is answered 200 "OK" as plain text whatever its
      version, headers and body, from valid buckets. */
  lemma HealthAnswersOk(s: State, ip: string, raw: string, now: int,
                        parseJson: string -> Payload)
    requires BucketsValid(s)
    requires Parse(raw).Some?
    requires Parse(raw).value.verb == "GET" && Parse(raw).value.path == "/health"
    ensures Step(s, ip, raw, now, parseJson).reply == Some(Response(Ok, TextPlain, "OK"))
  {
  }

  /** Two `POST /users` carrying a string name, sent to a fresh server,
      create users 3 and 4 with the names sent and leave the counter at 5,
      whichever clients send them and whenever. */
  lemma FirstTwoUsers(ip1: string, ip2: string, req1: Request, req2: Request, now1: int, now2: int,
                      name1: string, name2: string, parseJson: string -> Payload)
    requires req1.verb == "POST" && req1.path == "/users"
    requires req2.verb == "POST" && req2.path == "/users"
    requires parseJson(req1.body) == Json(NameString(name1))
    requires parseJson(req2.body) == Json(NameString(name2))
    ensures var o1 := Respond(Start, ip1, req1, now1, parseJson);
      var o2 := Respond(o1.state, ip2, req2, now2, parseJson);
      o1.reply == Some(Response(Created, ApplicationJson, UserObject(3, name1)))
      && o2.reply == Some(Response(Created, ApplicationJson, UserObject(4, name2)))
      && o2.state.nextUserId == 5
  {
  }

  /** From valid buckets, a `POST /users` with a string name creates the
      user numbered by the counter, and the counter moves on by one. */
  lemma CreatesUser(s: State, ip: string, raw: string, now: int, name: string,
                    parseJson: string -> Payload)
    requires BucketsValid(s)
    requires Parse(raw).Some? && Parse(raw).value.verb == "POST" && Parse(raw).value.path == "/users"
    requires parseJson(Parse(raw).value.body) == Json(NameString(name))
    ensures Step(s, ip, raw, now, parseJson).reply
         == Some(Response(Created, ApplicationJson, UserObject(s.nextUserId, name)))
    ensures Step(s, ip, raw, now, parseJson).state.nextUserId == s.nextUserId + 1
    ensures BucketsValid(Step(s, ip, raw, now, parseJson).state)
  {
  }
}
