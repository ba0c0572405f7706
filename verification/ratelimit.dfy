/** The per-client token bucket of the server loop (src/server.cpp, lines
    17-20, 51-53 and 154-178).  Buckets are keyed by the client's IP address
    as text; a bucket is refilled whole, never trickled.  Time is a count of
    whole seconds supplied by the caller. */
module RateLimit {

  const MaxTokens: int := 5
  const RefillSeconds: int := 10

  /** `struct RateLimit`: tokens left and the time of the last refill. */
  datatype Bucket = Bucket(tokens: int, lastRefill: int)

  /** The entry `rate_limits[client_ip]` creates for an unknown client: a
      value-initialised bucket with no tokens, stamped with the clock's
      epoch. */
  const Fresh: Bucket := Bucket(0, 0)

  /** Whether the request may proceed, and the buckets afterwards. */
  datatype Decision = Decision(admitted: bool, limits: map<string, Bucket>)

  /** Every bucket holds between 0 and `MaxTokens` tokens. */
  predicate Valid(limits: map<string, Bucket>) {
    forall ip :: ip in limits ==> 0 <= limits[ip].tokens <= MaxTokens
  }

  /** The client's bucket is missing, empty, or last refilled at least
      `RefillSeconds` ago: this request finds it full. */
  predicate DueForRefill(limits: map<string, Bucket>, ip: string, now: int) {
    ip !in limits || limits[ip].tokens == 0 || now - limits[ip].lastRefill >= RefillSeconds
  }

  /** Lines 158-169: an empty bucket is refilled whatever the time, then a
      bucket whose last refill is `RefillSeconds` old is refilled again. */
  function Refill(b: Bucket, now: int): (r: Bucket)
    ensures b.tokens == 0 || now - b.lastRefill >= RefillSeconds ==> r == Bucket(MaxTokens, now)
    ensures b.tokens != 0 && now - b.lastRefill < RefillSeconds ==> r == b
  {
    var b' := if b.tokens == 0 then Bucket(MaxTokens, now) else b;
    if now - b'.lastRefill >= RefillSeconds then Bucket(MaxTokens, now) else b'
  }

  /** The rate-limit gate (lines 155-177) for a request from `ip` at `now`.
      The client's entry is created and refilled even when the request is
      rejected; no other client's entry changes.  A request is rejected
      only when its bucket holds a negative count, which no valid state
      has: under `Valid` every request is admitted, leaves 0 to
      `MaxTokens - 1` tokens, and either starts a fresh bucket at `now` or
      takes one token from the bucket it found. */
  function Admit(limits: map<string, Bucket>, ip: string, now: int): (d: Decision)
    ensures d.limits.Keys == limits.Keys + {ip}
    ensures forall k :: k in limits && k != ip ==> d.limits[k] == limits[k]
    ensures !d.admitted <==>
      ip in limits && limits[ip].tokens < 0 && now - limits[ip].lastRefill < RefillSeconds
    ensures Valid(limits) ==> Valid(d.limits) && 0 <= d.limits[ip].tokens < MaxTokens
    ensures Valid(limits) && DueForRefill(limits, ip, now) ==>
      d.limits[ip] == Bucket(MaxTokens - 1, now)
    ensures Valid(limits) && !DueForRefill(limits, ip, now) ==>
      d.limits[ip] == Bucket(limits[ip].tokens - 1, limits[ip].lastRefill)
  {
    var b := Refill(if ip in limits then limits[ip] else Fresh, now);
    if b.tokens <= 0 then Decision(false, limits[ip := b])
    else Decision(true, limits[ip := Bucket(b.tokens - 1, b.lastRefill)])
  }

  /** Requests from several clients, one after another: whether each was
      admitted, and the buckets at the end. */
  function AdmitAll(limits: map<string, Bucket>, arrivals: seq<(string, int)>)
    : (seq<bool>, map<string, Bucket>)
    decreases |arrivals|
  {
    if arrivals == [] then ([], limits)
    else
      var d := Admit(limits, arrivals[0].0, arrivals[0].1);
      var rest := AdmitAll(d.limits, arrivals[1..]);
      ([d.admitted] + rest.0, rest.1)
  }

  /** From valid buckets no request is ever rejected, whatever the clients
      and times, and the buckets stay valid: the 429 branch at lines
      171-174 cannot be reached. */
  lemma {:induction false} NeverRejected(limits: map<string, Bucket>, arrivals: seq<(string, int)>)
    requires Valid(limits)
    ensures |AdmitAll(limits, arrivals).0| == |arrivals|
    ensures forall i :: 0 <= i < |arrivals| ==> AdmitAll(limits, arrivals).0[i]
    ensures Valid(AdmitAll(limits, arrivals).1)
    decreases |arrivals|
  {
    if arrivals != [] {
      var d := Admit(limits, arrivals[0].0, arrivals[0].1);
      NeverRejected(d.limits, arrivals[1..]);
    }
  }

  /** Six requests from one new client within the same second are all
      admitted: the fifth empties the bucket and the sixth finds it
      refilled, so the bucket limits nothing within a window. */
  lemma SixthRequestInWindowAdmitted(ip: string, now: int)
    ensures var r := AdmitAll(map[], seq(6, _ => (ip, now)));
      r.0 == [true, true, true, true, true, true] && r.1 == map[ip := Bucket(MaxTokens - 1, now)]
  {
    var x := (ip, now);
    assert seq(6, _ => (ip, now)) == [x] + ([x] + ([x] + ([x] + ([x] + [x]))));
    var m1 := Admit(map[], ip, now).limits;
    assert m1 == map[ip := Bucket(4, now)];
    var m2 := Admit(m1, ip, now).limits;
    assert m2 == map[ip := Bucket(3, now)];
    var m3 := Admit(m2, ip, now).limits;
    assert m3 == map[ip := Bucket(2, now)];
    var m4 := Admit(m3, ip, now).limits;
    assert m4 == map[ip := Bucket(1, now)];
    var m5 := Admit(m4, ip, now).limits;
    assert m5 == map[ip := Bucket(0, now)];
    var m6 := Admit(m5, ip, now).limits;
    assert m6 == map[ip := Bucket(4, now)];
    assert AdmitAll(m6, []) == ([], m6);
    AdmitAllCons(m5, x, []);
    AdmitAllCons(m4, x, [x]);
    AdmitAllCons(m3, x, [x] + [x]);
    AdmitAllCons(m2, x, [x] + ([x] + [x]));
    AdmitAllCons(m1, x, [x] + ([x] + ([x] + [x])));
    AdmitAllCons(map[], x, [x] + ([x] + ([x] + ([x] + [x]))));
  }

  lemma AdmitAllCons(limits: map<string, Bucket>, a: (string, int), rest: seq<(string, int)>)
    ensures var d := Admit(limits, a.0, a.1);
      AdmitAll(limits, [a] + rest) == ([d.admitted] + AdmitAll(d.limits, rest).0, AdmitAll(d.limits, rest).1)
  {
    assert ([a] + rest)[1..] == rest;
  }
}
