# Atlas HTTP server — a Dafny model of its request pipeline

Atlas is a small HTTP/1.1 API server written in C++ whose whole per-request
logic sits in the accept loop of `main()` in `src/server.cpp`. Each
connection goes through the same pipeline:

1. The request text is parsed into a method, a path, a version, a header map
   and a body.
2. The authentication gate answers 401 to `/users/me` unless the request
   carries `Authorization: Bearer secret-token-123`.
3. The per-client token bucket (5 tokens, whole-bucket refills every 10
   seconds) decides whether the request may proceed.
4. A router dispatches four exact `(method, path)` pairs and falls back to
   404. `POST /users` creates users with ids counted from 3.
5. The response is written as a status line, three header fields, a blank
   line and the body.

This project models that pipeline as pure functions over immutable data and
proves properties of it. The model has nine modules in eight files, one
module per stage plus shared helpers:

| module | file | what it holds |
|---|---|---|
| `Wrappers` | `wrappers.dfy` | `Option` |
| `Text` | `text.dfy` | `std::string::find`, `std::getline` line splitting, `operator>>` word extraction, `std::to_string` |
| `Request`, `RequestFraming` | `request.dfy` | the request parser, and the round trip of well-framed messages through it |
| `RateLimit` | `ratelimit.dfy` | the token bucket |
| `Auth` | `auth.dfy` | the authentication predicate |
| `Api` | `api.dfy` | statuses, responses, user bodies, the router |
| `Wire` | `wire.dfy` | the response serializer |
| `Server` | `server.dfy` | the state kept between connections, a step function, runs of connections |

The state that outlives a connection is `Server.State`: the table of buckets
keyed by client IP, and the next user id. `Server.Step` handles one
connection. It takes the client address, the raw request text, the time in
whole seconds and the JSON parser's verdict function as parameters.
`Server.Handle` returns the bytes written back, and `Server.Run` threads the
state through a sequence of connections.

The model follows the code throughout:

- A bucket with zero tokens is refilled whatever the time (lines 158-161). So
  no valid bucket is ever rejected: the 429 branch at lines 171-174 cannot be
  reached. Six requests inside ten seconds are all admitted, and a bucket
  emptied by one request is refilled by the next.
  `RateLimit.NeverRejected`, `RateLimit.SixthRequestInWindowAdmitted` and
  `Server.RunNeverRateLimits` prove this.
- The body is everything after the first `"\r\n\r\n"`; Content-Length is
  never consulted.
- The request line is the first three whitespace-delimited words before the
  first `"\r\n"`. A missing word is empty.
- Header lines are split at the first `':'`, lose one trailing `'\r'` and
  then at most one leading space. A later duplicate key wins.

Some members only compute, and their meaning is stated by lemmas about them:

- `Wire.Serialize` by `Wire.ResponseReadsBack`, `Wire.ResponseBodyAfterBlankLine`
  and `Wire.ContentLengthIsBodySize`.
- `Request.AddHeader`, `Request.CollectInto` and `Request.CollectHeaders` by
  `Request.CollectKeys`, `Request.CollectUntouched`, `Request.CollectLastWins`
  and `Request.CollectHeadersDenotes`.
- `Api.UserObject` by `Api.UserObjectRoundTrip` and `Api.UserObjectInjective`.
- `Auth.Authenticated` and `Auth.Denied` (lines 134-147) by `Server.Respond`,
  which answers 401 exactly when `Auth.Denied` holds, and by
  `Server.UnauthorizedConsumesNothing`.

## Model

| member | source | states |
|---|---|---|
| Text.Find | src/server.cpp:77-78 | the result is an occurrence of the pattern with no occurrence before it, and none is returned only when the pattern occurs nowhere |
| Text.IndexOf | src/server.cpp:101-102 | the result is the position of a `c` with no `c` before it, and none exactly when `c` does not occur |
| Text.IndexOfIsFirst | src/server.cpp:101-102 | the first occurrence of a character is the position `IndexOf` returns |
| Text.SplitLines | src/server.cpp:95-100 | `std::getline` lines hold no '\n', join back with '\n' into the input (a final '\n' starts no extra line), and an empty input has no line |
| Text.SplitLinesCons | src/server.cpp:98-100 | a leading line without '\n' is the first line delivered, and the rest are the lines of what follows it |
| Text.NextToken | src/server.cpp:84-87 | the extracted word holds no whitespace; it is empty exactly when the stream holds only whitespace, and then nothing is left |
| Text.NextTokenExtracts | src/server.cpp:84-87 | `>>` skips leading whitespace and takes the longest whitespace-free run after it, leaving the rest unread |
| Text.ExtractsUnique | src/server.cpp:84-87 | the characterisation of one extraction admits exactly one word and one remainder |
| Text.NextTokenOfWord | src/server.cpp:84-87 | a nonempty word followed by whitespace or the end of input is extracted whole |
| Text.Decimal | src/server.cpp:247 | `std::to_string` of a non-negative count is a nonempty digit string that starts with '0' only for zero |
| Text.DecimalRoundTrip | src/server.cpp:247 | reading the decimal numeral of `n` back gives `n` |
| Text.DecimalInjective | src/server.cpp:247 | distinct numbers render as distinct numerals |
| Request.ParseRequestLine | src/server.cpp:83-87 | method, path and version hold no whitespace; a missing word leaves all later words empty; the method is empty exactly when the line is all whitespace |
| Request.RequestLineWords | src/server.cpp:83-87 | the method is the first word extracted from the line, the path the first word of what is left after it, and the version the first word of what is left after that |
| Request.RequestLineRoundTrip | src/server.cpp:83-87 | `method SP path SP version` followed by nothing or by whitespace gives back the three words |
| Request.RequestLineMissingWords | src/server.cpp:86-87 | a line with only a method and a path yields an empty version |
| Request.HeaderField | src/server.cpp:101-111 | a line yields a field exactly when it has a ':'; the key is the text before the first ':' and holds no ':' |
| Request.HeaderFieldValue | src/server.cpp:101-110 | the value of a field is the text after the first ':' with a trailing '\r' removed exactly when there is one, and then a leading space removed exactly when there is one |
| Request.HeaderFieldRoundTrip | src/server.cpp:101-111 | `key ":" [" "] value ["\r"]` gives back the key and the value when the key has no ':' and neither the space nor the '\r' is ambiguous |
| Request.FieldValue | src/server.cpp:104-110 | the value is the raw text with a trailing '\r' removed exactly when there is one, then a leading space removed exactly when there is one, and nothing else removed |
| Request.FieldValueRoundTrip | src/server.cpp:105-110 | the optional leading space and trailing '\r' are removed and nothing else |
| Request.HeaderBlock | src/server.cpp:100 | the header loop reads the lines before the first line that is exactly "\r", or all lines when there is none |
| Request.CollectKeys | src/server.cpp:100-113 | a key is in the header map exactly when some header line defines it; lines without ':' contribute nothing |
| Request.CollectUntouched | src/server.cpp:100-113 | a key no line defines keeps its value |
| Request.CollectLastWins | src/server.cpp:111 | a key's value is the value on the last line that defines it (case-sensitive keys) |
| Request.CollectHeadersDenotes | src/server.cpp:100-113 | the header map holds exactly the keys of the lines that have a ':', each with the value of the last such line for that key |
| Request.HeaderMapUnique | src/server.cpp:100-113 | the keys-and-last-values characterisation determines the header map: two maps that both meet it are equal |
| Request.BodyOf | src/server.cpp:118-122 | the body is the suffix after the first "\r\n\r\n", or empty when there is none |
| Request.Parse | src/server.cpp:77-122 | a request exists exactly when the text holds a "\r\n", and its body is the text after the first "\r\n\r\n" |
| Request.ParseRequestLineOf | src/server.cpp:77-87 | a parsed request's method, path and version are the words of the text before the first "\r\n" |
| Request.ParseHeaders | src/server.cpp:95-113 | a parsed request's header map is the map denoted by the `std::getline` lines after the first one, up to the first line that is exactly "\r" |
| RequestFraming.ParseRoundTrip | src/server.cpp:77-122 | a request rendered from three nonblank words, clean header fields and any body parses back to those words, the map of those fields (later ones win) and that body |
| RequestFraming.ParseFramed | src/server.cpp:77-122 | any message framed as one line, clean header fields, a blank line and a body parses to those fields and that body |
| RequestFraming.TerminatedLines | src/server.cpp:95-100 | `std::getline` splits "\r\n"-terminated lines back apart, each keeping its '\r', and the blank line comes out as "\r" |
| RequestFraming.HeaderBlockOfFields | src/server.cpp:100 | the header block of a rendered message is exactly its field lines |
| RequestFraming.CollectFields | src/server.cpp:100-113 | the header lines of rendered fields build the map the fields denote |
| RequestFraming.BlankLineAfter | src/server.cpp:119-121 | the first "\r\n\r\n" of a framed message is the blank line that ends its head |
| RateLimit.Refill | src/server.cpp:158-168 | an empty bucket, or one last refilled ten or more seconds ago, becomes 5 tokens stamped `now`; any other bucket is unchanged |
| RateLimit.Admit | src/server.cpp:154-178 | only the requester's entry is created or changed; rejection happens only for a negative token count; valid buckets stay in [0, 5] and end in [0, 4]; for valid buckets, a missing, empty or 10-second-old bucket becomes 4 tokens stamped `now` and any other bucket loses one token |
| RateLimit.NeverRejected | src/server.cpp:158-177 | from valid buckets every request of any sequence is admitted and the buckets stay valid |
| RateLimit.SixthRequestInWindowAdmitted | src/server.cpp:158-176 | six requests from a new client within one second are all admitted, and the bucket ends full minus one |
| Api.UserObjectRoundTrip | src/server.cpp:218-223 | the body of a created user reads back as its id and its name |
| Api.UserObjectInjective | src/server.cpp:218-223 | distinct (id, name) pairs give distinct bodies |
| Api.CreateUser | src/server.cpp:209-233 | 201 exactly for a string `name`, with the user object of the current counter; 400 exactly for non-JSON, with the body `{"error":"invalid JSON"}`; 422 exactly for a missing or non-string name, with the body `{"error":"name is required"}`; the counter moves by one only on 201 |
| Api.Route | src/server.cpp:183-239 | 404 "Not Found" as plain text exactly off the four routes; 200 exactly for the three GET routes, with their fixed bodies; `POST /users` as `CreateUser`; only a created user moves the counter |
| Wire.ResponseReadsBack | src/server.cpp:244-250 | the serialized response, read with the server's own parser, gives back its body byte for byte and its three header fields |
| Wire.ResponseBodyAfterBlankLine | src/server.cpp:244-250 | splitting a response at its first "\r\n\r\n" gives back exactly the body |
| Wire.ContentLengthIsBodySize | src/server.cpp:244-250 | the serialized response parses, and in its parsed header map the Content-Length field is a digit string whose value is the body's byte length |
| Wire.LengthFieldValue | src/server.cpp:247 | the Content-Length field the serializer writes is a digit string whose value is the body's byte length |
| Server.Respond | src/server.cpp:124-239 | 401 exactly when the gate denies, and then nothing in the state changes; any request the gate lets through leaves the buckets exactly as `RateLimit.Admit` does (refilled, then one token taken); 429 exactly when the bucket refuses; only the requester's bucket can change; valid buckets stay valid and never give 429; with valid buckets an allowed request gets the router's response; the counter moves only on 201, and 201 means `POST /users` with a string name answered with that user at the current id |
| Server.Step | src/server.cpp:77-81 | a request without "\r\n" gets no response and leaves the state alone; any other is parsed and answered |
| Server.Handle | src/server.cpp:244-250 | the state is the step's, a reply is written exactly when the step answers, and the bytes written parse back to the reply's body and header fields |
| Server.Run | src/server.cpp:55-81 | the accept loop yields one reply slot per connection |
| Server.RunDropsUnframed | src/server.cpp:77-81 | over any run, a connection goes unanswered exactly when its request text holds no "\r\n" |
| Server.RunNeverRateLimits | src/server.cpp:154-178 | over any sequence of connections from valid buckets no reply is 429, and the buckets stay valid |
| Server.RunCountsUsers | src/server.cpp:209-226 | over any run the counter grows by exactly the number of users created |
| Server.StepCountsUser | src/server.cpp:219 | one connection moves the counter by one exactly when it creates a user |
| Server.CreatedIdsConsecutive | src/server.cpp:218-221 | the k-th user created in a run gets id "counter + k", so ids are consecutive |
| Server.StepCreatesNextId | src/server.cpp:218-224 | a creating connection answers with the user object of the current counter value |
| Server.UnauthorizedConsumesNothing | src/server.cpp:143-154 | `/users/me` without the token gets the 401 JSON reply for any method, and neither buckets nor counter change |
| Server.HealthAnswersOk | src/server.cpp:185-187 | `GET /health` is answered 200 "OK" as plain text |
| Server.FirstTwoUsers | src/server.cpp:209-226 | from the start state (counter 3, line 46), two successful `POST /users` create users 3 and 4 with the names sent and leave the counter at 5 |
| Server.CreatesUser | src/server.cpp:209-226 | from valid buckets a `POST /users` with a string name creates the user numbered by the counter, moves the counter by one and keeps the buckets valid |

## Left out

- Sockets (`socket`, `bind`, `listen`, `accept`, `inet_ntoa`, `write`, `close`, lines 23-65 and 252-253) are OS I/O. The client address and the request text are parameters; the response is a returned string.
- The fixed 4096-byte `read` and the conversion to a C string (lines 70-72) are not modelled. They cut the request at the first NUL byte and may leave a full buffer unterminated. The request is an arbitrary string here.
- Console logging (lines 44 and 89) is not modelled.
- The nlohmann JSON library is foreign code, so it is not modelled.
  - Its parse of the `POST /users` body is a parameter `string -> Payload`. The payload distinguishes not-JSON, a missing `name`, a string `name` and a `name` of another type.
  - The fixed bodies are literal strings.
  - The 201 body is `{"id":<id>,"name":"<name>"}` with the name written as it is. The library's JSON escaping of names is not modelled.
- `std::chrono::steady_clock` is replaced by an integer count of seconds supplied with each connection. The truncating `duration_cast` becomes a plain subtraction. A fresh bucket's epoch timestamp is modelled as 0; it is overwritten before it is read.
- Server.State: `next_user_id` is an unbounded `nat`, so the signed overflow of the C++ `int` after 2^31 - 3 creations is not modelled.
- A `char` stands for one byte of a `std::string`. Byte length is sequence length, and no character encoding is modelled.
- The `std::istringstream` and `std::getline` stream state is not modelled. Word extraction and line splitting are specified directly in `Text`, with `isspace` taken in the "C" locale.
