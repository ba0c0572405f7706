/** The response writer of the server loop (src/server.cpp, lines
    244-250): status line, three header lines, a blank line and the body. */
module Wire {
  import opened Wrappers
  import opened Text
  import opened Request
  import opened RequestFraming
  import opened Api

  /** The bytes written back to the client. */
  function Serialize(r: Response): string {
    "HTTP/1.1 " + StatusText(r.status) + "\r\n"
    + "Content-Type: " + MediaType(r.contentType) + "\r\n"
    + "Content-Length: " + Decimal(|r.body|) + "\r\n"
    + "Connection: close\r\n"
    + "\r\n"
    + r.body
  }

  function StatusLine(s: Status): string {
    "HTTP/1.1 " + StatusText(s)
  }

  /** The three header fields of every response, in order. */
  function ResponseFields(r: Response): seq<(string, string)> {
    [("Content-Type", MediaType(r.contentType)),
     ("Content-Length", Decimal(|r.body|)),
     ("Connection", "close")]
  }

  /** The header map a reader builds from a response. */
  function ResponseHeaders(r: Response): map<string, string> {
    map["Content-Type" := MediaType(r.contentType),
        "Content-Length" := Decimal(|r.body|),
        "Connection" := "close"]
  }

  /** Read with the server's own request parser, a response gives back its
      body byte for byte and its three header fields; the status line reads
      as a request line. */
  lemma ResponseReadsBack(r: Response)
    ensures var line := ParseRequestLine(StatusLine(r.status));
      Parse(Serialize(r))
        == Some(Request(line.verb, line.path, line.version, ResponseHeaders(r), r.body))
  {
    ResponseFieldsMap(r);
    SerializeIsFramed(r);
    StatusLineClean(r.status);
    ResponseFieldsClean(r);
    ParseFramed(StatusLine(r.status), ResponseFields(r), r.body);
  }

  /** Cutting a response after its first "\r\n\r\n", as the server's own
      body extraction does, leaves exactly the body. */
  lemma ResponseBodyAfterBlankLine(r: Response)
    ensures BodyOf(Serialize(r)) == r.body
  {
    ResponseReadsBack(r);
  }

  /** The Content-Length field a reader finds in the bytes written holds
      the decimal byte length of the body. */
  lemma ContentLengthIsBodySize(r: Response)
    ensures Parse(Serialize(r)).Some?
    ensures var headers := Parse(Serialize(r)).value.headers;
      "Content-Length" in headers && AllDigits(headers["Content-Length"])
      && DigitsValue(headers["Content-Length"]) == |r.body|
  {
    ResponseReadsBack(r);
    LengthFieldValue(r);
  }

  lemma LengthFieldValue(r: Response)
    ensures "Content-Length" in ResponseHeaders(r)
    ensures AllDigits(ResponseHeaders(r)["Content-Length"])
    ensures DigitsValue(ResponseHeaders(r)["Content-Length"]) == |r.body|
  {
    assert |"Connection"| != |"Content-Length"|;
    DecimalRoundTrip(|r.body|);
  }

  lemma ResponseFieldsMap(r: Response)
    ensures FieldsInto(map[], ResponseFields(r)) == ResponseHeaders(r)
  {
    var fields := ResponseFields(r);
    var m1 := map["Content-Type" := MediaType(r.contentType)];
    var m2 := m1["Content-Length" := Decimal(|r.body|)];
    var m3 := m2["Connection" := "close"];
    assert fields[1..] == [fields[1], fields[2]];
    assert fields[1..][1..] == [fields[2]];
    assert fields[1..][1..][1..] == [];
    assert FieldsInto(m3, []) == m3;
    assert FieldsInto(m2, [fields[2]]) == m3;
    assert FieldsInto(m1, [fields[1], fields[2]]) == m3;
  }

  /** The response has the framing of `Render`: a first line, header
      fields each ended by "\r\n", a blank line, the body. */
  lemma SerializeIsFramed(r: Response)
    ensures Serialize(r)
         == Terminated([StatusLine(r.status)] + FieldTexts(ResponseFields(r))) + "\r\n" + r.body
  {
    var fields := ResponseFields(r);
    var t0 := StatusLine(r.status);
    var t1 := "Content-Type" + ": " + MediaType(r.contentType);
    var t2 := "Content-Length" + ": " + Decimal(|r.body|);
    var t3 := "Connection" + ": " + "close";
    FieldTextsOfThree(fields[0], fields[1], fields[2]);
    assert fields == [fields[0], fields[1], fields[2]];
    assert [t0] + FieldTexts(fields) == [t0, t1, t2, t3];
    TerminatedOfFour(t0, t1, t2, t3);
    Regroup(StatusText(r.status), MediaType(r.contentType), Decimal(|r.body|), r.body);
  }

  lemma Regroup(status: string, media: string, length: string, body: string)
    ensures "HTTP/1.1 " + status + "\r\n" + "Content-Type: " + media + "\r\n"
          + "Content-Length: " + length + "\r\n" + "Connection: close\r\n" + "\r\n" + body
         == ("HTTP/1.1 " + status) + "\r\n"
          + (("Content-Type" + ": " + media) + "\r\n"
          + (("Content-Length" + ": " + length) + "\r\n"
          + (("Connection" + ": " + "close") + "\r\n"))) + "\r\n" + body
  {
    assert "Content-Type" + ": " == "Content-Type: ";
    assert "Content-Length" + ": " == "Content-Length: ";
    assert ("Connection" + ": " + "close") + "\r\n" == "Connection: close\r\n";
  }

  lemma FieldTextsOfThree(a: (string, string), b: (string, string), c: (string, string))
    ensures FieldTexts([a, b, c]) == [FieldText(a), FieldText(b), FieldText(c)]
  {
    assert [a, b, c][1..] == [b, c];
    assert [b, c][1..] == [c];
    assert [c][1..] == [];
    assert FieldTexts([c]) == [FieldText(c)];
    assert FieldTexts([b, c]) == [FieldText(b)] + [FieldText(c)];
  }

  lemma TerminatedOfFour(a: string, b: string, c: string, d: string)
    ensures Terminated([a, b, c, d]) == a + "\r\n" + (b + "\r\n" + (c + "\r\n" + (d + "\r\n")))
  {
    assert [a, b, c, d][1..] == [b, c, d];
    assert [b, c, d][1..] == [c, d];
    assert [c, d][1..] == [d];
    assert [d][1..] == [];
    assert Terminated([d]) == d + "\r\n" + Terminated([]);
    assert Terminated([c, d]) == c + "\r\n" + Terminated([d]);
    assert Terminated([b, c, d]) == b + "\r\n" + Terminated([c, d]);
  }

  lemma StatusLineClean(s: Status)
    ensures StatusLine(s) != [] && NoLineBreak(StatusLine(s))
  {
    var text := StatusText(s);
    var line := StatusLine(s);
    StatusTextNoLineBreak(s);
    forall i | 0 <= i < |line| ensures line[i] != '\r' && line[i] != '\n' {
      if i >= 9 {
        assert line[i] == text[i - 9];
      }
    }
  }

  /** No status text spans more than one line.  The check is split into
      one lemma per status to keep each proof small: checking all seven
      literals in one proof costs the solver many times more. */
  lemma StatusTextNoLineBreak(s: Status)
    ensures NoLineBreak(StatusText(s))
  {
    match s
    case Ok => OneLine200();
    case Created => OneLine201();
    case BadRequest => OneLine400();
    case Unauthorized => OneLine401();
    case NotFound => OneLine404();
    case UnprocessableEntity => OneLine422();
    case TooManyRequests => OneLine429();
  }

  lemma OneLine200() ensures NoLineBreak(StatusText(Ok)) {}
  lemma OneLine201() ensures NoLineBreak(StatusText(Created)) {}
  lemma OneLine400() ensures NoLineBreak(StatusText(BadRequest)) {}
  lemma OneLine401() ensures NoLineBreak(StatusText(Unauthorized)) {}
  lemma OneLine404() ensures NoLineBreak(StatusText(NotFound)) {}
  lemma OneLine422() ensures NoLineBreak(StatusText(UnprocessableEntity)) {}
  lemma OneLine429() ensures NoLineBreak(StatusText(TooManyRequests)) {}

  lemma ResponseFieldsClean(r: Response)
    ensures forall i :: 0 <= i < |ResponseFields(r)| ==> CleanField(ResponseFields(r)[i])
  {
    var fields := ResponseFields(r);
    ContentTypeFieldClean(r.contentType);
    ContentLengthFieldClean(|r.body|);
    ConnectionFieldClean();
    assert CleanField(fields[0]) && CleanField(fields[1]) && CleanField(fields[2]);
  }

  lemma ContentTypeFieldClean(c: ContentType)
    ensures CleanField(("Content-Type", MediaType(c)))
  {
    match c
    case TextPlain =>
    case ApplicationJson =>
  }

  lemma ContentLengthFieldClean(n: nat)
    ensures CleanField(("Content-Length", Decimal(n)))
  {
    var d := Decimal(n);
    forall i | 0 <= i < |d| ensures d[i] != '\r' && d[i] != '\n' {
      assert IsDigit(d[i]);
    }
  }

  lemma ConnectionFieldClean()
    ensures CleanField(("Connection", "close"))
  {}

}
