/** The request parser of the server loop (src/server.cpp, lines 77-122):
    the request line up to the first "\r\n" split into method, path and
    version; the header block read line by line into a map; the body taken
    as everything after the first "\r\n\r\n". */
module Request {
  import opened Wrappers
  import opened Text

  /** A parsed request.  Header keys are matched case-sensitively and a
      later duplicate overwrites an earlier one. */
  datatype Request = Request(
    verb: string,
    path: string,
    version: string,
    headers: map<string, string>,
    body: string)

  /** `verb` is the HTTP method (`method` is a Dafny keyword). */
  datatype RequestLine = RequestLine(verb: string, path: string, version: string)

  const LineEnd: string := "\r\n"
  const BlankLine: string := "\r\n\r\n"

  /* ---------------------------------------------------------------------
     Request line
     --------------------------------------------------------------------- */

  /** `iss >> method >> path >> version` on the text before the first
      "\r\n": three whitespace-delimited words, each missing one empty. */
  function ParseRequestLine(line: string): (r: RequestLine)
    ensures NoSpace(r.verb) && NoSpace(r.path) && NoSpace(r.version)
    ensures r.verb == [] ==> r.path == []
    ensures r.path == [] ==> r.version == []
    ensures r.verb == [] <==> forall i :: 0 <= i < |line| ==> IsSpace(line[i])
  {
    var first := NextToken(line);
    var second := NextToken(first.1);
    var third := NextToken(second.1);
    RequestLine(first.0, second.0, third.0)
  }

  /** Method, path and version are three successive extractions from the
      line, each starting where the previous one stopped. */
  lemma RequestLineWords(line: string)
    ensures var r := ParseRequestLine(line);
      exists r1, r2, r3 ::
        Extracts(line, r.verb, r1) && Extracts(r1, r.path, r2) && Extracts(r2, r.version, r3)
  {
    var (m, afterMethod) := NextToken(line);
    var (p, afterPath) := NextToken(afterMethod);
    var (v, rest) := NextToken(afterPath);
    NextTokenExtracts(line);
    NextTokenExtracts(afterMethod);
    NextTokenExtracts(afterPath);
    assert ParseRequestLine(line) == RequestLine(m, p, v);
    assert Extracts(line, m, afterMethod) && Extracts(afterMethod, p, afterPath) && Extracts(afterPath, v, rest);
  }

  /** Three words separated by single spaces come back as method, path and
      version; anything after a whitespace character following the third
      word is ignored. */
  lemma RequestLineRoundTrip(m: string, p: string, v: string, extra: string)
    requires m != [] && NoSpace(m)
    requires p != [] && NoSpace(p)
    requires v != [] && NoSpace(v)
    requires extra == [] || IsSpace(extra[0])
    ensures ParseRequestLine(m + " " + p + " " + v + extra) == RequestLine(m, p, v)
  {
    var line := m + " " + p + " " + v + extra;
    var afterPath := " " + v + extra;
    var afterMethod := " " + p + afterPath;
    assert line == m + afterMethod;
    assert afterMethod == " " + (p + afterPath);
    assert afterPath == " " + (v + extra);
    NextTokenOfWord(m, afterMethod);
    assert NextToken(line) == (m, afterMethod);
    NextTokenSkipsSpace(p + afterPath);
    NextTokenOfWord(p, afterPath);
    assert NextToken(afterMethod) == (p, afterPath);
    NextTokenSkipsSpace(v + extra);
    NextTokenOfWord(v, extra);
    assert NextToken(afterPath) == (v, extra);
  }

  /** Missing words are empty: a line holding only a method and a path has
      an empty version, one holding only a method has an empty path too. */
  lemma RequestLineMissingWords(m: string, p: string)
    requires m != [] && NoSpace(m)
    requires NoSpace(p)
    ensures ParseRequestLine(m + " " + p) == RequestLine(m, p, [])
  {
    var line := m + " " + p;
    assert line == m + (" " + p);
    NextTokenOfWord(m, " " + p);
    assert NextToken(line) == (m, " " + p);
    NextTokenSkipsSpace(p);
    if p == [] {
      assert NextToken(p) == ([], []);
    } else {
      NextTokenOfWord(p, []);
      assert p + [] == p;
      assert NextToken(p) == (p, []);
    }
    assert NextToken([]) == ([], []);
  }

  /* ---------------------------------------------------------------------
     Header fields
     --------------------------------------------------------------------- */

  /** One header line (lines 101-111): split at the first ':', drop one
      trailing '\r' from the value, then at most one leading space.  A line
      without ':' yields nothing. */
  function HeaderField(line: string): (r: Option<(string, string)>)
    ensures r.None? <==> ':' !in line
    ensures r.Some? ==> ':' !in r.value.0
    ensures r.Some? ==> |r.value.0| < |line| && line[..|r.value.0|] == r.value.0 && line[|r.value.0|] == ':'
  {
    match IndexOf(line, ':')
    case None => None
    case Some(colon) => Some((line[..colon], FieldValue(line[colon + 1..])))
  }

  /** The value of a header line is the text after its first ':' with
      the optional '\r' and space trimmed, and nothing else removed. */
  lemma HeaderFieldValue(line: string)
    requires ':' in line
    ensures var f := HeaderField(line).value;
      Trims(line[|f.0| + 1..], f.1)
  {
  }

  /** `value` is `raw` without its optional ends: the last character when
      it is '\r', then the first of what remains when that is a space.
      Nothing else is removed. */
  predicate Trims(raw: string, value: string) {
    var trail := if raw != [] && raw[|raw| - 1] == '\r' then 1 else 0;
    var lead := if |raw| > trail && raw[0] == ' ' then 1 else 0;
    value == raw[lead..|raw| - trail]
  }

  /** The text after the colon with one trailing '\r' dropped, then at
      most one leading space. */
  function FieldValue(raw: string): (value: string)
    ensures Trims(raw, value)
  {
    DropLeadingSpace(DropCarriageReturn(raw))
  }

  function DropCarriageReturn(s: string): string {
    if s != [] && s[|s| - 1] == '\r' then s[..|s| - 1] else s
  }

  function DropLeadingSpace(s: string): string {
    if s != [] && s[0] == ' ' then s[1..] else s
  }

  /** The header line `key ":" [" "] value ["\r"]` gives back `key` and
      `value`, as long as the key has no ':' and the optional space and
      '\r' are not needed to tell where the value starts and ends. */
  lemma HeaderFieldRoundTrip(key: string, value: string, space: bool, cr: bool)
    requires ':' !in key
    requires space || value == [] || value[0] != ' '
    requires cr || value == [] || value[|value| - 1] != '\r'
    ensures HeaderField(key + ":" + (if space then " " else "") + value + (if cr then "\r" else ""))
         == Some((key, value))
  {
    var lead: string := if space then " " else "";
    var trail: string := if cr then "\r" else "";
    var raw := lead + value + trail;
    var line := key + ":" + lead + value + trail;
    assert line == key + ":" + raw;
    HeaderFieldOfParts(key, raw);
    FieldValueRoundTrip(value, space, cr);
  }

  /** A key without ':' followed by ':' splits at that colon. */
  lemma HeaderFieldOfParts(key: string, raw: string)
    requires ':' !in key
    ensures HeaderField(key + ":" + raw) == Some((key, FieldValue(raw)))
  {
    var line := key + ":" + raw;
    assert line[..|key|] == key && line[|key|] == ':';
    IndexOfIsFirst(line, ':', |key|);
    assert line[|key| + 1..] == raw;
  }

  lemma FieldValueRoundTrip(value: string, space: bool, cr: bool)
    requires space || value == [] || value[0] != ' '
    requires cr || value == [] || value[|value| - 1] != '\r'
    ensures FieldValue((if space then " " else "") + value + (if cr then "\r" else "")) == value
  {
    var lead: string := if space then " " else "";
    var raw := lead + value + (if cr then "\r" else "");
    if cr {
      assert raw[..|raw| - 1] == lead + value;
    } else {
      assert lead + value == [] || (lead + value)[|lead + value| - 1] != '\r';
    }
    assert DropCarriageReturn(raw) == lead + value;
    if space {
      assert (lead + value)[1..] == value;
    }
  }


  /** The line `key ": " value "\r"` as `std::getline` delivers it. */
  function FieldLine(field: (string, string)): string {
    field.0 + ": " + field.1 + "\r"
  }

  lemma FieldLineParses(field: (string, string))
    requires ':' !in field.0
    ensures HeaderField(FieldLine(field)) == Some(field)
  {
    assert FieldLine(field) == field.0 + ":" + " " + field.1 + "\r";
    HeaderFieldRoundTrip(field.0, field.1, true, true);
  }

  /** The header block: the lines before the first line that is exactly
      "\r" (the loop condition at line 100). */
  function HeaderBlock(lines: seq<string>): (block: seq<string>)
    ensures |block| <= |lines| && block == lines[..|block|]
    ensures "\r" !in block
    ensures |block| == |lines| || lines[|block|] == "\r"
  {
    if lines == [] || lines[0] == "\r" then []
    else [lines[0]] + HeaderBlock(lines[1..])
  }

  /** `line` is a header line for `key`. */
  predicate Defines(line: string, key: string) {
    HeaderField(line).Some? && HeaderField(line).value.0 == key
  }

  /** One iteration of the header loop: a header line sets its key,
      any other line leaves the map alone. */
  function AddHeader(m: map<string, string>, line: string): map<string, string> {
    match HeaderField(line)
    case None => m
    case Some((k, v)) => m[k := v]
  }

  /** The header loop run over `lines`, starting from the map `m`. */
  function CollectInto(m: map<string, string>, lines: seq<string>): map<string, string>
    decreases |lines|
  {
    if lines == [] then m else CollectInto(AddHeader(m, lines[0]), lines[1..])
  }

  /** The header map built from a header block. */
  function CollectHeaders(lines: seq<string>): map<string, string> {
    CollectInto(map[], lines)
  }

  /** A key is in the header map exactly when it was there before or some
      line of the block defines it; lines without ':' contribute nothing. */
  lemma {:induction false} CollectKeys(m: map<string, string>, lines: seq<string>, k: string)
    ensures k in CollectInto(m, lines) <==> k in m || exists i :: 0 <= i < |lines| && Defines(lines[i], k)
    decreases |lines|
  {
    if lines != [] {
      CollectKeys(AddHeader(m, lines[0]), lines[1..], k);
      assert forall i :: 1 <= i < |lines| ==> lines[1..][i - 1] == lines[i];
      if exists i :: 0 <= i < |lines| && Defines(lines[i], k) {
        var i :| 0 <= i < |lines| && Defines(lines[i], k);
        if i > 0 {
          assert Defines(lines[1..][i - 1], k);
        }
      }
    }
  }

  /** A key no line defines keeps its value. */
  lemma {:induction false} CollectUntouched(m: map<string, string>, lines: seq<string>, k: string)
    requires k in m
    requires forall i :: 0 <= i < |lines| ==> !Defines(lines[i], k)
    ensures k in CollectInto(m, lines) && CollectInto(m, lines)[k] == m[k]
    decreases |lines|
  {
    if lines != [] {
      assert !Defines(lines[0], k);
      assert forall i :: 0 <= i < |lines| - 1 ==> lines[1..][i] == lines[i + 1];
      CollectUntouched(AddHeader(m, lines[0]), lines[1..], k);
    }
  }

  /** Last write wins: the value of a key is the value on the last line of
      the block that defines it. */
  lemma {:induction false} CollectLastWins(m: map<string, string>, lines: seq<string>, i: nat, k: string)
    requires i < |lines| && Defines(lines[i], k)
    requires forall j :: i < j < |lines| ==> !Defines(lines[j], k)
    ensures k in CollectInto(m, lines)
    ensures CollectInto(m, lines)[k] == HeaderField(lines[i]).value.1
    decreases |lines|
  {
    var m' := AddHeader(m, lines[0]);
    assert forall j :: 0 <= j < |lines| - 1 ==> lines[1..][j] == lines[j + 1];
    if i == 0 {
      CollectUntouched(m', lines[1..], k);
    } else {
      CollectLastWins(m', lines[1..], i - 1, k);
    }
  }

  /* ---------------------------------------------------------------------
     Body and the whole request
     --------------------------------------------------------------------- */

  /** The body (lines 118-122): the suffix after the first "\r\n\r\n", or
      nothing when there is none.  No Content-Length is consulted. */
  function BodyOf(raw: string): (body: string)
    ensures (forall j :: !OccursAt(raw, BlankLine, j)) ==> body == []
    ensures (exists j :: OccursAt(raw, BlankLine, j)) ==>
      && |body| + 4 <= |raw|
      && raw[|raw| - |body|..] == body
      && OccursAt(raw, BlankLine, |raw| - |body| - 4)
      && (forall j :: 0 <= j < |raw| - |body| - 4 ==> !OccursAt(raw, BlankLine, j))
  {
    match Find(raw, BlankLine)
    case None => []
    case Some(i) => raw[i + 4..]
  }

  /** The lines the header loop reads: the `std::getline` lines after the
      first one, up to the first line that is exactly "\r". */
  function HeaderLines(raw: string): seq<string> {
    var lines := SplitLines(raw);
    if lines == [] then [] else HeaderBlock(lines[1..])
  }

  /** What each line of a header block holds: a field, or nothing for a
      line without ':'. */
  function FieldsOf(block: seq<string>): (fs: seq<Option<(string, string)>>)
    ensures |fs| == |block|
    ensures forall i :: 0 <= i < |block| ==> fs[i] == HeaderField(block[i])
  {
    seq(|block|, i requires 0 <= i < |block| => HeaderField(block[i]))
  }

  /** `m` is the header map the fields `fs` denote: it holds exactly the
      keys some field has, each with the value of the last field for it. */
  ghost predicate HeaderMapOf(m: map<string, string>, fs: seq<Option<(string, string)>>) {
    && (forall k :: k in m <==> exists i :: 0 <= i < |fs| && fs[i].Some? && fs[i].value.0 == k)
    && (forall i :: 0 <= i < |fs| && fs[i].Some? ==>
          (forall j :: i < j < |fs| ==> !(fs[j].Some? && fs[j].value.0 == fs[i].value.0)) ==>
          fs[i].value.0 in m && m[fs[i].value.0] == fs[i].value.1)
  }

  /** The header loop builds the map its lines denote. */
  lemma CollectHeadersDenotes(lines: seq<string>)
    ensures HeaderMapOf(CollectHeaders(lines), FieldsOf(lines))
  {
    var fs := FieldsOf(lines);
    forall k ensures k in CollectHeaders(lines) <==> exists i :: 0 <= i < |fs| && fs[i].Some? && fs[i].value.0 == k {
      CollectKeys(map[], lines, k);
      if exists i :: 0 <= i < |lines| && Defines(lines[i], k) {
        var i :| 0 <= i < |lines| && Defines(lines[i], k);
        assert fs[i].Some? && fs[i].value.0 == k;
      }
    }
    forall i | 0 <= i < |fs| && fs[i].Some?
        && (forall j :: i < j < |fs| ==> !(fs[j].Some? && fs[j].value.0 == fs[i].value.0))
      ensures fs[i].value.0 in CollectHeaders(lines)
      ensures CollectHeaders(lines)[fs[i].value.0] == fs[i].value.1
    {
      var k := fs[i].value.0;
      assert forall j :: i < j < |lines| ==> !Defines(lines[j], k) by {
        forall j | i < j < |lines| ensures !Defines(lines[j], k) {
          assert fs[j] == HeaderField(lines[j]);
        }
      }
      CollectLastWins(map[], lines, i, k);
    }
  }

  /** `HeaderMapOf` leaves no choice: the fields determine the map. */
  lemma HeaderMapUnique(m1: map<string, string>, m2: map<string, string>,
                        fs: seq<Option<(string, string)>>)
    requires HeaderMapOf(m1, fs) && HeaderMapOf(m2, fs)
    ensures m1 == m2
  {
    assert forall k :: k in m1 <==> k in m2;
    assert m1.Keys == m2.Keys;
    forall k | k in m1 ensures m1[k] == m2[k] {
      var i := LastFieldFor(fs, k);
      assert fs[i].Some? && fs[i].value.0 == k;
      assert forall j :: i < j < |fs| ==> !(fs[j].Some? && fs[j].value.0 == fs[i].value.0);
      assert m1[k] == fs[i].value.1 && m2[k] == fs[i].value.1;
    }
  }

  /** A key some field has has a last field for it. */
  lemma {:induction false} LastFieldFor(fs: seq<Option<(string, string)>>, k: string) returns (i: nat)
    requires exists i :: 0 <= i < |fs| && fs[i].Some? && fs[i].value.0 == k
    ensures i < |fs| && fs[i].Some? && fs[i].value.0 == k
    ensures forall j :: i < j < |fs| ==> !(fs[j].Some? && fs[j].value.0 == k)
    decreases |fs|
  {
    var last := |fs| - 1;
    if fs[last].Some? && fs[last].value.0 == k {
      i := last;
    } else {
      var front := fs[..last];
      var i0 :| 0 <= i0 < |fs| && fs[i0].Some? && fs[i0].value.0 == k;
      assert front[i0] == fs[i0];
      i := LastFieldFor(front, k);
      assert forall j :: 0 <= j < last ==> front[j] == fs[j];
    }
  }

  /** The whole parser (lines 77-122).  There is no request without a
      "\r\n"; otherwise the request line is read from the text before the
      first one and the body is the text after the first "\r\n\r\n".
      `ParseRequestLineOf` and `ParseHeaders` state the rest. */
  function Parse(raw: string): (r: Option<Request>)
    ensures r.None? <==> forall j :: !OccursAt(raw, LineEnd, j)
    ensures r.Some? ==> r.value.body == BodyOf(raw)
  {
    match Find(raw, LineEnd)
    case None => None
    case Some(lineEnd) =>
      var line := ParseRequestLine(raw[..lineEnd]);
      var lines := SplitLines(raw);
      var headers := CollectHeaders(HeaderBlock(lines[1..]));
      Some(Request(line.verb, line.path, line.version, headers, BodyOf(raw)))
  }

  /** Method, path and version of a parsed request are the words of the
      text before its first "\r\n". */
  lemma ParseRequestLineOf(raw: string)
    ensures Parse(raw).Some? ==>
      && Find(raw, LineEnd).Some?
      && var line := ParseRequestLine(raw[..Find(raw, LineEnd).value]);
         var req := Parse(raw).value;
         req.verb == line.verb && req.path == line.path && req.version == line.version
  {
  }

  /** The header map of a parsed request is the map the header loop's
      lines denote: the `std::getline` lines after the first one, up to the
      first line that is exactly "\r". */
  lemma ParseHeaders(raw: string)
    ensures Parse(raw).Some? ==> HeaderMapOf(Parse(raw).value.headers, FieldsOf(HeaderLines(raw)))
  {
    if Parse(raw).Some? {
      var lines := SplitLines(raw);
      assert lines != [];
      CollectHeadersDenotes(HeaderBlock(lines[1..]));
    }
  }
}

/** Well-formed requests survive the parser: the request a client renders
    from a method, a path, a version, header fields and a body parses back
    to exactly those parts. */
module RequestFraming {
  import opened Wrappers
  import opened Text
  import opened Request

  /** A header field that can be written on a line of its own: no ':' in
      the key and no line-break characters anywhere. */
  predicate CleanField(f: (string, string)) {
    ':' !in f.0 && NoLineBreak(f.0) && NoLineBreak(f.1)
  }

  /** Each line followed by "\r\n". */
  function Terminated(xs: seq<string>): string {
    if xs == [] then [] else xs[0] + "\r\n" + Terminated(xs[1..])
  }

  /** `key ": " value` */
  function FieldText(f: (string, string)): string {
    f.0 + ": " + f.1
  }

  function FieldTexts(fields: seq<(string, string)>): seq<string> {
    if fields == [] then [] else [FieldText(fields[0])] + FieldTexts(fields[1..])
  }

  /** The lines `std::getline` delivers for the fields. */
  function FieldLines(fields: seq<(string, string)>): seq<string> {
    if fields == [] then [] else [FieldLine(fields[0])] + FieldLines(fields[1..])
  }

  /** The lines `std::getline` delivers for terminated lines `xs`, a blank
      line and then `after`: each line keeps its '\r'. */
  function HeadLines(xs: seq<string>, after: seq<string>): seq<string> {
    if xs == [] then ["\r"] + after else [xs[0] + "\r"] + HeadLines(xs[1..], after)
  }

  /** A request as a client writes it. */
  function Render(verb: string, path: string, version: string,
                  fields: seq<(string, string)>, body: string): string
  {
    Terminated([verb + " " + path + " " + version] + FieldTexts(fields)) + "\r\n" + body
  }

  /** The map a list of fields denotes, starting from `m`: a later field
      overrides an earlier one with the same key. */
  function FieldsInto(m: map<string, string>, fields: seq<(string, string)>): map<string, string>
    decreases |fields|
  {
    if fields == [] then m else FieldsInto(m[fields[0].0 := fields[0].1], fields[1..])
  }

  /** Parsing a rendered request gives back its parts. */
  lemma ParseRoundTrip(verb: string, path: string, version: string,
                       fields: seq<(string, string)>, body: string)
    requires verb != [] && NoSpace(verb)
    requires path != [] && NoSpace(path)
    requires version != [] && NoSpace(version)
    requires forall i :: 0 <= i < |fields| ==> CleanField(fields[i])
    ensures Parse(Render(verb, path, version, fields, body))
         == Some(Request(verb, path, version, FieldsInto(map[], fields), body))
  {
    var line := verb + " " + path + " " + version;
    NoLineBreakInRequestLine(verb, path, version);
    ParseFramed(line, fields, body);
    RequestLineRoundTrip(verb, path, version, []);
    assert line + [] == line;
  }

  /** Any message framed as a first line, header fields, a blank line and
      a body (a response too) parses to those header fields and that body;
      the first line is read as a request line. */
  lemma ParseFramed(first: string, fields: seq<(string, string)>, body: string)
    requires first != [] && NoLineBreak(first)
    requires forall i :: 0 <= i < |fields| ==> CleanField(fields[i])
    ensures var line := ParseRequestLine(first);
      Parse(Terminated([first] + FieldTexts(fields)) + "\r\n" + body)
        == Some(Request(line.verb, line.path, line.version, FieldsInto(map[], fields), body))
  {
    var texts := FieldTexts(fields);
    var xs := [first] + texts;
    var raw := Terminated(xs) + "\r\n" + body;
    FieldTextsClean(fields);
    assert xs[0] == first && xs[1..] == texts;
    forall i | 0 <= i < |xs|
      ensures xs[i] != [] && NoLineBreak(xs[i])
    {
      if i > 0 {
        assert xs[i] == texts[i - 1];
      }
    }
    RequestLineOfRendered(first, texts, body);
    TerminatedLines(xs, body);
    assert SplitLines(raw)[1..] == HeadLines(texts, SplitLines(body));
    HeaderBlockOfFields(fields, SplitLines(body));
    CollectFields(map[], fields);
    BlankLineAfter(xs, body);
  }

  /** The request line of a rendered request is its first line. */
  lemma RequestLineOfRendered(line: string, texts: seq<string>, body: string)
    requires '\r' !in line
    ensures var raw := Terminated([line] + texts) + "\r\n" + body;
      Find(raw, LineEnd) == Some(|line|) && raw[..|line|] == line
  {
    var xs := [line] + texts;
    assert xs[0] == line && xs[1..] == texts;
    var rest := Terminated(texts) + "\r\n" + body;
    var raw := Terminated(xs) + "\r\n" + body;
    SeqAssoc4(line, "\r\n", Terminated(texts), "\r\n" + body);
    assert raw == line + "\r\n" + rest;
    FindLineEnd(line, rest);
  }

  lemma NoLineBreakInRequestLine(verb: string, path: string, version: string)
    requires NoSpace(verb) && NoSpace(path) && NoSpace(version)
    ensures var line := verb + " " + path + " " + version;
      line != [] && NoLineBreak(line)
  {
    var line := verb + " " + path + " " + version;
    forall i | 0 <= i < |line|
      ensures line[i] != '\r' && line[i] != '\n'
    {
      if i < |verb| {
        assert line[i] == verb[i];
      } else if i == |verb| {
      } else if i < |verb| + 1 + |path| {
        assert line[i] == path[i - |verb| - 1];
      } else if i == |verb| + 1 + |path| {
      } else {
        assert line[i] == version[i - |verb| - |path| - 2];
      }
    }
  }

  lemma FieldTextClean(f: (string, string))
    requires CleanField(f)
    ensures FieldText(f) != [] && NoLineBreak(FieldText(f))
  {
    var t := FieldText(f);
    forall i | 0 <= i < |t|
      ensures t[i] != '\r' && t[i] != '\n'
    {
      if i < |f.0| {
        assert t[i] == f.0[i];
      } else if i >= |f.0| + 2 {
        assert t[i] == f.1[i - |f.0| - 2];
      }
    }
  }

  lemma {:induction false} FieldTextsClean(fields: seq<(string, string)>)
    requires forall i :: 0 <= i < |fields| ==> CleanField(fields[i])
    ensures |FieldTexts(fields)| == |fields|
    ensures forall i :: 0 <= i < |fields| ==>
      var t := FieldTexts(fields)[i]; t != [] && NoLineBreak(t)
  {
    if fields != [] {
      FieldTextClean(fields[0]);
      FieldTextsClean(fields[1..]);
      assert forall i :: 1 <= i < |fields| ==> fields[1..][i - 1] == fields[i];
    }
  }

  /** `std::getline` splits rendered lines back apart, each keeping its
      '\r'; the blank line comes out as "\r". */
  lemma {:induction false} TerminatedLines(xs: seq<string>, body: string)
    requires forall i :: 0 <= i < |xs| ==> '\n' !in xs[i]
    ensures SplitLines(Terminated(xs) + "\r\n" + body) == HeadLines(xs, SplitLines(body))
  {
    if xs == [] {
      assert Terminated(xs) + "\r\n" + body == "\r" + "\n" + body;
      SplitLinesCons("\r", body);
    } else {
      var x := xs[0];
      var t := Terminated(xs[1..]);
      var tail := t + "\r\n" + body;
      calc {
        Terminated(xs) + "\r\n" + body;
        (x + "\r\n" + t) + "\r\n" + body;
        { SeqAssoc4(x, "\r\n", t, "\r\n" + body); }
        x + "\r\n" + (t + ("\r\n" + body));
        { assert x + "\r\n" == (x + "\r") + "\n"; }
        (x + "\r") + "\n" + tail;
      }
      assert '\n' !in x + "\r";
      SplitLinesCons(x + "\r", tail);
      TerminatedLines(xs[1..], body);
    }
  }

  /** The header block ends at the blank line. */
  lemma {:induction false} HeaderBlockOfFields(fields: seq<(string, string)>, after: seq<string>)
    ensures HeaderBlock(HeadLines(FieldTexts(fields), after)) == FieldLines(fields)
  {
    var lines := HeadLines(FieldTexts(fields), after);
    if fields == [] {
      assert lines[0] == "\r";
    } else {
      assert FieldTexts(fields)[0] == FieldText(fields[0]);
      assert FieldTexts(fields)[1..] == FieldTexts(fields[1..]);
      assert lines[0] == FieldLine(fields[0]);
      assert |lines[0]| >= 3;
      assert lines[1..] == HeadLines(FieldTexts(fields[1..]), after);
      HeaderBlockOfFields(fields[1..], after);
    }
  }

  /** The header lines of the rendered fields build the map the fields
      denote. */
  lemma {:induction false} CollectFields(m: map<string, string>, fields: seq<(string, string)>)
    requires forall i :: 0 <= i < |fields| ==> CleanField(fields[i])
    ensures CollectInto(m, FieldLines(fields)) == FieldsInto(m, fields)
    decreases |fields|
  {
    if fields != [] {
      var lines := FieldLines(fields);
      assert lines[0] == FieldLine(fields[0]);
      assert lines[1..] == FieldLines(fields[1..]);
      FieldLineParses(fields[0]);
      assert forall i :: 1 <= i < |fields| ==> fields[1..][i - 1] == fields[i];
      CollectFields(m[fields[0].0 := fields[0].1], fields[1..]);
    }
  }

  /** The first "\r\n\r\n" of a rendered request is its blank line. */
  lemma {:induction false} BlankLineAfter(xs: seq<string>, body: string)
    requires xs != []
    requires forall i :: 0 <= i < |xs| ==> xs[i] != [] && '\r' !in xs[i]
    ensures |Terminated(xs)| >= 2
    ensures Find(Terminated(xs) + "\r\n" + body, BlankLine) == Some(|Terminated(xs)| - 2)
  {
    var x := xs[0];
    var ys := xs[1..];
    var rest := Terminated(ys) + "\r\n" + body;
    var text := Terminated(xs) + "\r\n" + body;
    SeqAssoc4(x, "\r\n", Terminated(ys), "\r\n" + body);
    assert text == x + "\r\n" + rest;
    if ys == [] {
      assert Terminated(ys) == [];
      assert rest == "\r\n" + body;
      assert |Terminated(xs)| == |x| + 2;
      LastLineEnd(x, body);
    } else {
      BlankLineAfter(ys, body);
      assert rest[0] == ys[0][0];
      assert ys[0][0] in ys[0];
      NoBlankLineInLine(x, rest);
      FindAfter(x + "\r\n", rest, BlankLine);
    }
  }

  /** A line followed by the blank line: the blank line starts at its
      terminator. */
  lemma LastLineEnd(x: string, body: string)
    requires '\r' !in x
    ensures Find(x + "\r\n" + ("\r\n" + body), BlankLine) == Some(|x|)
  {
    var text := x + "\r\n" + ("\r\n" + body);
    assert text[|x|..|x| + 4] == BlankLine;
    forall j | 0 <= j < |x|
      ensures !OccursAt(text, BlankLine, j)
    {
      OccursAtChars(text, BlankLine, j);
      assert text[j] == x[j];
    }
    FindIsFirst(text, BlankLine, |x|);
  }

  /** No blank line starts inside a line whose successor does not start
      with '\r'. */
  lemma NoBlankLineInLine(x: string, rest: string)
    requires '\r' !in x
    requires rest != [] && rest[0] != '\r'
    ensures forall j :: 0 <= j < |x + "\r\n"| ==> !OccursAt(x + "\r\n" + rest, BlankLine, j)
  {
    var text := x + "\r\n" + rest;
    forall j | 0 <= j < |x + "\r\n"|
      ensures !OccursAt(text, BlankLine, j)
    {
      OccursAtChars(text, BlankLine, j);
      if j < |x| {
        assert text[j] == x[j];
      } else if j == |x| {
        assert text[j + 2] == rest[0];
      } else {
        assert text[j] == '\n';
      }
    }
  }

  lemma SeqAssoc4(a: string, b: string, c: string, d: string)
    ensures (a + b + c) + d == a + b + (c + d)
  {
  }
}
