/** Responses (src/http/response.cc): the head that is printed, and a reader that takes a stream of them apart again
    by the rules of sections 2.1, 5.1 and 6.3 of RFC 9112. */
module Responses {
  import opened Strings
  import opened Splitting
  import opened Text
  import opened Headers

  type Files = map<string, string>

  const HTTP_VERSION: string := "Http/1.1"
  const RESPONSE_OK: string := "200 OK"
  const RESPONSE_BAD_REQUEST: string := "400 Bad Request"
  const RESPONSE_NOT_FOUND: string := "404 Not Found"
  const CONTENT_LENGTH: string := "Content-Length"

  function StatusLine(code: string): string {
    HTTP_VERSION + " " + code
  }

  /** `find_last_of` for one byte: the index of the last occurrence below `to`. */
  function LastIndexOf(s: string, c: char, to: nat): (r: Option<nat>)
    requires to <= |s|
    ensures r.Some? ==> r.value < to && s[r.value] == c && c !in s[r.value + 1..to]
    ensures r.None? ==> c !in s[..to]
  {
    if to == 0 then None
    else if s[to - 1] == c then Some(to - 1)
    else LastIndexOf(s, c, to - 1)
  }

  function TypeHeaders(path: string): seq<Header> {
    match LastIndexOf(path, '.', |path|)
    case None => []
    case Some(i) => [Header("Content-Type", ExtensionToMime(ToExtension(path[i + 1..])))]
  }

  function BaseHeaders(close: bool): seq<Header> {
    [Header("Server", "Icee/1.0"), Header("Connection", if close then "Close" else "Keep-Alive")]
  }

  function FileHeaders(url: Option<string>, files: Files): seq<Header> {
    if url.Some? && url.value in files
    then [Header(CONTENT_LENGTH, Decimal(|files[url.value]|))] + TypeHeaders(url.value)
    else [Header(CONTENT_LENGTH, "0")]
  }

  /** The headers of a response: server, connection state, and the length (and type) of the file if there is one. */
  function ResponseHeaders(close: bool, url: Option<string>, files: Files): seq<Header> {
    BaseHeaders(close) + FileHeaders(url, files)
  }

  function SerializeAll(hs: seq<Header>): string {
    if hs == [] then "" else Serialize(hs[0]) + SerializeAll(hs[1..])
  }

  datatype Message = Message(status: string, headers: seq<Header>, body: string)

  function Encode(m: Message): string {
    m.status + CRLF + SerializeAll(m.headers) + CRLF + m.body
  }

  class Response {
    var statusLine: string
    var headers: seq<Header>
    var shouldClose: bool
    var shouldTransferContent: bool
    var url: Option<string>

    constructor (code: string, close: bool, url: Option<string>, files: Files)
      ensures statusLine == StatusLine(code) == "Http/1.1 " + code && shouldClose == close
      ensures headers == ResponseHeaders(close, url, files)
      ensures this.url == if url.Some? && url.value in files then url else None
    {
      shouldClose := close;
      statusLine := HTTP_VERSION + " " + code;
      var base := [Header("Server", "Icee/1.0")];
      base := base + [Header("Connection", if close then "Close" else "Keep-Alive")];
      var file;
      if url.Some? && url.value in files {
        this.url := url;
        file := [Header(CONTENT_LENGTH, Decimal(|files[url.value]|))] + TypeHeaders(url.value);
      } else {
        this.url := None;
        file := [Header(CONTENT_LENGTH, "0")];
      }
      headers := base + file;
    }

    method SetShouldTransferContent(b: bool)
      modifies `shouldTransferContent
      ensures shouldTransferContent == b
    {
      shouldTransferContent := b;
    }

    /** Appends the head, and the file when there is one and its content is to be transferred. */
    method Serialize(buffer: string, files: Files) returns (filled: string)
      requires url.Some? ==> url.value in files
      ensures filled == buffer + Encode(Message(statusLine, headers,
                          if url.Some? && shouldTransferContent then files[url.value] else ""))
    {
      var head := statusLine + CRLF;
      var i := 0;
      assert headers[0..] == headers;
      while i < |headers|
        invariant i <= |headers|
        invariant head + SerializeAll(headers[i..]) == statusLine + CRLF + SerializeAll(headers)
      {
        SerializeStep(headers, i, head);
        head := head + Headers.Serialize(headers[i]);
        i := i + 1;
      }
      head := head + CRLF;
      filled := buffer + head;
      if url.Some? && shouldTransferContent {
        filled := filled + files[url.value];
      }
    }
  }

  lemma {:induction false} SerializeStep(hs: seq<Header>, i: nat, head: string)
    requires i < |hs|
    ensures head + SerializeAll(hs[i..]) == (head + Serialize(hs[i])) + SerializeAll(hs[i + 1..])
  {
    assert hs[i..][1..] == hs[i + 1..];
  }

  // ---- The reader ----

  /** A field line is cut at its first colon. */
  function ReadField(line: string): Option<Header> {
    match Find(line, COLON)
    case None => None
    case Some(i) => Some(Header(line[..i], line[i + 1..]))
  }

  function ReadFields(lines: seq<string>): Option<seq<Header>> {
    if lines == [] then Some([])
    else match (ReadField(lines[0]), ReadFields(lines[1..]))
      case (Some(h), Some(hs)) => Some([h] + hs)
      case _ => None
  }

  function ContentLength(hs: seq<Header>): Option<nat> {
    if hs == [] then None
    else if hs[0].key == CONTENT_LENGTH then ParseDecimal(hs[0].value)
    else ContentLength(hs[1..])
  }

  /** One message from the front of the stream, and the rest of the stream. The answer to a HEAD request ends with
      its head; every other body is as long as the Content-Length says. */
  function ReadMessage(s: string, toHead: bool): Option<(Message, string)> {
    match Find(s, CRLF2)
    case None => None
    case Some(i) =>
      var lines, after := Split(s[..i], CRLF), s[i + 4..];
      if lines == [] then None
      else match ReadFields(lines[1..])
        case None => None
        case Some(hs) =>
          match ContentLength(hs)
          case None => None
          case Some(length) =>
            var n := if toHead then 0 else length;
            if n <= |after| then Some((Message(lines[0], hs, after[..n]), after[n..])) else None
  }

  /** The answers to pipelined requests, of which `toHead` says which ones were HEAD requests. */
  function ReadStream(s: string, toHead: seq<bool>): Option<seq<Message>>
    decreases |toHead|
  {
    if s == "" then Some([])
    else if toHead == [] then None
    else match ReadMessage(s, toHead[0])
      case None => None
      case Some((m, rest)) =>
        match ReadStream(rest, toHead[1..])
        case None => None
        case Some(ms) => Some([m] + ms)
  }

  function EncodeAll(ms: seq<Message>): string {
    if ms == [] then "" else Encode(ms[0]) + EncodeAll(ms[1..])
  }

  // ---- Messages that can be read back ----

  predicate Plain(s: string) {
    forall c :: c in s ==> c != '\r' && c != '\n'
  }

  predicate PlainHeader(h: Header) {
    Plain(h.key) && ':' !in h.key && Plain(h.value)
  }

  /** A plain status line and fields, colon-free field names, and a length. */
  predicate PlainHead(m: Message) {
    && Plain(m.status) && m.status != ""
    && (forall h :: h in m.headers ==> PlainHeader(h))
    && ContentLength(m.headers).Some?
  }

  /** The body is as long as the reader will take it to be. */
  predicate WellFramed(m: Message, toHead: bool) {
    PlainHead(m) && |m.body| == if toHead then 0 else ContentLength(m.headers).value
  }

  function FieldLine(h: Header): string {
    h.key + COLON + h.value
  }

  function FieldLines(hs: seq<Header>): (ls: seq<string>)
    ensures |ls| == |hs| && forall i :: 0 <= i < |hs| ==> ls[i] == FieldLine(hs[i])
  {
    if hs == [] then [] else [FieldLine(hs[0])] + FieldLines(hs[1..])
  }

  /** Lines as the parser must see them. */
  predicate PlainLines(ls: seq<string>) {
    forall l :: l in ls ==> Plain(l) && l != ""
  }

  /** The lines with CRLF after each and the empty line: what stands before a body. */
  function Block(ls: seq<string>): string {
    if ls == [] then CRLF else ls[0] + CRLF + Block(ls[1..])
  }

  lemma {:induction false} BlockOfFields(hs: seq<Header>)
    ensures Block(FieldLines(hs)) == SerializeAll(hs) + CRLF
    decreases |hs|
  {
    if hs != [] {
      BlockOfFields(hs[1..]);
      assert FieldLines(hs)[1..] == FieldLines(hs[1..]);
      var l, b := FieldLine(hs[0]), SerializeAll(hs[1..]);
      assert l + CRLF + (b + CRLF) == (l + CRLF) + b + CRLF;
    }
  }

  lemma {:induction false} NoCrlf2InLine(l: string, after: string, j: nat)
    requires Plain(l) && j < |l| + 2
    requires after == "" || after[0] != '\r'
    requires j != |l| || after != CRLF
    ensures !At(l + CRLF + after, CRLF2, j)
  {
    var s := l + CRLF + after;
    CrlfAt(s, j);
    CrlfAt(s, j + 2);
    if j < |l| {
      assert s[j] == l[j] && l[j] in l;
    }
  }

  /** The block ends at the first empty line and nowhere earlier. */
  lemma {:induction false} BlockEndsFirst(ls: seq<string>, rest: string)
    requires ls != [] && PlainLines(ls)
    ensures |Block(ls)| >= 4 && Find(Block(ls) + rest, CRLF2) == Some(|Block(ls)| - 4)
    decreases |ls|
  {
    var l, tail := ls[0], ls[1..];
    PlainFirst(ls);
    Regroup(l, Block(tail), rest);
    if tail == [] {
      Regroup(l, CRLF, rest);
      LineBlockFirst(l, rest);
    } else {
      BlockEndsFirst(tail, rest);
      BlockStart(tail, rest);
      ShiftFirst(l, Block(tail) + rest, |Block(tail)| - 4);
    }
  }

  lemma {:induction false} PlainFirst(ls: seq<string>)
    requires ls != [] && PlainLines(ls)
    ensures Plain(ls[0]) && PlainLines(ls[1..])
  {
    assert ls[0] in ls && forall x :: x in ls[1..] ==> x in ls;
  }

  lemma {:induction false} BlockStart(ls: seq<string>, rest: string)
    requires ls != [] && PlainLines(ls)
    ensures Block(ls) + rest != "" && (Block(ls) + rest)[0] != '\r'
  {
    assert ls[0] in ls && ls[0][0] in ls[0];
    assert (Block(ls) + rest)[0] == ls[0][0];
  }

  lemma {:induction false} Regroup(l: string, b: string, rest: string)
    ensures (l + CRLF + b) + rest == l + CRLF + (b + rest)
    ensures l + CRLF + (CRLF + rest) == l + CRLF2 + rest
  {
  }

  lemma {:induction false} LineBlockFirst(l: string, rest: string)
    requires Plain(l)
    ensures Find(l + CRLF2 + rest, CRLF2) == Some(|l|)
  {
    var s := l + CRLF2 + rest;
    assert s[|l|..|l| + 4] == CRLF2;
    forall j: nat | j < |l| ensures !At(s, CRLF2, j) {
      CrlfAt(s, j);
      assert s[j] == l[j] && l[j] in l;
    }
    FindIs(s, CRLF2, |l|);
  }

  lemma {:induction false} ShiftFirst(l: string, after: string, k: nat)
    requires Plain(l) && after != "" && after[0] != '\r'
    requires Find(after, CRLF2) == Some(k)
    ensures Find(l + CRLF + after, CRLF2) == Some(|l| + 2 + k)
  {
    var a := l + CRLF;
    AtShift(a, after, CRLF2, k);
    forall j: nat | j < |l| + 2 + k ensures !At(a + after, CRLF2, j) {
      if j < |a| {
        NoCrlf2InLine(l, after, j);
      } else {
        AtShift(a, after, CRLF2, j - |a|);
      }
    }
    FindIs(a + after, CRLF2, |l| + 2 + k);
  }

  lemma {:induction false} BlockIsLines(ls: seq<string>)
    requires ls != []
    ensures Block(ls) == Intercalate(ls, CRLF) + CRLF2
    decreases |ls|
  {
    if |ls| == 1 {
      assert ls[1..] == [];
      assert ls[0] + CRLF + CRLF == ls[0] + CRLF2;
    } else {
      BlockIsLines(ls[1..]);
      var j := Intercalate(ls[1..], CRLF);
      assert ls[0] + CRLF + (j + CRLF2) == ls[0] + CRLF + j + CRLF2;
    }
  }

  lemma {:induction false} PlainHasNoCrlf(l: string)
    requires Plain(l)
    ensures !Occurs(l, CRLF)
  {
    forall i: nat ensures !At(l, CRLF, i) {
      CrlfAt(l, i);
      assert i < |l| ==> l[i] in l;
    }
  }

  lemma {:induction false} LinesSplitBack(ls: seq<string>)
    requires ls != [] && PlainLines(ls)
    ensures Split(Intercalate(ls, CRLF), CRLF) == ls
  {
    forall i | 0 <= i < |ls| ensures Clean(ls[i], CRLF) && !Occurs(ls[i], CRLF) && ls[i] != "" {
      assert ls[i] in ls;
      PlainHasNoCrlf(ls[i]);
      CleanCrlf(ls[i]);
    }
    assert TokensOf(Intercalate(ls, CRLF), CRLF, ls);
    TokensUnique(Intercalate(ls, CRLF), CRLF, ls);
  }

  lemma {:induction false} FieldsReadBack(hs: seq<Header>)
    requires forall h :: h in hs ==> ':' !in h.key
    ensures ReadFields(FieldLines(hs)) == Some(hs)
    decreases |hs|
  {
    if hs != [] {
      var h := hs[0];
      SplitAtColon(h.key, h.value);
      FieldsReadBack(hs[1..]);
      assert FieldLines(hs)[1..] == FieldLines(hs[1..]);
      assert hs == [h] + hs[1..];
    }
  }

  lemma {:induction false} MessageLines(m: Message) returns (ls: seq<string>)
    requires PlainHead(m)
    ensures ls == [m.status] + FieldLines(m.headers) && PlainLines(ls)
    ensures Encode(m) == Block(ls) + m.body
  {
    ls := [m.status] + FieldLines(m.headers);
    EncodeIsBlock(m);
    FieldLinesPlain(m.headers);
  }

  lemma {:induction false} EncodeRegroup(status: string, fields: string, body: string)
    ensures status + CRLF + fields + CRLF + body == (status + CRLF + (fields + CRLF)) + body
  {
  }

  lemma {:induction false} FieldLinesPlain(hs: seq<Header>)
    requires forall h :: h in hs ==> PlainHeader(h)
    ensures PlainLines(FieldLines(hs))
  {
    forall l | l in FieldLines(hs) ensures Plain(l) && l != "" {
      var i :| 0 <= i < |hs| && l == FieldLine(hs[i]);
      assert hs[i] in hs && PlainHeader(hs[i]);
      FieldLinePlain(hs[i]);
    }
  }

  lemma {:induction false} FieldLinePlain(h: Header)
    requires PlainHeader(h)
    ensures Plain(FieldLine(h)) && FieldLine(h) != ""
  {
    forall c | c in FieldLine(h) ensures c != '\r' && c != '\n' {
      assert c in h.key || c == ':' || c in h.value;
    }
  }

  /** A well-framed message at the front of any stream is read back, and exactly its bytes are consumed, whatever the
      body contains. */
  lemma {:induction false} MessageReadBack(m: Message, toHead: bool, rest: string)
    requires WellFramed(m, toHead)
    ensures ReadMessage(Encode(m) + rest, toHead) == Some((m, rest))
  {
    var ls := MessageLines(m);
    BlockEndsFirst(ls, m.body + rest);
    BlockIsLines(ls);
    LinesSplitBack(ls);
    FieldsReadBack(m.headers);
    StreamSlices(Intercalate(ls, CRLF), m.body, rest);
    assert ls[1..] == FieldLines(m.headers);
  }

  lemma {:induction false} StreamSlices(text: string, body: string, rest: string)
    ensures var s := (text + CRLF2) + body + rest;
      && s == (text + CRLF2) + (body + rest)
      && s[..|text|] == text && s[|text| + 4..] == body + rest
      && (body + rest)[..|body|] == body && (body + rest)[|body|..] == rest
  {
  }

  /** `ms` answers the first requests of a pipeline, each framed as its reader expects. */
  ghost predicate StreamFramed(ms: seq<Message>, toHead: seq<bool>) {
    |ms| <= |toHead| && forall i :: 0 <= i < |ms| ==> WellFramed(ms[i], toHead[i])
  }

  /** The response stream is uniquely decodable: any sequence of well-framed answers is recovered from its bytes. */
  lemma {:induction false} StreamReadBack(ms: seq<Message>, toHead: seq<bool>)
    requires StreamFramed(ms, toHead)
    ensures ReadStream(EncodeAll(ms), toHead) == Some(ms)
    decreases |ms|
  {
    if ms != [] {
      var m, tail := ms[0], ms[1..];
      assert forall i :: 0 <= i < |tail| ==> tail[i] == ms[i + 1] && toHead[1..][i] == toHead[i + 1];
      StreamReadBack(tail, toHead[1..]);
      ReadOneMore(m, EncodeAll(tail), tail, toHead);
      assert ms == [m] + tail;
    }
  }

  lemma {:induction false} ReadOneMore(m: Message, rest: string, ms: seq<Message>, toHead: seq<bool>)
    requires toHead != [] && WellFramed(m, toHead[0]) && ReadStream(rest, toHead[1..]) == Some(ms)
    ensures ReadStream(Encode(m) + rest, toHead) == Some([m] + ms)
  {
    MessageReadBack(m, toHead[0], rest);
    assert |Encode(m)| > 0;
  }

  lemma {:induction false} FieldIsExact(line: string)
    requires ReadField(line).Some?
    ensures line == FieldLine(ReadField(line).value)
  {
    FirstColon(line);
    CutAtByte(line, Find(line, COLON).value, ':');
  }

  lemma {:induction false} CutAtByte(s: string, i: nat, c: char)
    requires i < |s| && s[i] == c
    ensures s == s[..i] + [c] + s[i + 1..]
  {
  }

  lemma {:induction false} FieldsAreExact(lines: seq<string>)
    requires ReadFields(lines).Some?
    ensures lines == FieldLines(ReadFields(lines).value)
    decreases |lines|
  {
    if lines != [] {
      FieldIsExact(lines[0]);
      FieldsAreExact(lines[1..]);
      var h, hs := ReadField(lines[0]).value, ReadFields(lines[1..]).value;
      FieldLinesCons(h, hs);
      assert lines == [lines[0]] + lines[1..];
    }
  }

  lemma {:induction false} FieldLinesCons(h: Header, hs: seq<Header>)
    ensures FieldLines([h] + hs) == [FieldLine(h)] + FieldLines(hs)
  {
    assert ([h] + hs)[1..] == hs;
  }

  lemma {:induction false} EndsBeforeCrlf(s: string, i: nat, x: string)
    requires Find(s, CRLF2) == Some(i)
    ensures s[..i] != x + CRLF
  {
    if i == |x| + 2 {
      CrlfAt(s, i);
      CrlfAt(s, |x|);
      assert !At(s, CRLF2, |x|);
      assert s[..i][|x|] == s[|x|] && s[..i][|x| + 1] == s[|x| + 1];
      assert (x + CRLF)[|x|] == '\r' && (x + CRLF)[|x| + 1] == '\n';
    }
  }

  /** Before the first empty line, no CRLF is dropped by splitting. */
  lemma {:induction false} HeadIsLines(s: string, i: nat)
    requires Find(s, CRLF2) == Some(i) && Split(s[..i], CRLF) != []
    ensures s[..i] == Intercalate(Split(s[..i], CRLF), CRLF)
  {
    SplitGivesTokens(s[..i], CRLF);
    EndsBeforeCrlf(s, i, Intercalate(Split(s[..i], CRLF), CRLF));
  }

  lemma {:induction false} EncodeIsBlock(m: Message)
    ensures Encode(m) == Block([m.status] + FieldLines(m.headers)) + m.body
  {
    var ls := [m.status] + FieldLines(m.headers);
    BlockOfFields(m.headers);
    assert ls[1..] == FieldLines(m.headers);
    EncodeRegroup(m.status, SerializeAll(m.headers), m.body);
  }

  lemma {:induction false} StreamPieces(s: string, i: nat, n: nat)
    requires Find(s, CRLF2) == Some(i) && i + 4 + n <= |s|
    ensures s == (s[..i] + CRLF2) + s[i + 4..][..n] + s[i + 4..][n..]
  {
    assert s[i..i + 4] == CRLF2;
    assert s[i + 4..] == s[i + 4..][..n] + s[i + 4..][n..];
  }

  lemma {:induction false} MessageParts(s: string, toHead: bool) returns (i: nat, lines: seq<string>, n: nat)
    requires ReadMessage(s, toHead).Some?
    ensures Find(s, CRLF2) == Some(i) && i + 4 + n <= |s| && lines == Split(s[..i], CRLF) && lines != []
    ensures var (m, rest) := ReadMessage(s, toHead).value;
      && m.status == lines[0] && ReadFields(lines[1..]) == Some(m.headers)
      && m.body == s[i + 4..][..n] && rest == s[i + 4..][n..]
  {
    i := Find(s, CRLF2).value;
    lines, n := Split(s[..i], CRLF), |ReadMessage(s, toHead).value.0.body|;
  }

  lemma {:induction false} LinesAreHead(lines: seq<string>, m: Message)
    requires lines != [] && m.status == lines[0] && ReadFields(lines[1..]) == Some(m.headers)
    ensures Intercalate(lines, CRLF) + CRLF2 + m.body == Encode(m)
  {
    FieldsAreExact(lines[1..]);
    assert lines == [lines[0]] + lines[1..];
    EncodeIsBlock(m);
    BlockIsLines(lines);
  }

  /** Whatever message the reader finds at the front of a stream, the stream starts with the bytes of that message. */
  lemma {:induction false} MessageIsExact(s: string, toHead: bool)
    requires ReadMessage(s, toHead).Some?
    ensures var (m, rest) := ReadMessage(s, toHead).value; s == Encode(m) + rest
  {
    var m := ReadMessage(s, toHead).value.0;
    var i, lines, n := MessageParts(s, toHead);
    HeadIsLines(s, i);
    LinesAreHead(lines, m);
    StreamPieces(s, i, n);
  }

  /** So a reader that accepts a stream has found messages whose bytes are that stream. */
  lemma {:induction false} StreamIsExact(s: string, toHead: seq<bool>)
    requires ReadStream(s, toHead).Some?
    ensures EncodeAll(ReadStream(s, toHead).value) == s
    decreases |toHead|
  {
    if s != "" {
      MessageIsExact(s, toHead[0]);
      var (m, rest) := ReadMessage(s, toHead[0]).value;
      StreamIsExact(rest, toHead[1..]);
      var ms := ReadStream(rest, toHead[1..]).value;
      assert ([m] + ms)[1..] == ms;
    }
  }

  /** Whatever the stream, a reader never finds a body in the answer to a HEAD request. */
  lemma {:induction false} HeadAnswersReadEmpty(s: string, toHead: seq<bool>)
    requires ReadStream(s, toHead).Some?
    ensures var ms := ReadStream(s, toHead).value;
      |ms| <= |toHead| && forall i :: 0 <= i < |ms| && toHead[i] ==> ms[i].body == ""
    decreases |toHead|
  {
    if s != "" {
      var (m, rest) := ReadMessage(s, toHead[0]).value;
      HeadAnswersReadEmpty(rest, toHead[1..]);
      assert toHead[0] ==> m.body == "";
    }
  }

  // ---- The messages the server sends ----

  function ErrorMessage(code: string): Message {
    Message(StatusLine(code), ResponseHeaders(true, None, map[]), "")
  }

  function FileHead(close: bool, path: string, files: Files): Message {
    Message(StatusLine(RESPONSE_OK), ResponseHeaders(close, Some(path), files), "")
  }

  function FileMessage(close: bool, path: string, files: Files): Message
    requires path in files
  {
    FileHead(close, path, files).(body := files[path])
  }

  lemma {:induction false} DecimalPlain(n: nat)
    ensures Plain(Decimal(n))
  {
  }

  lemma {:induction false} MimePlain(e: Extension)
    ensures Plain(ExtensionToMime(e))
  {
    match e
    case HTML => assert Plain("text/html");
    case CSS => assert Plain("text/css");
    case PNG => assert Plain("image/png");
    case JPG => assert Plain("image/jpg");
    case JPEG => assert Plain("image/jpeg");
    case GIF => assert Plain("image/gif");
    case OCTET => assert Plain("application/octet-stream");
  }

  lemma {:induction false} NamesPlain()
    ensures Plain("Content-Type") && ':' !in "Content-Type"
    ensures Plain("Server") && ':' !in "Server" && Plain("Icee/1.0")
    ensures Plain("Connection") && ':' !in "Connection" && Plain("Close") && Plain("Keep-Alive")
    ensures Plain(CONTENT_LENGTH) && ':' !in CONTENT_LENGTH && Plain("0")
  {
  }

  lemma {:induction false} StatusPlain()
    ensures Plain(StatusLine(RESPONSE_OK)) && StatusLine(RESPONSE_OK) != ""
    ensures Plain(StatusLine(RESPONSE_BAD_REQUEST)) && StatusLine(RESPONSE_BAD_REQUEST) != ""
    ensures Plain(StatusLine(RESPONSE_NOT_FOUND)) && StatusLine(RESPONSE_NOT_FOUND) != ""
  {
    assert Plain(HTTP_VERSION) && Plain(" ");
    PlainJoin(RESPONSE_OK);
    PlainJoin(RESPONSE_BAD_REQUEST);
    PlainJoin(RESPONSE_NOT_FOUND);
  }

  lemma {:induction false} PlainJoin(code: string)
    requires Plain(HTTP_VERSION) && Plain(" ")
    ensures Plain(code) ==> Plain(StatusLine(code))
  {
  }

  lemma {:induction false} ResponseHeadersPlain(close: bool, url: Option<string>, files: Files)
    ensures forall h :: h in ResponseHeaders(close, url, files) ==> PlainHeader(h)
  {
    NamesPlain();
    FileHeadersPlain(url, files);
    forall h | h in BaseHeaders(close) ensures PlainHeader(h) {
    }
  }

  lemma {:induction false} FileHeadersPlain(url: Option<string>, files: Files)
    ensures forall h :: h in FileHeaders(url, files) ==> PlainHeader(h)
  {
    NamesPlain();
    if url.Some? && url.value in files {
      DecimalPlain(|files[url.value]|);
      TypePlain(url.value);
    }
  }

  lemma {:induction false} TypePlain(path: string)
    ensures forall h :: h in TypeHeaders(path) ==> PlainHeader(h)
  {
    NamesPlain();
    match LastIndexOf(path, '.', |path|) {
      case None =>
      case Some(i) => MimePlain(ToExtension(path[i + 1..]));
    }
  }

  lemma {:induction false} ResponseHeadersWellFormed(close: bool, url: Option<string>, files: Files)
    ensures forall h :: h in ResponseHeaders(close, url, files) ==> PlainHeader(h)
    ensures ContentLength(ResponseHeaders(close, url, files))
         == Some(if url.Some? && url.value in files then |files[url.value]| else 0)
  {
    ResponseHeadersPlain(close, url, files);
    ThirdHeaderDecides(ResponseHeaders(close, url, files));
    if url.Some? && url.value in files {
      DecimalRoundTrip(|files[url.value]|);
    } else {
      assert Decimal(0) == "0";
      DecimalRoundTrip(0);
    }
  }

  lemma {:induction false} ThirdHeaderDecides(hs: seq<Header>)
    requires |hs| >= 3 && hs[0].key == "Server" && hs[1].key == "Connection" && hs[2].key == CONTENT_LENGTH
    ensures ContentLength(hs) == ParseDecimal(hs[2].value)
  {
    assert "Server" != CONTENT_LENGTH && "Connection" != CONTENT_LENGTH by {
      assert |"Server"| == 6 && |"Connection"| == 10 && |CONTENT_LENGTH| == 14;
    }
    assert hs[1..][0] == hs[1] && hs[1..][1..] == hs[2..] && hs[2..][0] == hs[2];
    assert ContentLength(hs[1..]) == ContentLength(hs[2..]);
  }

  /** Every error response and every file response with its file as body is well framed: its Content-Length is the
      length of its body (section 8.6 of RFC 9110). */
  lemma {:induction false} ServerMessagesWellFramed(close: bool, path: string, files: Files, code: string)
    requires code == RESPONSE_BAD_REQUEST || code == RESPONSE_NOT_FOUND
    ensures forall toHead :: WellFramed(ErrorMessage(code), toHead)
    ensures path in files ==> WellFramed(FileMessage(close, path, files), false)
  {
    StatusPlain();
    ResponseHeadersWellFormed(true, None, map[]);
    ResponseHeadersWellFormed(close, Some(path), files);
  }

  /** With any body, a file head is framed exactly when the body is what the reader expects: nothing for a HEAD
      request, as many bytes as the file has otherwise. */
  lemma {:induction false} FileHeadFramed(close: bool, path: string, files: Files, body: string, toHead: bool)
    requires path in files
    ensures WellFramed(FileHead(close, path, files).(body := body), toHead)
       <==> |body| == if toHead then 0 else |files[path]|
  {
    StatusPlain();
    ResponseHeadersWellFormed(close, Some(path), files);
  }
}
