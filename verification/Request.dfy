/** Requests (src/http/request.cc): parsing one frame, and the grammar it accepts. */
module Requests {
  import opened Strings
  import opened Splitting
  import opened Text
  import opened Headers

  const SPACE: string := " "
  const HEADER_CONNECTION: string := "Connection"
  const CONNECTION_KEEP_ALIVE: string := "Keep-Alive"
  const DEFAULT_ROUTE: string := "index.html"

  function Route(url: string): string {
    if url == "" || url[|url| - 1] == '/' then url + DEFAULT_ROUTE else url
  }

  /** The file a resource stands for: a directory stands for its `index.html`, anything else for itself. */
  ghost predicate IsResource(url: string, r: string) {
    && url <= r && r != "" && r[|r| - 1] != '/'
    && (r != url ==> (url == "" || url[|url| - 1] == '/') && r == url + "index.html")
  }

  lemma {:induction false} RouteIsResource(url: string, r: string)
    ensures r == Route(url) <==> IsResource(url, r)
  {
    assert (url + DEFAULT_ROUTE)[|url| + 9] == 'l';
  }

  /** The method and resource of a request line. */
  function ParseRequestLine(line: string): Option<(Method, string)> {
    var tokens := Split(line, SPACE);
    if |tokens| != 3 then None
    else if ToMethod(tokens[0]) == UNSUPPORTED_METHOD then None
    else if ToVersion(tokens[2]) == UNSUPPORTED_VERSION then None
    else Some((ToMethod(tokens[0]), Route(tokens[1])))
  }

  datatype HeaderLines = BadLine(line: string) | Good(headers: seq<Header>)

  function ParseHeaderLines(lines: seq<string>): HeaderLines {
    if lines == [] then Good([])
    else match ParseHeader(lines[0])
      case None => BadLine(lines[0])
      case Some(h) =>
        match ParseHeaderLines(lines[1..])
        case BadLine(line) => BadLine(line)
        case Good(hs) => Good([h] + hs)
  }

  /** The header asks for a persistent connection. */
  predicate AsksKeepAlive(h: Header) {
    Format(h.key) == Format(HEADER_CONNECTION) && Format(h.value) == Format(CONNECTION_KEEP_ALIVE)
  }

  predicate ClosesAfter(headers: seq<Header>) {
    forall h :: h in headers ==> !AsksKeepAlive(h)
  }

  datatype Parsed =
    | Invalid(reason: string)
    | Valid(method_: Method, url: string, headers: seq<Header>)

  function ParseRequest(s: string): Parsed {
    ParseTokens(Split(s, CRLF))
  }

  function ParseTokens(tokens: seq<string>): Parsed {
    if |tokens| < 2 || tokens[|tokens| - 1] != "" then Invalid("Request format wrong.")
    else match ParseRequestLine(tokens[0])
      case None => Invalid("Request line error")
      case Some((m, url)) =>
        match ParseHeaderLines(tokens[1..|tokens| - 1])
        case BadLine(line) => Invalid("Fail to parse header line:" + line)
        case Good(hs) => Valid(m, url, hs)
  }

  class Request {
    var method_: Method
    var version: Version
    var url: string
    var headers: seq<Header>
    var isValid: bool
    var shouldClose: bool
    var invalidReason: string

    /** The parsing constructor: fields are filled as far as the text is well formed. */
    constructor (text: string)
      ensures isValid == ParseRequest(text).Valid?
      ensures isValid ==> ParseRequest(text) == Valid(method_, url, headers)
      ensures isValid ==> version == HTTP_1_1 && shouldClose == ClosesAfter(headers)
      ensures !isValid ==> invalidReason == ParseRequest(text).reason
    {
      method_, version, url, headers := UNSUPPORTED_METHOD, UNSUPPORTED_VERSION, "", [];
      isValid, shouldClose, invalidReason := false, true, "";
      new;
      var tokens := SplitScan(text, CRLF);
      TakeTokens(tokens);
    }

    method TakeTokens(tokens: seq<string>)
      requires !isValid && headers == [] && shouldClose
      modifies this
      ensures isValid == ParseTokens(tokens).Valid?
      ensures isValid ==> ParseTokens(tokens) == Valid(method_, url, headers)
      ensures isValid ==> version == HTTP_1_1 && shouldClose == ClosesAfter(headers)
      ensures !isValid ==> invalidReason == ParseTokens(tokens).reason
    {
      if |tokens| < 2 || tokens[|tokens| - 1] != "" {
        invalidReason := "Request format wrong.";
        return;
      }
      var ok := TakeRequestLine(tokens[0]);
      if !ok {
        invalidReason := "Request line error";
        return;
      }
      isValid := TakeHeaders(tokens[1..|tokens| - 1]);
    }

    method TakeHeaders(lines: seq<string>) returns (ok: bool)
      requires headers == [] && shouldClose
      modifies `headers, `shouldClose, `invalidReason
      ensures ok == ParseHeaderLines(lines).Good?
      ensures ok ==> ParseHeaderLines(lines) == Good(headers) && shouldClose == ClosesAfter(headers)
      ensures !ok ==> invalidReason == "Fail to parse header line:" + ParseHeaderLines(lines).line
    {
      var i := 0;
      while i < |lines|
        invariant i <= |lines| && Taken(lines, i, headers, shouldClose)
      {
        ok := TakeHeader(lines, i);
        if !ok {
          FirstBadLine(lines, headers);
          return;
        }
        i := i + 1;
      }
      AllLinesGood(lines, headers);
      return true;
    }

    method TakeHeader(lines: seq<string>, i: nat) returns (ok: bool)
      requires i < |lines| && Taken(lines, i, headers, shouldClose)
      modifies `headers, `shouldClose, `invalidReason
      ensures ok ==> Taken(lines, i + 1, headers, shouldClose)
      ensures !ok ==> Taken(lines, i, headers, shouldClose) && ParseHeader(lines[i]).None?
      ensures !ok ==> invalidReason == "Fail to parse header line:" + lines[i]
    {
      var header := ParseHeader(lines[i]);
      if header.None? {
        invalidReason := "Fail to parse header line:" + lines[i];
        return false;
      }
      OneMoreTaken(lines, i, headers, shouldClose, header.value);
      CheckConnectionState(header.value);
      headers := headers + [header.value];
      return true;
    }

    /** A keep-alive header keeps the connection open after the answer. */
    method CheckConnectionState(header: Header)
      modifies `shouldClose
      ensures shouldClose == (old(shouldClose) && !AsksKeepAlive(header))
    {
      var key := Format(header.key);
      if key == Format(HEADER_CONNECTION) {
        var value := Format(header.value);
        if value == Format(CONNECTION_KEEP_ALIVE) {
          shouldClose := false;
        }
      }
    }

    method TakeRequestLine(line: string) returns (ok: bool)
      modifies `method_, `version, `url
      ensures ok == ParseRequestLine(line).Some?
      ensures ok ==> ParseRequestLine(line) == Some((method_, url)) && version == HTTP_1_1
      ensures ok ==> IsResource(Split(line, SPACE)[1], url)
    {
      var tokens := SplitScan(line, SPACE);
      if |tokens| != 3 {
        return false;
      }
      method_ := ToMethod(tokens[0]);
      if method_ == UNSUPPORTED_METHOD {
        return false;
      }
      version := ToVersion(tokens[2]);
      if version == UNSUPPORTED_VERSION {
        return false;
      }
      url := Route(tokens[1]);
      RouteIsResource(tokens[1], url);
      return true;
    }
  }

  /** The first lines gave these headers. */
  ghost predicate Gave(lines: seq<string>, hs: seq<Header>) {
    |hs| <= |lines| && forall j :: 0 <= j < |hs| ==> ParseHeader(lines[j]) == Some(hs[j])
  }

  /** The first `n` lines have been taken: these are their headers, and `closes` says whether none asks to keep the
      connection. */
  ghost predicate Taken(lines: seq<string>, n: nat, hs: seq<Header>, closes: bool) {
    n == |hs| && Gave(lines, hs) && closes == ClosesAfter(hs)
  }

  lemma {:induction false} OneMoreTaken(lines: seq<string>, n: nat, hs: seq<Header>, closes: bool, h: Header)
    requires Taken(lines, n, hs, closes) && n < |lines| && ParseHeader(lines[n]) == Some(h)
    ensures Taken(lines, n + 1, hs + [h], closes && !AsksKeepAlive(h))
  {
    GaveOneMore(lines, hs, h);
    OneMoreField(hs, h);
  }

  lemma {:induction false} GaveOneMore(lines: seq<string>, hs: seq<Header>, h: Header)
    requires Gave(lines, hs) && |hs| < |lines| && ParseHeader(lines[|hs|]) == Some(h)
    ensures Gave(lines, hs + [h])
  {
  }

  lemma {:induction false} OneMoreField(hs: seq<Header>, h: Header)
    ensures ClosesAfter(hs + [h]) <==> ClosesAfter(hs) && !AsksKeepAlive(h)
  {
    assert h in hs + [h];
    assert forall g :: g in hs ==> g in hs + [h];
  }

  lemma {:induction false} GoodLine(line: string, lines: seq<string>, h: Header)
    requires ParseHeader(line) == Some(h)
    ensures ParseHeaderLines([line] + lines) == match ParseHeaderLines(lines)
      case BadLine(bad) => BadLine(bad)
      case Good(hs) => Good([h] + hs)
  {
    assert ([line] + lines)[1..] == lines;
  }

  lemma {:induction false} FirstBadLine(lines: seq<string>, hs: seq<Header>)
    requires Gave(lines, hs) && |hs| < |lines| && ParseHeader(lines[|hs|]).None?
    ensures ParseHeaderLines(lines) == BadLine(lines[|hs|])
    decreases |hs|
  {
    if hs != [] {
      GaveTail(lines, hs);
      FirstBadLine(lines[1..], hs[1..]);
      GoodLine(lines[0], lines[1..], hs[0]);
      assert lines == [lines[0]] + lines[1..];
    }
  }

  lemma {:induction false} AllLinesGood(lines: seq<string>, hs: seq<Header>)
    requires Gave(lines, hs) && |hs| == |lines|
    ensures ParseHeaderLines(lines) == Good(hs)
    decreases |hs|
  {
    if hs != [] {
      GaveTail(lines, hs);
      AllLinesGood(lines[1..], hs[1..]);
      GoodLine(lines[0], lines[1..], hs[0]);
      assert lines == [lines[0]] + lines[1..] && hs == [hs[0]] + hs[1..];
    }
  }

  lemma {:induction false} GaveTail(lines: seq<string>, hs: seq<Header>)
    requires Gave(lines, hs) && hs != []
    ensures ParseHeader(lines[0]) == Some(hs[0]) && Gave(lines[1..], hs[1..])
  {
    assert forall j :: 0 <= j < |hs| - 1 ==> lines[1..][j] == lines[j + 1] && hs[1..][j] == hs[j + 1];
  }
}
