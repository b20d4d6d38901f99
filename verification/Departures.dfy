/** Inputs on which the server departs from what its clients may expect. The exact conditions are the theorems of
    `Handling`, `Transparency` and `EndOfStream`; these are requests, byte for byte, that meet them. */
module Departures {
  import opened Strings
  import opened Text
  import opened Buffers
  import opened Requests
  import opened Grammar
  import opened Responses
  import opened Lru
  import opened Handling
  import opened Serving
  import opened Transparency
  import opened ManyConnections
  import opened Reactor
  import EndToEnd
  import HttpServer
  import Stack = StackTheorem

  function MethodName(m: Method): string
    requires !m.UNSUPPORTED_METHOD?
  {
    if m == GET then "GET" else "HEAD"
  }

  function RequestLine(m: Method, url: string): string
    requires !m.UNSUPPORTED_METHOD?
  {
    MethodName(m) + " " + url + " " + "HTTP/1.1"
  }

  /** A request without header fields. */
  function BareRequest(m: Method, url: string): string
    requires !m.UNSUPPORTED_METHOD?
  {
    RequestLine(m, url) + CRLF2
  }

  predicate PlainUrl(url: string) {
    ' ' !in url && Plain(url)
  }

  lemma {:induction false} RequestLineOk(m: Method, url: string)
    requires !m.UNSUPPORTED_METHOD? && PlainUrl(url)
    ensures IsRequestLine(RequestLine(m, url), m, url) && Plain(RequestLine(m, url))
  {
    assert SameLetters("GET", "GET") && SameLetters("HEAD", "HEAD") && SameLetters("HTTP/1.1", "HTTP/1.1");
    assert Words(RequestLine(m, url), MethodName(m), url, "HTTP/1.1");
    assert Plain("GET") && Plain("HEAD") && Plain("HTTP/1.1") && Plain(" ");
  }

  /** A bare request is a frame and parses to what it says; it does not ask for a persistent connection. */
  lemma {:induction false} BareRequestParses(m: Method, url: string)
    requires !m.UNSUPPORTED_METHOD? && PlainUrl(url)
    ensures IsFrame(BareRequest(m, url), CRLF2)
    ensures ParseRequest(BareRequest(m, url)) == Valid(m, Route(url), [])
    ensures Frames(BareRequest(m, url), CRLF2) == [BareRequest(m, url)]
  {
    var line, f := RequestLine(m, url), BareRequest(m, url);
    RequestLineOk(m, url);
    LineBlockFirst(line, "");
    assert f + "" == f;
    PopFirst(f, "", CRLF2);
    assert Frames("", CRLF2) == [];
    PlainHasNoCrlf(line);
    assert Terminated([line]) + CRLF == f by {
      assert [line][1..] == [];
      assert line + CRLF + "" + CRLF == line + CRLF2;
    }
    RequestTextParses(f, [line], m, url);
    assert [line][1..] == [];
  }

  lemma {:induction false} CgiAlone(cfg: Config, url: string) returns (cgi: string)
    requires PlainUrl(url) && IsCgi(cfg.dir + Route(url))
    ensures cgi == BareRequest(GET, url) && IsFrame(cgi, CRLF2) && Decide(cfg, cgi).Cgi?
  {
    cgi := BareRequest(GET, url);
    BareRequestParses(GET, url);
  }

  lemma {:induction false} CgiTurn(cfg: Config, st: State, cgi: string, rest: string)
    requires st.open && st.buf == "" && IsFrame(cgi, CRLF2) && Decide(cfg, cgi).Cgi?
    ensures Handle(cfg, st, cgi + rest) == st.(buf := rest)
  {
    assert Feed(st, cgi + rest) == st.(buf := cgi + rest);
    PopFirst(cgi, rest, CRLF2);
    CgiPause(cfg, st.(buf := cgi + rest), cgi, rest, Decide(cfg, cgi));
  }

  lemma {:induction false} CgiPause(cfg: Config, st: State, f: string, rest: string, o: Outcome)
    requires st.open && PopTill(st.buf, CRLF2) == (Some(f), rest) && o == Decide(cfg, f) && o.Cgi?
    ensures Loop(cfg, st) == st.(buf := rest)
  {
  }

  lemma {:induction false} FrameIsConsumed(cfg: Config, st: State, f: string)
    requires st.open && st.buf == "" && IsFrame(f, CRLF2)
    ensures |Handle(cfg, st, f).buf| < |f|
  {
    assert Feed(st, f) == st.(buf := f);
    LoopShrinks(cfg, Feed(st, f));
  }

  lemma {:induction false} HandleTwo(cfg: Config, st: State, a: string, b: string)
    ensures HandleAll(cfg, st, [a, b]) == Handle(cfg, Handle(cfg, st, a), b)
  {
    var batches := [a, b];
    assert batches[1..] == [b] && [b][1..] == [];
    assert HandleAll(cfg, Handle(cfg, st, a), [b]) == HandleAll(cfg, Handle(cfg, Handle(cfg, st, a), b), []);
  }

  /** A CGI request with a request behind it in the same batch: the second one stays unanswered in the buffer, whereas
      it is consumed when it comes in a batch of its own. */
  lemma {:induction false} RequestBehindCgiWaits(cfg: Config, url: string, after: string, st: State)
    requires PlainUrl(url) && IsCgi(cfg.dir + Route(url)) && IsFrame(after, CRLF2)
    requires st.open && st.buf == ""
    ensures Handle(cfg, st, BareRequest(GET, url) + after) == st.(buf := after)
    ensures HandleAll(cfg, st, [BareRequest(GET, url), after]) == Handle(cfg, st, after)
    ensures |Handle(cfg, st, after).buf| < |after|
  {
    var cgi := CgiAlone(cfg, url);
    CgiTurn(cfg, st, cgi, after);
    CgiTurn(cfg, st, cgi, "");
    assert cgi + "" == cgi && st.(buf := "") == st;
    HandleTwo(cfg, st, cgi, after);
    FrameIsConsumed(cfg, st, after);
  }

  lemma {:induction false} FirstAccess(files: Files, capacity: int, path: string)
    requires path in files && |files[path]| <= capacity
    ensures Stack.Stored([path], files)
    ensures Stack.AccessAll([], capacity, files, [path]) == [Entry(path, files[path])]
  {
    assert [path][..0] == [];
    assert Evict([], capacity, |files[path]|) == [];
  }

  lemma {:induction false} HitIsLeaked(cfg: Config, path: string, data: string)
    requires path in cfg.files
    ensures AllPossible(cfg, [Serve(path, true, true)])
    ensures Leaked(cfg, [Entry(path, data)], [Serve(path, true, true)]) == |data|
  {
    var cache := [Entry(path, data)];
    assert cache[0] in cache && HasKey(cache, path) && IndexOf(cache, path) == 0;
  }

  /** A GET on one connection and then a HEAD for the same file on another: the cache is warm, so the answer to HEAD
      carries the whole file. */
  lemma {:induction false} HeadAfterGetLeaks(cfg: Config, url: string)
    requires PlainUrl(url)
    requires var path := cfg.dir + Route(url);
      path in cfg.files && !IsCgi(path) && 0 < |cfg.files[path]| <= cfg.capacity
    ensures var events := [Data(0, BareRequest(GET, url)), Data(1, BareRequest(HEAD, url))];
      LeakedTo(cfg, Server(map[], []), 1, events) == |cfg.files[cfg.dir + Route(url)]|
  {
    var path := cfg.dir + Route(url);
    var sv0, get, head := Server(map[], []), Data(0, BareRequest(GET, url)), Data(1, BareRequest(HEAD, url));
    FreshConnectionAsks(cfg, GET, url);
    FreshConnectionAsks(cfg, HEAD, url);
    CallAccesses(cfg, Conn(true, "", ""), [], get);
    assert Paths([Serve(path, false, true)]) == [path];
    FirstAccess(cfg.files, cfg.capacity, path);
    var sv1 := ServeEvent(cfg, sv0, get);
    assert sv1.cache == [Entry(path, cfg.files[path])];
    HitIsLeaked(cfg, path, cfg.files[path]);
    TwoEvents(cfg, sv0, 1, get, head);
  }

  lemma {:induction false} TwoEvents(cfg: Config, sv: Server, id: nat, e: Event, f: Event)
    requires e.id != id && f.id == id
    ensures LeakedTo(cfg, sv, id, [e, f])
         == Leaked(cfg, ServeEvent(cfg, sv, e).cache, AskedBy(cfg, ConnOf(sv, id), f))
  {
    var events, sv1 := [e, f], ServeEvent(cfg, sv, e);
    assert events[1..] == [f] && [f][1..] == [];
    assert ConnOf(sv1, id) == ConnOf(sv, id);
    assert LeakedTo(cfg, ServeEvent(cfg, sv1, f), id, []) == 0;
    assert LeakedTo(cfg, sv1, id, [f]) == Leaked(cfg, sv1.cache, AskedBy(cfg, ConnOf(sv1, id), f));
  }

  lemma {:induction false} FreshConnectionAsks(cfg: Config, m: Method, url: string)
    requires !m.UNSUPPORTED_METHOD? && PlainUrl(url)
    requires cfg.dir + Route(url) in cfg.files && !IsCgi(cfg.dir + Route(url))
    ensures AskedBy(cfg, Conn(true, "", ""), Data(0, BareRequest(m, url)))
         == [Serve(cfg.dir + Route(url), m == HEAD, true)]
    ensures AskedBy(cfg, Conn(true, "", ""), Data(1, BareRequest(m, url)))
         == [Serve(cfg.dir + Route(url), m == HEAD, true)]
  {
    BareRequestAsks(cfg, m, url);
    assert "" + BareRequest(m, url) == BareRequest(m, url);
  }

  lemma {:induction false} BareRequestAsks(cfg: Config, m: Method, url: string)
    requires !m.UNSUPPORTED_METHOD? && PlainUrl(url)
    requires cfg.dir + Route(url) in cfg.files && !IsCgi(cfg.dir + Route(url))
    ensures Asked(cfg, BareRequest(m, url)) == [Serve(cfg.dir + Route(url), m == HEAD, true)]
  {
    BareRequestParses(m, url);
    BareRequestDecided(cfg, BareRequest(m, url), m, Route(url));
    OutcomesCons(cfg, BareRequest(m, url), []);
  }

  lemma {:induction false} BareRequestDecided(cfg: Config, f: string, m: Method, route: string)
    requires ParseRequest(f) == Valid(m, route, [])
    requires cfg.dir + route in cfg.files && !IsCgi(cfg.dir + route)
    ensures Decide(cfg, f) == Serve(cfg.dir + route, m == HEAD, true)
  {
  }

  lemma {:induction false} BareRequestAnswerable(cfg: Config, m: Method, url: string)
    requires !m.UNSUPPORTED_METHOD? && PlainUrl(url) && !IsCgi(cfg.dir + Route(url))
    ensures !Decide(cfg, BareRequest(m, url)).Cgi?
  {
    BareRequestParses(m, url);
  }

  lemma {:induction false} OneDelivery(data: string)
    requires data != ""
    ensures !PeerGone([Received(data)]) && Delivered([Received(data)]) == data
    ensures PeerGone([Received(data), Received("")])
  {
    var r, x := Received(data), Received("");
    assert [r][1..] == [] && [r, x][1..] == [x];
    assert RecvEnd([x]) == 0 && RecvEnd([r]) == 1 && RecvEnd([r, x]) == 1;
    assert [r][..1] == [r] && Chunks([]) == "" && data + "" == data;
  }

  /** A request on a fresh connection gets its answer, unless the client has closed its sending side by the time the
      server reads it: then nothing is sent and the connection is dropped. */
  lemma {:induction false} RequestWithEndOfStreamIgnored(cfg: Config, st: State, m: Method, url: string)
    requires !m.UNSUPPORTED_METHOD? && PlainUrl(url) && !IsCgi(cfg.dir + Route(url))
    requires st.open && st.buf == ""
    ensures var request := BareRequest(m, url);
      && !Decide(cfg, request).Cgi?
      && HttpServer.AfterCall(cfg, st, [Received(request)]).sent
         == st.sent + Encode(Reply(cfg, Decide(cfg, request), st.cache))
      && HttpServer.AfterCall(cfg, st, [Received(request), Received("")]) == State(false, "", st.sent, st.cache)
  {
    var request := BareRequest(m, url);
    BareRequestParses(m, url);
    BareRequestAnswerable(cfg, m, url);
    OneDelivery(request);
    EndToEnd.OneFrame(cfg, st, request);
  }

  /** The protocol version in the status line is not the one of section 2.3 of RFC 9112, whose letter case matters: it
      becomes that one only when letter case is ignored. */
  lemma {:induction false} StatusLineMisspellsVersion(code: string)
    ensures !("HTTP/1.1" <= StatusLine(code))
    ensures "HTTP/1.1" <= ToUpper(StatusLine(code))
  {
    assert StatusLine(code)[1] == 't' && "HTTP/1.1"[1] == 'T';
    assert ToUpper(HTTP_VERSION) == "HTTP/1.1";
  }
}
