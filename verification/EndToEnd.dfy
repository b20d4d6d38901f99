/** From the bytes of a request to the bytes of its answer: what a frame is decided to be, read off its text, and what
    the client gets for it. */
module EndToEnd {
  import opened Strings
  import opened Text
  import opened Buffers
  import opened Requests
  import opened Grammar
  import opened Responses
  import opened Lru
  import opened Handling
  import opened Serving
  import opened Transparency

  // ---- The decision ----

  /** Some header line asks to keep the connection. */
  ghost predicate KeepsConnection(lines: seq<string>) {
    exists i :: 1 <= i < |lines| && IsKeepAliveLine(lines[i])
  }

  /** What a valid request asks for, from its method, the resource it stands for, and its lines. */
  ghost predicate AsksFor(cfg: Config, lines: seq<string>, m: Method, r: string, o: Outcome) {
    var path := cfg.dir + r;
    if Occurs(path, "cgi_bin") then o == Cgi
    else if path !in cfg.files then o == Missing
    else o == Serve(path, m == HEAD, !KeepsConnection(lines))
  }

  lemma {:induction false} DecideParsed(cfg: Config, s: string, m: Method, r: string, headers: seq<Headers.Header>)
    requires ParseRequest(s) == Valid(m, r, headers)
    ensures var path := cfg.dir + r;
      Decide(cfg, s) == if IsCgi(path) then Cgi else if path !in cfg.files then Missing
                        else Serve(path, m == HEAD, ClosesAfter(headers))
  {
  }

  lemma {:induction false} CgiMarker(path: string)
    ensures IsCgi(path) <==> Occurs(path, "cgi_bin")
  {
  }

  /** The decision on a valid request: CGI by the marker in its path, missing by the files, and otherwise the file, to a
      HEAD request or not, closing the connection unless a header line asks to keep it. */
  lemma {:induction false} RequestDecided(cfg: Config, s: string, lines: seq<string>, m: Method, url: string)
      returns (r: string)
    requires IsRequestText(s, lines, m, url)
    ensures IsResource(url, r) && AsksFor(cfg, lines, m, r, Decide(cfg, s))
  {
    RequestTextParses(s, lines, m, url);
    KeepAliveDetected(s, lines, m, url);
    var p := ParseRequest(s);
    r := p.url;
    RouteIsResource(url, r);
    DecideParsed(cfg, s, m, r, p.headers);
    CgiMarker(cfg.dir + r);
  }

  lemma {:induction false} DecideInvalid(cfg: Config, s: string)
    ensures Decide(cfg, s).Bad? <==> ParseRequest(s).Invalid?
  {
  }

  /** Exactly the texts that are no request are bad requests. */
  lemma {:induction false} BadExactly(cfg: Config, s: string)
    ensures Decide(cfg, s).Bad? <==> !exists lines, m, url :: IsRequestText(s, lines, m, url)
  {
    DecideInvalid(cfg, s);
    RequestAccepted(s);
  }

  /** `o` is what the text of the frame asks for. */
  ghost predicate AskedByText(cfg: Config, s: string, o: Outcome) {
    && (o.Bad? <==> !exists lines, m, url :: IsRequestText(s, lines, m, url))
    && forall lines, m, url, r :: IsRequestText(s, lines, m, url) && IsResource(url, r) ==> AsksFor(cfg, lines, m, r, o)
  }

  lemma {:induction false} RequestOutcome(cfg: Config, s: string, lines: seq<string>, m: Method, url: string, r: string)
      returns (o: Outcome)
    requires IsRequestText(s, lines, m, url) && IsResource(url, r)
    ensures o == Decide(cfg, s) && AsksFor(cfg, lines, m, r, o)
  {
    o := Decide(cfg, s);
    var r' := RequestDecided(cfg, s, lines, m, url);
    RouteIsResource(url, r);
    RouteIsResource(url, r');
  }

  /** The decision on every text. */
  lemma {:induction false} DecidedByText(cfg: Config, s: string)
    ensures AskedByText(cfg, s, Decide(cfg, s))
  {
    BadExactly(cfg, s);
    forall lines, m, url, r | IsRequestText(s, lines, m, url) && IsResource(url, r)
      ensures AsksFor(cfg, lines, m, r, Decide(cfg, s))
    {
      var _ := RequestOutcome(cfg, s, lines, m, url, r);
    }
  }

  // ---- The answer ----

  /** The state after the only frame in the buffer, by what it asks for. */
  lemma {:induction false} OneFrame(cfg: Config, st: State, f: string)
    requires st.open && st.buf == "" && IsFrame(f, CRLF2)
    ensures var o, end := Decide(cfg, f), Handle(cfg, st, f);
      && (o.Cgi? ==> end == st)
      && (!o.Cgi? ==> end == State(!Closes(o), "", st.sent + Encode(Reply(cfg, o, st.cache)),
                                   CacheAfter(cfg, o, st.cache)))
  {
    var fed := Feed(st, f);
    assert fed.buf == "" + f == f && f + "" == f;
    PopFirst(f, "", CRLF2);
    var f', o, rest, next := Turn(cfg, fed);
    assert Frames("", CRLF2) == [];
    SameFirst(f', rest, f, "", Frames(rest, CRLF2), []);
    OutcomesCons(cfg, f, []);
    AskedIs(cfg, f, o, rest);
    if next.open && !o.Cgi? {
      Idle(cfg, next);
    }
  }

  lemma {:induction false} AskedIs(cfg: Config, f: string, o: Outcome, rest: string)
    requires Frames(f, CRLF2) == [f] && Asked(cfg, f) == [o] + Asked(cfg, rest)
    ensures o == Decide(cfg, f)
  {
    OutcomesCons(cfg, f, []);
    assert [f] + [] == [f];
    assert ([o] + Asked(cfg, rest))[0] == o;
  }

  /** The body of the answer to a request for an existing file, with a cache of true copies. */
  lemma {:induction false} ServedBody(cfg: Config, path: string, toHead: bool, close: bool, cache: Entries)
    requires path in cfg.files && Consistent(cache, cfg.files)
    ensures Reply(cfg, Serve(path, toHead, close), cache).body
         == if toHead && !HasKey(cache, path) then "" else cfg.files[path]
  {
    if HasKey(cache, path) {
      assert cache[IndexOf(cache, path)] in cache;
    }
  }

  /** A request for an existing file, from its bytes to the bytes of its answer. The head is printed line by line; the
      file follows a GET request and, if it is cached, a HEAD request too. The connection stays open exactly when a header
      line asks for that. */
  lemma {:induction false} FileRequestAnswered(cfg: Config, st: State, s: string, lines: seq<string>, m: Method,
                                               url: string, r: string)
      returns (types: seq<string>)
    requires IsRequestText(s, lines, m, url) && IsResource(url, r)
    requires cfg.dir + r in cfg.files && !Occurs(cfg.dir + r, "cgi_bin")
    requires st.open && st.buf == "" && Consistent(st.cache, cfg.files)
    ensures IsTypeLine(cfg.dir + r, types)
    ensures var path, end, keep := cfg.dir + r, Handle(cfg, st, s), KeepsConnection(lines);
      && end.sent == st.sent
           + Block(["Http/1.1 200 OK", "Server:Icee/1.0", if keep then "Connection:Keep-Alive" else "Connection:Close",
                    "Content-Length:" + Decimal(|cfg.files[path]|)] + types)
           + (if m == GET || HasKey(st.cache, path) then cfg.files[path] else "")
      && end.open == keep && end.buf == ""
  {
    var o := RequestOutcome(cfg, s, lines, m, url, r);
    var path := cfg.dir + r;
    RequestTextParses(s, lines, m, url);
    RequestIsFrame(s);
    OneFrame(cfg, st, s);
    ServedBody(cfg, path, m == HEAD, o.close, st.cache);
    types := FileAnswerBytes(cfg, o, st.cache);
    assert m != UNSUPPORTED_METHOD by { SupportedMethod(lines[0], m, url); }
    SentBehind(st.sent, Reply(cfg, o, st.cache).body,
               Block(["Http/1.1 200 OK", "Server:Icee/1.0", ConnectionLine(o.close),
                      "Content-Length:" + Decimal(|cfg.files[path]|)] + types));
  }

  lemma {:induction false} SupportedMethod(line: string, m: Method, url: string)
    requires IsRequestLine(line, m, url)
    ensures m != UNSUPPORTED_METHOD
  {
  }

  lemma {:induction false} SentBehind(sent: string, body: string, head: string)
    ensures sent + (head + body) == sent + head + body
  {
  }

  lemma {:induction false} FileAnswerBytes(cfg: Config, o: Outcome, cache: Entries) returns (types: seq<string>)
    requires o.Serve? && o.path in cfg.files
    ensures IsTypeLine(o.path, types)
    ensures Encode(Reply(cfg, o, cache))
         == Block(["Http/1.1 200 OK", "Server:Icee/1.0", ConnectionLine(o.close),
                   "Content-Length:" + Decimal(|cfg.files[o.path]|)] + types) + Reply(cfg, o, cache).body
  {
    ReplyPrintsHead(cfg, o, cache);
    var ls :| IsHead(cfg, o, ls) && Encode(Reply(cfg, o, cache)) == Block(ls) + Reply(cfg, o, cache).body;
    types :| IsTypeLine(o.path, types)
      && ls == ["Http/1.1 200 OK", "Server:Icee/1.0", ConnectionLine(o.close),
                "Content-Length:" + Decimal(|cfg.files[o.path]|)] + types;
  }

  /** The whole answer to what is refused. */
  function Refusal(status: string): string {
    Block([status, "Server:Icee/1.0", "Connection:Close", "Content-Length:0"])
  }

  lemma {:induction false} RefusalBytes(cfg: Config, o: Outcome, cache: Entries)
    requires o.Bad? || o.Missing?
    ensures Encode(Reply(cfg, o, cache))
         == Refusal(if o.Bad? then "Http/1.1 400 Bad Request" else "Http/1.1 404 Not Found")
  {
    ReplyPrintsHead(cfg, o, cache);
    var ls :| IsHead(cfg, o, ls) && Encode(Reply(cfg, o, cache)) == Block(ls) + Reply(cfg, o, cache).body;
    assert Block(ls) + "" == Block(ls);
  }

  /** A frame that is no request gets a 400 and loses its connection. */
  lemma {:induction false} BadRequestRefused(cfg: Config, st: State, f: string)
    requires IsFrame(f, CRLF2) && !exists lines, m, url :: IsRequestText(f, lines, m, url)
    requires st.open && st.buf == ""
    ensures Handle(cfg, st, f) == State(false, "", st.sent + Refusal("Http/1.1 400 Bad Request"), st.cache)
  {
    BadExactly(cfg, f);
    OneFrame(cfg, st, f);
    RefusalBytes(cfg, Decide(cfg, f), st.cache);
  }

  /** A request for a file that does not exist gets a 404 and loses its connection, whatever its header lines say. */
  lemma {:induction false} MissingFileRefused(cfg: Config, st: State, s: string, lines: seq<string>, m: Method,
                                              url: string, r: string)
    requires IsRequestText(s, lines, m, url) && IsResource(url, r)
    requires cfg.dir + r !in cfg.files && !Occurs(cfg.dir + r, "cgi_bin")
    requires st.open && st.buf == ""
    ensures Handle(cfg, st, s) == State(false, "", st.sent + Refusal("Http/1.1 404 Not Found"), st.cache)
  {
    var o := RequestOutcome(cfg, s, lines, m, url, r);
    RequestTextParses(s, lines, m, url);
    RequestIsFrame(s);
    OneFrame(cfg, st, s);
    RefusalBytes(cfg, o, st.cache);
  }

  /** A CGI request gets nothing: its frame is dropped and the connection stays as it was. */
  lemma {:induction false} CgiRequestDropped(cfg: Config, st: State, s: string, lines: seq<string>, m: Method,
                                             url: string, r: string)
    requires IsRequestText(s, lines, m, url) && IsResource(url, r) && Occurs(cfg.dir + r, "cgi_bin")
    requires st.open && st.buf == ""
    ensures Handle(cfg, st, s) == st
  {
    var o := RequestOutcome(cfg, s, lines, m, url, r);
    RequestTextParses(s, lines, m, url);
    RequestIsFrame(s);
    OneFrame(cfg, st, s);
  }
}
