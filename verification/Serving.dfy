/** What a call of the handler sends: one answer for each consumed frame, readable by the client, the same as a server
    without a cache would send except for HEAD requests, and with the cache determined by the requests alone. */
module Serving {
  import opened Strings
  import opened Splitting
  import opened Text
  import opened Headers
  import opened Buffers
  import opened Responses
  import opened Lru
  import opened Handling
  import Grammar
  import Requests
  import Stack = StackTheorem

  /** The frames one call consumes: up to the first that closes or is a CGI request. */
  function Consumed(os: seq<Outcome>): (n: nat)
    ensures n <= |os|
  {
    if os == [] then 0
    else if os[0].Cgi? || Closes(os[0]) then 1
    else 1 + Consumed(os[1..])
  }

  /** The answers one call sends. */
  function Served(cfg: Config, cache: Entries, os: seq<Outcome>): seq<Message>
    requires AllPossible(cfg, os)
    decreases |os|
  {
    if os == [] || os[0].Cgi? then []
    else
      [Reply(cfg, os[0], cache)]
      + if Closes(os[0]) then [] else Served(cfg, CacheAfter(cfg, os[0], cache), os[1..])
  }

  /** The files one call looks up, in order. */
  function Paths(os: seq<Outcome>): seq<string> {
    if os == [] || os[0].Cgi? then []
    else (if os[0].Serve? then [os[0].path] else []) + if Closes(os[0]) then [] else Paths(os[1..])
  }

  predicate ToHead(o: Outcome) {
    o.Serve? && o.toHead
  }

  function HeadFlags(os: seq<Outcome>): (fs: seq<bool>)
    ensures |fs| == |os| && forall i :: 0 <= i < |os| ==> fs[i] == ToHead(os[i])
  {
    seq(|os|, i requires 0 <= i < |os| => ToHead(os[i]))
  }

  // ---- One call ----

  lemma {:induction false} EncodeAllCons(m: Message, ms: seq<Message>)
    ensures EncodeAll([m] + ms) == Encode(m) + EncodeAll(ms)
  {
    assert ([m] + ms)[1..] == ms;
  }

  lemma {:induction false} ServedCons(cfg: Config, cache: Entries, o: Outcome, os: seq<Outcome>)
    requires Possible(cfg, o) && AllPossible(cfg, os) && !o.Cgi?
    ensures AllPossible(cfg, [o] + os)
    ensures Served(cfg, cache, [o] + os)
         == [Reply(cfg, o, cache)] + if Closes(o) then [] else Served(cfg, CacheAfter(cfg, o, cache), os)
    ensures Paths([o] + os) == (if o.Serve? then [o.path] else []) + if Closes(o) then [] else Paths(os)
    ensures Consumed([o] + os) == if Closes(o) then 1 else 1 + Consumed(os)
  {
    assert ([o] + os)[1..] == os;
  }

  /** One turn, seen from what it consumes. */
  lemma {:induction false} Turn(cfg: Config, st: State) returns (f: string, o: Outcome, rest: string, next: State)
    requires Ready(st)
    ensures st.buf == f + rest && f != "" && Frames(st.buf, CRLF2) == [f] + Frames(rest, CRLF2)
    ensures Possible(cfg, o) && Asked(cfg, st.buf) == [o] + Asked(cfg, rest)
    ensures o.Cgi? ==> next == st.(buf := rest)
    ensures !o.Cgi? ==> next == State(!Closes(o), if Closes(o) then "" else rest,
                                      st.sent + Encode(Reply(cfg, o, st.cache)), CacheAfter(cfg, o, st.cache))
    ensures Loop(cfg, st) == if o.Cgi? || !next.open then next else Loop(cfg, next)
    ensures Through(cfg, st) == if next.open then Through(cfg, next) else next
  {
    f, rest := PopAppend(st.buf, "", CRLF2);
    o, next := Decide(cfg, f), Step(cfg, st);
    AskedFirst(cfg, st);
  }

  lemma {:induction false} Idle(cfg: Config, st: State)
    requires st.open && !Ready(st)
    ensures Loop(cfg, st) == st && Frames(st.buf, CRLF2) == [] && Asked(cfg, st.buf) == []
  {
    AskedNothing(cfg, st);
  }

  /** One call sends the answers to the consumed frames, in order. */
  lemma {:induction false} LoopSends(cfg: Config, st: State)
    requires st.open
    ensures Loop(cfg, st).sent == st.sent + EncodeAll(Served(cfg, st.cache, Asked(cfg, st.buf)))
    decreases |st.buf|
  {
    if !Ready(st) {
      Idle(cfg, st);
    } else {
      var f, o, rest, next := Turn(cfg, st);
      if !o.Cgi? {
        if next.open {
          LoopSends(cfg, next);
        }
        ServedSends(cfg, st.cache, o, Asked(cfg, rest), st.sent);
      }
    }
  }

  lemma {:induction false} ServedSends(cfg: Config, cache: Entries, o: Outcome, os: seq<Outcome>, sent: string)
    requires Possible(cfg, o) && AllPossible(cfg, os) && !o.Cgi?
    ensures AllPossible(cfg, [o] + os)
    ensures sent + EncodeAll(Served(cfg, cache, [o] + os)) == (sent + Encode(Reply(cfg, o, cache)))
      + EncodeAll(if Closes(o) then [] else Served(cfg, CacheAfter(cfg, o, cache), os))
  {
    ServedCons(cfg, cache, o, os);
    var ms := if Closes(o) then [] else Served(cfg, CacheAfter(cfg, o, cache), os);
    EncodeAllCons(Reply(cfg, o, cache), ms);
  }

  /** The head announces that the server will close the connection. */
  predicate SaysClose(m: Message) {
    Header("Connection", "Close") in m.headers
  }

  lemma {:induction false} ConnectionHeader(close: bool, url: Option<string>, files: Files)
    ensures Header("Connection", "Close") in ResponseHeaders(close, url, files) <==> close
  {
    assert |"Close"| != |"Keep-Alive"|;
    assert |"Server"| == 6 && |"Connection"| == 10 && |CONTENT_LENGTH| == 14 && |"Content-Type"| == 12;
    var h, base, rest := Header("Connection", "Close"), BaseHeaders(close), FileHeaders(url, files);
    assert base[0] != h && (base[1] == h <==> close);
    assert forall g :: g in rest ==> |g.key| != 10;
    assert h !in rest;
    assert h in base <==> close;
  }

  lemma {:induction false} ReplySaysClose(cfg: Config, o: Outcome, cache: Entries)
    requires Possible(cfg, o) && !o.Cgi?
    ensures SaysClose(Reply(cfg, o, cache)) <==> Closes(o)
  {
    ConnectionHeader(true, None, map[]);
    if o.Serve? {
      ConnectionHeader(o.close, Some(o.path), cfg.files);
    }
  }

  /** The line that gives the type of a file: none without a dot, otherwise by what follows the last one. */
  ghost predicate IsTypeLine(path: string, types: seq<string>) {
    if '.' !in path then types == []
    else exists stem, extension, mime ::
      && path == stem + "." + extension && '.' !in extension
      && IsMimeOf(extension, mime) && types == ["Content-Type:" + mime]
  }

  function ConnectionLine(close: bool): string {
    if close then "Connection:Close" else "Connection:Keep-Alive"
  }

  /** The head that answers `o`, line by line. */
  ghost predicate IsHead(cfg: Config, o: Outcome, ls: seq<string>) {
    match o
    case Bad => ls == ["Http/1.1 400 Bad Request", "Server:Icee/1.0", "Connection:Close", "Content-Length:0"]
    case Missing => ls == ["Http/1.1 404 Not Found", "Server:Icee/1.0", "Connection:Close", "Content-Length:0"]
    case Cgi => false
    case Serve(path, _, close) =>
      && path in cfg.files
      && exists types ::
           && IsTypeLine(path, types)
           && ls == ["Http/1.1 200 OK", "Server:Icee/1.0", ConnectionLine(close),
                     "Content-Length:" + Decimal(|cfg.files[path]|)] + types
  }

  /** `m` is printed as the head that answers `o` and its body. */
  ghost predicate PrintsHead(cfg: Config, o: Outcome, m: Message) {
    exists ls :: IsHead(cfg, o, ls) && Encode(m) == Block(ls) + m.body
  }

  lemma {:induction false} TypeLineOf(path: string) returns (types: seq<string>)
    ensures IsTypeLine(path, types) && FieldLines(TypeHeaders(path)) == types
  {
    match LastIndexOf(path, '.', |path|) {
      case None =>
        types := [];
        assert path[..|path|] == path;
      case Some(i) =>
        var mime := TypeHeadersAt(path, i);
        types := ["Content-Type:" + mime];
        LastDot(path, i, mime);
        TypeField(mime);
    }
  }

  lemma {:induction false} TypeHeadersAt(path: string, i: nat) returns (mime: string)
    requires LastIndexOf(path, '.', |path|) == Some(i)
    ensures TypeHeaders(path) == [Header("Content-Type", mime)] && IsMimeOf(path[i + 1..], mime)
  {
    mime := ExtensionToMime(ToExtension(path[i + 1..]));
    MimeOfExtension(path[i + 1..]);
  }

  lemma {:induction false} LastDot(path: string, i: nat, mime: string)
    requires LastIndexOf(path, '.', |path|) == Some(i) && IsMimeOf(path[i + 1..], mime)
    ensures IsTypeLine(path, ["Content-Type:" + mime])
  {
    var stem, extension := path[..i], path[i + 1..];
    assert path[i + 1..|path|] == extension;
    assert path == stem + "." + extension && path[i] in path;
  }

  lemma {:induction false} TypeField(mime: string)
    ensures FieldLines([Header("Content-Type", mime)]) == ["Content-Type:" + mime]
  {
    OneField("Content-Type", mime);
    assert "Content-Type" + COLON == "Content-Type:";
  }

  lemma {:induction false} OneField(key: string, value: string)
    ensures FieldLines([Header(key, value)]) == [key + COLON + value]
  {
    assert FieldLines([Header(key, value)][1..]) == [];
  }

  lemma {:induction false} FieldLinesAppend(a: seq<Header>, b: seq<Header>)
    ensures FieldLines(a + b) == FieldLines(a) + FieldLines(b)
  {
    assert forall i :: 0 <= i < |a| ==> (a + b)[i] == a[i];
    assert forall i :: 0 <= i < |b| ==> (a + b)[|a| + i] == b[i];
  }

  lemma {:induction false} BaseLines(close: bool)
    ensures FieldLines(BaseHeaders(close))
         == ["Server:Icee/1.0", ConnectionLine(close)]
  {
    var hs := BaseHeaders(close);
    assert FieldLine(hs[0]) == "Server:Icee/1.0";
    assert FieldLine(hs[1]) == ConnectionLine(close);
  }

  lemma {:induction false} ErrorLines()
    ensures FieldLines(ResponseHeaders(true, None, map[])) == ["Server:Icee/1.0", "Connection:Close", "Content-Length:0"]
  {
    BaseLines(true);
    FieldLinesAppend(BaseHeaders(true), FileHeaders(None, map[]));
    OneField(CONTENT_LENGTH, "0");
    assert CONTENT_LENGTH + COLON + "0" == "Content-Length:0";
  }

  lemma {:induction false} FileLines(close: bool, path: string, files: Files) returns (types: seq<string>)
    requires path in files
    ensures IsTypeLine(path, types)
    ensures FieldLines(ResponseHeaders(close, Some(path), files))
         == ["Server:Icee/1.0", ConnectionLine(close), "Content-Length:" + Decimal(|files[path]|)] + types
  {
    var length := [Header(CONTENT_LENGTH, Decimal(|files[path]|))];
    BaseLines(close);
    types := TypeLineOf(path);
    FieldLinesAppend(BaseHeaders(close), FileHeaders(Some(path), files));
    FieldLinesAppend(length, TypeHeaders(path));
    OneField(CONTENT_LENGTH, Decimal(|files[path]|));
    assert CONTENT_LENGTH + COLON == "Content-Length:";
  }

  /** The status lines, as they are printed. */
  lemma {:induction false} StatusLines()
    ensures StatusLine(RESPONSE_OK) == "Http/1.1 200 OK"
    ensures StatusLine(RESPONSE_BAD_REQUEST) == "Http/1.1 400 Bad Request"
    ensures StatusLine(RESPONSE_NOT_FOUND) == "Http/1.1 404 Not Found"
  {
  }

  function HeadOf(m: Message): seq<string> {
    [m.status] + FieldLines(m.headers)
  }

  lemma {:induction false} ErrorHeads(cfg: Config)
    ensures IsHead(cfg, Bad, HeadOf(ErrorMessage(RESPONSE_BAD_REQUEST)))
    ensures IsHead(cfg, Missing, HeadOf(ErrorMessage(RESPONSE_NOT_FOUND)))
  {
    ErrorLines();
    StatusLines();
  }

  lemma {:induction false} FileHeads(cfg: Config, path: string, toHead: bool, close: bool)
    requires path in cfg.files
    ensures IsHead(cfg, Serve(path, toHead, close), HeadOf(FileHead(close, path, cfg.files)))
  {
    StatusLines();
    var types := FileLines(close, path, cfg.files);
    FourLines("Http/1.1 200 OK", "Server:Icee/1.0", ConnectionLine(close),
              "Content-Length:" + Decimal(|cfg.files[path]|), types);
  }

  lemma {:induction false} FourLines(a: string, b: string, c: string, d: string, types: seq<string>)
    ensures [a] + ([b, c, d] + types) == [a, b, c, d] + types
  {
  }

  /** Every answer prints the head that its request calls for. */
  lemma {:induction false} ReplyPrintsHead(cfg: Config, o: Outcome, cache: Entries)
    requires Possible(cfg, o) && !o.Cgi?
    ensures PrintsHead(cfg, o, Reply(cfg, o, cache))
  {
    EncodeIsBlock(Reply(cfg, o, cache));
    ErrorHeads(cfg);
    if o.Serve? {
      FileHeads(cfg, o.path, o.toHead, o.close);
    }
    assert IsHead(cfg, o, HeadOf(Reply(cfg, o, cache)));
  }

  /** The head of `m` is the one that `o` calls for; the cache can only influence the body. */
  predicate Answers(cfg: Config, m: Message, o: Outcome) {
    match o
    case Bad => m == ErrorMessage(RESPONSE_BAD_REQUEST)
    case Missing => m == ErrorMessage(RESPONSE_NOT_FOUND)
    case Cgi => false
    case Serve(path, _, close) => m.(body := "") == FileHead(close, path, cfg.files)
  }

  /** The answers `ms` to the first `n` requests: one each and in order, except that a CGI request, which can only be
      the last one, has none. An answer says Connection:Close exactly when its request closes, which only the last
      one does. */
  ghost predicate Exchange(cfg: Config, os: seq<Outcome>, n: nat, ms: seq<Message>) {
    EndsAt(os, n, |ms|) && AllAnswered(cfg, os, ms)
  }

  /** A call consumes the first `n` requests and gives `k` answers. */
  ghost predicate EndsAt(os: seq<Outcome>, n: nat, k: nat) {
    && n <= |os|
    && k == (if n > 0 && os[n - 1].Cgi? then n - 1 else n)
    && (n < |os| ==> n > 0 && (os[n - 1].Cgi? || Closes(os[n - 1])))
    && (forall i :: 0 <= i < n - 1 ==> !os[i].Cgi? && !Closes(os[i]))
  }

  ghost predicate AllAnswered(cfg: Config, os: seq<Outcome>, ms: seq<Message>) {
    |ms| <= |os| && forall i :: 0 <= i < |ms| ==> AnswersAndCloses(cfg, ms[i], os[i])
  }

  predicate AnswersAndCloses(cfg: Config, m: Message, o: Outcome) {
    Answers(cfg, m, o) && (SaysClose(m) <==> Closes(o))
  }

  lemma {:induction false} EndsAtCons(o: Outcome, os: seq<Outcome>, n: nat, k: nat)
    requires EndsAt(os, n, k) && !o.Cgi? && !Closes(o)
    ensures EndsAt([o] + os, 1 + n, 1 + k)
  {
    var os' := [o] + os;
    assert forall i :: 0 < i < |os'| ==> os'[i] == os[i - 1];
  }

  lemma {:induction false} AllAnsweredCons(cfg: Config, o: Outcome, os: seq<Outcome>, m: Message, ms: seq<Message>)
    requires AllAnswered(cfg, os, ms) && AnswersAndCloses(cfg, m, o)
    ensures AllAnswered(cfg, [o] + os, [m] + ms)
  {
    forall i | 0 <= i < |ms| + 1 ensures AnswersAndCloses(cfg, ([m] + ms)[i], ([o] + os)[i]) {
      if i > 0 {
        assert AnswersAndCloses(cfg, ms[i - 1], os[i - 1]);
      }
    }
  }

  lemma {:induction false} ExchangeCons(cfg: Config, o: Outcome, os: seq<Outcome>, n: nat, m: Message, ms: seq<Message>)
    requires Exchange(cfg, os, n, ms) && !o.Cgi? && !Closes(o) && Answers(cfg, m, o) && !SaysClose(m)
    ensures Exchange(cfg, [o] + os, 1 + n, [m] + ms)
  {
    EndsAtCons(o, os, n, |ms|);
    AllAnsweredCons(cfg, o, os, m, ms);
  }

  lemma {:induction false} ExchangeOne(cfg: Config, o: Outcome, os: seq<Outcome>, m: Message)
    requires !o.Cgi? && Closes(o) && AnswersAndCloses(cfg, m, o)
    ensures Exchange(cfg, [o] + os, 1, [m])
  {
    AllAnsweredCons(cfg, o, [], m, []);
    assert ([o] + os)[0] == ([o] + [])[0] == o;
  }

  lemma {:induction false} AnswersInOrder(cfg: Config, cache: Entries, os: seq<Outcome>)
    requires AllPossible(cfg, os)
    ensures Exchange(cfg, os, Consumed(os), Served(cfg, cache, os))
    decreases |os|
  {
    if os != [] && !os[0].Cgi? {
      var o, tail := os[0], os[1..];
      assert os == [o] + tail;
      ReplySaysClose(cfg, o, cache);
      ServedCons(cfg, cache, o, tail);
      if !Closes(o) {
        var cache' := CacheAfter(cfg, o, cache);
        AnswersInOrder(cfg, cache', tail);
        ExchangeCons(cfg, o, tail, Consumed(tail), Reply(cfg, o, cache), Served(cfg, cache', tail));
      } else {
        ExchangeOne(cfg, o, tail, Reply(cfg, o, cache));
      }
    }
  }

  /** Each of these answers, one after the other, prints the head that its request calls for. */
  ghost predicate AllPrintHeads(cfg: Config, os: seq<Outcome>, ms: seq<Message>)
    decreases |ms|
  {
    ms != [] ==> os != [] && PrintsHead(cfg, os[0], ms[0]) && AllPrintHeads(cfg, os[1..], ms[1..])
  }

  lemma {:induction false} PrintHeadsCons(cfg: Config, o: Outcome, os: seq<Outcome>, m: Message, ms: seq<Message>)
    requires PrintsHead(cfg, o, m) && AllPrintHeads(cfg, os, ms)
    ensures AllPrintHeads(cfg, [o] + os, [m] + ms)
  {
    assert ([o] + os)[1..] == os && ([m] + ms)[1..] == ms;
    assert ([o] + os)[0] == o && ([m] + ms)[0] == m;
  }

  lemma {:induction false} HeadAt(cfg: Config, os: seq<Outcome>, ms: seq<Message>, i: nat)
    requires AllPrintHeads(cfg, os, ms) && i < |ms|
    ensures i < |os| && PrintsHead(cfg, os[i], ms[i])
    decreases i
  {
    if i > 0 {
      HeadAt(cfg, os[1..], ms[1..], i - 1);
    }
  }

  lemma {:induction false} AnswersPrintHeads(cfg: Config, cache: Entries, os: seq<Outcome>)
    requires AllPossible(cfg, os)
    ensures AllPrintHeads(cfg, os, Served(cfg, cache, os))
    decreases |os|
  {
    if os != [] && !os[0].Cgi? {
      var o, tail := os[0], os[1..];
      assert os == [o] + tail && AllPossible(cfg, tail);
      ServedCons(cfg, cache, o, tail);
      ReplyPrintsHead(cfg, o, cache);
      if !Closes(o) {
        AnswersPrintHeads(cfg, CacheAfter(cfg, o, cache), tail);
        PrintHeadsCons(cfg, o, tail, Reply(cfg, o, cache), Served(cfg, CacheAfter(cfg, o, cache), tail));
      } else {
        PrintHeadsCons(cfg, o, tail, Reply(cfg, o, cache), []);
      }
    }
  }

  /** One answer for each consumed frame, in order, with the head printed that it calls for. */
  lemma {:induction false} OneAnswerPerFrame(cfg: Config, cache: Entries, os: seq<Outcome>)
    requires AllPossible(cfg, os)
    ensures Exchange(cfg, os, Consumed(os), Served(cfg, cache, os))
    ensures AllPrintHeads(cfg, os, Served(cfg, cache, os))
  {
    AnswersInOrder(cfg, cache, os);
    AnswersPrintHeads(cfg, cache, os);
  }

  lemma {:induction false} ConsumedCons(o: Outcome, os: seq<Outcome>)
    ensures Consumed([o] + os) == if o.Cgi? || Closes(o) then 1 else 1 + Consumed(os)
  {
    assert ([o] + os)[1..] == os;
  }

  /** The call closes the connection exactly when the last frame it consumes asks for that. */
  lemma {:induction false} LoopCloses(cfg: Config, st: State)
    requires st.open
    ensures var os, n := Asked(cfg, st.buf), Consumed(Asked(cfg, st.buf));
      !Loop(cfg, st).open <==> n > 0 && Closes(os[n - 1])
    decreases |st.buf|
  {
    if !Ready(st) {
      Idle(cfg, st);
    } else {
      var f, o, rest, next := Turn(cfg, st);
      ConsumedCons(o, Asked(cfg, rest));
      if next.open && !o.Cgi? {
        LoopCloses(cfg, next);
      }
    }
  }

  /** `n` of the frames `fs` have left the buffer, and `left` is what stays. */
  ghost predicate Consumes(buf: string, fs: seq<string>, n: nat, left: string) {
    n <= |fs| && buf == Concat(fs[..n]) + left
  }

  lemma {:induction false} ConsumesNone(buf: string, fs: seq<string>)
    ensures Consumes(buf, fs, 0, buf)
  {
    assert fs[..0] == [] && "" + buf == buf;
  }

  lemma {:induction false} ConsumesOneMore(f: string, fs: seq<string>, n: nat, rest: string, left: string)
    requires Consumes(rest, fs, n, left)
    ensures Consumes(f + rest, [f] + fs, n + 1, left)
  {
    assert ([f] + fs)[..n + 1] == [f] + fs[..n];
    ConcatCons(f, fs[..n]);
  }

  /** The consumed frames and what stays in the buffer are the bytes that were there. */
  lemma {:induction false} LoopConserves(cfg: Config, st: State)
    requires st.open && Loop(cfg, st).open
    ensures Consumes(st.buf, Frames(st.buf, CRLF2), Consumed(Asked(cfg, st.buf)), Loop(cfg, st).buf)
    decreases |st.buf|
  {
    if !Ready(st) {
      Idle(cfg, st);
      ConsumesNone(st.buf, []);
    } else {
      var f, o, rest, next := Turn(cfg, st);
      var fs, os := Frames(rest, CRLF2), Asked(cfg, rest);
      ConsumedCons(o, os);
      if o.Cgi? {
        ConsumesNone(rest, fs);
        ConsumesOneMore(f, fs, 0, rest, rest);
      } else {
        LoopConserves(cfg, next);
        ConsumesOneMore(f, fs, Consumed(os), rest, Loop(cfg, next).buf);
      }
    }
  }

  /** The last message says Connection:Close. */
  predicate EndsInClose(ms: seq<Message>) {
    ms != [] && SaysClose(ms[|ms| - 1])
  }

  lemma {:induction false} ExchangeEnd(cfg: Config, os: seq<Outcome>, n: nat, ms: seq<Message>)
    requires Exchange(cfg, os, n, ms)
    ensures EndsInClose(ms) <==> n > 0 && Closes(os[n - 1])
    ensures forall i :: 0 <= i < |ms| - 1 ==> !SaysClose(ms[i])
  {
  }

  /** The protocol of one call. It sends one answer for each consumed frame, in order; it drops the connection exactly
      when the last answer says Connection:Close, which no earlier answer does, so nothing follows that answer; and
      otherwise exactly the consumed frames have left the buffer. */
  lemma {:induction false} HandlerProtocol(cfg: Config, st: State) returns (n: nat, ms: seq<Message>)
    requires st.open
    ensures Exchange(cfg, Asked(cfg, st.buf), n, ms) && AllPrintHeads(cfg, Asked(cfg, st.buf), ms)
    ensures Loop(cfg, st).sent == st.sent + EncodeAll(ms)
    ensures !Loop(cfg, st).open <==> EndsInClose(ms)
    ensures forall i :: 0 <= i < |ms| - 1 ==> !SaysClose(ms[i])
    ensures n <= |Frames(st.buf, CRLF2)|
    ensures Loop(cfg, st).open ==> st.buf == Concat(Frames(st.buf, CRLF2)[..n]) + Loop(cfg, st).buf
  {
    var os := Asked(cfg, st.buf);
    n, ms := Consumed(os), Served(cfg, st.cache, os);
    OneAnswerPerFrame(cfg, st.cache, os);
    ExchangeEnd(cfg, os, n, ms);
    LoopSends(cfg, st);
    LoopCloses(cfg, st);
    if Loop(cfg, st).open {
      LoopConserves(cfg, st);
    }
  }

  /** Valid requests sent one after the other are what the handler is asked for: each decided on its own, in order, and
      none of them as a bad request. */
  lemma {:induction false} PipelinedRequests(cfg: Config, ss: seq<string>)
    requires forall s :: s in ss ==> Requests.ParseRequest(s).Valid?
    ensures Asked(cfg, Concat(ss)) == Outcomes(cfg, ss) && Residue(Concat(ss), CRLF2) == ""
    ensures forall o :: o in Asked(cfg, Concat(ss)) ==> !o.Bad?
  {
    Grammar.PipelineFrames(ss);
    ValidNotBad(cfg, ss);
  }

  lemma {:induction false} ValidNotBad(cfg: Config, ss: seq<string>)
    requires forall s :: s in ss ==> Requests.ParseRequest(s).Valid?
    ensures forall o :: o in Outcomes(cfg, ss) ==> !o.Bad?
    decreases |ss|
  {
    if ss != [] {
      assert ss[0] in ss && forall s :: s in ss[1..] ==> s in ss;
      ValidRequest(cfg, ss[0]);
      ValidNotBad(cfg, ss[1..]);
      FirstNotBad(Decide(cfg, ss[0]), Outcomes(cfg, ss[1..]));
    }
  }

  lemma {:induction false} ValidRequest(cfg: Config, s: string)
    requires Requests.ParseRequest(s).Valid?
    ensures !Decide(cfg, s).Bad?
  {
  }

  lemma {:induction false} FirstNotBad(o: Outcome, os: seq<Outcome>)
    requires !o.Bad? && forall x :: x in os ==> !x.Bad?
    ensures forall x :: x in [o] + os ==> !x.Bad?
  {
  }
}
