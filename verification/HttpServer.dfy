/** `ParseHttpRequest` of src/http/http_server.cc on the objects it works on. The state machine of `Handling` is its
    specification. */
module HttpServer {
  import opened Strings
  import opened Buffers
  import opened Text
  import opened Requests
  import opened Responses
  import opened Lru
  import opened Caching
  import opened Reactor
  import H = Handling

  /** An error response, serialised. */
  method ErrorAnswer(code: string, files: Files) returns (answer: string)
    ensures answer == Encode(ErrorMessage(code))
  {
    var response := new Response(code, true, None, files);
    answer := response.Serialize("", files);
    Prefixed(Encode(ErrorMessage(code)));
  }

  /** A 200 response, serialised with or without the file. */
  method FileAnswer(close: bool, path: string, files: Files, transfer: bool) returns (answer: string)
    requires path in files
    ensures answer == Encode(FileHead(close, path, files).(body := if transfer then files[path] else ""))
  {
    var response := new Response(RESPONSE_OK, close, Some(path), files);
    response.SetShouldTransferContent(transfer);
    answer := response.Serialize("", files);
    Prefixed(Encode(FileHead(close, path, files).(body := if transfer then files[path] else "")));
  }

  lemma {:induction false} Prefixed(s: string)
    ensures "" + s == s
  {
  }

  /** What a frame asks for, found out by parsing it and looking for the file. `EndToEnd.DecidedByText` reads this
      decision off the text of the frame. */
  method Classify(cfg: H.Config, frame: string) returns (o: H.Outcome)
    ensures o == H.Decide(cfg, frame)
  {
    var request := new Request(frame);
    if !request.isValid {
      return H.Bad;
    }
    var path := cfg.dir + request.url;
    if H.IsCgi(path) {
      return H.Cgi;
    } else if path !in cfg.files {
      return H.Missing;
    } else {
      return H.Serve(path, request.method_ == HEAD, request.shouldClose);
    }
  }

  /** The answer to one request, through the cache. */
  method Answer(cfg: H.Config, cache: Cache, o: H.Outcome) returns (answer: string)
    requires cache.Valid() && cache.capacity == cfg.capacity && H.Possible(cfg, o) && !o.Cgi?
    modifies cache.Repr
    ensures cache.Valid() && fresh(cache.Repr - old(cache.Repr))
    ensures answer == Encode(H.Reply(cfg, o, old(cache.Entries())))
    ensures cache.Entries() == H.CacheAfter(cfg, o, old(cache.Entries()))
  {
    match o {
      case Bad => answer := ErrorAnswer(RESPONSE_BAD_REQUEST, cfg.files);
      case Missing => answer := ErrorAnswer(RESPONSE_NOT_FOUND, cfg.files);
      case Serve(path, toHead, close) => answer := ServeFile(cfg, cache, path, toHead, close);
    }
  }

  /** Answering a request for an existing file through the cache. */
  method ServeFile(cfg: H.Config, cache: Cache, path: string, toHead: bool, close: bool) returns (answer: string)
    requires cache.Valid() && cache.capacity == cfg.capacity && path in cfg.files
    modifies cache.Repr
    ensures cache.Valid() && fresh(cache.Repr - old(cache.Repr))
    ensures answer == Encode(H.Reply(cfg, H.Serve(path, toHead, close), old(cache.Entries())))
    ensures cache.Entries() == H.CacheAfter(cfg, H.Serve(path, toHead, close), old(cache.Entries()))
  {
    ServedMessage(cfg, cache.Entries(), path, toHead, close);
    var cached, cacheBuf := cache.TryLoad(path, "");
    answer := FileAnswer(close, path, cfg.files, !toHead && !cached);
    if cached {
      answer := answer + cacheBuf;
    } else {
      cacheBuf := cfg.files[path];
      var _ := cache.TryInsert(path, cacheBuf);
    }
  }

  /** The answer to a request for a file, as it is put together. */
  lemma {:induction false} ServedMessage(cfg: H.Config, es: Entries, path: string, toHead: bool, close: bool)
    requires path in cfg.files
    ensures var head := FileHead(close, path, cfg.files);
      var answer := Encode(H.Reply(cfg, H.Serve(path, toHead, close), es));
      if HasKey(es, path) then answer == Encode(head) + ("" + H.CachedData(es, path))
      else answer == Encode(head.(body := if toHead then "" else cfg.files[path]))
  {
    if HasKey(es, path) {
      BodyLast(FileHead(close, path, cfg.files), H.CachedData(es, path));
    }
  }

  lemma {:induction false} BodyLast(m: Message, body: string)
    requires m.body == ""
    ensures Encode(m.(body := body)) == Encode(m) + ("" + body)
  {
    var head := m.status + CRLF + SerializeAll(m.headers) + CRLF;
    assert (head + "") + ("" + body) == head + body;
  }

  /** The objects of a connection are not part of the cache. */
  ghost predicate Separate(cache: Cache, conn: Connection)
    reads cache, conn
  {
    && conn !in cache.Repr && conn.readBuffer !in cache.Repr
    && conn.writeBuffer !in cache.Repr && conn.looper !in cache.Repr
  }

  /** Answering and sending the answer. */
  method Respond(cfg: H.Config, cache: Cache, conn: Connection, o: H.Outcome, sends: seq<SendResult>)
      returns (rest: seq<SendResult>)
    requires cache.Valid() && cache.capacity == cfg.capacity && conn.Valid() && Separate(cache, conn)
    requires H.Possible(cfg, o) && !o.Cgi?
    modifies cache.Repr, conn`wire, conn.writeBuffer
    ensures cache.Valid() && fresh(cache.Repr - old(cache.Repr)) && conn.Valid() && Separate(cache, conn)
    ensures cache.Entries() == H.CacheAfter(cfg, o, old(cache.Entries()))
    ensures var answer := Encode(H.Reply(cfg, o, old(cache.Entries())));
      && conn.wire == old(conn.wire) + answer[..SendProgress(|answer|, sends).0]
      && rest == SendProgress(|answer|, sends).1
  {
    var answer := Answer(cfg, cache, o);
    conn.writeBuffer.Append(answer);
    assert conn.writeBuffer.buf == answer;
    rest := conn.Send(sends);
  }

  /** Of the answers `all`, those in `answered` have been transmitted, and `more` are still to come. */
  ghost predicate OnTrack(all: seq<string>, answered: seq<string>, more: seq<string>,
                          sends: seq<SendResult>, sent: string, rest: seq<SendResult>) {
    all == answered + more && Transmitted(answered, sends) == (sent, rest)
  }

  lemma {:induction false} TrackBegins(all: seq<string>, sends: seq<SendResult>)
    ensures OnTrack(all, [], all, sends, "", sends)
  {
  }

  lemma {:induction false} TrackEnds(all: seq<string>, answered: seq<string>, sends: seq<SendResult>, sent: string,
                                     rest: seq<SendResult>)
    requires OnTrack(all, answered, [], sends, sent, rest)
    ensures Transmitted(all, sends).0 == sent
  {
    assert answered + [] == answered;
  }

  lemma {:induction false} TrackAnswers(all: seq<string>, answered: seq<string>, answer: string, more: seq<string>,
                                        sends: seq<SendResult>, sent: string, rest: seq<SendResult>)
    requires OnTrack(all, answered, [answer] + more, sends, sent, rest)
    ensures var (n, rest') := SendProgress(|answer|, rest);
      OnTrack(all, answered + [answer], more, sends, sent + answer[..n], rest')
  {
    TransmittedOneMore(answered, answer, sends);
    assert answered + ([answer] + more) == (answered + [answer]) + more;
  }

  /** One turn of the loop, from the state in which `frame` is about to be popped: the answer that was given, if any,
      and the state the loop goes on from; a CGI frame and a closing answer end it. */
  method Turn(cfg: H.Config, cache: Cache, conn: Connection, frame: string, sends: seq<SendResult>, ghost cur: H.State)
      returns (cgi: bool, close: bool, rest: seq<SendResult>, ghost next: H.State, ghost given: Option<string>)
    requires cache.Valid() && cache.capacity == cfg.capacity && conn.Valid() && Separate(cache, conn)
    requires cur.open && cur.cache == cache.Entries()
    requires PopTill(cur.buf, CRLF2) == (Some(frame), conn.readBuffer.buf)
    modifies cache.Repr, conn`wire, conn.writeBuffer
    ensures cache.Valid() && fresh(cache.Repr - old(cache.Repr)) && conn.Valid() && Separate(cache, conn)
    ensures H.Loop(cfg, cur) == if cgi || close then next else H.Loop(cfg, next)
    ensures H.Answers(cfg, cur)
         == (if given.Some? then [given.value] else []) + if cgi || close then [] else H.Answers(cfg, next)
    ensures close == !next.open && cgi == given.None? && |next.buf| < |cur.buf|
    ensures cache.Entries() == next.cache
    ensures next.open ==> conn.readBuffer.buf == next.buf
    ensures cgi ==> conn.wire == old(conn.wire) && rest == sends
    ensures !cgi ==>
      && conn.wire == old(conn.wire) + given.value[..SendProgress(|given.value|, sends).0]
      && rest == SendProgress(|given.value|, sends).1
  {
    var o := Classify(cfg, frame);
    next := TurnIs(cfg, cur, frame, conn.readBuffer.buf, o);
    cgi, close, rest, given := o.Cgi?, H.Closes(o), sends, None;
    if !cgi {
      given := Some(Encode(H.Reply(cfg, o, cur.cache)));
      rest := Respond(cfg, cache, conn, o, sends);
    }
  }

  /** The loop that began in `st` has come to `cur`, having transmitted the answers `answered`. */
  ghost predicate Underway(cfg: H.Config, st: H.State, cur: H.State, answered: seq<string>,
                           sends: seq<SendResult>, sent: string, rest: seq<SendResult>) {
    H.Loop(cfg, st) == H.Loop(cfg, cur) && OnTrack(H.Answers(cfg, st), answered, H.Answers(cfg, cur), sends, sent, rest)
  }

  /** The loop that began in `st` is over in `end`. */
  ghost predicate Finished(cfg: H.Config, st: H.State, end: H.State, sends: seq<SendResult>, sent: string) {
    H.Loop(cfg, st) == end && Transmitted(H.Answers(cfg, st), sends).0 == sent
  }

  lemma {:induction false} Finishes(cfg: H.Config, st: H.State, cur: H.State, answered: seq<string>,
                                    sends: seq<SendResult>, sent: string, rest: seq<SendResult>)
    requires Underway(cfg, st, cur, answered, sends, sent, rest) && PopTill(cur.buf, CRLF2).0.None?
    ensures Finished(cfg, st, cur, sends, sent) && PopTill(cur.buf, CRLF2).1 == cur.buf
  {
    NothingReady(cfg, cur);
    TrackEnds(H.Answers(cfg, st), answered, sends, sent, rest);
  }

  /** Where the loop that began in `st` is: about to answer `request`, or over; `buf` is what the connection has left to
      read, and `entries` is what the cache holds. */
  ghost predicate Progress(cfg: H.Config, st: H.State, cur: H.State, answered: seq<string>, sends: seq<SendResult>,
                           sent: string, rest: seq<SendResult>, request: Option<string>, closed: bool,
                           buf: string, entries: Entries) {
    && cur.cache == entries && closed == !cur.open
    && if request.Some? then cur.open && PopTill(cur.buf, CRLF2) == (request, buf)
                             && Underway(cfg, st, cur, answered, sends, sent, rest)
       else (cur.open ==> buf == cur.buf) && Finished(cfg, st, cur, sends, sent)
  }

  lemma {:induction false} Continues(cfg: H.Config, st: H.State, cur: H.State, answered: seq<string>,
                                     sends: seq<SendResult>, sent: string, rest: seq<SendResult>,
                                     request: Option<string>, buf: string)
    requires cur.open && Underway(cfg, st, cur, answered, sends, sent, rest)
    requires PopTill(cur.buf, CRLF2) == (request, buf)
    ensures Progress(cfg, st, cur, answered, sends, sent, rest, request, false, buf, cur.cache)
  {
    if request.None? {
      Finishes(cfg, st, cur, answered, sends, sent, rest);
    }
  }

  /** A turn that gives this answer, if any. */
  lemma {:induction false} TrackTurn(all: seq<string>, answered: seq<string>, given: Option<string>, more: seq<string>,
                                     allSends: seq<SendResult>, sent: string, sends: seq<SendResult>)
      returns (answered': seq<string>, piece: string, rest: seq<SendResult>)
    requires OnTrack(all, answered, (if given.Some? then [given.value] else []) + more, allSends, sent, sends)
    ensures OnTrack(all, answered', more, allSends, sent + piece, rest)
    ensures more == [] ==> Transmitted(all, allSends).0 == sent + piece
    ensures given.None? ==> piece == "" && rest == sends
    ensures given.Some? ==> var (n, left) := SendProgress(|given.value|, sends); piece == given.value[..n] && rest == left
  {
    match given {
      case None =>
        answered', piece, rest := answered, "", sends;
        assert sent + "" == sent && [] + more == more;
      case Some(answer) =>
        TrackAnswers(all, answered, answer, more, allSends, sent, sends);
        var (n, left) := SendProgress(|answer|, sends);
        answered', piece, rest := answered + [answer], answer[..n], left;
    }
    if more == [] {
      TrackEnds(all, answered', allSends, sent + piece, rest);
    }
  }

  /** The same for a turn of the loop that began in `st`. */
  lemma {:induction false} TurnTracked(cfg: H.Config, st: H.State, cur: H.State, next: H.State, over: bool,
                                       answered: seq<string>, given: Option<string>, allSends: seq<SendResult>,
                                       sent: string, sends: seq<SendResult>)
      returns (answered': seq<string>, piece: string, rest: seq<SendResult>)
    requires Underway(cfg, st, cur, answered, allSends, sent, sends)
    requires H.Loop(cfg, cur) == if over then next else H.Loop(cfg, next)
    requires H.Answers(cfg, cur) == (if given.Some? then [given.value] else []) + if over then [] else H.Answers(cfg, next)
    ensures if over then Finished(cfg, st, next, allSends, sent + piece)
            else Underway(cfg, st, next, answered', allSends, sent + piece, rest)
    ensures given.None? ==> piece == "" && rest == sends
    ensures given.Some? ==> var (n, left) := SendProgress(|given.value|, sends); piece == given.value[..n] && rest == left
  {
    var all, more := H.Answers(cfg, st), if over then [] else H.Answers(cfg, next);
    answered', piece, rest := TrackTurn(all, answered, given, more, allSends, sent, sends);
  }

  /** A turn of the loop that began in `st`, with the account of what has been transmitted. */
  method CountedTurn(cfg: H.Config, cache: Cache, conn: Connection, frame: string, sends: seq<SendResult>,
                     ghost st: H.State, ghost cur: H.State, ghost before: string, ghost answered: seq<string>,
                     ghost allSends: seq<SendResult>, ghost sent: string)
      returns (cgi: bool, closed: bool, rest: seq<SendResult>,
               ghost next: H.State, ghost answered': seq<string>, ghost sent': string)
    requires cache.Valid() && cache.capacity == cfg.capacity && conn.Valid() && Separate(cache, conn)
    requires Progress(cfg, st, cur, answered, allSends, sent, sends, Some(frame), false,
                      conn.readBuffer.buf, cache.Entries())
    requires conn.wire == before + sent
    modifies cache.Repr, conn`wire, conn.writeBuffer
    ensures cache.Valid() && fresh(cache.Repr - old(cache.Repr)) && conn.Valid() && Separate(cache, conn)
    ensures closed == !next.open && |next.buf| < |cur.buf|
    ensures cache.Entries() == next.cache
    ensures next.open ==> conn.readBuffer.buf == next.buf
    ensures if cgi || closed then Finished(cfg, st, next, allSends, sent')
            else Underway(cfg, st, next, answered', allSends, sent', rest)
    ensures conn.wire == before + sent'
  {
    ghost var given;
    cgi, closed, rest, next, given := Turn(cfg, cache, conn, frame, sends, cur);
    ghost var piece, left;
    answered', piece, left := TurnTracked(cfg, st, cur, next, cgi || closed, answered, given, allSends, sent, sends);
    sent' := sent + piece;
    Rejoin(before, sent, piece);
  }

  /** A turn, and popping the next frame unless the loop is over. */
  method TurnAndPop(cfg: H.Config, cache: Cache, conn: Connection, frame: string, sends: seq<SendResult>,
                    ghost st: H.State, ghost cur: H.State, ghost before: string, ghost answered: seq<string>,
                    ghost allSends: seq<SendResult>, ghost sent: string)
      returns (request: Option<string>, closed: bool, rest: seq<SendResult>,
               ghost next: H.State, ghost answered': seq<string>, ghost sent': string)
    requires cache.Valid() && cache.capacity == cfg.capacity && conn.Valid() && Separate(cache, conn)
    requires Progress(cfg, st, cur, answered, allSends, sent, sends, Some(frame), false,
                      conn.readBuffer.buf, cache.Entries())
    requires conn.wire == before + sent
    modifies cache.Repr, conn`wire, conn.readBuffer, conn.writeBuffer
    ensures cache.Valid() && fresh(cache.Repr - old(cache.Repr)) && conn.Valid() && Separate(cache, conn)
    ensures Progress(cfg, st, next, answered', allSends, sent', rest, request, closed,
                     conn.readBuffer.buf, cache.Entries())
    ensures |next.buf| < |cur.buf|
    ensures conn.wire == before + sent'
  {
    var cgi;
    cgi, closed, rest, next, answered', sent' :=
      CountedTurn(cfg, cache, conn, frame, sends, st, cur, before, answered, allSends, sent);
    request := None;
    if !cgi && !closed {
      request := conn.FindAndPopTill(CRLF2);
      Continues(cfg, st, next, answered', allSends, sent', rest, request, conn.readBuffer.buf);
    }
  }

  /** The state a call leads to, by what the kernel delivers. */
  function AfterCall(cfg: H.Config, st: H.State, recvs: seq<RecvResult>): H.State {
    if PeerGone(recvs) then H.HandleExit(st) else H.Handle(cfg, st, Delivered(recvs))
  }

  /** The answers of a call. */
  function CallAnswers(cfg: H.Config, st: H.State, recvs: seq<RecvResult>): seq<string> {
    if PeerGone(recvs) then [] else H.Answers(cfg, H.Feed(st, Delivered(recvs)))
  }

  /** One call of the handler. The connection, the cache and the looper end up as the state machine says; the peer gets
      what the kernel takes of each answer, which is all of it unless a send fails hard. The handler deletes no
      connection but its own. */
  method ParseHttpRequest(cfg: H.Config, cache: Cache, conn: Connection,
                          recvs: seq<RecvResult>, sends: seq<SendResult>) returns (ghost end: H.State)
    requires cache.Valid() && cache.capacity == cfg.capacity && conn.Valid() && Separate(cache, conn)
    modifies cache.Repr, conn`wire, conn.readBuffer, conn.writeBuffer, conn.looper
    ensures cache.Valid() && fresh(cache.Repr - old(cache.Repr)) && conn.Valid() && Separate(cache, conn)
    ensures end == AfterCall(cfg, H.State(true, old(conn.readBuffer.buf), old(conn.wire), old(cache.Entries())), recvs)
    ensures cache.Entries() == end.cache
    ensures end.open ==> conn.readBuffer.buf == end.buf
    ensures conn.looper.connections
         == if end.open then old(conn.looper.connections) else old(conn.looper.connections) - {conn.fd}
    ensures var st := H.State(true, old(conn.readBuffer.buf), old(conn.wire), old(cache.Entries()));
      conn.wire == old(conn.wire) + Transmitted(CallAnswers(cfg, st, recvs), sends).0
    ensures NoHardError(sends) ==> conn.wire == end.sent
  {
    ghost var st := H.State(true, conn.readBuffer.buf, conn.wire, cache.Entries());
    end := AfterCall(cfg, st, recvs);
    CallSends(cfg, st, recvs, sends);
    var size, exit := conn.Recv(recvs);
    if exit {
      var _ := conn.looper.DeleteConnection(conn.fd);
      return;
    }
    var closed := DrainRequests(cfg, cache, conn, sends, H.Feed(st, Delivered(recvs)));
    if closed {
      var _ := conn.looper.DeleteConnection(conn.fd);
    }
  }

  /** Without a hard error, what is transmitted are the bytes the state machine sends. */
  lemma {:induction false} CallSends(cfg: H.Config, st: H.State, recvs: seq<RecvResult>, sends: seq<SendResult>)
    requires st.open
    ensures PeerGone(recvs) ==> st.sent + Transmitted(CallAnswers(cfg, st, recvs), sends).0 == st.sent
    ensures NoHardError(sends) ==>
      AfterCall(cfg, st, recvs).sent == st.sent + Transmitted(CallAnswers(cfg, st, recvs), sends).0
  {
    var pieces := AnswersAreOnlyCut(CallAnswers(cfg, st, recvs), sends);
    H.LoopSendsAnswers(cfg, H.Feed(st, Delivered(recvs)));
    assert st.sent + "" == st.sent;
  }

  /** The loop over the complete frames in the read buffer. */
  method DrainRequests(cfg: H.Config, cache: Cache, conn: Connection, sends: seq<SendResult>, ghost st: H.State)
      returns (noMoreParse: bool)
    requires cache.Valid() && cache.capacity == cfg.capacity && conn.Valid() && Separate(cache, conn)
    requires st.open && st.buf == conn.readBuffer.buf && st.cache == cache.Entries()
    modifies cache.Repr, conn`wire, conn.readBuffer, conn.writeBuffer
    ensures cache.Valid() && fresh(cache.Repr - old(cache.Repr)) && conn.Valid() && Separate(cache, conn)
    ensures noMoreParse == !H.Loop(cfg, st).open
    ensures cache.Entries() == H.Loop(cfg, st).cache
    ensures !noMoreParse ==> conn.readBuffer.buf == H.Loop(cfg, st).buf
    ensures conn.wire == old(conn.wire) + Transmitted(H.Answers(cfg, st), sends).0
  {
    ghost var cur, before, answered, sent := st, conn.wire, [], "";
    var rest := sends;
    noMoreParse := false;
    TrackBegins(H.Answers(cfg, st), sends);
    assert before + "" == before;
    var request := conn.FindAndPopTill(CRLF2);
    Continues(cfg, st, cur, answered, sends, sent, rest, request, conn.readBuffer.buf);
    while request.Some?
      invariant cache.Valid() && fresh(cache.Repr - old(cache.Repr)) && conn.Valid() && Separate(cache, conn)
      invariant Progress(cfg, st, cur, answered, sends, sent, rest, request, noMoreParse,
                         conn.readBuffer.buf, cache.Entries())
      invariant conn.wire == before + sent
      decreases |cur.buf|
    {
      request, noMoreParse, rest, cur, answered, sent :=
        TurnAndPop(cfg, cache, conn, request.value, rest, st, cur, before, answered, sends, sent);
    }
  }

  lemma {:induction false} Rejoin(before: string, sent: string, more: string)
    ensures (before + sent) + more == before + (sent + more)
  {
  }

  lemma {:induction false} NothingReady(cfg: H.Config, st: H.State)
    requires PopTill(st.buf, CRLF2).0.None?
    ensures H.Loop(cfg, st) == st && H.Answers(cfg, st) == [] && PopTill(st.buf, CRLF2).1 == st.buf
  {
  }

  lemma {:induction false} TurnIs(cfg: H.Config, st: H.State, f: string, rest: string, o: H.Outcome)
      returns (next: H.State)
    requires st.open && PopTill(st.buf, CRLF2) == (Some(f), rest) && o == H.Decide(cfg, f)
    ensures |rest| < |st.buf|
    ensures H.Loop(cfg, st) == (if o.Cgi? || !next.open then next else H.Loop(cfg, next))
    ensures o.Cgi? ==> next == st.(buf := rest) && H.Answers(cfg, st) == []
    ensures !o.Cgi? ==>
      && next == H.State(!H.Closes(o), if H.Closes(o) then "" else rest,
                         st.sent + Encode(H.Reply(cfg, o, st.cache)), H.CacheAfter(cfg, o, st.cache))
      && H.Answers(cfg, st) == [Encode(H.Reply(cfg, o, st.cache))] + if next.open then H.Answers(cfg, next) else []
  {
    next := H.Step(cfg, st);
  }
}
