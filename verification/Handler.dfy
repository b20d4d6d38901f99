/** The request loop of src/http/http_server.cc as a state machine over one connection and the cache: what it sends,
    when it closes, and that it does not matter how the network cuts the request stream. */
module Handling {
  import opened Strings
  import opened Splitting
  import opened Text
  import opened Headers
  import opened Buffers
  import opened Requests
  import opened Responses
  import opened Lru
  import Stack = StackTheorem

  /** Everything that stays fixed while the server runs. */
  datatype Config = Config(dir: string, files: Files, capacity: int)

  /** What a frame asks for, decided from the frame and the files alone. */
  datatype Outcome = Bad | Missing | Cgi | Serve(path: string, toHead: bool, close: bool)

  predicate IsCgi(path: string) {
    Find(path, "cgi_bin").Some?
  }

  predicate Possible(cfg: Config, o: Outcome) {
    o.Serve? ==> o.path in cfg.files
  }

  function Decide(cfg: Config, frame: string): (o: Outcome)
    ensures Possible(cfg, o)
  {
    match ParseRequest(frame)
    case Invalid(_) => Bad
    case Valid(m, url, headers) =>
      var path := cfg.dir + url;
      if IsCgi(path) then Cgi
      else if path !in cfg.files then Missing
      else Serve(path, m == HEAD, ClosesAfter(headers))
  }

  ghost predicate AllPossible(cfg: Config, os: seq<Outcome>) {
    forall o :: o in os ==> Possible(cfg, o)
  }

  /** The connection is dropped after the answer. */
  predicate Closes(o: Outcome) {
    o.Bad? || o.Missing? || (o.Serve? && o.close)
  }

  function CachedData(cache: Entries, path: string): string
    requires HasKey(cache, path)
  {
    cache[IndexOf(cache, path)].data
  }

  /** The answer: on a hit the cached bytes follow the head, for a HEAD request too. */
  function Reply(cfg: Config, o: Outcome, cache: Entries): Message
    requires Possible(cfg, o) && !o.Cgi?
  {
    match o
    case Bad => ErrorMessage(RESPONSE_BAD_REQUEST)
    case Missing => ErrorMessage(RESPONSE_NOT_FOUND)
    case Serve(path, toHead, close) =>
      FileHead(close, path, cfg.files).(body :=
        if HasKey(cache, path) then CachedData(cache, path)
        else if toHead then "" else cfg.files[path])
  }

  function CacheAfter(cfg: Config, o: Outcome, cache: Entries): Entries
    requires Possible(cfg, o)
  {
    if o.Serve? then Stack.Access(cache, cfg.capacity, o.path, cfg.files[o.path]) else cache
  }

  /** One connection with the cache; a closed connection has lost its buffer. */
  datatype State = State(open: bool, buf: string, sent: string, cache: Entries)

  predicate Ready(st: State) {
    st.open && Find(st.buf, CRLF2).Some?
  }

  function NextFrame(st: State): string
    requires Ready(st)
  {
    PopTill(st.buf, CRLF2).0.value
  }

  /** One turn of the loop: pop a frame, answer it, close or go on. A CGI frame is dropped without an answer. */
  function Step(cfg: Config, st: State): State
    requires Ready(st)
  {
    var rest := PopTill(st.buf, CRLF2).1;
    var o := Decide(cfg, NextFrame(st));
    if o.Cgi? then st.(buf := rest)
    else
      var sent := st.sent + Encode(Reply(cfg, o, st.cache));
      var cache := CacheAfter(cfg, o, st.cache);
      if Closes(o) then State(false, "", sent, cache) else State(true, rest, sent, cache)
  }

  /** The loop of one call: it ends when no frame is left, after a closing answer, and at a CGI frame. */
  function Loop(cfg: Config, st: State): State
    decreases |st.buf|
  {
    if !Ready(st) then st
    else if Decide(cfg, NextFrame(st)).Cgi? then Step(cfg, st)
    else
      var next := Step(cfg, st);
      if next.open then Loop(cfg, next) else next
  }

  /** The answers that loop sends, one by one. */
  function Answers(cfg: Config, st: State): seq<string>
    decreases |st.buf|
  {
    if !Ready(st) || Decide(cfg, NextFrame(st)).Cgi? then []
    else
      var next := Step(cfg, st);
      [Encode(Reply(cfg, Decide(cfg, NextFrame(st)), st.cache))] + if next.open then Answers(cfg, next) else []
  }

  function Feed(st: State, batch: string): State {
    if st.open then st.(buf := st.buf + batch) else st
  }

  /** One call of the handler on a batch of received bytes. */
  function Handle(cfg: Config, st: State, batch: string): State {
    Loop(cfg, Feed(st, batch))
  }

  /** One call in which the peer is found to be gone: whatever was received is dropped with the connection. */
  function HandleExit(st: State): State {
    if st.open then State(false, "", st.sent, st.cache) else st
  }

  function HandleAll(cfg: Config, st: State, batches: seq<string>): State
    decreases |batches|
  {
    if batches == [] then st else HandleAll(cfg, Handle(cfg, st, batches[0]), batches[1..])
  }

  /** Turns without the pause at CGI frames: the state in which the handler has nothing left to do. */
  function Through(cfg: Config, st: State): State
    decreases |st.buf|
  {
    if !Ready(st) then st
    else
      var next := Step(cfg, st);
      if next.open then Through(cfg, next) else next
  }

  lemma {:induction false} LoopSendsAnswers(cfg: Config, st: State)
    ensures Loop(cfg, st).sent == st.sent + Concat(Answers(cfg, st))
    decreases |st.buf|
  {
    if Ready(st) && !Decide(cfg, NextFrame(st)).Cgi? {
      var next := Step(cfg, st);
      if next.open {
        LoopSendsAnswers(cfg, next);
      }
      OneMoreSent(st.sent, Encode(Reply(cfg, Decide(cfg, NextFrame(st)), st.cache)),
                  if next.open then Answers(cfg, next) else []);
    } else {
      assert st.sent + "" == st.sent;
    }
  }

  lemma {:induction false} OneMoreSent(sent: string, a: string, more: seq<string>)
    ensures sent + Concat([a] + more) == (sent + a) + Concat(more)
  {
    ConcatCons(a, more);
  }

  // ---- Batching ----

  lemma {:induction false} StepFeed(cfg: Config, st: State, batch: string)
    requires Ready(st)
    ensures Ready(Feed(st, batch)) && NextFrame(Feed(st, batch)) == NextFrame(st)
    ensures Step(cfg, Feed(st, batch)) == Feed(Step(cfg, st), batch)
  {
    var _, _ := PopAppend(st.buf, batch, CRLF2);
    FindAppend(st.buf, batch, CRLF2);
  }

  lemma {:induction false} ThroughIsSettled(cfg: Config, st: State)
    ensures !Ready(Through(cfg, st))
    decreases |st.buf|
  {
    if Ready(st) && Step(cfg, st).open {
      ThroughIsSettled(cfg, Step(cfg, st));
    }
  }

  lemma {:induction false} ThroughAfterLoop(cfg: Config, st: State)
    ensures Through(cfg, Loop(cfg, st)) == Through(cfg, st)
    decreases |st.buf|
  {
    if Ready(st) && Step(cfg, st).open && !Decide(cfg, NextFrame(st)).Cgi? {
      ThroughAfterLoop(cfg, Step(cfg, st));
    }
  }

  lemma {:induction false} ThroughFeed(cfg: Config, st: State, batch: string)
    ensures Through(cfg, Feed(Through(cfg, st), batch)) == Through(cfg, Feed(st, batch))
    decreases |st.buf|
  {
    if Ready(st) {
      StepFeed(cfg, st, batch);
      if Step(cfg, st).open {
        ThroughFeed(cfg, Step(cfg, st), batch);
      }
    }
  }

  lemma {:induction false} FeedTwice(st: State, a: string, b: string)
    ensures Feed(Feed(st, a), b) == Feed(st, a + b)
  {
    assert st.buf + a + b == st.buf + (a + b);
  }

  /** However a stream is cut into batches, handling them and then letting the handler finish gives what handling
      the whole stream and finishing gives: the bytes sent, the cache, the open or closed state, and the residue. */
  lemma {:induction false} BatchesSettleAlike(cfg: Config, st: State, batches: seq<string>)
    ensures Through(cfg, HandleAll(cfg, st, batches)) == Through(cfg, Feed(st, Concat(batches)))
    decreases |batches|
  {
    if batches == [] {
      assert st.buf + "" == st.buf;
    } else {
      var first, rest := batches[0], Concat(batches[1..]);
      var fed := Feed(st, first);
      BatchesSettleAlike(cfg, Loop(cfg, fed), batches[1..]);
      ThroughFeed(cfg, Loop(cfg, fed), rest);
      ThroughAfterLoop(cfg, fed);
      ThroughFeed(cfg, fed, rest);
      FeedTwice(st, first, rest);
    }
  }

  /** Finishing is nothing but calling the handler again with nothing received. */
  lemma {:induction false} EmptyCallsFinish(cfg: Config, st: State) returns (calls: seq<string>)
    ensures forall c :: c in calls ==> c == ""
    ensures HandleAll(cfg, st, calls) == Through(cfg, st)
    decreases |st.buf|
  {
    if !Ready(st) {
      calls := [];
    } else {
      assert Feed(st, "") == st;
      LoopShrinks(cfg, st);
      ThroughAfterLoop(cfg, st);
      var more := EmptyCallsFinish(cfg, Loop(cfg, st));
      calls := [""] + more;
      assert calls[1..] == more;
    }
  }

  lemma {:induction false} LoopShrinks(cfg: Config, st: State)
    requires Ready(st)
    ensures |Loop(cfg, st).buf| + 4 <= |st.buf|
    decreases |st.buf|
  {
    var next := Step(cfg, st);
    if next.open && !Decide(cfg, NextFrame(st)).Cgi? && Ready(next) {
      LoopShrinks(cfg, next);
    }
  }

  // ---- When one call does all the work ----

  function Outcomes(cfg: Config, frames: seq<string>): (os: seq<Outcome>)
    ensures |os| == |frames| && AllPossible(cfg, os)
  {
    if frames == [] then [] else [Decide(cfg, frames[0])] + Outcomes(cfg, frames[1..])
  }

  ghost predicate StallsAt(os: seq<Outcome>, i: nat) {
    i < |os| - 1 && os[i].Cgi? && forall j :: 0 <= j < i ==> !Closes(os[j])
  }

  /** A CGI frame is reached with a complete frame behind it. */
  ghost predicate Stalls(os: seq<Outcome>) {
    exists i: nat :: StallsAt(os, i)
  }

  ghost predicate NoneCloses(os: seq<Outcome>) {
    forall o :: o in os ==> !Closes(o)
  }

  lemma {:induction false} StallsLater(o: Outcome, os: seq<Outcome>)
    requires !Closes(o) && Stalls(os)
    ensures Stalls([o] + os)
  {
    var all := [o] + os;
    var i: nat :| StallsAt(os, i);
    assert all[i + 1] == os[i];
    assert forall j :: 0 < j < i + 1 ==> all[j] == os[j - 1];
    assert StallsAt(all, i + 1);
  }

  lemma {:induction false} StalledLater(o: Outcome, os: seq<Outcome>, i: nat)
    requires StallsAt([o] + os, i)
    ensures i == 0 ==> o.Cgi? && os != []
    ensures i > 0 ==> !Closes(o) && StallsAt(os, i - 1)
  {
    var all := [o] + os;
    assert all[0] == o;
    if i > 0 {
      assert all[i] == os[i - 1];
      assert forall j :: 0 <= j < i - 1 ==> os[j] == all[j + 1];
    }
  }

  lemma {:induction false} StallsCons(o: Outcome, os: seq<Outcome>)
    ensures Stalls([o] + os) <==> (o.Cgi? && os != []) || (!Closes(o) && Stalls(os))
  {
    if o.Cgi? && os != [] {
      assert StallsAt([o] + os, 0);
    }
    if !Closes(o) && Stalls(os) {
      StallsLater(o, os);
    }
    if i: nat :| StallsAt([o] + os, i) {
      StalledLater(o, os, i);
    }
  }

  lemma {:induction false} StallsOfPart(a: seq<Outcome>, b: seq<Outcome>)
    ensures Stalls(a) ==> Stalls(a + b)
    ensures NoneCloses(a) && Stalls(b) ==> Stalls(a + b)
  {
    var c := a + b;
    if Stalls(a) {
      var i: nat :| StallsAt(a, i);
      assert c[i] == a[i] && StallsAt(c, i);
    }
    if NoneCloses(a) && Stalls(b) {
      var i: nat :| StallsAt(b, i);
      assert c[|a| + i] == b[i];
      assert forall j :: 0 <= j < |a| + i ==> c[j] == if j < |a| then a[j] else b[j - |a|];
      assert StallsAt(c, |a| + i);
    }
  }

  /** What a buffer asks for, frame by frame. */
  function Asked(cfg: Config, buf: string): seq<Outcome> {
    Outcomes(cfg, Frames(buf, CRLF2))
  }

  lemma {:induction false} AskedFirst(cfg: Config, st: State)
    requires Ready(st)
    ensures Asked(cfg, st.buf) == [Decide(cfg, NextFrame(st))] + Asked(cfg, PopTill(st.buf, CRLF2).1)
    ensures Residue(st.buf, CRLF2) == Residue(PopTill(st.buf, CRLF2).1, CRLF2)
  {
    var f, rest := PopAppend(st.buf, "", CRLF2);
    OutcomesCons(cfg, f, Frames(rest, CRLF2));
  }

  lemma {:induction false} OutcomesAppend(cfg: Config, a: seq<string>, b: seq<string>)
    ensures Outcomes(cfg, a + b) == Outcomes(cfg, a) + Outcomes(cfg, b)
    decreases |a|
  {
    if a == [] {
      assert a + b == b;
    } else {
      OutcomesAppend(cfg, a[1..], b);
      OutcomesCons(cfg, a[0], a[1..]);
      OutcomesCons(cfg, a[0], a[1..] + b);
      assert a == [a[0]] + a[1..] && a + b == [a[0]] + (a[1..] + b);
    }
  }

  lemma {:induction false} OutcomesCons(cfg: Config, f: string, fs: seq<string>)
    ensures Outcomes(cfg, [f] + fs) == [Decide(cfg, f)] + Outcomes(cfg, fs)
  {
    assert ([f] + fs)[1..] == fs;
  }

  lemma {:induction false} AskedNothing(cfg: Config, st: State)
    requires st.open
    ensures Ready(st) <==> Asked(cfg, st.buf) != []
  {
    if !Ready(st) {
      assert Frames(st.buf, CRLF2) == [];
    }
  }

  /** Later bytes only add to what is asked. */
  lemma {:induction false} AskedAppend(cfg: Config, buf: string, more: string)
    ensures Asked(cfg, buf + more) == Asked(cfg, buf) + Asked(cfg, Residue(buf, CRLF2) + more)
  {
    DrainThenAppend(buf, more, CRLF2);
    OutcomesAppend(cfg, Frames(buf, CRLF2), Frames(Residue(buf, CRLF2) + more, CRLF2));
  }

  /** One call leaves nothing to do exactly when no CGI frame is reached before the last complete frame. */
  lemma {:induction false} OneCallFinishes(cfg: Config, st: State)
    requires st.open
    ensures Loop(cfg, st) == Through(cfg, st) <==> !Stalls(Asked(cfg, st.buf))
    decreases |st.buf|
  {
    AskedNothing(cfg, st);
    if Ready(st) {
      var o, next := Decide(cfg, NextFrame(st)), Step(cfg, st);
      AskedFirst(cfg, st);
      StallsCons(o, Asked(cfg, PopTill(st.buf, CRLF2).1));
      if o.Cgi? {
        ThroughIsSettled(cfg, next);
        AskedNothing(cfg, next);
      } else if next.open {
        OneCallFinishes(cfg, next);
      }
    }
  }

  /** What finishing leaves: if the connection is still open then no frame asked to close it. */
  lemma {:induction false} OpenAfterThrough(cfg: Config, st: State)
    requires st.open && Through(cfg, st).open
    ensures Through(cfg, st).buf == Residue(st.buf, CRLF2)
    ensures NoneCloses(Asked(cfg, st.buf))
    decreases |st.buf|
  {
    AskedNothing(cfg, st);
    if Ready(st) {
      AskedFirst(cfg, st);
      OpenAfterThrough(cfg, Step(cfg, st));
    }
  }

  lemma {:induction false} ClosedStays(cfg: Config, st: State, batches: seq<string>)
    requires !st.open
    ensures HandleAll(cfg, st, batches) == st
    decreases |batches|
  {
    if batches != [] {
      ClosedStays(cfg, st, batches[1..]);
    }
  }

  /** Without a stall in the whole stream, no batch stalls and batches are handled like the whole. */
  lemma {:induction false} NoStallNoCut(cfg: Config, st: State, batches: seq<string>)
    requires st.open && !Ready(st)
    requires !Stalls(Asked(cfg, st.buf + Concat(batches)))
    ensures HandleAll(cfg, st, batches) == Through(cfg, Feed(st, Concat(batches)))
    decreases |batches|
  {
    if batches == [] {
      assert st.buf + "" == st.buf;
    } else {
      var first, rest := batches[0], Concat(batches[1..]);
      var fed := Feed(st, first);
      FeedTwice(st, first, rest);
      AskedAppend(cfg, fed.buf, rest);
      StallsOfPart(Asked(cfg, fed.buf), Asked(cfg, Residue(fed.buf, CRLF2) + rest));
      OneCallFinishes(cfg, fed);
      var next := Through(cfg, fed);
      ThroughIsSettled(cfg, fed);
      ThroughFeed(cfg, fed, rest);
      if next.open {
        OpenAfterThrough(cfg, fed);
        NoStallNoCut(cfg, next, batches[1..]);
      } else {
        ClosedStays(cfg, next, batches[1..]);
      }
    }
  }

  /** A stream delivered byte by byte. */
  function Bytes(s: string): seq<string> {
    if s == "" then [] else [[s[0]]] + Bytes(s[1..])
  }

  lemma {:induction false} BytesConcat(s: string)
    ensures Concat(Bytes(s)) == s
    decreases |s|
  {
    if s != "" {
      BytesConcat(s[1..]);
      assert Bytes(s)[1..] == Bytes(s[1..]);
      assert s == [s[0]] + s[1..];
    }
  }

  /** One more byte completes at most one frame, and then nothing is left behind it. */
  lemma {:induction false} OneByteOneFrame(buf: string, c: char)
    requires Find(buf, CRLF2).None?
    ensures |Frames(buf + [c], CRLF2)| <= 1
  {
    var s := buf + [c];
    if Find(s, CRLF2).Some? {
      var i := Find(s, CRLF2).value;
      assert i + 4 == |s| by {
        if i + 4 <= |buf| {
          AtPrefix(buf, [c], CRLF2, i);
        }
      }
      assert s[i + 4..] == "";
      assert Frames("", CRLF2) == [];
    }
  }

  lemma {:induction false} BytesNeverStall(cfg: Config, st: State, s: string)
    requires !Ready(st)
    ensures HandleAll(cfg, st, Bytes(s)) == Through(cfg, Feed(st, s))
    decreases |s|
  {
    if s == "" {
      assert st.buf + "" == st.buf;
    } else {
      var first := [s[0]];
      var fed := Feed(st, first);
      assert Bytes(s)[1..] == Bytes(s[1..]);
      assert s == first + s[1..];
      if st.open {
        OneByteOneFrame(st.buf, s[0]);
        OneCallFinishes(cfg, fed);
      }
      ThroughIsSettled(cfg, fed);
      BytesNeverStall(cfg, Through(cfg, fed), s[1..]);
      ThroughFeed(cfg, fed, s[1..]);
      FeedTwice(st, first, s[1..]);
    }
  }

  /** Chunk invariance of the whole handler. On a connection with no complete frame waiting, every way of cutting
      the stream gives the state of one call on the whole stream, exactly when the stream does not reach a CGI frame
      with a complete frame behind it. */
  lemma {:induction false} HandlerIsChunkInvariant(cfg: Config, st: State, stream: string)
    requires st.open && !Ready(st)
    ensures !Stalls(Asked(cfg, st.buf + stream)) <==>
      forall batches :: Concat(batches) == stream ==> HandleAll(cfg, st, batches) == Handle(cfg, st, stream)
  {
    OneCallFinishes(cfg, Feed(st, stream));
    if !Stalls(Asked(cfg, st.buf + stream)) {
      forall batches | Concat(batches) == stream
        ensures HandleAll(cfg, st, batches) == Handle(cfg, st, stream)
      {
        NoStallNoCut(cfg, st, batches);
      }
    } else {
      BytesConcat(stream);
      BytesNeverStall(cfg, st, stream);
      assert HandleAll(cfg, st, Bytes(stream)) != Handle(cfg, st, stream);
    }
  }
}
