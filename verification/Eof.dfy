/** Bytes that arrive together with the end of the stream: the handler drops them with the connection
    (src/http/http_server.cc:19-24). When this makes a difference, and for which ways of cutting a stream. */
module EndOfStream {
  import opened Strings
  import opened Responses
  import opened Lru
  import opened Handling
  import opened Serving
  import opened Transparency
  import Stack = StackTheorem

  /** The first frame gets no answer in this call: there is none, or it is a CGI request. */
  predicate NothingAnswerable(os: seq<Outcome>) {
    os == [] || os[0].Cgi?
  }

  lemma {:induction false} ServedNothing(cfg: Config, cache: Entries, os: seq<Outcome>)
    requires AllPossible(cfg, os)
    ensures EncodeAll(Served(cfg, cache, os)) == "" <==> NothingAnswerable(os)
  {
    if !NothingAnswerable(os) {
      var o, tail := os[0], os[1..];
      assert os == [o] + tail && Possible(cfg, o);
      ServedCons(cfg, cache, o, tail);
      EncodeAllCons(Reply(cfg, o, cache), if Closes(o) then [] else Served(cfg, CacheAfter(cfg, o, cache), tail));
    }
  }

  /** Receiving a batch together with the end of the stream sends what receiving it and then the end of the stream
      sends, exactly when the batch makes nothing answerable. */
  lemma {:induction false} LastBatchUnanswered(cfg: Config, st: State, batch: string)
    requires st.open
    ensures HandleExit(Feed(st, batch)).sent == HandleExit(Handle(cfg, st, batch)).sent
       <==> NothingAnswerable(Asked(cfg, st.buf + batch))
  {
    var fed := Feed(st, batch);
    LoopSends(cfg, fed);
    ServedNothing(cfg, st.cache, Asked(cfg, fed.buf));
    SamePrefix(st.sent, EncodeAll(Served(cfg, st.cache, Asked(cfg, fed.buf))), "");
    assert st.sent + "" == st.sent;
  }

  /** It leaves the cache the same exactly when the cache is settled for the files the batch would have served. */
  lemma {:induction false} LastBatchUncached(cfg: Config, st: State, batch: string)
    requires st.open && WithinBudget(st.cache, cfg.capacity) && Consistent(st.cache, cfg.files)
    ensures var paths := Paths(Asked(cfg, st.buf + batch));
      && Stack.Stored(paths, cfg.files)
      && (HandleExit(Feed(st, batch)).cache == HandleExit(Handle(cfg, st, batch)).cache
          <==> Stack.Settled(st.cache, Stack.Recent(Stack.Cacheable(paths, cfg.files, cfg.capacity), cfg.files),
                             cfg.capacity))
  {
    var fed := Feed(st, batch);
    LoopAccesses(cfg, fed);
    Stack.AccessesChangeNothing(st.cache, Paths(Asked(cfg, fed.buf)), cfg.files, cfg.capacity);
  }

  // ---- Cuts of a stream that ends ----

  /** A stream in batches, the last of which comes with its end. */
  function Ended(cfg: Config, st: State, batches: seq<string>, last: string): State {
    HandleExit(Feed(HandleAll(cfg, st, batches), last))
  }

  ghost predicate OnlyCgi(os: seq<Outcome>) {
    forall o :: o in os ==> o.Cgi?
  }

  lemma {:induction false} OnlyCgiCons(o: Outcome, os: seq<Outcome>)
    ensures OnlyCgi([o] + os) <==> o.Cgi? && OnlyCgi(os)
  {
    assert o in [o] + os;
    assert forall x :: x in os ==> x in [o] + os;
  }

  lemma {:induction false} LoopOnlyAdds(cfg: Config, st: State)
    ensures st.sent <= Loop(cfg, st).sent
  {
    LoopSendsAnswers(cfg, st);
  }

  lemma {:induction false} HandleAllOnlyAdds(cfg: Config, st: State, batches: seq<string>)
    ensures st.sent <= HandleAll(cfg, st, batches).sent
    decreases |batches|
  {
    if batches != [] {
      LoopOnlyAdds(cfg, Feed(st, batches[0]));
      HandleAllOnlyAdds(cfg, Handle(cfg, st, batches[0]), batches[1..]);
    }
  }

  /** One turn of letting the handler finish: what it asks for, what it sends, and where it leads. */
  lemma {:induction false} FinishingTurn(cfg: Config, st: State)
      returns (o: Outcome, rest: string, piece: string, next: State)
    requires Ready(st)
    ensures |rest| < |st.buf| && Asked(cfg, st.buf) == [o] + Asked(cfg, rest)
    ensures next.sent == st.sent + piece && (piece == "" <==> o.Cgi?)
    ensures Through(cfg, st) == if next.open then Through(cfg, next) else next
    ensures if next.open then next.buf == rest else !o.Cgi?
  {
    var f;
    f, o, rest, next := Turn(cfg, st);
    if o.Cgi? {
      piece := "";
      assert st.sent + "" == st.sent;
    } else {
      piece := Encode(Reply(cfg, o, st.cache));
      EncodeNotEmpty(Reply(cfg, o, st.cache));
    }
  }

  lemma {:induction false} EncodeNotEmpty(m: Message)
    ensures Encode(m) != ""
  {
    assert |Encode(m)| >= 4;
  }

  lemma {:induction false} ThroughSends(cfg: Config, st: State)
    ensures st.sent <= Through(cfg, st).sent
    ensures st.open ==> (Through(cfg, st).sent == st.sent <==> OnlyCgi(Asked(cfg, st.buf)))
    decreases |st.buf|
  {
    if Ready(st) {
      var o, rest, piece, next := FinishingTurn(cfg, st);
      OnlyCgiCons(o, Asked(cfg, rest));
      if next.open {
        ThroughSends(cfg, next);
      }
    } else if st.open {
      AskedNothing(cfg, st);
    }
  }

  /** What is sent lies between what was sent and what letting the handler finish would send. */
  lemma {:induction false} CutSends(cfg: Config, st: State, batches: seq<string>)
    ensures st.sent <= HandleAll(cfg, st, batches).sent <= Through(cfg, Feed(st, Concat(batches))).sent
  {
    HandleAllOnlyAdds(cfg, st, batches);
    ThroughSends(cfg, HandleAll(cfg, st, batches));
    BatchesSettleAlike(cfg, st, batches);
  }

  lemma {:induction false} OnlyCgiBefore(cfg: Config, buf: string, more: string)
    requires OnlyCgi(Asked(cfg, buf + more))
    ensures OnlyCgi(Asked(cfg, buf))
  {
    AskedAppend(cfg, buf, more);
    assert forall o :: o in Asked(cfg, buf) ==> o in Asked(cfg, buf + more);
  }

  lemma {:induction false} OnlyCgiSendsNothing(cfg: Config, st: State, batches: seq<string>, last: string)
    requires st.open && OnlyCgi(Asked(cfg, st.buf + (Concat(batches) + last)))
    ensures HandleAll(cfg, st, batches).sent == st.sent
  {
    var stream := Concat(batches);
    assert st.buf + (stream + last) == (st.buf + stream) + last;
    OnlyCgiBefore(cfg, st.buf + stream, last);
    CutSends(cfg, st, batches);
    ThroughSends(cfg, Feed(st, stream));
  }

  /** Chunk invariance does not extend to a stream that ends: all ways of cutting it, with its end in the last batch,
      send the same bytes, namely none, exactly when the stream asks for CGI and nothing else. */
  lemma {:induction false} EndedStreamInvariant(cfg: Config, st: State, stream: string)
    requires st.open && !Ready(st)
    ensures OnlyCgi(Asked(cfg, st.buf + stream)) <==>
      forall batches, last :: Concat(batches) + last == stream ==>
        Ended(cfg, st, batches, last).sent == Ended(cfg, st, [], stream).sent
  {
    if OnlyCgi(Asked(cfg, st.buf + stream)) {
      forall batches, last | Concat(batches) + last == stream
        ensures Ended(cfg, st, batches, last).sent == Ended(cfg, st, [], stream).sent
      {
        OnlyCgiSendsNothing(cfg, st, batches, last);
      }
    } else {
      BytesConcat(stream);
      assert Concat(Bytes(stream)) + "" == stream;
      BytesNeverStall(cfg, st, stream);
      ThroughSends(cfg, Feed(st, stream));
      assert Ended(cfg, st, Bytes(stream), "").sent != Ended(cfg, st, [], stream).sent;
    }
  }

  /** For one cut: what comes with the end of the stream makes no difference to the bytes sent exactly when the
      connection was dropped before, or nothing is answerable. */
  lemma {:induction false} CutLosesNothing(cfg: Config, st: State, batches: seq<string>, last: string)
    ensures var before := HandleAll(cfg, st, batches);
      Ended(cfg, st, batches, last).sent == Ended(cfg, st, batches + [last], "").sent
      <==> !before.open || NothingAnswerable(Asked(cfg, before.buf + last))
  {
    var before := HandleAll(cfg, st, batches);
    HandleAllLast(cfg, st, batches, last);
    if before.open {
      LastBatchUnanswered(cfg, before, last);
    }
  }

  lemma {:induction false} HandleAllKeeps(cfg: Config, st: State, batches: seq<string>)
    requires WithinBudget(st.cache, cfg.capacity) && Consistent(st.cache, cfg.files)
    ensures var end := HandleAll(cfg, st, batches);
      WithinBudget(end.cache, cfg.capacity) && Consistent(end.cache, cfg.files)
    decreases |batches|
  {
    if batches != [] {
      var fed := Feed(st, batches[0]);
      if st.open {
        LoopAccesses(cfg, fed);
        Stack.AccessAllKeeps(st.cache, cfg.capacity, cfg.files, Paths(Asked(cfg, fed.buf)));
      }
      HandleAllKeeps(cfg, Handle(cfg, st, batches[0]), batches[1..]);
    }
  }

  /** And to the cache exactly when the connection was dropped before, or the cache is settled for what would have been
      served. */
  lemma {:induction false} CutCachesTheSame(cfg: Config, st: State, batches: seq<string>, last: string)
    requires WithinBudget(st.cache, cfg.capacity) && Consistent(st.cache, cfg.files)
    ensures var before := HandleAll(cfg, st, batches);
      var paths := Paths(Asked(cfg, before.buf + last));
      && Stack.Stored(paths, cfg.files)
      && (Ended(cfg, st, batches, last).cache == Ended(cfg, st, batches + [last], "").cache
          <==> || !before.open
               || Stack.Settled(before.cache, Stack.Recent(Stack.Cacheable(paths, cfg.files, cfg.capacity), cfg.files),
                                cfg.capacity))
  {
    var before := HandleAll(cfg, st, batches);
    HandleAllLast(cfg, st, batches, last);
    HandleAllKeeps(cfg, st, batches);
    PathsStored(cfg, Asked(cfg, before.buf + last));
    if before.open {
      LastBatchUncached(cfg, before, last);
    }
  }

  lemma {:induction false} HandleAllLast(cfg: Config, st: State, batches: seq<string>, last: string)
    ensures HandleAll(cfg, st, batches + [last]) == Handle(cfg, HandleAll(cfg, st, batches), last)
    decreases |batches|
  {
    if batches == [] {
      assert [last][1..] == [] && HandleAll(cfg, Handle(cfg, st, last), []) == Handle(cfg, st, last);
    } else {
      HandleAllLast(cfg, Handle(cfg, st, batches[0]), batches[1..], last);
      assert (batches + [last])[1..] == batches[1..] + [last];
    }
  }
}
