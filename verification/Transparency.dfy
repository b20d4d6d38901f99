/** What the cache can and cannot do to the bytes a client receives. */
module Transparency {
  import opened Strings
  import opened Buffers
  import opened Responses
  import opened Lru
  import opened Handling
  import opened Serving
  import Stack = StackTheorem

  /** The same server without a cache: nothing fits into a negative capacity. */
  function CacheFree(cfg: Config): Config {
    cfg.(capacity := -1)
  }

  /** The bytes a request adds to its answer beyond what it should be: a HEAD request that hits the cache gets the
      file. */
  function Leak(o: Outcome, cache: Entries): nat {
    if ToHead(o) && HasKey(cache, o.path) then |CachedData(cache, o.path)| else 0
  }

  /** The bytes leaked over a whole call. */
  function Leaked(cfg: Config, cache: Entries, os: seq<Outcome>): nat
    requires AllPossible(cfg, os)
    decreases |os|
  {
    if os == [] || os[0].Cgi? then 0
    else Leak(os[0], cache) + if Closes(os[0]) then 0 else Leaked(cfg, CacheAfter(cfg, os[0], cache), os[1..])
  }

  lemma {:induction false} LeakedCons(cfg: Config, cache: Entries, o: Outcome, os: seq<Outcome>)
    requires Possible(cfg, o) && AllPossible(cfg, os) && !o.Cgi?
    ensures AllPossible(cfg, [o] + os)
    ensures Leaked(cfg, cache, [o] + os)
         == Leak(o, cache) + if Closes(o) then 0 else Leaked(cfg, CacheAfter(cfg, o, cache), os)
  {
    assert ([o] + os)[1..] == os;
  }

  lemma {:induction false} ConsistentAfter(cfg: Config, o: Outcome, cache: Entries)
    requires Possible(cfg, o) && Consistent(cache, cfg.files)
    ensures Consistent(CacheAfter(cfg, o, cache), cfg.files)
  {
    if o.Serve? {
      ConsistencyKept(cache, cfg.files, cfg.capacity, o.path);
    }
  }

  /** The answer `m` where the server without a cache answers `free`: the same, or the file on top of the head that
      answers a HEAD request. */
  predicate Carries(cfg: Config, o: Outcome, free: Message, m: Message) {
    || m == free
    || (&& ToHead(o) && o.path in cfg.files
        && free == FileHead(o.close, o.path, cfg.files) && m == FileMessage(o.close, o.path, cfg.files))
  }

  /** The answers to these requests, one by one. */
  ghost predicate CarryAll(cfg: Config, os: seq<Outcome>, free: seq<Message>, ms: seq<Message>) {
    |ms| == |free| == |os| && forall i :: 0 <= i < |ms| ==> Carries(cfg, os[i], free[i], ms[i])
  }

  /** The bytes of the bodies in `ms` beyond those in `free`. */
  function Extra(free: seq<Message>, ms: seq<Message>): int
    requires |free| == |ms|
  {
    if ms == [] then 0 else |ms[0].body| - |free[0].body| + Extra(free[1..], ms[1..])
  }

  /** The requests that one call answers. */
  function Answered(os: seq<Outcome>): seq<Outcome> {
    if os == [] || os[0].Cgi? then []
    else [os[0]] + if Closes(os[0]) then [] else Answered(os[1..])
  }

  lemma {:induction false} AnsweredCons(o: Outcome, os: seq<Outcome>)
    requires !o.Cgi?
    ensures Answered([o] + os) == [o] + if Closes(o) then [] else Answered(os)
  {
    assert ([o] + os)[1..] == os;
  }

  lemma {:induction false} CarryCons(cfg: Config, o: Outcome, os: seq<Outcome>, f: Message, fs: seq<Message>, m: Message,
                                     ms: seq<Message>)
    requires Carries(cfg, o, f, m) && CarryAll(cfg, os, fs, ms)
    ensures CarryAll(cfg, [o] + os, [f] + fs, [m] + ms)
    ensures Extra([f] + fs, [m] + ms) == |m.body| - |f.body| + Extra(fs, ms)
  {
    var os', fs', ms' := [o] + os, [f] + fs, [m] + ms;
    assert fs'[1..] == fs && ms'[1..] == ms;
    forall i | 0 <= i < |ms'| ensures Carries(cfg, os'[i], fs'[i], ms'[i]) {
      if i > 0 {
        assert os'[i] == os[i - 1] && fs'[i] == fs[i - 1] && ms'[i] == ms[i - 1];
      }
    }
  }

  lemma {:induction false} ExtraAppend(fs: seq<Message>, ms: seq<Message>, fs': seq<Message>, ms': seq<Message>)
    requires |fs| == |ms| && |fs'| == |ms'|
    ensures Extra(fs + fs', ms + ms') == Extra(fs, ms) + Extra(fs', ms')
    decreases |ms|
  {
    if ms == [] {
      assert fs + fs' == fs' && ms + ms' == ms';
    } else {
      ExtraAppend(fs[1..], ms[1..], fs', ms');
      assert (fs + fs')[1..] == fs[1..] + fs' && (ms + ms')[1..] == ms[1..] + ms';
    }
  }

  lemma {:induction false} CarryAppend(cfg: Config, os: seq<Outcome>, fs: seq<Message>, ms: seq<Message>,
                                       os': seq<Outcome>, fs': seq<Message>, ms': seq<Message>)
    requires CarryAll(cfg, os, fs, ms) && CarryAll(cfg, os', fs', ms')
    ensures CarryAll(cfg, os + os', fs + fs', ms + ms')
  {
    var n := |ms|;
    forall i | 0 <= i < n + |ms'| ensures Carries(cfg, (os + os')[i], (fs + fs')[i], (ms + ms')[i]) {
      if i < n {
        assert Carries(cfg, os[i], fs[i], ms[i]);
      } else {
        assert Carries(cfg, os'[i - n], fs'[i - n], ms'[i - n]);
      }
    }
  }

  lemma {:induction false} CarriedBody(cfg: Config, o: Outcome, free: Message, m: Message)
    requires Carries(cfg, o, free, m)
    ensures |m.body| >= |free.body| && |Encode(m)| - |Encode(free)| == |m.body| - |free.body|
    ensures |m.body| == |free.body| ==> m == free
  {
  }

  lemma {:induction false} CarriedLengths(cfg: Config, os: seq<Outcome>, free: seq<Message>, ms: seq<Message>)
    requires CarryAll(cfg, os, free, ms)
    ensures Extra(free, ms) >= 0 && |EncodeAll(ms)| == |EncodeAll(free)| + Extra(free, ms)
    ensures Extra(free, ms) == 0 ==> ms == free
    decreases |ms|
  {
    if ms != [] {
      CarriedBody(cfg, os[0], free[0], ms[0]);
      CarriedLengths(cfg, os[1..], free[1..], ms[1..]);
      if ms[1..] == free[1..] && ms[0] == free[0] {
        assert ms == [ms[0]] + ms[1..] && free == [free[0]] + free[1..];
      }
    }
  }

  lemma {:induction false} NoExtra(ms: seq<Message>)
    ensures Extra(ms, ms) == 0
    decreases |ms|
  {
    if ms != [] {
      NoExtra(ms[1..]);
    }
  }

  /** What the carried files mean for the bytes. */
  lemma {:induction false} CarriedBytes(cfg: Config, os: seq<Outcome>, free: seq<Message>, ms: seq<Message>)
    requires CarryAll(cfg, os, free, ms)
    ensures Extra(free, ms) >= 0 && |EncodeAll(ms)| == |EncodeAll(free)| + Extra(free, ms)
    ensures EncodeAll(ms) == EncodeAll(free) <==> ms == free
    ensures Extra(free, ms) == 0 <==> ms == free
  {
    CarriedLengths(cfg, os, free, ms);
    NoExtra(ms);
  }

  /** With a cache that holds true copies, an answer is that of the server without a cache, or the file on top of it. */
  lemma {:induction false} ReplyTransparent(cfg: Config, o: Outcome, cache: Entries)
    requires Possible(cfg, o) && !o.Cgi? && Consistent(cache, cfg.files)
    ensures var m, free := Reply(cfg, o, cache), Reply(CacheFree(cfg), o, []);
      && Carries(cfg, o, free, m)
      && (Leak(o, cache) == 0 ==> m == free)
      && |m.body| == |free.body| + Leak(o, cache)
      && (ToHead(o) ==> |m.body| == Leak(o, cache))
  {
    if o.Serve? && HasKey(cache, o.path) {
      assert CachedData(cache, o.path) == cfg.files[o.path] by {
        assert cache[IndexOf(cache, o.path)] in cache;
      }
    }
  }

  lemma {:induction false} FreeCacheStaysEmpty(cfg: Config, o: Outcome)
    requires Possible(cfg, o)
    ensures CacheAfter(CacheFree(cfg), o, []) == []
  {
  }

  lemma {:induction false} PossibleAlike(cfg: Config, os: seq<Outcome>)
    requires AllPossible(cfg, os)
    ensures AllPossible(CacheFree(cfg), os)
  {
    forall o | o in os ensures Possible(CacheFree(cfg), o) {
      assert Possible(cfg, o);
    }
  }

  /** Cache transparency, message by message: the same answers in the same places, except that the answer to a HEAD
      request may carry the file. */
  lemma {:induction false} ServedTransparent(cfg: Config, cache: Entries, os: seq<Outcome>)
    requires AllPossible(cfg, os) && Consistent(cache, cfg.files)
    ensures AllPossible(CacheFree(cfg), os)
    ensures var ms, free := Served(cfg, cache, os), Served(CacheFree(cfg), [], os);
      CarryAll(cfg, Answered(os), free, ms) && Extra(free, ms) == Leaked(cfg, cache, os)
    decreases |os|
  {
    PossibleAlike(cfg, os);
    if os != [] && !os[0].Cgi? {
      var o, tail := os[0], os[1..];
      assert os == [o] + tail;
      assert AllPossible(cfg, tail) && Possible(cfg, o);
      PossibleAlike(cfg, tail);
      var cache' := CacheAfter(cfg, o, cache);
      ReplyTransparent(cfg, o, cache);
      FreeCacheStaysEmpty(cfg, o);
      ConsistentAfter(cfg, o, cache);
      ServedTransparent(cfg, cache', tail);
      ServedCons(cfg, cache, o, tail);
      ServedCons(CacheFree(cfg), [], o, tail);
      LeakedCons(cfg, cache, o, tail);
      AnsweredCons(o, tail);
      CarryCons(cfg, o, if Closes(o) then [] else Answered(tail),
                Reply(CacheFree(cfg), o, []), if Closes(o) then [] else Served(CacheFree(cfg), [], tail),
                Reply(cfg, o, cache), if Closes(o) then [] else Served(cfg, cache', tail));
    }
  }

  lemma {:induction false} DecideIgnoresCapacity(cfg: Config, buf: string)
    ensures Asked(CacheFree(cfg), buf) == Asked(cfg, buf)
  {
    OutcomesIgnoreCapacity(cfg, Frames(buf, CRLF2));
  }

  lemma {:induction false} OutcomesIgnoreCapacity(cfg: Config, fs: seq<string>)
    ensures Outcomes(CacheFree(cfg), fs) == Outcomes(cfg, fs)
    decreases |fs|
  {
    if fs != [] {
      OutcomesIgnoreCapacity(cfg, fs[1..]);
    }
  }

  /** Cache transparency of a call. With a cache that holds true copies of the files, a call gives the answers of the
      server without a cache, in the same places, except that the answer to a HEAD request may carry the file behind its
      head; the bytes are the same exactly when no HEAD request hits a non-empty cached file. Closing and residue never
      differ, and the cache keeps holding true copies. */
  lemma {:induction false} CallIsTransparent(cfg: Config, st: State) returns (free: seq<Message>, ms: seq<Message>)
    requires st.open && Consistent(st.cache, cfg.files)
    ensures var os := Asked(cfg, st.buf);
      var end, end' := Loop(cfg, st), Loop(CacheFree(cfg), st.(cache := []));
      && end.sent == st.sent + EncodeAll(ms) && end'.sent == st.sent + EncodeAll(free)
      && CarryAll(cfg, Answered(os), free, ms)
      && |end.sent| == |end'.sent| + Leaked(cfg, st.cache, os)
      && (end.sent == end'.sent <==> Leaked(cfg, st.cache, os) == 0)
      && end.open == end'.open && end.buf == end'.buf
      && Consistent(end.cache, cfg.files) && end'.cache == []
  {
    var os, st0 := Asked(cfg, st.buf), st.(cache := []);
    DecideIgnoresCapacity(cfg, st.buf);
    ServedTransparent(cfg, st.cache, os);
    free, ms := Served(CacheFree(cfg), [], os), Served(cfg, st.cache, os);
    CarriedBytes(cfg, Answered(os), free, ms);
    LoopSends(cfg, st);
    LoopSends(CacheFree(cfg), st0);
    LoopsAlike(cfg, st, st0);
    SamePrefix(st.sent, EncodeAll(ms), EncodeAll(free));
  }

  lemma {:induction false} SamePrefix(x: string, a: string, b: string)
    ensures x + a == x + b <==> a == b
  {
    assert (x + a)[|x|..] == a && (x + b)[|x|..] == b;
  }

  /** Two connections with the same buffer go the same way whatever the caches and the bytes sent before. */
  lemma {:induction false} LoopsAlike(cfg: Config, st: State, free: State)
    requires st.open && free.open && st.buf == free.buf && free.cache == [] && Consistent(st.cache, cfg.files)
    ensures Loop(cfg, st).open == Loop(CacheFree(cfg), free).open
    ensures Loop(cfg, st).buf == Loop(CacheFree(cfg), free).buf
    ensures Consistent(Loop(cfg, st).cache, cfg.files) && Loop(CacheFree(cfg), free).cache == []
    decreases |st.buf|
  {
    if Ready(st) {
      var f, o, rest, next := Turn(cfg, st);
      var f', o', rest', next' := Turn(CacheFree(cfg), free);
      SameFirst(f, rest, f', rest', Frames(rest, CRLF2), Frames(rest', CRLF2));
      DecideIgnoresCapacity(cfg, st.buf);
      assert o == Asked(cfg, st.buf)[0] == o';
      if !o.Cgi? {
        ConsistentAfter(cfg, o, st.cache);
        FreeCacheStaysEmpty(cfg, o);
        if next.open {
          LoopsAlike(cfg, next, next');
        }
      }
    } else {
      Idle(cfg, st);
      Idle(CacheFree(cfg), free);
    }
  }

  lemma {:induction false} SameFirst(f: string, rest: string, f': string, rest': string, fs: seq<string>, fs': seq<string>)
    requires f + rest == f' + rest' && [f] + fs == [f'] + fs'
    ensures f == f' && rest == rest'
  {
    assert f == ([f] + fs)[0] == ([f'] + fs')[0] == f';
    assert rest == (f + rest)[|f|..] == (f' + rest')[|f'|..] == rest';
  }

  // ---- Threads ----

  /** The atomic operations that handlers on other threads perform on the shared cache. */
  datatype CacheOp = LoadOp(key: string) | InsertOp(key: string, data: string) | ClearOp

  function ApplyOp(es: Entries, capacity: int, op: CacheOp): Entries {
    match op
    case LoadOp(k) => Load(es, k)
    case InsertOp(k, data) => Insert(es, capacity, k, data)
    case ClearOp => []
  }

  function ApplyOps(es: Entries, capacity: int, ops: seq<CacheOp>): Entries
    decreases |ops|
  {
    if ops == [] then es else ApplyOps(ApplyOp(es, capacity, ops[0]), capacity, ops[1..])
  }

  /** Handlers insert a file under its own path. */
  ghost predicate InsertsFiles(ops: seq<CacheOp>, files: Files) {
    forall op :: op in ops && op.InsertOp? ==> op.key in files && files[op.key] == op.data
  }

  lemma {:induction false} OpsKeep(es: Entries, capacity: int, ops: seq<CacheOp>, files: Files)
    requires WithinBudget(es, capacity) && Consistent(es, files) && InsertsFiles(ops, files)
    ensures WithinBudget(ApplyOps(es, capacity, ops), capacity)
    ensures Consistent(ApplyOps(es, capacity, ops), files)
    decreases |ops|
  {
    if ops != [] {
      assert ops[0] in ops && forall op :: op in ops[1..] ==> op in ops;
      match ops[0] {
        case LoadOp(k) =>
          LoadKeepsBudget(es, capacity, k);
          ConsistencyKept(es, files, capacity, k);
        case InsertOp(k, data) =>
          InsertKeepsBudget(es, capacity, k, data);
          ConsistencyKept(es, files, capacity, k);
        case ClearOp =>
      }
      OpsKeep(ApplyOp(es, capacity, ops[0]), capacity, ops[1..], files);
    }
  }

  lemma {:induction false} ApplyOpsLast(es: Entries, capacity: int, ops: seq<CacheOp>, op: CacheOp)
    ensures ApplyOps(es, capacity, ops + [op]) == ApplyOp(ApplyOps(es, capacity, ops), capacity, op)
    decreases |ops|
  {
    if ops == [] {
      assert [op][1..] == [];
    } else {
      ApplyOpsLast(ApplyOp(es, capacity, ops[0]), capacity, ops[1..], op);
      assert (ops + [op])[1..] == ops[1..] + [op];
    }
  }

  /** The operation makes its key the most recent one: a load that hits, or an insert that is admitted. */
  predicate Touches(es: Entries, capacity: int, op: CacheOp) {
    match op
    case LoadOp(k) => HasKey(es, k)
    case InsertOp(k, data) => Admits(es, capacity, k, data)
    case ClearOp => false
  }

  /** The accesses that interleaved operations amount to, since the last clearing: when two threads miss the same file,
      the second insert finds it there and is no access. */
  function Touched(capacity: int, ops: seq<CacheOp>): seq<string> {
    if ops == [] then []
    else
      var before, op := ops[..|ops| - 1], ops[|ops| - 1];
      if op.ClearOp? then []
      else Touched(capacity, before) + if Touches(ApplyOps([], capacity, before), capacity, op) then [op.key] else []
  }

  lemma {:induction false} OpIsAccess(es: Entries, capacity: int, op: CacheOp, files: Files)
    requires Consistent(es, files) && WithinBudget(es, capacity) && InsertsFiles([op], files) && !op.ClearOp?
    ensures Touches(es, capacity, op) ==> op.key in files && |files[op.key]| <= capacity
    ensures Touches(es, capacity, op) ==>
      ApplyOp(es, capacity, op) == Stack.Access(es, capacity, op.key, files[op.key])
    ensures !Touches(es, capacity, op) ==> ApplyOp(es, capacity, op) == es
  {
    assert op in [op];
    if op.LoadOp? && HasKey(es, op.key) {
      var e := es[IndexOf(es, op.key)];
      assert e in es && files[op.key] == e.data;
      Stack.EntryFits(es, e);
    }
  }

  lemma {:induction false} OpsAreAccesses(capacity: int, ops: seq<CacheOp>, files: Files)
    requires InsertsFiles(ops, files)
    ensures Stack.Stored(Touched(capacity, ops), files)
    ensures forall k :: k in Touched(capacity, ops) ==> |files[k]| <= capacity
    ensures ApplyOps([], capacity, ops) == Stack.AccessAll([], capacity, files, Touched(capacity, ops))
    decreases |ops|
  {
    if ops != [] {
      var before, op := ops[..|ops| - 1], ops[|ops| - 1];
      assert ops == before + [op];
      assert forall o :: o in before ==> o in ops;
      ApplyOpsLast([], capacity, before, op);
      if !op.ClearOp? {
        var t, es := Touched(capacity, before), ApplyOps([], capacity, before);
        OpsAreAccesses(capacity, before, files);
        OpsKeep([], capacity, before, files);
        OpIsAccess(es, capacity, op, files);
        assert (t + [op.key])[..|t|] == t && t + [] == t;
      }
    }
  }

  /** Whatever way the cache operations of any number of threads interleave, the cache is the longest fitting suffix of
      the touched files in order of recency, and a file hits exactly when its reuse distance among them fits. */
  lemma {:induction false} InterleavedCache(capacity: int, ops: seq<CacheOp>, files: Files, path: string) returns (n: nat)
    requires InsertsFiles(ops, files)
    ensures var t := Touched(capacity, ops);
      && Stack.Stored(t, files)
      && Stack.LongestFit(Stack.Recent(t, files), capacity, n)
      && ApplyOps([], capacity, ops) == Stack.Recent(t, files)[n..]
      && (HasKey(ApplyOps([], capacity, ops), path) <==>
            path in t && Stack.ReuseDistance(t, files, path) <= capacity)
  {
    var t := Touched(capacity, ops);
    OpsAreAccesses(capacity, ops, files);
    Stack.AllCacheable(t, files, capacity);
    n := Stack.CacheIsLongestRecentFit(t, files, capacity);
    Stack.HitByReuseDistance(t, files, capacity, path);
  }

  /** Whatever cache operations other threads interleave with a handler, the cache stays within its budget and holds
      true copies, and the answer to a GET request is the head with the file; the answer to a HEAD request is the bare
      head exactly when it leaks nothing. */
  lemma {:induction false} AnswersSurviveInterleaving(cfg: Config, ops: seq<CacheOp>, o: Outcome)
    requires Possible(cfg, o) && !o.Cgi? && InsertsFiles(ops, cfg.files)
    ensures var cache := ApplyOps([], cfg.capacity, ops);
      && WithinBudget(cache, cfg.capacity) && Consistent(cache, cfg.files)
      && (o.Bad? ==> Reply(cfg, o, cache) == ErrorMessage(RESPONSE_BAD_REQUEST))
      && (o.Missing? ==> Reply(cfg, o, cache) == ErrorMessage(RESPONSE_NOT_FOUND))
      && (o.Serve? && !o.toHead ==> Reply(cfg, o, cache) == FileMessage(o.close, o.path, cfg.files))
      && (ToHead(o) ==> (Reply(cfg, o, cache) == FileHead(o.close, o.path, cfg.files) <==> Leak(o, cache) == 0))
  {
    OpsKeep([], cfg.capacity, ops, cfg.files);
    ReplyTransparent(cfg, o, ApplyOps([], cfg.capacity, ops));
  }

  // ---- Reading the answers ----

  lemma {:induction false} ReplyFramed(cfg: Config, o: Outcome, cache: Entries)
    requires Possible(cfg, o) && !o.Cgi? && Consistent(cache, cfg.files)
    ensures WellFramed(Reply(cfg, o, cache), ToHead(o)) <==> Leak(o, cache) == 0
    ensures ToHead(o) ==> |Reply(cfg, o, cache).body| == Leak(o, cache)
    ensures Leak(o, cache) > 0 ==> ToHead(o)
  {
    ReplyTransparent(cfg, o, cache);
    match o {
      case Bad => ServerMessagesWellFramed(true, "", cfg.files, RESPONSE_BAD_REQUEST);
      case Missing => ServerMessagesWellFramed(true, "", cfg.files, RESPONSE_NOT_FOUND);
      case Serve(path, toHead, close) =>
        var m := Reply(cfg, o, cache);
        FileHeadFramed(close, path, cfg.files, m.body, toHead);
        if HasKey(cache, path) {
          assert cache[IndexOf(cache, path)] in cache;
        }
    }
  }

  lemma {:induction false} StreamFramedCons(m: Message, ms: seq<Message>, b: bool, bs: seq<bool>)
    requires StreamFramed(ms, bs) && WellFramed(m, b)
    ensures StreamFramed([m] + ms, [b] + bs)
  {
    assert forall i :: 0 < i < |ms| + 1 ==> ([m] + ms)[i] == ms[i - 1] && ([b] + bs)[i] == bs[i - 1];
  }

  /** The answer to some HEAD request has a body. */
  ghost predicate HeadHasBody(ms: seq<Message>, toHead: seq<bool>) {
    exists i :: 0 <= i < |ms| && i < |toHead| && toHead[i] && ms[i].body != ""
  }

  lemma {:induction false} HeadHasBodyCons(m: Message, ms: seq<Message>, b: bool, bs: seq<bool>)
    ensures (b && m.body != "") || HeadHasBody(ms, bs) ==> HeadHasBody([m] + ms, [b] + bs)
  {
    var ms', bs' := [m] + ms, [b] + bs;
    if b && m.body != "" {
      assert bs'[0] && ms'[0].body != "";
    } else if HeadHasBody(ms, bs) {
      var i :| 0 <= i < |ms| && i < |bs| && bs[i] && ms[i].body != "";
      assert bs'[i + 1] && ms'[i + 1] == ms[i];
    }
  }

  lemma {:induction false} ServedFraming(cfg: Config, cache: Entries, os: seq<Outcome>)
    requires AllPossible(cfg, os) && Consistent(cache, cfg.files)
    ensures Leaked(cfg, cache, os) == 0 ==> StreamFramed(Served(cfg, cache, os), HeadFlags(os))
    ensures Leaked(cfg, cache, os) > 0 ==> HeadHasBody(Served(cfg, cache, os), HeadFlags(os))
    decreases |os|
  {
    if os != [] && !os[0].Cgi? {
      var o, tail := os[0], os[1..];
      assert os == [o] + tail;
      assert AllPossible(cfg, tail) && Possible(cfg, o);
      ConsistentAfter(cfg, o, cache);
      ServedFraming(cfg, CacheAfter(cfg, o, cache), tail);
      ReplyFramed(cfg, o, cache);
      var m, ms, more := ServedFirst(cfg, cache, o, tail);
      FramingCons(m, ms, ToHead(o), HeadFlags(tail), Leak(o, cache), more);
    }
  }

  lemma {:induction false} HeadFlagsCons(o: Outcome, os: seq<Outcome>)
    ensures HeadFlags([o] + os) == [ToHead(o)] + HeadFlags(os)
  {
  }

  /** The first answer, the others, and what the others leak. */
  lemma {:induction false} ServedFirst(cfg: Config, cache: Entries, o: Outcome, os: seq<Outcome>)
      returns (m: Message, ms: seq<Message>, more: nat)
    requires Possible(cfg, o) && AllPossible(cfg, os) && !o.Cgi?
    ensures AllPossible(cfg, [o] + os)
    ensures m == Reply(cfg, o, cache) && Served(cfg, cache, [o] + os) == [m] + ms
    ensures Leaked(cfg, cache, [o] + os) == Leak(o, cache) + more
    ensures HeadFlags([o] + os) == [ToHead(o)] + HeadFlags(os)
    ensures Closes(o) ==> ms == [] && more == 0
    ensures !Closes(o) ==>
      ms == Served(cfg, CacheAfter(cfg, o, cache), os) && more == Leaked(cfg, CacheAfter(cfg, o, cache), os)
  {
    ServedCons(cfg, cache, o, os);
    LeakedCons(cfg, cache, o, os);
    HeadFlagsCons(o, os);
    m, ms := Reply(cfg, o, cache), if Closes(o) then [] else Served(cfg, CacheAfter(cfg, o, cache), os);
    more := if Closes(o) then 0 else Leaked(cfg, CacheAfter(cfg, o, cache), os);
  }

  lemma {:induction false} FramingCons(m: Message, ms: seq<Message>, b: bool, bs: seq<bool>, leak: nat, more: nat)
    requires (WellFramed(m, b) <==> leak == 0) && (leak > 0 ==> b && m.body != "")
    requires more == 0 ==> StreamFramed(ms, bs)
    requires more > 0 ==> HeadHasBody(ms, bs)
    ensures leak + more == 0 ==> StreamFramed([m] + ms, [b] + bs)
    ensures leak + more > 0 ==> HeadHasBody([m] + ms, [b] + bs)
  {
    HeadHasBodyCons(m, ms, b, bs);
    if leak + more == 0 {
      StreamFramedCons(m, ms, b, bs);
    }
  }

  /** A client that knows which of its pipelined requests were HEAD requests reads from the bytes of a call exactly the
      answers it should get, which are those of the server without a cache, even when bodies contain blank lines, if
      and only if no HEAD request hit a non-empty cached file. */
  lemma {:induction false} AnswersReadBack(cfg: Config, st: State)
    requires st.open && Consistent(st.cache, cfg.files)
    ensures var os := Asked(cfg, st.buf);
      AllPossible(CacheFree(cfg), os)
      && st.sent <= Loop(cfg, st).sent
      && (ReadStream(Loop(cfg, st).sent[|st.sent|..], HeadFlags(os)) == Some(Served(CacheFree(cfg), [], os))
          <==> Leaked(cfg, st.cache, os) == 0)
  {
    var os := Asked(cfg, st.buf);
    ServedTransparent(cfg, st.cache, os);
    var ms, free := Served(cfg, st.cache, os), Served(CacheFree(cfg), [], os);
    LoopSends(cfg, st);
    assert Loop(cfg, st).sent[|st.sent|..] == EncodeAll(ms);
    CarriedBytes(cfg, Answered(os), free, ms);
    ServedFraming(cfg, st.cache, os);
    if Leaked(cfg, st.cache, os) == 0 {
      StreamReadBack(ms, HeadFlags(os));
    } else if ReadStream(EncodeAll(ms), HeadFlags(os)).Some? {
      StreamIsExact(EncodeAll(ms), HeadFlags(os));
    }
  }

  // ---- The cache contents ----

  lemma {:induction false} AccessAllCons(es: Entries, capacity: int, files: Files, k: string, trace: seq<string>)
    requires k in files && Stack.Stored(trace, files)
    ensures Stack.Stored([k] + trace, files)
    ensures Stack.AccessAll(es, capacity, files, [k] + trace)
         == Stack.AccessAll(Stack.Access(es, capacity, k, files[k]), capacity, files, trace)
    decreases |trace|
  {
    var all := [k] + trace;
    if trace == [] {
      assert all == [k] && all[..0] == [];
    } else {
      var before := trace[..|trace| - 1];
      assert all[..|all| - 1] == [k] + before;
      assert all[|all| - 1] == trace[|trace| - 1];
      AccessAllCons(es, capacity, files, k, before);
    }
  }

  lemma {:induction false} PathsStored(cfg: Config, os: seq<Outcome>)
    requires AllPossible(cfg, os)
    ensures Stack.Stored(Paths(os), cfg.files)
    decreases |os|
  {
    if os != [] {
      assert os[0] in os && Possible(cfg, os[0]);
      assert forall o :: o in os[1..] ==> o in os;
      PathsStored(cfg, os[1..]);
    }
  }

  /** A call accesses the cache exactly for the files it serves, in order, so the stack theorem of `StackTheorem`
      describes the cache of the running server. */
  lemma {:induction false} LoopAccesses(cfg: Config, st: State)
    requires st.open
    ensures Stack.Stored(Paths(Asked(cfg, st.buf)), cfg.files)
    ensures Loop(cfg, st).cache == Stack.AccessAll(st.cache, cfg.capacity, cfg.files, Paths(Asked(cfg, st.buf)))
    decreases |st.buf|
  {
    PathsStored(cfg, Asked(cfg, st.buf));
    if !Ready(st) {
      Idle(cfg, st);
    } else {
      var f, o, rest, next := Turn(cfg, st);
      var os := Asked(cfg, rest);
      if !o.Cgi? {
        PathsStored(cfg, os);
        ServedCons(cfg, st.cache, o, os);
        if next.open {
          LoopAccesses(cfg, next);
        }
        if o.Serve? {
          AccessAllCons(st.cache, cfg.capacity, cfg.files, o.path, if Closes(o) then [] else Paths(os));
        } else {
          assert [] + Paths(os) == Paths(os);
        }
      }
    }
  }

  /** After a call on a fresh cache, the cached files are the longest suffix of the served files, most recent last,
      that fits the capacity. */
  lemma {:induction false} CacheOfCall(cfg: Config, st: State) returns (n: nat)
    requires st.open && st.cache == []
    ensures Stack.Stored(Paths(Asked(cfg, st.buf)), cfg.files)
    ensures var order := Stack.Recent(Stack.Cacheable(Paths(Asked(cfg, st.buf)), cfg.files, cfg.capacity), cfg.files);
      Stack.LongestFit(order, cfg.capacity, n) && Loop(cfg, st).cache == order[n..]
  {
    LoopAccesses(cfg, st);
    n := Stack.CacheIsLongestRecentFit(Paths(Asked(cfg, st.buf)), cfg.files, cfg.capacity);
  }
}
