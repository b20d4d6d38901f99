/** Many connections, one cache: the calls of the handler on different connections interleave in any order. */
module ManyConnections {
  import opened Strings
  import opened Responses
  import opened Lru
  import opened Handling
  import opened Serving
  import opened Transparency
  import Stack = StackTheorem

  datatype Conn = Conn(open: bool, buf: string, sent: string)

  datatype Server = Server(conns: map<nat, Conn>, cache: Entries)

  /** One call of the handler: bytes have arrived on a connection, possibly together with the end of its stream. */
  datatype Event = Data(id: nat, batch: string) | Exit(id: nat, batch: string)

  /** A connection that has not been heard of is fresh. */
  function ConnOf(sv: Server, id: nat): Conn {
    if id in sv.conns then sv.conns[id] else Conn(true, "", "")
  }

  function Call(cfg: Config, c: Conn, cache: Entries, e: Event): State {
    var st := State(c.open, c.buf, c.sent, cache);
    match e
    case Data(_, batch) => Handle(cfg, st, batch)
    case Exit(_, batch) => HandleExit(Feed(st, batch))
  }

  function AsConn(st: State): Conn {
    Conn(st.open, st.buf, st.sent)
  }

  function ServeEvent(cfg: Config, sv: Server, e: Event): Server {
    var end := Call(cfg, ConnOf(sv, e.id), sv.cache, e);
    Server(sv.conns[e.id := AsConn(end)], end.cache)
  }

  function Run(cfg: Config, sv: Server, events: seq<Event>): Server
    decreases |events|
  {
    if events == [] then sv else Run(cfg, ServeEvent(cfg, sv, events[0]), events[1..])
  }

  /** The frames a call will find. */
  function AskedBy(cfg: Config, c: Conn, e: Event): seq<Outcome> {
    if e.Data? && c.open then Asked(cfg, c.buf + e.batch) else []
  }

  /** What an event does to one connection when there is no cache. */
  function AloneAfter(cfg: Config, c: Conn, id: nat, e: Event): Conn {
    if e.id == id then AsConn(Call(CacheFree(cfg), c, [], e)) else c
  }

  /** What the events of one connection lead to when there is nobody else and no cache. */
  function Alone(cfg: Config, c: Conn, id: nat, events: seq<Event>): Conn
    decreases |events|
  {
    if events == [] then c else Alone(cfg, AloneAfter(cfg, c, id, events[0]), id, events[1..])
  }

  /** The requests of one connection that an event gets answered. */
  function AnsweredNow(cfg: Config, sv: Server, id: nat, e: Event): seq<Outcome> {
    if e.id == id then Answered(AskedBy(cfg, ConnOf(sv, id), e)) else []
  }

  function AnsweredTo(cfg: Config, sv: Server, id: nat, events: seq<Event>): seq<Outcome>
    decreases |events|
  {
    if events == [] then []
    else AnsweredNow(cfg, sv, id, events[0]) + AnsweredTo(cfg, ServeEvent(cfg, sv, events[0]), id, events[1..])
  }

  /** The bytes that HEAD requests leak to one connection in an event, and over a run. */
  function LeakedNow(cfg: Config, sv: Server, id: nat, e: Event): nat {
    if e.id == id then Leaked(cfg, sv.cache, AskedBy(cfg, ConnOf(sv, id), e)) else 0
  }

  function LeakedTo(cfg: Config, sv: Server, id: nat, events: seq<Event>): nat
    decreases |events|
  {
    if events == [] then 0
    else LeakedNow(cfg, sv, id, events[0]) + LeakedTo(cfg, ServeEvent(cfg, sv, events[0]), id, events[1..])
  }

  /** The files a run looks up, in order, over all connections. */
  function Lookups(cfg: Config, sv: Server, events: seq<Event>): seq<string>
    decreases |events|
  {
    if events == [] then []
    else
      Paths(AskedBy(cfg, ConnOf(sv, events[0].id), events[0]))
      + Lookups(cfg, ServeEvent(cfg, sv, events[0]), events[1..])
  }

  // ---- Isolation ----

  /** A connection `c` next to the one that is served alone and without a cache, `free`: what they were sent in answer to
      `os`, and by how many bytes the one is ahead. */
  datatype Pair = Pair(c: Conn, free: Conn, os: seq<Outcome>, freeMs: seq<Message>, ms: seq<Message>, leak: nat)

  ghost predicate Ahead(cfg: Config, p: Pair) {
    && p.c.open == p.free.open && p.c.buf == p.free.buf
    && p.c.sent == EncodeAll(p.ms) && p.free.sent == EncodeAll(p.freeMs)
    && CarryAll(cfg, p.os, p.freeMs, p.ms) && Extra(p.freeMs, p.ms) == p.leak
  }

  lemma {:induction false} EncodeAllAppend(a: seq<Message>, b: seq<Message>)
    ensures EncodeAll(a + b) == EncodeAll(a) + EncodeAll(b)
    decreases |a|
  {
    if a == [] {
      assert a + b == b;
    } else {
      EncodeAllAppend(a[1..], b);
      assert (a + b)[1..] == a[1..] + b;
    }
  }

  lemma {:induction false} SentMore(a: seq<Message>, b: seq<Message>, sent: string, end: string)
    requires sent == EncodeAll(a) && end == sent + EncodeAll(b)
    ensures end == EncodeAll(a + b)
  {
    EncodeAllAppend(a, b);
  }

  lemma {:induction false} CallAhead(cfg: Config, p: Pair, cache: Entries, e: Event) returns (p': Pair)
    requires Ahead(cfg, p) && Consistent(cache, cfg.files)
    ensures Ahead(cfg, p')
    ensures p'.c == AsConn(Call(cfg, p.c, cache, e)) && p'.free == AsConn(Call(CacheFree(cfg), p.free, [], e))
    ensures p'.os == p.os + Answered(AskedBy(cfg, p.c, e))
    ensures p'.leak == p.leak + Leaked(cfg, cache, AskedBy(cfg, p.c, e))
  {
    var asked := AskedBy(cfg, p.c, e);
    var c', free' := AsConn(Call(cfg, p.c, cache, e)), AsConn(Call(CacheFree(cfg), p.free, [], e));
    if e.Data? && p.c.open {
      var buf := p.c.buf + e.batch;
      var st, st0 := State(true, buf, p.c.sent, cache), State(true, buf, p.free.sent, []);
      DecideIgnoresCapacity(cfg, buf);
      ServedTransparent(cfg, cache, asked);
      LoopSends(cfg, st);
      LoopSends(CacheFree(cfg), st0);
      LoopsAlike(cfg, st, st0);
      var freeMs, ms := Served(CacheFree(cfg), [], asked), Served(cfg, cache, asked);
      CarryAppend(cfg, p.os, p.freeMs, p.ms, Answered(asked), freeMs, ms);
      ExtraAppend(p.freeMs, p.ms, freeMs, ms);
      SentMore(p.ms, ms, p.c.sent, c'.sent);
      SentMore(p.freeMs, freeMs, p.free.sent, free'.sent);
      p' := Pair(c', free', p.os + Answered(asked), p.freeMs + freeMs, p.ms + ms, p.leak + Leaked(cfg, cache, asked));
    } else {
      assert p.os + [] == p.os;
      p' := p.(c := c', free := free');
    }
  }

  lemma {:induction false} CallConsistent(cfg: Config, c: Conn, cache: Entries, e: Event)
    requires Consistent(cache, cfg.files)
    ensures Consistent(Call(cfg, c, cache, e).cache, cfg.files)
  {
    if e.Data? && c.open {
      var st := State(true, c.buf + e.batch, c.sent, cache);
      LoopsAlike(cfg, st, st.(cache := []));
    }
  }

  lemma {:induction false} EventAhead(cfg: Config, sv: Server, id: nat, p: Pair, e: Event) returns (p': Pair)
    requires Ahead(cfg, p) && p.c == ConnOf(sv, id) && Consistent(sv.cache, cfg.files)
    ensures Ahead(cfg, p') && p'.c == ConnOf(ServeEvent(cfg, sv, e), id) && p'.free == AloneAfter(cfg, p.free, id, e)
    ensures p'.os == p.os + AnsweredNow(cfg, sv, id, e) && p'.leak == p.leak + LeakedNow(cfg, sv, id, e)
    ensures Consistent(ServeEvent(cfg, sv, e).cache, cfg.files)
  {
    CallConsistent(cfg, ConnOf(sv, e.id), sv.cache, e);
    if e.id == id {
      p' := CallAhead(cfg, p, sv.cache, e);
    } else {
      p' := p;
      assert p.os + [] == p.os;
    }
  }

  lemma {:induction false} RunAhead(cfg: Config, sv: Server, id: nat, p: Pair, events: seq<Event>) returns (p': Pair)
    requires Ahead(cfg, p) && p.c == ConnOf(sv, id) && Consistent(sv.cache, cfg.files)
    ensures Ahead(cfg, p') && p'.c == ConnOf(Run(cfg, sv, events), id) && p'.free == Alone(cfg, p.free, id, events)
    ensures p'.os == p.os + AnsweredTo(cfg, sv, id, events) && p'.leak == p.leak + LeakedTo(cfg, sv, id, events)
    ensures Consistent(Run(cfg, sv, events).cache, cfg.files)
    decreases |events|
  {
    if events == [] {
      p' := p;
      assert p.os + [] == p.os;
    } else {
      var e, tail := events[0], events[1..];
      var sv', now := ServeEvent(cfg, sv, e), AnsweredNow(cfg, sv, id, e);
      var next := EventAhead(cfg, sv, id, p, e);
      p' := RunAhead(cfg, sv', id, next, tail);
      Associate(p.os, now, AnsweredTo(cfg, sv', id, tail));
    }
  }

  lemma {:induction false} Associate<T>(a: seq<T>, b: seq<T>, c: seq<T>)
    ensures (a + b) + c == a + (b + c)
  {
  }

  /** Isolation. In any run of any number of connections over one cache, a connection ends up open or closed, and with
      the residue, that it has when served alone and without a cache. It was sent the same answers, in the same places,
      except that the answer to a HEAD request may carry the file behind its head; the bytes are the same exactly when
      none of its HEAD requests hit a non-empty cached file. The cache holds true copies throughout. */
  lemma {:induction false} ConnectionsAreIsolated(cfg: Config, events: seq<Event>, id: nat)
      returns (free: seq<Message>, ms: seq<Message>)
    ensures var sv0 := Server(map[], []);
      var c, alone := ConnOf(Run(cfg, sv0, events), id), Alone(cfg, Conn(true, "", ""), id, events);
      && c.open == alone.open && c.buf == alone.buf
      && c.sent == EncodeAll(ms) && alone.sent == EncodeAll(free)
      && CarryAll(cfg, AnsweredTo(cfg, sv0, id, events), free, ms)
      && |c.sent| == |alone.sent| + LeakedTo(cfg, sv0, id, events)
      && (c.sent == alone.sent <==> LeakedTo(cfg, sv0, id, events) == 0)
      && Consistent(Run(cfg, sv0, events).cache, cfg.files)
  {
    var sv0 := Server(map[], []);
    var p := RunAhead(cfg, sv0, id, Pair(Conn(true, "", ""), Conn(true, "", ""), [], [], [], 0), events);
    free, ms := p.freeMs, p.ms;
    assert [] + AnsweredTo(cfg, sv0, id, events) == AnsweredTo(cfg, sv0, id, events);
    CarriedBytes(cfg, AnsweredTo(cfg, sv0, id, events), free, ms);
  }

  // ---- The cache of a run ----

  lemma {:induction false} CallAccesses(cfg: Config, c: Conn, cache: Entries, e: Event)
    ensures Stack.Stored(Paths(AskedBy(cfg, c, e)), cfg.files)
    ensures Call(cfg, c, cache, e).cache
         == Stack.AccessAll(cache, cfg.capacity, cfg.files, Paths(AskedBy(cfg, c, e)))
  {
    if e.Data? && c.open {
      LoopAccesses(cfg, State(true, c.buf + e.batch, c.sent, cache));
    }
  }

  lemma {:induction false} RunAccesses(cfg: Config, sv: Server, events: seq<Event>)
    ensures Stack.Stored(Lookups(cfg, sv, events), cfg.files)
    ensures Run(cfg, sv, events).cache
         == Stack.AccessAll(sv.cache, cfg.capacity, cfg.files, Lookups(cfg, sv, events))
    decreases |events|
  {
    if events != [] {
      var e := events[0];
      var sv' := ServeEvent(cfg, sv, e);
      CallAccesses(cfg, ConnOf(sv, e.id), sv.cache, e);
      RunAccesses(cfg, sv', events[1..]);
      Stack.AccessAllAppend(sv.cache, cfg.capacity, cfg.files,
                      Paths(AskedBy(cfg, ConnOf(sv, e.id), e)), Lookups(cfg, sv', events[1..]));
    }
  }

  /** The cache of a running server is the longest suffix of the files served so far, over all connections and most
      recent last, that fits the capacity; the next request for a file hits exactly when its reuse distance fits. Handler
      calls do not overlap here; `Transparency.InterleavedCache` is the case in which they do. */
  lemma {:induction false} CacheOfServer(cfg: Config, events: seq<Event>, path: string) returns (n: nat)
    ensures var sv0 := Server(map[], []);
      var t := Lookups(cfg, sv0, events);
      var cache := Run(cfg, sv0, events).cache;
      && Stack.Stored(t, cfg.files)
      && var fitting := Stack.Cacheable(t, cfg.files, cfg.capacity);
         var order := Stack.Recent(fitting, cfg.files);
      && Stack.LongestFit(order, cfg.capacity, n) && cache == order[n..]
      && (HasKey(cache, path) <==>
            path in fitting && Stack.ReuseDistance(fitting, cfg.files, path) <= cfg.capacity)
  {
    var sv0 := Server(map[], []);
    RunAccesses(cfg, sv0, events);
    n := Stack.CacheIsLongestRecentFit(Lookups(cfg, sv0, events), cfg.files, cfg.capacity);
    Stack.HitByReuseDistance(Lookups(cfg, sv0, events), cfg.files, cfg.capacity, path);
  }
}
