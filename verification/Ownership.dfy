/** Who owns a connection: the acceptor, the loopers and the kernel's reuse of descriptors, as a transition system
    (src/core/acceptor.cc:26-46, src/core/eventLooper.cc:11-41). Each action is one step of one thread. */
module Ownership {

  /** A connection object: the descriptor of its socket and the looper it was given to. */
  datatype Conn = Conn(fd: int, owner: nat)

  /** `table` is the map from descriptors to connections, `polled` what the kernel has registered (the pointer stored
      with each descriptor), `batch` the rest of the polled batch; its first pointer is the running callback. */
  datatype Looper = Looper(table: map<int, nat>, polled: map<int, nat>, batch: seq<nat>)

  /** Where the acceptor is in taking in one client. While `Registering` it holds the latch of the looper. */
  datatype Acceptor = Waiting | Accepted(fd: int) | Registering(fd: int, conn: nat, looper: nat)

  /** `open` are the client descriptors open in the kernel, `live` the connection objects that exist. */
  datatype State = State(open: set<int>, live: map<nat, Conn>, loopers: map<nat, Looper>, acceptor: Acceptor)

  datatype Action =
    | Accept(fd: int)
    | Register(conn: nat, looper: nat)
    | Insert
    | Poll(l: nat, ready: seq<nat>)
    | Return(l: nat)
    | Delete(l: nat)

  predicate Distinct<T(==)>(s: seq<T>) {
    forall i, j :: 0 <= i < j < |s| ==> s[i] != s[j]
  }

  predicate LatchFree(s: State, l: nat) {
    s.acceptor.Registering? ==> s.acceptor.looper != l
  }

  /** When an action can happen. The kernel hands out descriptors that are not open, new objects are new, and a batch
      lists a registered connection at most once. */
  ghost predicate Enabled(s: State, a: Action) {
    match a
    case Accept(fd) => s.acceptor.Waiting? && fd !in s.open
    case Register(conn, looper) => s.acceptor.Accepted? && conn !in s.live && looper in s.loopers
    case Insert => s.acceptor.Registering? && s.acceptor.looper in s.loopers && s.acceptor.conn in s.live
    case Poll(l, ready) =>
      l in s.loopers && s.loopers[l].batch == [] && Distinct(ready)
      && forall c :: c in ready ==> exists fd :: fd in s.loopers[l].polled && s.loopers[l].polled[fd] == c
    case Return(l) => l in s.loopers && s.loopers[l].batch != []
    case Delete(l) =>
      && l in s.loopers && s.loopers[l].batch != []
      && var c := s.loopers[l].batch[0];
      && c in s.live && s.live[c].owner in s.loopers && LatchFree(s, s.live[c].owner)
  }

  /** Closing a descriptor also removes it from every poller. */
  function Unpoll(loopers: map<nat, Looper>, fd: int): (r: map<nat, Looper>)
    ensures r.Keys == loopers.Keys
  {
    map l | l in loopers :: loopers[l].(polled := loopers[l].polled - {fd})
  }

  /** Destroying a connection object closes its socket. */
  function Destroy(s: State, c: nat): State
    requires c in s.live
  {
    var fd := s.live[c].fd;
    s.(open := s.open - {fd}, live := s.live - {c}, loopers := Unpoll(s.loopers, fd))
  }

  function SetLooper(s: State, l: nat, lp: Looper): State {
    s.(loopers := s.loopers[l := lp])
  }

  /** The effect of an action. `insert` does not replace an entry, and then the new connection is destroyed; the
      handler's call of DeleteConnection is the last thing a callback does with its connection. */
  function Apply(s: State, a: Action): State
    requires Enabled(s, a)
  {
    match a
    case Accept(fd) => s.(open := s.open + {fd}, acceptor := Accepted(fd))
    case Register(conn, looper) =>
      var fd, lp := s.acceptor.fd, s.loopers[looper];
      SetLooper(s, looper, lp.(polled := lp.polled[fd := conn]))
        .(live := s.live[conn := Conn(fd, looper)], acceptor := Registering(fd, conn, looper))
    case Insert =>
      var (fd, c, l) := (s.acceptor.fd, s.acceptor.conn, s.acceptor.looper);
      var lp := s.loopers[l];
      (if fd in lp.table then Destroy(s, c) else SetLooper(s, l, lp.(table := lp.table[fd := c])))
        .(acceptor := Waiting)
    case Poll(l, ready) => SetLooper(s, l, s.loopers[l].(batch := ready))
    case Return(l) => SetLooper(s, l, s.loopers[l].(batch := s.loopers[l].batch[1..]))
    case Delete(l) =>
      var Conn(fd, owner) := s.live[s.loopers[l].batch[0]];
      var s1 := SetLooper(s, l, s.loopers[l].(batch := s.loopers[l].batch[1..]));
      var lp := s1.loopers[owner];
      if fd in lp.table && lp.table[fd] in s.live
      then Destroy(SetLooper(s1, owner, lp.(table := lp.table - {fd})), lp.table[fd])
      else s1
  }

  // ---- The invariant ----

  predicate Holds(m: map<int, nat>, fd: int, c: nat) {
    fd in m && m[fd] == c
  }

  /** A live connection is open in the kernel, registered with its owner, and either in the owner's table or just
      being put there; no two share a descriptor. */
  ghost predicate LiveOwned(s: State) {
    && (forall c :: c in s.live ==>
         var Conn(fd, l) := s.live[c];
         && fd in s.open && l in s.loopers && Holds(s.loopers[l].polled, fd, c)
         && (Holds(s.loopers[l].table, fd, c) || s.acceptor == Registering(fd, c, l)))
    && (forall c, d :: c in s.live && d in s.live && c != d ==> s.live[c].fd != s.live[d].fd)
  }

  /** Tables and registrations only hold live connections, under their own descriptor and with their owner. */
  ghost predicate TablesSound(s: State) {
    forall l :: l in s.loopers ==>
      && (forall fd :: fd in s.loopers[l].table ==>
            s.loopers[l].table[fd] in s.live && s.live[s.loopers[l].table[fd]] == Conn(fd, l))
      && (forall fd :: fd in s.loopers[l].polled ==>
            s.loopers[l].polled[fd] in s.live && s.live[s.loopers[l].polled[fd]] == Conn(fd, l))
  }

  /** Every pointer of a pending batch is live, owned by the looper that polled it, and listed once. */
  ghost predicate BatchesLive(s: State) {
    forall l :: l in s.loopers ==>
      && Distinct(s.loopers[l].batch)
      && forall c :: c in s.loopers[l].batch ==> c in s.live && s.live[c].owner == l
  }

  /** The client being taken in has a descriptor nobody else has. */
  ghost predicate AcceptorSound(s: State) {
    match s.acceptor
    case Waiting => true
    case Accepted(fd) => fd in s.open && forall c :: c in s.live ==> s.live[c].fd != fd
    case Registering(fd, c, l) =>
      c in s.live && s.live[c] == Conn(fd, l) && l in s.loopers && fd !in s.loopers[l].table
  }

  /** Every open descriptor belongs to a live connection or to the client just accepted: none is leaked. */
  ghost predicate NoLeak(s: State) {
    forall fd :: fd in s.open ==> s.acceptor == Accepted(fd) || exists c :: c in s.live && s.live[c].fd == fd
  }

  ghost predicate Inv(s: State) {
    LiveOwned(s) && TablesSound(s) && BatchesLive(s) && AcceptorSound(s) && NoLeak(s)
  }

  predicate Init(s: State) {
    && s.open == {} && s.live == map[] && s.acceptor == Waiting
    && forall l :: l in s.loopers ==> s.loopers[l] == Looper(map[], map[], [])
  }

  lemma {:induction false} AcceptKeeps(s: State, fd: int)
    requires Inv(s) && Enabled(s, Accept(fd))
    ensures Inv(Apply(s, Accept(fd)))
  {
  }

  lemma {:induction false} RegisterKeeps(s: State, conn: nat, looper: nat)
    requires Inv(s) && Enabled(s, Register(conn, looper))
    ensures Inv(Apply(s, Register(conn, looper)))
  {
    var s', fd := Apply(s, Register(conn, looper)), s.acceptor.fd;
    FreshDescriptor(s, fd);
    RegisterKeepsLive(s, s', conn, looper, fd);
    RegisterKeepsTables(s, s', conn, looper, fd);
    NoLeakAfter(s, s', conn);
    assert BatchesLive(s') && AcceptorSound(s');
  }

  lemma {:induction false} RegisterKeepsLive(s: State, s': State, conn: nat, l: nat, fd: int)
    requires Inv(s) && Enabled(s, Register(conn, l)) && s.acceptor == Accepted(fd)
    requires s' == Apply(s, Register(conn, l))
    ensures LiveOwned(s')
  {
    assert s'.live[conn] == Conn(fd, l);
    forall c | c in s.live ensures c != conn && s'.live[c] == s.live[c] && s.live[c].fd != fd {
    }
  }

  lemma {:induction false} RegisterKeepsTables(s: State, s': State, conn: nat, l: nat, fd: int)
    requires Inv(s) && Enabled(s, Register(conn, l)) && s.acceptor == Accepted(fd)
    requires s' == Apply(s, Register(conn, l))
    ensures TablesSound(s')
  {
    assert forall c :: c in s.live ==> c in s'.live && s'.live[c] == s.live[c];
    forall k | k in s'.loopers ensures
      && (forall f :: f in s'.loopers[k].table ==>
            s'.loopers[k].table[f] in s'.live && s'.live[s'.loopers[k].table[f]] == Conn(f, k))
      && (forall f :: f in s'.loopers[k].polled ==>
            s'.loopers[k].polled[f] in s'.live && s'.live[s'.loopers[k].polled[f]] == Conn(f, k))
    {
      assert k in s.loopers && s'.loopers[k].table == s.loopers[k].table;
    }
  }

  /** The descriptor of a client that was just accepted is in no table and registered nowhere, so registering it
      cannot fail and inserting it cannot collide. */
  lemma {:induction false} FreshDescriptor(s: State, fd: int)
    requires Inv(s) && s.acceptor == Accepted(fd)
    ensures forall l :: l in s.loopers ==> fd !in s.loopers[l].table && fd !in s.loopers[l].polled
  {
  }

  lemma {:induction false} NoLeakAfter(s: State, s': State, conn: nat)
    requires NoLeak(s) && s.acceptor.Accepted? && s'.open == s.open
    requires forall c :: c in s.live ==> c in s'.live && s'.live[c] == s.live[c]
    requires conn in s'.live && s'.live[conn].fd == s.acceptor.fd
    ensures NoLeak(s')
  {
    forall f | f in s'.open ensures exists c :: c in s'.live && s'.live[c].fd == f {
      if s.acceptor != Accepted(f) {
        var c :| c in s.live && s.live[c].fd == f;
        assert c in s'.live && s'.live[c].fd == f;
      }
    }
  }

  /** Inserting never collides: the entry is added. */
  lemma {:induction false} InsertAdds(s: State)
    requires Inv(s) && Enabled(s, Insert)
    ensures var Registering(fd, c, l) := s.acceptor;
      && fd !in s.loopers[l].table
      && Apply(s, Insert) == SetLooper(s, l, s.loopers[l].(table := s.loopers[l].table[fd := c])).(acceptor := Waiting)
  {
  }

  lemma {:induction false} InsertKeeps(s: State)
    requires Inv(s) && Enabled(s, Insert)
    ensures Inv(Apply(s, Insert))
  {
    InsertAdds(s);
    var Registering(fd, c, l) := s.acceptor;
    InsertKeepsLive(s, Apply(s, Insert), fd, c, l);
    InsertKeepsTables(s, Apply(s, Insert), fd, c, l);
  }

  ghost predicate Inserted(s: State, s': State, fd: int, c: nat, l: nat) {
    && s.acceptor == Registering(fd, c, l) && l in s.loopers
    && s' == SetLooper(s, l, s.loopers[l].(table := s.loopers[l].table[fd := c])).(acceptor := Waiting)
  }

  lemma {:induction false} InsertKeepsLive(s: State, s': State, fd: int, c: nat, l: nat)
    requires Inv(s) && Inserted(s, s', fd, c, l)
    ensures LiveOwned(s') && NoLeak(s')
  {
    forall d | d in s'.live ensures
      var Conn(f, k) := s'.live[d];
      && f in s'.open && k in s'.loopers && Holds(s'.loopers[k].polled, f, d) && Holds(s'.loopers[k].table, f, d)
    {
      assert d in s.live;
    }
  }

  lemma {:induction false} InsertKeepsTables(s: State, s': State, fd: int, c: nat, l: nat)
    requires Inv(s) && Inserted(s, s', fd, c, l)
    ensures TablesSound(s') && BatchesLive(s')
  {
    assert s'.live == s.live && s.live[c] == Conn(fd, l);
    forall k, f | k in s'.loopers && f in s'.loopers[k].table
      ensures s'.loopers[k].table[f] in s'.live && s'.live[s'.loopers[k].table[f]] == Conn(f, k)
    {
      assert (k == l && f == fd) || f in s.loopers[k].table;
    }
    assert forall k :: k in s.loopers ==>
      s'.loopers[k].polled == s.loopers[k].polled && s'.loopers[k].batch == s.loopers[k].batch;
  }

  /** Batches do not matter to the rest of the invariant. */
  lemma {:induction false} BatchKeeps(s: State, l: nat, batch: seq<nat>)
    requires Inv(s) && l in s.loopers
    requires Distinct(batch) && forall c :: c in batch ==> c in s.live && s.live[c].owner == l
    ensures Inv(SetLooper(s, l, s.loopers[l].(batch := batch)))
  {
    var s' := SetLooper(s, l, s.loopers[l].(batch := batch));
    assert forall k :: k in s.loopers ==>
      s'.loopers[k].table == s.loopers[k].table && s'.loopers[k].polled == s.loopers[k].polled;
    assert NoLeak(s') && AcceptorSound(s') && BatchesLive(s');
    assert LiveOwned(s');
    assert TablesSound(s');
  }

  lemma {:induction false} PollKeeps(s: State, l: nat, ready: seq<nat>)
    requires Inv(s) && Enabled(s, Poll(l, ready))
    ensures Inv(Apply(s, Poll(l, ready)))
  {
    BatchKeeps(s, l, ready);
  }

  lemma {:induction false} ReturnKeeps(s: State, l: nat)
    requires Inv(s) && Enabled(s, Return(l))
    ensures Inv(Apply(s, Return(l)))
  {
    var b := s.loopers[l].batch;
    assert forall c :: c in b[1..] ==> c in b;
    BatchKeeps(s, l, b[1..]);
  }

  /** A handler that closes its connection finds it in the table of its own looper. */
  lemma {:induction false} DeleteFinds(s: State, l: nat)
    requires Inv(s) && Enabled(s, Delete(l))
    ensures var c := s.loopers[l].batch[0];
      s.live[c].owner == l && Holds(s.loopers[l].table, s.live[c].fd, c)
  {
  }

  /** `s'` is `s` without connection `c` of looper `l`, whose callback has run. */
  ghost predicate Removed(s: State, s': State, l: nat, c: nat) {
    && c in s.live
    && var fd := s.live[c].fd;
    && s'.open == s.open - {fd} && s'.live == s.live - {c} && s'.acceptor == s.acceptor
    && s'.loopers.Keys == s.loopers.Keys
    && (forall k :: k in s.loopers ==>
         && s'.loopers[k].table == (if k == l then s.loopers[k].table - {fd} else s.loopers[k].table)
         && s'.loopers[k].polled == s.loopers[k].polled - {fd}
         && (k == l ==> s.loopers[k].batch == [c] + s'.loopers[k].batch)
         && (k != l ==> s'.loopers[k].batch == s.loopers[k].batch))
  }

  lemma {:induction false} DeleteRemoves(s: State, l: nat)
    requires Inv(s) && Enabled(s, Delete(l))
    ensures Removed(s, Apply(s, Delete(l)), l, s.loopers[l].batch[0])
  {
    DeleteFinds(s, l);
    var lp, c := s.loopers[l], s.loopers[l].batch[0];
    var fd := s.live[c].fd;
    var s1 := SetLooper(s, l, lp.(batch := lp.batch[1..]));
    var s2 := SetLooper(s1, l, lp.(batch := lp.batch[1..], table := lp.table - {fd}));
    assert Apply(s, Delete(l)) == Destroy(s2, c);
    DestroyRemoves(s, s2, l, c);
  }

  lemma {:induction false} DestroyRemoves(s: State, s2: State, l: nat, c: nat)
    requires c in s.live && l in s.loopers && s.loopers[l].batch != [] && s.loopers[l].batch[0] == c
    requires var lp := s.loopers[l];
      s2 == s.(loopers := s.loopers[l := Looper(lp.table - {s.live[c].fd}, lp.polled, lp.batch[1..])])
    ensures Removed(s, Destroy(s2, c), l, c)
  {
    var s' := Destroy(s2, c);
    assert s'.loopers.Keys == s.loopers.Keys;
    assert s.loopers[l].batch == [c] + s'.loopers[l].batch;
  }

  lemma {:induction false} RemovedKeepsLive(s: State, s': State, l: nat, c: nat)
    requires Inv(s) && Removed(s, s', l, c) && l in s.loopers && s.live[c].owner == l
    ensures LiveOwned(s')
  {
    forall d | d in s'.live ensures
      var Conn(fd, k) := s'.live[d];
      && fd in s'.open && k in s'.loopers && Holds(s'.loopers[k].polled, fd, d)
      && (Holds(s'.loopers[k].table, fd, d) || s'.acceptor == Registering(fd, d, k))
    {
      assert s'.live[d] == s.live[d] && s.live[d].fd != s.live[c].fd;
    }
  }

  lemma {:induction false} RemovedKeepsTables(s: State, s': State, l: nat, c: nat)
    requires Inv(s) && Removed(s, s', l, c) && l in s.loopers && s.live[c].owner == l
    ensures TablesSound(s')
  {
    var gone := s.live[c].fd;
    forall k, fd | k in s'.loopers && fd in s'.loopers[k].table
      ensures s'.loopers[k].table[fd] in s'.live && s'.live[s'.loopers[k].table[fd]] == Conn(fd, k)
    {
      var d := s.loopers[k].table[fd];
      assert s.live[d] == Conn(fd, k);
      assert k != l ==> d != c;
    }
    forall k, fd | k in s'.loopers && fd in s'.loopers[k].polled
      ensures s'.loopers[k].polled[fd] in s'.live && s'.live[s'.loopers[k].polled[fd]] == Conn(fd, k)
    {
      assert fd != gone && s.live[s.loopers[k].polled[fd]] == Conn(fd, k);
    }
  }

  lemma {:induction false} DistinctTail(c: nat, b: seq<nat>)
    requires Distinct([c] + b)
    ensures Distinct(b) && c !in b && forall d :: d in b ==> d in [c] + b
  {
    var all := [c] + b;
    assert forall i :: 0 <= i < |b| ==> all[i + 1] == b[i];
    assert all[0] == c;
  }

  lemma {:induction false} RemovedKeepsBatches(s: State, s': State, l: nat, c: nat)
    requires Inv(s) && Removed(s, s', l, c) && l in s.loopers && s.live[c].owner == l
    ensures BatchesLive(s')
  {
    forall k | k in s'.loopers ensures
      && Distinct(s'.loopers[k].batch)
      && forall d :: d in s'.loopers[k].batch ==> d in s'.live && s'.live[d].owner == k
    {
      if k == l {
        DistinctTail(c, s'.loopers[k].batch);
      }
    }
  }

  lemma {:induction false} RemovedKeepsRest(s: State, s': State, l: nat, c: nat)
    requires Inv(s) && Removed(s, s', l, c) && l in s.loopers && s.live[c].owner == l && LatchFree(s, l)
    ensures AcceptorSound(s') && NoLeak(s')
  {
    forall f | f in s'.open ensures s'.acceptor == Accepted(f) || exists d :: d in s'.live && s'.live[d].fd == f {
      if s.acceptor != Accepted(f) {
        var d :| d in s.live && s.live[d].fd == f;
        assert d in s'.live && s'.live[d].fd == f;
      }
    }
  }

  lemma {:induction false} DeleteKeeps(s: State, l: nat)
    requires Inv(s) && Enabled(s, Delete(l))
    ensures Inv(Apply(s, Delete(l)))
  {
    DeleteFinds(s, l);
    DeleteRemoves(s, l);
    var s', c := Apply(s, Delete(l)), s.loopers[l].batch[0];
    RemovedKeepsLive(s, s', l, c);
    RemovedKeepsTables(s, s', l, c);
    RemovedKeepsBatches(s, s', l, c);
    RemovedKeepsRest(s, s', l, c);
  }

  lemma {:induction false} StepKeeps(s: State, a: Action)
    requires Inv(s) && Enabled(s, a)
    ensures Inv(Apply(s, a))
  {
    match a {
      case Accept(fd) => AcceptKeeps(s, fd);
      case Register(conn, looper) => RegisterKeeps(s, conn, looper);
      case Insert => InsertKeeps(s);
      case Poll(k, ready) => PollKeeps(s, k, ready);
      case Return(k) => ReturnKeeps(s, k);
      case Delete(k) => DeleteKeeps(s, k);
    }
  }

  // ---- Every interleaving ----

  /** The states that some interleaving of the threads leads to. */
  ghost predicate Execution(s: State, actions: seq<Action>, end: State)
    decreases |actions|
  {
    if actions == [] then end == s
    else Enabled(s, actions[0]) && Execution(Apply(s, actions[0]), actions[1..], end)
  }

  lemma {:induction false} ExecutionKeeps(s: State, actions: seq<Action>, end: State)
    requires Inv(s) && Execution(s, actions, end)
    ensures Inv(end)
    decreases |actions|
  {
    if actions != [] {
      StepKeeps(s, actions[0]);
      ExecutionKeeps(Apply(s, actions[0]), actions[1..], end);
    }
  }

  /** Ownership in every reachable state: a descriptor is in at most one looper's table, under the connection that owns
      it; every pointer registered with a poller or pending in a batch is live and belongs to that looper; and no
      descriptor is leaked. */
  lemma {:induction false} ConnectionsAreOwned(s0: State, actions: seq<Action>, s: State)
    requires Init(s0) && Execution(s0, actions, s)
    ensures forall l, k, fd ::
      l in s.loopers && k in s.loopers && fd in s.loopers[l].table && fd in s.loopers[k].table ==> l == k
    ensures forall l, fd :: l in s.loopers && fd in s.loopers[l].table ==>
      fd in s.open && s.loopers[l].table[fd] in s.live && s.live[s.loopers[l].table[fd]] == Conn(fd, l)
    ensures forall l, fd :: l in s.loopers && fd in s.loopers[l].polled ==>
      s.loopers[l].polled[fd] in s.live && s.live[s.loopers[l].polled[fd]] == Conn(fd, l)
    ensures forall l, c :: l in s.loopers && c in s.loopers[l].batch ==> c in s.live && s.live[c].owner == l
    ensures NoLeak(s)
  {
    assert Inv(s0);
    ExecutionKeeps(s0, actions, s);
  }

  /** In every reachable state, registering and inserting a new client meet no entry for its descriptor, and a handler
      that closes its connection finds it in its own looper's table. */
  lemma {:induction false} NoCollisions(s0: State, actions: seq<Action>, s: State)
    requires Init(s0) && Execution(s0, actions, s)
    ensures s.acceptor.Accepted? ==>
      forall l :: l in s.loopers ==> s.acceptor.fd !in s.loopers[l].table && s.acceptor.fd !in s.loopers[l].polled
    ensures Enabled(s, Insert) ==> s.acceptor.fd !in s.loopers[s.acceptor.looper].table
    ensures forall l :: Enabled(s, Delete(l)) ==> var c := s.loopers[l].batch[0];
      s.live[c].owner == l && Holds(s.loopers[l].table, s.live[c].fd, c)
  {
    assert Inv(s0);
    ExecutionKeeps(s0, actions, s);
    if s.acceptor.Accepted? {
      FreshDescriptor(s, s.acceptor.fd);
    }
    if Enabled(s, Insert) {
      InsertAdds(s);
    }
    forall l | Enabled(s, Delete(l))
      ensures var c := s.loopers[l].batch[0];
        s.live[c].owner == l && Holds(s.loopers[l].table, s.live[c].fd, c)
    {
      DeleteFinds(s, l);
    }
  }

  // ---- Every ready connection is called ----

  /** What an action hands to looper `l` for its callbacks. */
  function PolledBy(l: nat, a: Action): seq<nat> {
    if a.Poll? && a.l == l then a.ready else []
  }

  function Polled(l: nat, actions: seq<Action>): seq<nat> {
    if actions == [] then [] else PolledBy(l, actions[0]) + Polled(l, actions[1..])
  }

  /** The connection whose callback on looper `l` ends with an action, by returning or by deleting its connection. */
  function CalledBy(s: State, l: nat, a: Action): seq<nat> {
    if (a.Return? || a.Delete?) && a.l == l && l in s.loopers && s.loopers[l].batch != []
    then [s.loopers[l].batch[0]] else []
  }

  ghost function Called(s: State, l: nat, actions: seq<Action>): seq<nat>
    decreases |actions|
  {
    if actions == [] || !Enabled(s, actions[0]) then []
    else CalledBy(s, l, actions[0]) + Called(Apply(s, actions[0]), l, actions[1..])
  }

  lemma {:induction false} StepCalls(s: State, l: nat, a: Action)
    requires Enabled(s, a) && l in s.loopers
    ensures l in Apply(s, a).loopers
    ensures s.loopers[l].batch + PolledBy(l, a) == CalledBy(s, l, a) + Apply(s, a).loopers[l].batch
  {
  }

  lemma {:induction false} Shuffle(b: seq<nat>, p: seq<nat>, ps: seq<nat>, c: seq<nat>, b': seq<nat>, cs: seq<nat>,
                                   e: seq<nat>)
    requires b + p == c + b' && b' + ps == cs + e
    ensures b + (p + ps) == (c + cs) + e
  {
    assert b + (p + ps) == (b + p) + ps == c + (b' + ps);
    assert (c + cs) + e == c + (cs + e);
  }

  /** The looper's loop: in every execution, the callbacks that have ended on a looper, in order, followed by the rest of
      its batch, are what was pending and then what its poller reported, poll after poll: every ready connection is called
      once and in order, also after one that deletes its connection. */
  lemma {:induction false} EveryReadyConnectionIsCalled(s: State, l: nat, actions: seq<Action>, end: State)
    requires Execution(s, actions, end) && l in s.loopers
    ensures l in end.loopers
    ensures s.loopers[l].batch + Polled(l, actions) == Called(s, l, actions) + end.loopers[l].batch
    decreases |actions|
  {
    if actions != [] {
      var a, tail := actions[0], actions[1..];
      var s' := Apply(s, a);
      StepCalls(s, l, a);
      EveryReadyConnectionIsCalled(s', l, tail, end);
      Shuffle(s.loopers[l].batch, PolledBy(l, a), Polled(l, tail), CalledBy(s, l, a), s'.loopers[l].batch,
              Called(s', l, tail), end.loopers[l].batch);
    } else {
      assert s.loopers[l].batch + [] == [] + s.loopers[l].batch;
    }
  }

  /** Deleting some other connection of the batch, which the handler never does, would leave a dangling pointer. */
  lemma {:induction false} ForeignDeleteDangles(s: State, l: nat, i: nat)
    requires Inv(s) && l in s.loopers && 0 < i < |s.loopers[l].batch|
    ensures s.loopers[l].batch[i] in s.live
    ensures var s' := Destroy(s, s.loopers[l].batch[i]);
      && s'.loopers[l].batch == s.loopers[l].batch
      && s'.loopers[l].batch[i] !in s'.live
  {
    assert s.loopers[l].batch[i] in s.loopers[l].batch;
  }
}
