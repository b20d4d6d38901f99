/** Connections and the event loopers that own them (src/core/connection.cc, src/core/eventLooper.cc), over scripts of
    what the kernel answers. */
module Reactor {
  import opened Strings
  import opened Buffers

  datatype Errno = EINTR | EAGAIN | EWOULDBLOCK | OTHER

  /** One `recv`: the bytes delivered (none means end of stream), or a failure. */
  datatype RecvResult = Received(data: string) | Failed(errno: Errno)

  predicate Retried(r: RecvResult) {
    r == Failed(EINTR)
  }

  /** The results after which the receive loop stops. */
  predicate StopsRecv(r: RecvResult) {
    r == Received("") || (r.Failed? && !Retried(r))
  }

  predicate SaysExit(r: RecvResult) {
    r == Received("") || r == Failed(OTHER)
  }

  /** Where the receive loop stops; a script that is used up is answered with EAGAIN. */
  function RecvEnd(kernel: seq<RecvResult>): (n: nat)
    ensures n <= |kernel|
    ensures forall i :: 0 <= i < n ==> !StopsRecv(kernel[i])
    ensures n < |kernel| ==> StopsRecv(kernel[n])
  {
    if kernel == [] || StopsRecv(kernel[0]) then 0 else 1 + RecvEnd(kernel[1..])
  }

  /** The bytes of the delivered chunks, in order. */
  function Chunks(results: seq<RecvResult>): string {
    if results == [] then ""
    else (if results[0].Received? then results[0].data else "") + Chunks(results[1..])
  }

  function Delivered(kernel: seq<RecvResult>): string {
    Chunks(kernel[..RecvEnd(kernel)])
  }

  predicate PeerGone(kernel: seq<RecvResult>) {
    RecvEnd(kernel) < |kernel| && SaysExit(kernel[RecvEnd(kernel)])
  }

  /** Results after which the source calls `recv` again: data, or an interrupted call. */
  predicate GoesOn(r: RecvResult) {
    (r.Received? && r.data != "") || r == Failed(EINTR)
  }

  ghost predicate AllGoOn(kernel: seq<RecvResult>, n: nat) {
    n <= |kernel| && forall i :: 0 <= i < n ==> GoesOn(kernel[i])
  }

  ghost predicate GoneAt(kernel: seq<RecvResult>, i: nat) {
    i < |kernel| && (kernel[i] == Received("") || kernel[i] == Failed(OTHER)) && AllGoOn(kernel, i)
  }

  lemma {:induction false} RecvEndExactly(kernel: seq<RecvResult>, n: nat)
    requires AllGoOn(kernel, n) && (n == |kernel| || !GoesOn(kernel[n]))
    ensures RecvEnd(kernel) == n
    decreases n
  {
    if n > 0 {
      assert GoesOn(kernel[0]);
      assert forall i :: 0 <= i < n - 1 ==> kernel[1..][i] == kernel[i + 1];
      RecvEndExactly(kernel[1..], n - 1);
    }
  }

  lemma {:induction false} BeforeRecvEnd(kernel: seq<RecvResult>)
    ensures AllGoOn(kernel, RecvEnd(kernel))
    ensures RecvEnd(kernel) < |kernel| ==> !GoesOn(kernel[RecvEnd(kernel)])
  {
  }

  /** The peer is gone exactly when the stream ends or a real error comes after nothing but data and interruptions. */
  lemma {:induction false} PeerGoneExactly(kernel: seq<RecvResult>)
    ensures PeerGone(kernel) <==> exists i: nat :: GoneAt(kernel, i)
  {
    BeforeRecvEnd(kernel);
    if PeerGone(kernel) {
      assert GoneAt(kernel, RecvEnd(kernel));
    }
    if i: nat :| GoneAt(kernel, i) {
      RecvEndExactly(kernel, i);
    }
  }

  /** The data of one result. */
  function DataOf(r: RecvResult): string {
    if r.Received? then r.data else ""
  }

  function DataOfAll(kernel: seq<RecvResult>): (ds: seq<string>)
    ensures |ds| == |kernel| && forall i :: 0 <= i < |ds| ==> ds[i] == DataOf(kernel[i])
  {
    seq(|kernel|, i requires 0 <= i < |kernel| => DataOf(kernel[i]))
  }

  lemma {:induction false} ChunksConcat(results: seq<RecvResult>)
    ensures Chunks(results) == Concat(DataOfAll(results))
    decreases |results|
  {
    if results != [] {
      ChunksConcat(results[1..]);
      assert DataOfAll(results)[1..] == DataOfAll(results[1..]);
    }
  }

  /** What is delivered is the data of the results up to the first that is neither data nor an interruption, one after
      the other; an interrupted call neither ends the loop nor adds anything. */
  lemma {:induction false} DeliveredExactly(kernel: seq<RecvResult>, n: nat)
    requires AllGoOn(kernel, n) && (n == |kernel| || !GoesOn(kernel[n]))
    ensures Delivered(kernel) == Concat(DataOfAll(kernel[..n]))
  {
    RecvEndExactly(kernel, n);
    ChunksConcat(kernel[..n]);
  }

  /** One `send`: the count it returns and the error number it leaves. */
  datatype SendResult = SendResult(count: int, errno: Errno)

  predicate HardError(r: SendResult) {
    r.count <= 0 && r.errno == OTHER
  }

  predicate NoHardError(kernel: seq<SendResult>) {
    forall r :: r in kernel ==> !HardError(r)
  }

  function Min(a: int, b: int): int {
    if a < b then a else b
  }

  /** How many of `n` waiting bytes reach the kernel, and the part of the script that is left. A script that is used
      up is answered by accepting everything. */
  function SendProgress(n: nat, kernel: seq<SendResult>): (r: (nat, seq<SendResult>))
    ensures r.0 <= n
    decreases |kernel|
  {
    if n == 0 then (0, kernel)
    else if kernel == [] then (n, [])
    else if HardError(kernel[0]) then (0, kernel[1..])
    else
      var step := if kernel[0].count <= 0 then 0 else Min(kernel[0].count, n);
      var (more, rest) := SendProgress(n - step, kernel[1..]);
      (step + more, rest)
  }

  /** Nothing beyond the waiting bytes is sent, and all of them are unless a hard error occurs. */
  lemma {:induction false} SendIsLossless(n: nat, kernel: seq<SendResult>)
    ensures var (sent, rest) := SendProgress(n, kernel);
      && sent <= n
      && |rest| <= |kernel| && rest == kernel[|kernel| - |rest|..]
      && (sent < n ==> |rest| < |kernel| && HardError(kernel[|kernel| - |rest| - 1]))
      && (sent == n && n > 0 && |rest| < |kernel| ==> !HardError(kernel[|kernel| - |rest| - 1]))
    decreases |kernel|
  {
    if n > 0 && kernel != [] && !HardError(kernel[0]) {
      var step := if kernel[0].count <= 0 then 0 else Min(kernel[0].count, n);
      SendIsLossless(n - step, kernel[1..]);
      var (more, rest) := SendProgress(n - step, kernel[1..]);
      assert rest == kernel[1..][|kernel| - 1 - |rest|..] == kernel[|kernel| - |rest|..];
    }
  }

  /** The bytes that these results accept. */
  function Accepted(kernel: seq<SendResult>): nat {
    if kernel == [] then 0 else (if kernel[0].count > 0 then kernel[0].count else 0) + Accepted(kernel[1..])
  }

  /** The send loop goes on after a result: bytes were accepted, or the kernel asked to try again. */
  predicate TriesAgain(r: SendResult) {
    r.count > 0 || r.errno == EINTR || r.errno == EAGAIN || r.errno == EWOULDBLOCK
  }

  /** The send loop uses up exactly the first `k` results: none before them ends it, and it ends there because everything
      is sent, because of an error that is no request to try again, or because the script is used up. */
  ghost predicate SendEnds(n: nat, kernel: seq<SendResult>, k: nat) {
    && k <= |kernel|
    && (forall i :: 0 <= i < k - 1 ==> TriesAgain(kernel[i]))
    && (forall i :: 0 <= i < k ==> Accepted(kernel[..i]) < n)
    && (k == |kernel| || Accepted(kernel[..k]) >= n || (k > 0 && !TriesAgain(kernel[k - 1])))
  }

  lemma {:induction false} AcceptedStep(kernel: seq<SendResult>, i: nat)
    requires i < |kernel|
    ensures Accepted(kernel[..i + 1])
         == (if kernel[0].count > 0 then kernel[0].count else 0) + Accepted(kernel[1..][..i])
  {
    assert kernel[..i + 1][1..] == kernel[1..][..i];
  }

  /** The first result, and the loop on the others. */
  lemma {:induction false} SendEndsTail(n: nat, kernel: seq<SendResult>, k: nat) returns (step: nat)
    requires SendEnds(n, kernel, k) && k > 0 && TriesAgain(kernel[0])
    ensures step == (if kernel[0].count <= 0 then 0 else Min(kernel[0].count, n)) && step <= n
    ensures SendEnds(n - step, kernel[1..], k - 1)
    ensures k > 1 ==> step == if kernel[0].count > 0 then kernel[0].count else 0
  {
    var tail := kernel[1..];
    step := if kernel[0].count <= 0 then 0 else Min(kernel[0].count, n);
    AcceptedStep(kernel, 0);
    AcceptedStep(kernel, k - 1);
    assert tail[..0] == [];
    if k > 1 {
      assert Accepted(kernel[..1]) < n;
    }
    forall i | 0 <= i < k - 1 ensures Accepted(tail[..i]) < n - step {
      AcceptedStep(kernel, i);
      assert Accepted(kernel[..i + 1]) < n;
    }
  }

  lemma {:induction false} SendProgressStep(n: nat, r: SendResult, tail: seq<SendResult>)
    requires n > 0
    ensures !TriesAgain(r) ==> SendProgress(n, [r] + tail) == (0, tail)
    ensures TriesAgain(r) ==>
      var step := if r.count <= 0 then 0 else Min(r.count, n);
      SendProgress(n, [r] + tail) == (step + SendProgress(n - step, tail).0, SendProgress(n - step, tail).1)
  {
    assert ([r] + tail)[1..] == tail;
  }

  /** What the send loop sends and leaves of the script, by where it ends: everything accepted, but never more than what
      waits; and a used-up script is answered by accepting the rest. */
  lemma {:induction false} SendProgressExactly(n: nat, kernel: seq<SendResult>, k: nat)
    requires SendEnds(n, kernel, k)
    ensures SendProgress(n, kernel).1 == kernel[k..]
    ensures SendProgress(n, kernel).0
         == if k > 0 && !TriesAgain(kernel[k - 1]) then Accepted(kernel[..k])
            else if k == |kernel| then n else Min(n, Accepted(kernel[..k]))
    decreases k
  {
    assert kernel[..0] == [] && kernel[0..] == kernel;
    if k > 0 {
      var r, tail := kernel[0], kernel[1..];
      assert Accepted(kernel[..0]) < n;
      assert kernel == [r] + tail && kernel[k..] == tail[k - 1..];
      SendProgressStep(n, r, tail);
      AcceptedStep(kernel, k - 1);
      if TriesAgain(r) {
        var step := SendEndsTail(n, kernel, k);
        SendProgressExactly(n - step, tail, k - 1);
      } else {
        assert k == 1 && tail[..0] == [];
      }
    }
  }

  /** The loop always ends somewhere. */
  lemma {:induction false} SendLoopEnds(n: nat, kernel: seq<SendResult>) returns (k: nat)
    ensures SendEnds(n, kernel, k)
  {
    k := 0;
    assert kernel[..0] == [];
    while k < |kernel| && Accepted(kernel[..k]) < n && (k > 0 ==> TriesAgain(kernel[k - 1]))
      invariant k <= |kernel|
      invariant forall i :: 0 <= i < k - 1 ==> TriesAgain(kernel[i])
      invariant forall i :: 0 <= i < k ==> Accepted(kernel[..i]) < n
    {
      k := k + 1;
    }
  }

  lemma {:induction false} SendsAll(n: nat, kernel: seq<SendResult>)
    requires NoHardError(kernel)
    ensures SendProgress(n, kernel).0 == n && NoHardError(SendProgress(n, kernel).1)
    decreases |kernel|
  {
    if n > 0 && kernel != [] {
      assert kernel[0] in kernel;
      assert forall r :: r in kernel[1..] ==> r in kernel;
      SendsAll(n - if kernel[0].count <= 0 then 0 else Min(kernel[0].count, n), kernel[1..]);
    }
  }

  /** What reaches the kernel of answers that are sent one after the other, and the part of the script that is left. A
      hard error discards the rest of one answer; the next ones are sent all the same. */
  function Transmitted(answers: seq<string>, kernel: seq<SendResult>): (string, seq<SendResult>) {
    if answers == [] then ("", kernel)
    else
      var last := answers[|answers| - 1];
      var (before, left) := Transmitted(answers[..|answers| - 1], kernel);
      var (n, rest) := SendProgress(|last|, left);
      (before + last[..n], rest)
  }

  lemma {:induction false} TransmittedOneMore(answers: seq<string>, a: string, kernel: seq<SendResult>)
    ensures var (before, left) := Transmitted(answers, kernel);
      var (n, rest) := SendProgress(|a|, left);
      Transmitted(answers + [a], kernel) == (before + a[..n], rest)
  {
    assert (answers + [a])[..|answers|] == answers;
  }

  /** Every answer reaches the kernel up to a cut: the bytes sent are prefixes of the answers, one for each and in
      order, and without a hard error they are the answers. */
  lemma {:induction false} AnswersAreOnlyCut(answers: seq<string>, kernel: seq<SendResult>) returns (pieces: seq<string>)
    ensures |pieces| == |answers| && forall i :: 0 <= i < |pieces| ==> pieces[i] <= answers[i]
    ensures Transmitted(answers, kernel).0 == Concat(pieces)
    ensures NoHardError(kernel) ==> pieces == answers && NoHardError(Transmitted(answers, kernel).1)
    decreases |answers|
  {
    if answers == [] {
      pieces := [];
    } else {
      var before, last := answers[..|answers| - 1], answers[|answers| - 1];
      var left := Transmitted(before, kernel).1;
      var cut := last[..SendProgress(|last|, left).0];
      pieces := AnswersAreOnlyCut(before, kernel);
      if NoHardError(kernel) {
        SendsAll(|last|, left);
        assert answers == before + [last] && cut == last;
      }
      ConcatLast(pieces, cut);
      pieces := pieces + [cut];
    }
  }

  class Connection {
    const fd: int
    const readBuffer: Buffer
    const writeBuffer: Buffer
    var looper: EventLooper
    /** The bytes the kernel has accepted for the peer. */
    var wire: string

    ghost predicate Valid()
      reads this, readBuffer, writeBuffer
    {
      readBuffer != writeBuffer && writeBuffer.buf == ""
    }

    constructor (fd: int, looper: EventLooper)
      ensures this.fd == fd && this.looper == looper
      ensures Valid() && readBuffer.buf == "" && wire == ""
      ensures fresh(readBuffer) && fresh(writeBuffer)
    {
      this.fd, this.looper, wire := fd, looper, "";
      var r := new Buffer();
      var w := new Buffer();
      readBuffer, writeBuffer := r, w;
    }

    method FindAndPopTill(target: string) returns (res: Option<string>)
      modifies readBuffer
      ensures (res, readBuffer.buf) == PopTill(old(readBuffer.buf), target)
    {
      res := readBuffer.FindAndPopTill(target);
    }

    /** Receives until nothing is left, the peer is gone, or an error: exactly the delivered chunks are appended. */
    method Recv(kernel: seq<RecvResult>) returns (bytes: nat, exit: bool)
      modifies readBuffer
      ensures readBuffer.buf == old(readBuffer.buf) + Delivered(kernel)
      ensures bytes == |Delivered(kernel)| && exit == PeerGone(kernel)
      ensures exit <==> exists i: nat :: GoneAt(kernel, i)
    {
      PeerGoneExactly(kernel);
      bytes := 0;
      var i := 0;
      ghost var n := RecvEnd(kernel);
      assert old(readBuffer.buf) + "" == old(readBuffer.buf);
      while i < |kernel|
        invariant i <= n
        invariant readBuffer.buf == old(readBuffer.buf) + Chunks(kernel[..i])
        invariant bytes == |Chunks(kernel[..i])|
        decreases |kernel| - i
      {
        var r := kernel[i];
        if r.Received? && r.data != "" {
          bytes := bytes + |r.data|;
          readBuffer.Append(r.data);
          ChunksStep(kernel, i);
          i := i + 1;
        } else if r.Received? {
          return bytes, true;
        } else if r.errno == EINTR {
          ChunksStep(kernel, i);
          i := i + 1;
        } else if r.errno == EAGAIN || r.errno == EWOULDBLOCK {
          break;
        } else {
          return bytes, true;
        }
      }
      return bytes, false;
    }

    /** Sends the write buffer; whatever is not sent because of a hard error is discarded. */
    method Send(kernel: seq<SendResult>) returns (rest: seq<SendResult>)
      requires readBuffer != writeBuffer
      modifies writeBuffer, `wire
      ensures writeBuffer.buf == ""
      ensures SendProgress(|old(writeBuffer.buf)|, kernel).0 <= |old(writeBuffer.buf)|
      ensures wire == old(wire) + old(writeBuffer.buf)[..SendProgress(|old(writeBuffer.buf)|, kernel).0]
      ensures rest == SendProgress(|old(writeBuffer.buf)|, kernel).1
    {
      var curWrite := 0;
      var buf := writeBuffer.buf;
      var left := |buf|;
      rest := kernel;
      SendIsLossless(left, kernel);
      assert buf[..0] == "" && wire + "" == wire;
      while curWrite < left
        invariant 0 <= curWrite <= left
        invariant writeBuffer.buf == buf && wire == old(wire) + buf[..curWrite]
        invariant SendProgress(left, kernel) ==
                  (curWrite + SendProgress(left - curWrite, rest).0, SendProgress(left - curWrite, rest).1)
        decreases |rest|, left - curWrite
      {
        var write := left - curWrite;
        if rest != [] {
          var r := rest[0];
          rest := rest[1..];
          write := Min(r.count, left - curWrite);
          if write <= 0 {
            if r.errno == OTHER {
              writeBuffer.Clear();
              return;
            }
            write := 0;
          }
        }
        assert buf[..curWrite] + buf[curWrite..curWrite + write] == buf[..curWrite + write];
        wire := wire + buf[curWrite..curWrite + write];
        curWrite := curWrite + write;
      }
      assert buf[..left] == buf;
      writeBuffer.Clear();
    }
  }

  lemma {:induction false} ChunksStep(kernel: seq<RecvResult>, i: nat)
    requires i < |kernel|
    ensures Chunks(kernel[..i + 1]) == Chunks(kernel[..i]) + if kernel[i].Received? then kernel[i].data else ""
    decreases i
  {
    if i == 0 {
      assert kernel[..1][1..] == [] && kernel[..0] == [];
    } else {
      ChunksStep(kernel[1..], i - 1);
      assert kernel[..i + 1][1..] == kernel[1..][..i] && kernel[..i][1..] == kernel[1..][..i - 1];
    }
  }

  class EventLooper {
    var connections: map<int, Connection>

    constructor ()
      ensures connections == map[]
    {
      connections := map[];
    }

    /** `insert` keeps an entry that is already there. */
    method AddConnection(conn: Connection)
      modifies this
      ensures connections == if conn.fd in old(connections) then old(connections)
                             else old(connections)[conn.fd := conn]
    {
      if conn.fd !in connections {
        connections := connections[conn.fd := conn];
      }
    }

    /** Taking in one client: nothing happens if `accept` failed; otherwise a new connection on the accepted
        descriptor goes to the looper that was picked, which becomes its owner. */
    static method BaseAcceptCallback(acceptFd: int, loopers: seq<EventLooper>, random: nat)
        returns (client: Option<Connection>)
      requires loopers != []
      modifies loopers[random % |loopers|]
      ensures client.None? <==> acceptFd == -1
      ensures acceptFd == -1 ==>
        loopers[random % |loopers|].connections == old(loopers[random % |loopers|].connections)
      ensures acceptFd != -1 ==>
        var looper, conn := loopers[random % |loopers|], client.value;
        && fresh(conn) && conn.fd == acceptFd && conn.looper == looper && conn.Valid() && conn.wire == ""
        && looper.connections == if acceptFd in old(looper.connections) then old(looper.connections)
                                 else old(looper.connections)[acceptFd := conn]
    {
      if acceptFd == -1 {
        return None;
      }
      var index := random % |loopers|;
      var conn := new Connection(acceptFd, loopers[index]);
      loopers[index].AddConnection(conn);
      return Some(conn);
    }

    method DeleteConnection(fd: int) returns (found: bool)
      modifies this
      ensures found == (fd in old(connections))
      ensures connections == old(connections) - {fd}
    {
      if fd !in connections {
        assert connections - {fd} == connections;
        return false;
      }
      connections := connections - {fd};
      return true;
    }
  }
}
