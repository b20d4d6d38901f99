/** The connection byte buffer of src/core/buffer.cc and the framing it performs. */
module Buffers {
  import opened Strings

  /** One pop: the bytes up to and including the leftmost target, and what stays. */
  function PopTill(s: string, t: string): (Option<string>, string) {
    match Find(s, t)
    case None => (None, s)
    case Some(i) => (Some(s[..i + |t|]), s[i + |t|..])
  }

  class Buffer {
    var buf: string

    constructor ()
      ensures buf == ""
    {
      buf := "";
    }

    method Append(data: string)
      modifies this
      ensures buf == old(buf) + data
    {
      buf := buf + data;
    }

    method AppendHead(data: string)
      modifies this
      ensures buf == data + old(buf)
    {
      buf := data + buf;
    }

    /** Pops up to the leftmost target. An empty target matches at once and pops nothing. */
    method FindAndPopTill(target: string) returns (res: Option<string>)
      modifies this
      ensures res.None? ==> buf == old(buf) && !Occurs(buf, target)
      ensures res.Some? ==> res.value + buf == old(buf)
      ensures res.Some? ==> |target| <= |res.value| && Find(res.value, target) == Some(|res.value| - |target|)
      ensures (res, buf) == PopTill(old(buf), target)
    {
      res := None;
      var pos := Find(buf, target);
      if pos.Some? {
        var end := pos.value + |target|;
        FrameIsLeftmost(buf, target);
        res := Some(buf[..end]);
        buf := buf[end..];
      }
    }

    method Clear()
      modifies this
      ensures buf == ""
    {
      buf := "";
    }
  }

  lemma {:induction false} FrameIsLeftmost(s: string, t: string)
    requires Find(s, t).Some?
    ensures var i := Find(s, t).value; i + |t| <= |s| && Find(s[..i + |t|], t) == Some(i)
  {
    var i := Find(s, t).value;
    var f := s[..i + |t|];
    assert f + s[i + |t|..] == s;
    AtPrefix(f, s[i + |t|..], t, i);
    forall j: nat | j < i ensures !At(f, t, j) {
      AtPrefix(f, s[i + |t|..], t, j);
    }
    FindIs(f, t, i);
  }

  /** The frames a full drain of `s` pops, in order. */
  function Frames(s: string, t: string): seq<string>
    requires t != ""
    decreases |s|
  {
    match Find(s, t)
    case None => []
    case Some(i) => [s[..i + |t|]] + Frames(s[i + |t|..], t)
  }

  /** What a full drain of `s` leaves. */
  function Residue(s: string, t: string): string
    requires t != ""
    decreases |s|
  {
    match Find(s, t)
    case None => s
    case Some(i) => Residue(s[i + |t|..], t)
  }

  /** `f` contains the target, and only as its ending. */
  predicate IsFrame(f: string, t: string) {
    |t| <= |f| && Find(f, t) == Some(|f| - |t|)
  }

  ghost predicate Decomposes(s: string, t: string, fs: seq<string>, r: string) {
    && Concat(fs) + r == s
    && (forall f :: f in fs ==> IsFrame(f, t))
    && !Occurs(r, t)
  }

  lemma {:induction false} PopFirst(f: string, rest: string, t: string)
    requires t != "" && IsFrame(f, t)
    ensures Find(f + rest, t) == Some(|f| - |t|)
    ensures PopTill(f + rest, t) == (Some(f), rest)
    ensures Frames(f + rest, t) == [f] + Frames(rest, t)
    ensures Residue(f + rest, t) == Residue(rest, t)
  {
    FindAppend(f, rest, t);
    assert (f + rest)[..|f|] == f && (f + rest)[|f|..] == rest;
  }

  lemma {:induction false} FirstFrame(s: string, t: string) returns (f: string, rest: string)
    requires t != "" && Find(s, t).Some?
    ensures s == f + rest && IsFrame(f, t)
  {
    FrameIsLeftmost(s, t);
    var k := Find(s, t).value + |t|;
    f, rest := s[..k], s[k..];
  }

  lemma {:induction false} DecomposesCons(f: string, rest: string, t: string, fs: seq<string>, r: string)
    requires IsFrame(f, t) && Decomposes(rest, t, fs, r)
    ensures Decomposes(f + rest, t, [f] + fs, r)
  {
    ConcatCons(f, fs);
    assert (f + Concat(fs)) + r == f + (Concat(fs) + r);
  }

  lemma {:induction false} DrainDecomposes(s: string, t: string)
    requires t != ""
    ensures Decomposes(s, t, Frames(s, t), Residue(s, t))
    decreases |s|
  {
    if Find(s, t).Some? {
      var f, rest := FirstFrame(s, t);
      PopFirst(f, rest, t);
      DrainDecomposes(rest, t);
      DecomposesCons(f, rest, t, Frames(rest, t), Residue(rest, t));
    } else {
      assert "" + s == s;
    }
  }

  lemma {:induction false} DecompositionUnique(s: string, t: string, fs: seq<string>, r: string)
    requires t != "" && Decomposes(s, t, fs, r)
    ensures fs == Frames(s, t) && r == Residue(s, t)
    decreases |fs|
  {
    if fs == [] {
      assert s == r;
    } else {
      var f, rest := fs[0], Concat(fs[1..]) + r;
      assert s == f + rest;
      assert forall g :: g in fs[1..] ==> g in fs;
      PopFirst(f, rest, t);
      DecompositionUnique(rest, t, fs[1..], r);
      assert fs == [f] + fs[1..];
    }
  }

  /** Framing is exactly one decomposition: the bytes are conserved, every frame has the target only at its end,
      the residue has none; and nothing else satisfies this. */
  lemma {:induction false} FramingCharacterised(s: string, t: string, fs: seq<string>, r: string)
    requires t != ""
    ensures fs == Frames(s, t) && r == Residue(s, t) <==> Decomposes(s, t, fs, r)
  {
    DrainDecomposes(s, t);
    if Decomposes(s, t, fs, r) {
      DecompositionUnique(s, t, fs, r);
    }
  }

  /** A pop and later bytes: the pop commutes with appending. */
  lemma {:induction false} PopAppend(s: string, b: string, t: string) returns (f: string, rest: string)
    requires t != "" && Find(s, t).Some?
    ensures s == f + rest && IsFrame(f, t)
    ensures PopTill(s, t) == (Some(f), rest) && PopTill(s + b, t) == (Some(f), rest + b)
    ensures Frames(s, t) == [f] + Frames(rest, t) && Frames(s + b, t) == [f] + Frames(rest + b, t)
    ensures Residue(s, t) == Residue(rest, t) && Residue(s + b, t) == Residue(rest + b, t)
  {
    f, rest := FirstFrame(s, t);
    PopFirst(f, rest, t);
    PopFirst(f, rest + b, t);
    Associate(s, f, rest, b);
  }

  lemma {:induction false} Associate(s: string, f: string, rest: string, b: string)
    requires s == f + rest
    ensures s + b == f + (rest + b)
  {
  }

  /** Draining a prefix first changes neither the frames nor the residue. */
  lemma {:induction false} DrainThenAppend(a: string, b: string, t: string)
    requires t != ""
    ensures Frames(a + b, t) == Frames(a, t) + Frames(Residue(a, t) + b, t)
    ensures Residue(a + b, t) == Residue(Residue(a, t) + b, t)
    decreases |a|
  {
    if Find(a, t).Some? {
      var f, rest := PopAppend(a, b, t);
      DrainThenAppend(rest, b, t);
      var fs, gs := Frames(rest, t), Frames(Residue(rest, t) + b, t);
      assert [f] + (fs + gs) == ([f] + fs) + gs;
    }
  }

  datatype Operation = Append(data: string) | Pop

  function Appended(ops: seq<Operation>): string {
    if ops == [] then ""
    else (if ops[0].Append? then ops[0].data else "") + Appended(ops[1..])
  }

  /** Any interleaving of appends and pops: the frames popped so far, in order, and the buffer. */
  function Execute(s: string, ops: seq<Operation>, t: string): (seq<string>, string)
    decreases |ops|
  {
    if ops == [] then ([], s)
    else match ops[0]
      case Append(data) => Execute(s + data, ops[1..], t)
      case Pop =>
        var (f, s') := PopTill(s, t);
        var (fs, r) := Execute(s', ops[1..], t);
        ((if f.Some? then [f.value] else []) + fs, r)
  }

  lemma {:induction false} PopStep(s: string, ops: seq<Operation>, t: string)
    requires t != ""
    ensures var (f, s') := PopTill(s, t);
      var (fs, r) := Execute(s', ops, t);
      var popped := if f.Some? then [f.value] else [];
      && Execute(s, [Pop] + ops, t) == (popped + fs, r)
      && (popped + fs) + Frames(r, t) == popped + (fs + Frames(r, t))
  {
    assert ([Pop] + ops)[1..] == ops;
  }

  /** However appends and pops interleave, what was popped followed by what a final drain pops is what draining the
      whole stream pops, and the residue is the same. */
  lemma {:induction false} FramingChunkInvariant(s: string, ops: seq<Operation>, t: string)
    requires t != ""
    ensures var (fs, r) := Execute(s, ops, t);
      && fs + Frames(r, t) == Frames(s + Appended(ops), t)
      && Residue(r, t) == Residue(s + Appended(ops), t)
    decreases |ops|
  {
    if ops == [] {
      assert s + "" == s;
    } else {
      var rest := Appended(ops[1..]);
      match ops[0] {
        case Append(data) =>
          FramingChunkInvariant(s + data, ops[1..], t);
          assert s + data + rest == s + (data + rest);
        case Pop =>
          assert Appended(ops) == rest by { assert "" + rest == rest; }
          PopStep(s, ops[1..], t);
          assert ops == [Pop] + ops[1..];
          FramingChunkInvariant(PopTill(s, t).1, ops[1..], t);
          if Find(s, t).Some? {
            var _, _ := PopAppend(s, rest, t);
          }
      }
    }
  }
}
