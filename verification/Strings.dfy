/** Byte strings and the search operation (`std::string::find`) that every parser of the server relies on.
    A byte is modelled as a `char`; no property depends on how many different bytes there are. */
module Strings {

  datatype Option<+T> = None | Some(value: T)

  /** The pattern `p` stands in `s` at position `i`. */
  predicate At(s: string, p: string, i: nat) {
    i + |p| <= |s| && s[i..i + |p|] == p
  }

  ghost predicate Occurs(s: string, p: string) {
    exists i: nat :: At(s, p, i)
  }

  /** The leftmost occurrence of `p` in `s` that starts at `from` or later. */
  function FindFrom(s: string, p: string, from: nat): (r: Option<nat>)
    requires from <= |s|
    ensures r.Some? ==> from <= r.value && At(s, p, r.value) && forall j: nat :: from <= j < r.value ==> !At(s, p, j)
    ensures r.None? ==> forall j: nat :: from <= j ==> !At(s, p, j)
    decreases |s| - from
  {
    if At(s, p, from) then Some(from)
    else if from == |s| then None
    else FindFrom(s, p, from + 1)
  }

  function Find(s: string, p: string): (r: Option<nat>)
    ensures r.Some? ==> At(s, p, r.value) && forall j: nat :: j < r.value ==> !At(s, p, j)
    ensures r.None? <==> !Occurs(s, p)
  {
    FindFrom(s, p, 0)
  }

  function Concat(ss: seq<string>): string {
    if ss == [] then "" else ss[0] + Concat(ss[1..])
  }

  lemma {:induction false} ConcatCons(x: string, xs: seq<string>)
    ensures Concat([x] + xs) == x + Concat(xs)
  {
    assert ([x] + xs)[1..] == xs;
  }

  lemma {:induction false} ConcatLast(xs: seq<string>, x: string)
    ensures Concat(xs + [x]) == Concat(xs) + x
    decreases |xs|
  {
    if xs == [] {
      assert [x][1..] == [] && Concat([x]) == x + "";
    } else {
      ConcatLast(xs[1..], x);
      assert (xs + [x])[1..] == xs[1..] + [x];
    }
  }

  /** Slices of a suffix are slices of the whole. */
  lemma {:induction false} DropDrop<T>(s: seq<T>, k: nat, i: nat, j: nat)
    requires k + i <= |s| && k + j <= |s|
    ensures s[k..][..i] == s[k..k + i]
    ensures s[k..][j..] == s[k + j..]
  {
  }

  lemma {:induction false} FindIs(s: string, p: string, i: nat)
    requires At(s, p, i)
    requires forall j: nat :: j < i ==> !At(s, p, j)
    ensures Find(s, p) == Some(i)
  {
    assert Occurs(s, p);
    var r := Find(s, p).value;
    assert !(r < i);
    assert !(i < r);
  }

  /** Occurrences seen through a common prefix: shifting by `|a|`. */
  lemma {:induction false} AtShift(a: string, b: string, p: string, i: nat)
    ensures At(a + b, p, |a| + i) == At(b, p, i)
  {
    if i + |p| <= |b| {
      assert (a + b)[|a| + i..|a| + i + |p|] == b[i..i + |p|];
    }
  }

  /** Occurrences inside the prefix do not depend on what follows. */
  lemma {:induction false} AtPrefix(a: string, b: string, p: string, i: nat)
    requires i + |p| <= |a|
    ensures At(a + b, p, i) == At(a, p, i)
  {
    assert (a + b)[i..i + |p|] == a[i..i + |p|];
  }

  /** Later bytes never move the leftmost match. */
  lemma {:induction false} FindAppend(a: string, b: string, p: string)
    requires Find(a, p).Some?
    ensures Find(a + b, p) == Find(a, p)
  {
    var i := Find(a, p).value;
    AtPrefix(a, b, p, i);
    forall j: nat | j < i ensures !At(a + b, p, j) {
      AtPrefix(a, b, p, j);
    }
    FindIs(a + b, p, i);
  }

  lemma {:induction false} AtRest(s: string, p: string, k: nat, j: nat)
    requires k <= |s|
    ensures At(s, p, k + j) == At(s[k..], p, j)
  {
    AtShift(s[..k], s[k..], p, j);
    assert s[..k] + s[k..] == s;
  }

  /** Searching from an index is searching the rest of the string. */
  lemma {:induction false} FindRest(s: string, p: string, k: nat)
    requires k <= |s|
    ensures Find(s[k..], p).None? <==> FindFrom(s, p, k).None?
    ensures Find(s[k..], p).Some? ==> FindFrom(s, p, k) == Some(k + Find(s[k..], p).value)
  {
    forall j: nat ensures At(s, p, k + j) == At(s[k..], p, j) {
      AtRest(s, p, k, j);
    }
    match FindFrom(s, p, k) {
      case Some(i) =>
        assert forall j: nat :: j < i - k ==> At(s, p, k + j) == At(s[k..], p, j);
        FindIs(s[k..], p, i - k);
      case None =>
        assert forall j: nat :: !At(s[k..], p, j);
    }
  }

  /** One-byte patterns: occurrence is membership. */
  lemma {:induction false} OccursByte(s: string, c: char)
    ensures Occurs(s, [c]) <==> c in s
  {
    if c in s {
      var i :| 0 <= i < |s| && s[i] == c;
      assert At(s, [c], i);
    }
    if Occurs(s, [c]) {
      var i: nat :| At(s, [c], i);
      assert s[i] == s[i..i + 1][0] == c;
    }
  }

  /** `t` followed by the delimiter completes no earlier match of it. */
  predicate Clean(t: string, d: string) {
    Find(t + d, d) == Some(|t|)
  }

  lemma {:induction false} CleanByte(t: string, c: char)
    ensures Clean(t, [c]) <==> c !in t
  {
    forall i | 0 <= i < |t| ensures At(t + [c], [c], i) == (t[i] == c) {
      assert (t + [c])[i..i + 1] == [t[i]];
    }
    assert At(t + [c], [c], |t|);
    if c !in t {
      FindIs(t + [c], [c], |t|);
    } else {
      var i :| 0 <= i < |t| && t[i] == c;
      assert At(t + [c], [c], i);
    }
  }

  const CRLF: string := "\r\n"
  const CRLF2: string := "\r\n\r\n"

  /** CRLF cannot overlap itself, so a line is clean exactly when it contains no CRLF. */
  lemma {:induction false} CleanCrlf(t: string)
    ensures Clean(t, CRLF) <==> !Occurs(t, CRLF)
  {
    assert At(t + CRLF, CRLF, |t|) by { assert (t + CRLF)[|t|..|t| + 2] == CRLF; }
    forall i: nat | i < |t| ensures At(t + CRLF, CRLF, i) == At(t, CRLF, i) {
      if i + 2 <= |t| {
        AtPrefix(t, CRLF, CRLF, i);
      } else {
        assert (t + CRLF)[i..i + 2][1] == '\r';
      }
    }
    if !Occurs(t, CRLF) {
      FindIs(t + CRLF, CRLF, |t|);
    } else {
      var i: nat :| At(t, CRLF, i);
      assert At(t + CRLF, CRLF, i);
    }
  }

  /** Line ends, byte by byte. */
  lemma {:induction false} CrlfAt(s: string, i: nat)
    ensures At(s, CRLF, i) <==> i + 2 <= |s| && s[i] == '\r' && s[i + 1] == '\n'
    ensures At(s, CRLF2, i) <==> At(s, CRLF, i) && At(s, CRLF, i + 2)
  {
    if i + 2 <= |s| {
      assert s[i..i + 2] == [s[i], s[i + 1]];
    }
    if i + 4 <= |s| {
      assert s[i..i + 4] == [s[i], s[i + 1], s[i + 2], s[i + 3]];
      assert s[i + 2..i + 2 + 2] == [s[i + 2], s[i + 3]];
    }
  }
}
