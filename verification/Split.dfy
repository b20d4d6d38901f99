/** Delimiter splitting (`Split`) and the colon join (`Join`) of src/http/http_utils.cc. */
module Splitting {
  import opened Strings

  /** The tokens `Split` produces: cut at every leftmost delimiter; a rest that is empty gives no token. */
  function Split(s: string, d: string): seq<string>
    requires d != ""
    decreases |s|
  {
    if s == "" then []
    else match Find(s, d)
      case None => [s]
      case Some(i) => [s[..i]] + Split(s[i + |d|..], d)
  }

  /** One cut of the scan that has reached `begin`. */
  lemma {:induction false} SplitAt(s: string, d: string, begin: nat, target: nat)
    requires d != "" && begin <= |s| && FindFrom(s, d, begin) == Some(target)
    ensures target + |d| <= |s|
    ensures Split(s[begin..], d) == [s[begin..target]] + Split(s[target + |d|..], d)
  {
    var i, rest, rest' := target - begin, s[begin..], s[target + |d|..];
    assert Find(rest, d) == Some(i) by { FindRest(s, d, begin); }
    assert rest[..i] == s[begin..target] && rest[i + |d|..] == rest';
    SplitStep(rest, d, i);
  }

  lemma {:induction false} RestAfterCut(all: seq<string>, res: seq<string>, now: seq<string>, token: string,
                                        rest: seq<string>)
    requires all == res + now && now == [token] + rest
    ensures all == (res + [token]) + rest
  {
  }

  lemma {:induction false} SplitEnd(s: string, d: string, begin: nat)
    requires d != "" && begin <= |s| && FindFrom(s, d, begin).None?
    ensures Split(s[begin..], d) == if begin == |s| then [] else [s[begin..]]
  {
    FindRest(s, d, begin);
  }

  lemma {:induction false} SplitStep(s: string, d: string, i: nat)
    requires d != "" && Find(s, d) == Some(i)
    ensures i + |d| <= |s| && Split(s, d) == [s[..i]] + Split(s[i + |d|..], d)
  {
  }

  /** The scan of the source: one pass with a moving begin index. */
  method SplitScan(s: string, d: string) returns (res: seq<string>)
    requires d != ""
    ensures res == Split(s, d)
  {
    res := [];
    if s == "" {
      return;
    }
    var begin := 0;
    var target := FindFrom(s, d, begin);
    ghost var all, rest := Split(s, d), Split(s, d);
    assert s[0..] == s;
    while target.Some?
      invariant begin <= |s|
      invariant target == FindFrom(s, d, begin)
      invariant rest == Split(s[begin..], d)
      invariant all == res + rest
      decreases |s| - begin
    {
      var token, next := s[begin..target.value], target.value + |d|;
      SplitAt(s, d, begin, target.value);
      ghost var now := rest;
      rest := Split(s[next..], d);
      RestAfterCut(all, res, now, token, rest);
      res := res + [token];
      begin := next;
      target := FindFrom(s, d, begin);
    }
    SplitEnd(s, d, begin);
    if begin != |s| {
      res := res + [s[begin..]];
    }
  }

  /** The tokens with the delimiter between them. */
  function Intercalate(ts: seq<string>, d: string): string
    requires ts != []
  {
    if |ts| == 1 then ts[0] else ts[0] + d + Intercalate(ts[1..], d)
  }

  /** What a list of tokens of `s` must satisfy, stated without scanning: joining the tokens gives `s` back, up to
      one dropped trailing delimiter; no token completes an earlier delimiter; and a last token that is not
      followed by a delimiter is non-empty and free of it. */
  ghost predicate TokensOf(s: string, d: string, ts: seq<string>) {
    if ts == [] then s == ""
    else
      var last := ts[|ts| - 1];
      && (forall i :: 0 <= i < |ts| - 1 ==> Clean(ts[i], d))
      && (|| (Clean(last, d) && s == Intercalate(ts, d) + d)
          || (last != "" && !Occurs(last, d) && s == Intercalate(ts, d)))
  }

  /** Peeling the first of several tokens. */
  lemma {:induction false} TokensOfTail(s: string, d: string, ts: seq<string>)
    requires d != "" && |ts| > 1
    ensures TokensOf(s, d, ts)
       <==> Clean(ts[0], d) && ts[0] + d <= s && TokensOf(s[|ts[0]| + |d|..], d, ts[1..])
  {
    var t, rest := ts[0], ts[1..];
    var j := Intercalate(rest, d);
    assert Intercalate(ts, d) == t + d + j;
    assert rest[|rest| - 1] == ts[|ts| - 1];
    if t + d <= s {
      var s' := s[|t| + |d|..];
      assert s == t + d + s';
      assert (t + d + j) + d == t + d + (j + d);
      assert s' == j + d <==> s == t + d + (j + d);
      assert s' == j <==> s == t + d + j by {
        if s == t + d + j { assert s' == (t + d + j)[|t + d|..] == j; }
      }
      assert s' == j + d <== s == t + d + (j + d) by {
        if s == t + d + (j + d) { assert s' == (t + d + (j + d))[|t + d|..] == j + d; }
      }
      assert (forall i :: 0 <= i < |rest| - 1 ==> Clean(rest[i], d))
        <==> (forall i :: 1 <= i < |ts| - 1 ==> Clean(ts[i], d)) by {
        assert forall i :: 0 <= i < |rest| ==> rest[i] == ts[i + 1];
        assert forall i :: 1 <= i < |ts| ==> ts[i] == rest[i - 1];
      }
    } else {
      assert (t + d + j) + d == t + d + (j + d);
    }
  }

  /** A clean first token ends exactly at the leftmost delimiter. */
  lemma {:induction false} CleanFirst(s: string, d: string, t: string)
    requires d != "" && Clean(t, d) && t + d <= s
    ensures Split(s, d) == [t] + Split(s[|t| + |d|..], d)
  {
    assert s == (t + d) + s[|t + d|..];
    FindAppend(t + d, s[|t + d|..], d);
    assert s[..|t|] == t;
  }

  lemma {:induction false} SplitGivesTokens(s: string, d: string)
    requires d != ""
    ensures TokensOf(s, d, Split(s, d))
    decreases |s|
  {
    if s != "" && Find(s, d).Some? {
      var i := Find(s, d).value;
      var t, rest := s[..i], s[i + |d|..];
      assert s == t + d + rest && s[..i + |d|] == t + d;
      assert Clean(t, d) by {
        forall j: nat | j < i ensures !At(t + d, d, j) {
          if j + |d| <= |t + d| { AtPrefix(t + d, rest, d, j); }
        }
        AtPrefix(t + d, rest, d, i);
        FindIs(t + d, d, i);
      }
      SplitGivesTokens(rest, d);
      if rest == "" {
        assert Split(s, d) == [t];
      } else {
        var ts := Split(s, d);
        assert ts == [t] + Split(rest, d);
        assert ts[1..] == Split(rest, d);
        TokensOfTail(s, d, ts);
      }
    }
  }

  lemma {:induction false} TokensUnique(s: string, d: string, ts: seq<string>)
    requires d != "" && TokensOf(s, d, ts)
    ensures ts == Split(s, d)
    decreases |s|
  {
    if |ts| == 1 {
      var t := ts[0];
      if Clean(t, d) && s == t + d {
        assert s[|t| + |d|..] == "";
        assert s[..|t|] == t;
      }
    } else if |ts| > 1 {
      TokensOfTail(s, d, ts);
      var t := ts[0];
      CleanFirst(s, d, t);
      TokensUnique(s[|t| + |d|..], d, ts[1..]);
    }
  }

  /** `Split` is characterised: its result is the one list of tokens of the input. */
  lemma {:induction false} SplitCharacterised(s: string, d: string, ts: seq<string>)
    requires d != ""
    ensures ts == Split(s, d) <==> TokensOf(s, d, ts)
  {
    SplitGivesTokens(s, d);
    if TokensOf(s, d, ts) {
      TokensUnique(s, d, ts);
    }
  }

  /** Splitting inverts delimiting: writing the delimiter after every token and splitting gives the tokens back,
      exactly when no token completes an earlier delimiter. */
  lemma {:induction false} SplitInvertsDelimiting(ts: seq<string>, d: string)
    requires d != "" && ts != []
    ensures Split(Intercalate(ts, d) + d, d) == ts <==> forall t :: t in ts ==> Clean(t, d)
  {
    var s := Intercalate(ts, d) + d;
    SplitCharacterised(s, d, ts);
    if forall t :: t in ts ==> Clean(t, d) {
      assert TokensOf(s, d, ts);
    }
  }

  /** Splitting at one byte: every token is free of it. */
  lemma {:induction false} SplitByteTokens(s: string, c: char)
    ensures forall t :: t in Split(s, [c]) ==> c !in t
  {
    var ts := Split(s, [c]);
    SplitGivesTokens(s, [c]);
    forall t | t in ts ensures c !in t {
      CleanByte(t, c);
      OccursByte(t, c);
    }
  }

  const COLON: string := ":"

  /** `Join` as written: the colon goes before every token except the last, and the delimiter argument is unused. */
  function JoinFrom(ts: seq<string>, i: nat): string
    requires i <= |ts|
    decreases |ts| - i
  {
    if i == |ts| then ""
    else (if i != |ts| - 1 then COLON else "") + ts[i] + JoinFrom(ts, i + 1)
  }

  function Join(ts: seq<string>): string
    requires ts != []
  {
    if |ts| == 1 then ts[0] else JoinFrom(ts, 0)
  }

  method JoinLoop(ts: seq<string>) returns (res: string)
    requires ts != []
    ensures res == Join(ts)
  {
    if |ts| == 1 {
      return ts[0];
    }
    res := "";
    for i := 0 to |ts|
      invariant JoinFrom(ts, 0) == res + JoinFrom(ts, i)
    {
      if i != |ts| - 1 {
        res := res + COLON;
      }
      res := res + ts[i];
    }
  }

  predicate AllColons(s: string) {
    forall i :: 0 <= i < |s| ==> s[i] == ':'
  }

  /** From the second-to-last token backwards, `Join` prefixes where a join would infix. */
  lemma {:induction false} JoinShape(ts: seq<string>, i: nat)
    requires i + 1 < |ts|
    ensures JoinFrom(ts, i) == COLON + Intercalate(ts[i..|ts| - 1], COLON) + ts[|ts| - 1]
    decreases |ts| - i
  {
    var n := |ts|;
    var last := ts[n - 1];
    assert JoinFrom(ts, i) == COLON + ts[i] + JoinFrom(ts, i + 1);
    if i + 2 == n {
      assert ts[i..n - 1] == [ts[i]];
      assert JoinFrom(ts, n - 1) == "" + last + JoinFrom(ts, n) == last;
    } else {
      JoinShape(ts, i + 1);
      assert ts[i..n - 1][1..] == ts[i + 1..n - 1];
      var j := Intercalate(ts[i + 1..n - 1], COLON);
      assert COLON + ts[i] + (COLON + j + last) == COLON + (ts[i] + COLON + j) + last;
    }
  }

  lemma {:induction false} IntercalateLast(ts: seq<string>, d: string)
    requires |ts| > 1
    ensures Intercalate(ts, d) == Intercalate(ts[..|ts| - 1], d) + d + ts[|ts| - 1]
  {
    var n := |ts|;
    if n == 2 {
      assert ts[1..] == [ts[1]] && ts[..1] == [ts[0]];
    } else {
      IntercalateLast(ts[1..], d);
      assert ts[1..][..n - 2] == ts[..n - 1][1..];
    }
  }

  /** A word commutes with a colon exactly when it consists of colons. */
  lemma {:induction false} ColonCommutes(x: string)
    ensures COLON + x == x + COLON <==> AllColons(x)
  {
    if COLON + x == x + COLON {
      var l, r := COLON + x, x + COLON;
      for i := 0 to |x|
        invariant forall k :: 0 <= k < i ==> x[k] == ':'
      {
        assert x[i] == r[i] == l[i];
        assert i > 0 ==> l[i] == x[i - 1];
      }
    }
  }

  /** `Join` is the colon join exactly when there is nothing but colons before the last token's separator. */
  lemma {:induction false} JoinIsColonJoin(ts: seq<string>)
    requires ts != []
    ensures |Join(ts)| == |Intercalate(ts, COLON)|
    ensures Join(ts) == Intercalate(ts, COLON) <==> |ts| == 1 || AllColons(Intercalate(ts[..|ts| - 1], COLON))
  {
    if |ts| > 1 {
      var n := |ts|;
      var x, last := Intercalate(ts[..n - 1], COLON), ts[n - 1];
      JoinShape(ts, 0);
      assert ts[0..n - 1] == ts[..n - 1];
      IntercalateLast(ts, COLON);
      ColonCommutes(x);
      var l, r := COLON + x, x + COLON;
      assert Join(ts) == l + last && Intercalate(ts, COLON) == r + last;
      if l + last == r + last {
        assert l == (l + last)[..|l|] == (r + last)[..|l|] == r;
      }
    }
  }
}
