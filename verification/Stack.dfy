/** What least-recently-used replacement computes: the stack theorem for the handler's use of the cache, where every
    access is a load followed by an insert on a miss (src/http/http_server.cc:51-63). */
module StackTheorem {
  import opened Strings
  import opened Lru

  type Files = map<string, string>

  function Access(es: Entries, capacity: int, k: string, data: string): Entries {
    if HasKey(es, k) then Load(es, k) else Insert(es, capacity, k, data)
  }

  ghost predicate Stored(trace: seq<string>, files: Files) {
    forall k :: k in trace ==> k in files
  }

  /** The cache after a sequence of accesses. */
  function AccessAll(es: Entries, capacity: int, files: Files, trace: seq<string>): Entries
    requires Stored(trace, files)
  {
    if trace == [] then es
    else
      var before := trace[..|trace| - 1];
      var k := trace[|trace| - 1];
      Access(AccessAll(es, capacity, files, before), capacity, k, files[k])
  }

  /** The accesses to files that could fit at all; the others never enter the cache. */
  function Cacheable(trace: seq<string>, files: Files, capacity: int): (r: seq<string>)
    requires Stored(trace, files)
    ensures Stored(r, files) && forall k :: k in r ==> |files[k]| <= capacity
  {
    if trace == [] then []
    else
      var k := trace[|trace| - 1];
      Cacheable(trace[..|trace| - 1], files, capacity) + (if |files[k]| <= capacity then [k] else [])
  }

  /** The distinct keys of a trace in recency order: every access that is the last one to its key. */
  function Recent(trace: seq<string>, files: Files): Entries
    requires Stored(trace, files)
  {
    if trace == [] then []
    else
      var k, later := trace[0], Recent(trace[1..], files);
      if k in trace[1..] then later else [Entry(k, files[k])] + later
  }

  /** `es[n..]` is the longest suffix that fits the capacity. */
  predicate LongestFit(es: Entries, capacity: int, n: nat) {
    && n <= |es|
    && (n == |es| || Total(es[n..]) <= capacity)
    && (n > 0 ==> Total(es[n - 1..]) > capacity)
  }

  // ---- Recency ----

  lemma {:induction false} RecentKeys(trace: seq<string>, files: Files)
    requires Stored(trace, files)
    ensures Distinct(Recent(trace, files)) && Consistent(Recent(trace, files), files)
    ensures forall k :: HasKey(Recent(trace, files), k) <==> k in trace
    decreases |trace|
  {
    if trace != [] {
      RecentKeys(trace[1..], files);
      var k, later := trace[0], Recent(trace[1..], files);
      assert forall j :: j in trace <==> j == k || j in trace[1..];
      if k !in trace[1..] {
        ConsHasKey(Entry(k, files[k]), later);
        assert !HasKey(later, k);
      }
    }
  }

  lemma {:induction false} ConsHasKey(e: Entry, es: Entries)
    ensures forall k :: HasKey([e] + es, k) <==> k == e.key || HasKey(es, k)
  {
    assert e in [e] + es;
    assert forall x :: x in es ==> x in [e] + es;
  }

  lemma {:induction false} WithoutCons(e: Entry, es: Entries, k: string)
    ensures e.key == k ==> Without([e] + es, k) == es
    ensures e.key != k ==> Without([e] + es, k) == [e] + Without(es, k)
  {
    ConsHasKey(e, es);
    if e.key == k || HasKey(es, k) {
      IndexOfCons(e, es, k);
      if e.key != k {
        RemoveAtCons(e, es, IndexOf(es, k));
      } else {
        assert ([e] + es)[1..] == es;
      }
    }
  }

  lemma {:induction false} IndexOfCons(e: Entry, es: Entries, k: string)
    requires HasKey([e] + es, k)
    ensures e.key != k ==> HasKey(es, k)
    ensures IndexOf([e] + es, k) == if e.key == k then 0 else 1 + IndexOf(es, k)
  {
    ConsHasKey(e, es);
    assert ([e] + es)[1..] == es;
  }

  lemma {:induction false} RemoveAtCons<T>(e: T, es: seq<T>, i: nat)
    requires i < |es|
    ensures RemoveAt([e] + es, 1 + i) == [e] + RemoveAt(es, i)
  {
  }

  /** An access makes its key the most recent one and leaves the order of the others. */
  lemma {:induction false} RecentAccess(trace: seq<string>, files: Files, k: string)
    requires Stored(trace, files) && k in files
    ensures Stored(trace + [k], files)
    ensures Recent(trace + [k], files) == Without(Recent(trace, files), k) + [Entry(k, files[k])]
    decreases |trace|
  {
    var all := trace + [k];
    if trace == [] {
      assert all[1..] == [];
    } else {
      var j, later := trace[0], Recent(trace[1..], files);
      assert all[0] == j && all[1..] == trace[1..] + [k];
      assert j in all[1..] <==> j in trace[1..] || j == k;
      RecentAccess(trace[1..], files, k);
      RecentKeys(trace[1..], files);
      var e, last := Entry(j, files[j]), [Entry(k, files[k])];
      WithoutCons(e, later, k);
      if j == k {
        assert j !in trace[1..] ==> Without(later, k) == later;
      } else {
        assert [e] + (Without(later, k) + last) == ([e] + Without(later, k)) + last;
      }
    }
  }

  // ---- One access ----

  lemma {:induction false} SuffixKey(es: Entries, n: nat, k: string)
    requires n <= |es| && Distinct(es)
    ensures HasKey(es[n..], k) <==> HasKey(es, k) && n <= IndexOf(es, k)
    ensures HasKey(es[n..], k) ==> IndexOf(es, k) == n + IndexOf(es[n..], k)
  {
    if HasKey(es[n..], k) {
      var i := IndexOf(es[n..], k);
      assert es[n + i].key == k && es[n + i] in es;
    }
    if HasKey(es, k) && n <= IndexOf(es, k) {
      assert es[n..][IndexOf(es, k) - n].key == k;
    }
  }

  /** A hit moves an entry of the cached suffix to the end of the order, and the same suffix stays the longest fit. */
  lemma {:induction false} HitStep(r: Entries, capacity: int, n: nat, i: nat)
    requires LongestFit(r, capacity, n) && n + i < |r|
    ensures LongestFit(MoveToEnd(r, n + i), capacity, n)
    ensures MoveToEnd(r[n..], i) == MoveToEnd(r, n + i)[n..]
  {
    var c := r[n..];
    MoveInSuffix(r, n, i);
    TotalRemoveAt(c, i);
    if n > 0 {
      TotalAppend([r[n - 1]], MoveToEnd(c, i));
      TotalAppend([r[n - 1]], c);
    }
  }

  lemma {:induction false} MoveInSuffix<T>(r: seq<T>, n: nat, i: nat)
    requires n + i < |r|
    ensures MoveToEnd(r, n + i)[n..] == MoveToEnd(r[n..], i)
    ensures n > 0 ==> MoveToEnd(r, n + i)[n - 1..] == [r[n - 1]] + MoveToEnd(r[n..], i)
    ensures n > 0 ==> r[n - 1..] == [r[n - 1]] + r[n..]
  {
  }

  lemma {:induction false} SuffixOfRemoved<T>(r: seq<T>, j: nat, k: nat)
    requires j <= k < |r|
    ensures RemoveAt(r, j)[k..] == r[k + 1..]
  {
  }

  lemma {:induction false} TailTotal(w: Entries, e: Entry, i: nat)
    requires i <= |w|
    ensures (w + [e])[i..] == w[i..] + [e]
    ensures Total((w + [e])[i..]) == Total(w[i..]) + |e.data|
  {
    assert (w + [e])[i..] == w[i..] + [e];
    TotalAppend(w[i..], [e]);
    TotalOne(e);
  }

  /** What inserting `e` keeps of the suffix at `k`, seen as a suffix of the order with `e` appended. */
  lemma {:induction false} EvictSuffix(w: Entries, k: nat, capacity: int, e: Entry) returns (n': nat)
    requires k <= |w| && |e.data| <= capacity
    ensures k <= n' <= |w| && Evict(w[k..], capacity, |e.data|) + [e] == (w + [e])[n'..]
    ensures Total((w + [e])[n'..]) <= capacity
    ensures n' > k ==> Total((w + [e])[n' - 1..]) > capacity
  {
    var m := EvictionMinimal(w[k..], capacity, |e.data|);
    n' := k + m;
    assert w[k..][m..] == w[n'..];
    TailTotal(w, e, n');
    if m > 0 {
      assert w[k..][m - 1..] == w[n' - 1..];
      TailTotal(w, e, n' - 1);
    }
  }

  /** Appending a new most recent entry to an order without its key: the longest fit shrinks by what is evicted. */
  lemma {:induction false} MissStepFresh(r: Entries, capacity: int, n: nat, e: Entry) returns (n': nat)
    requires LongestFit(r, capacity, n) && |e.data| <= capacity
    ensures LongestFit(r + [e], capacity, n')
    ensures Evict(r[n..], capacity, |e.data|) + [e] == (r + [e])[n'..]
  {
    n' := EvictSuffix(r, n, capacity, e);
    if n' == n && n > 0 {
      TailTotal(r, e, n - 1);
    }
  }

  /** The same for a key that had dropped out of the cache: it stood before the cached suffix. */
  lemma {:induction false} MissStepOld(r: Entries, capacity: int, n: nat, e: Entry, j: nat) returns (n': nat)
    requires LongestFit(r, capacity, n) && |e.data| <= capacity
    requires j < n && r[j] == e
    ensures LongestFit(RemoveAt(r, j) + [e], capacity, n')
    ensures Evict(r[n..], capacity, |e.data|) + [e] == (RemoveAt(r, j) + [e])[n'..]
  {
    var w := RemoveAt(r, j);
    SuffixOfRemoved(r, j, n - 1);
    n' := EvictSuffix(w, n - 1, capacity, e);
    if n' == n - 1 && n' > 0 {
      TailTotal(w, e, n - 1);
      TotalSuffix(r, n);
      assert j != n - 1;
      SuffixOfRemoved(r, j, n - 2);
      TailTotal(w, e, n - 2);
    }
  }

  // ---- The theorem ----

  lemma {:induction false} AccessStep(r: Entries, capacity: int, n: nat, e: Entry) returns (n': nat)
    requires Distinct(r) && LongestFit(r, capacity, n) && |e.data| <= capacity
    requires HasKey(r, e.key) ==> r[IndexOf(r, e.key)] == e
    ensures LongestFit(Without(r, e.key) + [e], capacity, n')
    ensures Access(r[n..], capacity, e.key, e.data) == (Without(r, e.key) + [e])[n'..]
  {
    SuffixKey(r, n, e.key);
    if HasKey(r[n..], e.key) {
      HitStep(r, capacity, n, IndexOf(r[n..], e.key));
      n' := n;
    } else if HasKey(r, e.key) {
      n' := MissStepOld(r, capacity, n, e, IndexOf(r, e.key));
    } else {
      n' := MissStepFresh(r, capacity, n, e);
    }
  }

  lemma {:induction false} NeverCached(es: Entries, capacity: int, k: string, files: Files)
    requires k in files && |files[k]| > capacity
    requires forall e :: e in es ==> |e.data| <= capacity && e.key in files && files[e.key] == e.data
    ensures Access(es, capacity, k, files[k]) == es
  {
  }

  /** The stack theorem. After any accesses, from an empty cache of any capacity, the cached entries are exactly the
      longest suffix of the recency order of the files that could fit whose total size fits. */
  lemma {:induction false} CacheIsLongestRecentFit(trace: seq<string>, files: Files, capacity: int) returns (n: nat)
    requires Stored(trace, files)
    ensures var order := Recent(Cacheable(trace, files, capacity), files);
      LongestFit(order, capacity, n) && AccessAll([], capacity, files, trace) == order[n..]
    decreases |trace|
  {
    if trace == [] {
      n := 0;
    } else {
      var before, k := trace[..|trace| - 1], trace[|trace| - 1];
      n := CacheIsLongestRecentFit(before, files, capacity);
      n := TheoremStep(Cacheable(before, files, capacity), files, capacity, n, k);
    }
  }

  lemma {:induction false} TheoremStep(t: seq<string>, files: Files, capacity: int, n: nat, k: string) returns (n': nat)
    requires Stored(t, files) && k in files && forall j :: j in t ==> |files[j]| <= capacity
    requires LongestFit(Recent(t, files), capacity, n)
    ensures var t' := t + (if |files[k]| <= capacity then [k] else []);
      && Stored(t', files)
      && LongestFit(Recent(t', files), capacity, n')
      && Access(Recent(t, files)[n..], capacity, k, files[k]) == Recent(t', files)[n'..]
  {
    var r := Recent(t, files);
    RecentKeys(t, files);
    if |files[k]| <= capacity {
      RecentAccess(t, files, k);
      n' := AccessStep(r, capacity, n, Entry(k, files[k]));
    } else {
      n' := n;
      assert t + [] == t;
      forall e | e in r[n..] ensures |e.data| <= capacity && e in r {
        assert HasKey(r, e.key);
      }
      NeverCached(r[n..], capacity, k, files);
    }
  }

  // ---- Consequences ----

  lemma {:induction false} SuffixTotals(es: Entries, i: nat, j: nat)
    requires i <= j <= |es|
    ensures Total(es[j..]) <= Total(es[i..])
  {
    TotalSuffix(es[i..], j - i);
    assert es[i..][j - i..] == es[j..];
  }

  /** The position of the last access to a key. */
  function LastAccess(trace: seq<string>, k: string): (i: nat)
    requires k in trace
    ensures i < |trace| && trace[i] == k && k !in trace[i + 1..]
  {
    if k in trace[1..] then 1 + LastAccess(trace[1..], k) else 0
  }

  /** The bytes of the distinct files accessed since the last access to `k`, that one included. */
  function ReuseDistance(trace: seq<string>, files: Files, k: string): nat
    requires Stored(trace, files) && k in trace
  {
    Total(Recent(trace[LastAccess(trace, k)..], files))
  }

  lemma {:induction false} RecentOfLater(trace: seq<string>, files: Files, i: nat) returns (x: Entries)
    requires Stored(trace, files) && i <= |trace|
    ensures Recent(trace, files) == x + Recent(trace[i..], files)
  {
    if i == 0 {
      x := [];
      assert trace[0..] == trace;
    } else {
      x := RecentOfLater(trace[1..], files, i - 1);
      assert trace[1..][i - 1..] == trace[i..];
      var k, later := trace[0], Recent(trace[i..], files);
      assert [Entry(k, files[k])] + (x + later) == ([Entry(k, files[k])] + x) + later;
      x := (if k in trace[1..] then [] else [Entry(k, files[k])]) + x;
    }
  }

  lemma {:induction false} LastAccessPosition(t: seq<string>, files: Files, k: string) returns (p: nat)
    requires Stored(t, files) && k in t
    ensures var r := Recent(t, files);
      && HasKey(r, k) && IndexOf(r, k) == p && p < |r|
      && Total(r[p..]) == ReuseDistance(t, files, k)
  {
    var last := LastAccess(t, k);
    var x := RecentOfLater(t, files, last);
    var s := Recent(t[last..], files);
    assert t[last..][1..] == t[last + 1..];
    assert s[0].key == k;
    RecentKeys(t, files);
    var r := Recent(t, files);
    p := |x|;
    assert r[p..] == s && r[p] == s[0];
    assert HasKey(r, k);
    assert IndexOf(r, k) == p;
  }

  /** A file is in the cache, so its next access hits, exactly when it was accessed before, could fit at all, and its
      reuse distance is within the capacity. */
  lemma {:induction false} HitByReuseDistance(trace: seq<string>, files: Files, capacity: int, k: string)
    requires Stored(trace, files)
    ensures var t := Cacheable(trace, files, capacity);
      HasKey(AccessAll([], capacity, files, trace), k) <==> k in t && ReuseDistance(t, files, k) <= capacity
  {
    var n := CacheIsLongestRecentFit(trace, files, capacity);
    var t := Cacheable(trace, files, capacity);
    RecentKeys(t, files);
    if k in t {
      var p := LastAccessPosition(t, files, k);
      FitsFromPosition(Recent(t, files), capacity, n, k, p);
    } else {
      SuffixKey(Recent(t, files), n, k);
    }
  }

  lemma {:induction false} FitsFromPosition(r: Entries, capacity: int, n: nat, k: string, p: nat)
    requires Distinct(r) && LongestFit(r, capacity, n)
    requires HasKey(r, k) && IndexOf(r, k) == p && p < |r|
    ensures HasKey(r[n..], k) <==> Total(r[p..]) <= capacity
  {
    SuffixKey(r, n, k);
    if n <= p {
      SuffixTotals(r, n, p);
    } else {
      SuffixTotals(r, p, n - 1);
    }
  }

  lemma {:induction false} AllCacheable(trace: seq<string>, files: Files, capacity: int)
    requires Stored(trace, files) && forall k :: k in trace ==> |files[k]| <= capacity
    ensures Cacheable(trace, files, capacity) == trace
    decreases |trace|
  {
    if trace != [] {
      var before := trace[..|trace| - 1];
      AllCacheable(before, files, capacity);
      assert trace == before + [trace[|trace| - 1]];
    }
  }

  /** Inclusion: on the same trace, a larger cache holds everything a smaller one holds, in the same order, so it
      never loses a hit. */
  lemma {:induction false} LargerCacheIncludesSmaller(trace: seq<string>, files: Files, small: int, large: int)
      returns (m: nat)
    requires Stored(trace, files) && small <= large
    requires forall k :: k in trace ==> |files[k]| <= small
    ensures var s, l := AccessAll([], small, files, trace), AccessAll([], large, files, trace);
      && m <= |l| && s == l[m..]
      && forall k :: HasKey(s, k) ==> HasKey(l, k)
  {
    AllCacheable(trace, files, small);
    AllCacheable(trace, files, large);
    var i := CacheIsLongestRecentFit(trace, files, small);
    var j := CacheIsLongestRecentFit(trace, files, large);
    m := FitsNest(Recent(trace, files), small, large, i, j);
  }

  lemma {:induction false} FitsNest(r: Entries, small: int, large: int, i: nat, j: nat) returns (m: nat)
    requires small <= large && LongestFit(r, small, i) && LongestFit(r, large, j)
    ensures m <= |r[j..]| && r[i..] == r[j..][m..]
    ensures forall k :: HasKey(r[i..], k) ==> HasKey(r[j..], k)
  {
    if i < j {
      SuffixTotals(r, i, j - 1);
    }
    m := i - j;
    DropDrop(r, j, 0, m);
    KeysOfSuffix(r[j..], m);
  }

  lemma {:induction false} KeysOfSuffix(es: Entries, m: nat)
    requires m <= |es|
    ensures forall k :: HasKey(es[m..], k) ==> HasKey(es, k)
  {
    assert forall e :: e in es[m..] ==> e in es;
  }

  // ---- From a warm cache ----

  lemma {:induction false} AccessAllAppend(es: Entries, capacity: int, files: Files, a: seq<string>, b: seq<string>)
    requires Stored(a, files) && Stored(b, files)
    ensures Stored(a + b, files)
    ensures AccessAll(es, capacity, files, a + b)
         == AccessAll(AccessAll(es, capacity, files, a), capacity, files, b)
    decreases |b|
  {
    if b == [] {
      assert a + b == a;
    } else {
      var before := b[..|b| - 1];
      assert (a + b)[..|a + b| - 1] == a + before;
      AccessAllAppend(es, capacity, files, a, before);
    }
  }

  lemma {:induction false} AccessAllKeeps(es: Entries, capacity: int, files: Files, trace: seq<string>)
    requires WithinBudget(es, capacity) && Consistent(es, files) && Stored(trace, files)
    ensures WithinBudget(AccessAll(es, capacity, files, trace), capacity)
    ensures Consistent(AccessAll(es, capacity, files, trace), files)
    decreases |trace|
  {
    if trace != [] {
      var before, k := trace[..|trace| - 1], trace[|trace| - 1];
      AccessAllKeeps(es, capacity, files, before);
      var now := AccessAll(es, capacity, files, before);
      LoadKeepsBudget(now, capacity, k);
      InsertKeepsBudget(now, capacity, k, files[k]);
      ConsistencyKept(now, files, capacity, k);
    }
  }

  function Keys(es: Entries): seq<string> {
    if es == [] then [] else Keys(es[..|es| - 1]) + [es[|es| - 1].key]
  }

  lemma {:induction false} CacheableAppend(a: seq<string>, b: seq<string>, files: Files, capacity: int)
    requires Stored(a, files) && Stored(b, files) && forall k :: k in a ==> |files[k]| <= capacity
    ensures Stored(a + b, files) && Cacheable(a + b, files, capacity) == a + Cacheable(b, files, capacity)
    decreases |b|
  {
    if b == [] {
      assert a + b == a && a + [] == a;
      AllCacheable(a, files, capacity);
    } else {
      var before, k := b[..|b| - 1], b[|b| - 1];
      assert (a + b)[..|a + b| - 1] == a + before;
      CacheableAppend(a, before, files, capacity);
      assert (a + Cacheable(before, files, capacity)) + (if |files[k]| <= capacity then [k] else [])
          == a + (Cacheable(before, files, capacity) + (if |files[k]| <= capacity then [k] else []));
    }
  }

  /** The entries whose keys do not occur in the trace. */
  function Outside(es: Entries, trace: seq<string>): Entries {
    if es == [] then [] else (if es[0].key in trace then [] else [es[0]]) + Outside(es[1..], trace)
  }

  lemma {:induction false} OutsideCons(e: Entry, es: Entries, trace: seq<string>)
    ensures Outside([e] + es, trace) == (if e.key in trace then [] else [e]) + Outside(es, trace)
  {
    assert ([e] + es)[1..] == es;
  }

  /** What was accessed before keeps its order in front of what is accessed later. */
  lemma {:induction false} RecentAppend(a: seq<string>, b: seq<string>, files: Files)
    requires Stored(a, files) && Stored(b, files)
    ensures Stored(a + b, files)
    ensures Recent(a + b, files) == Outside(Recent(a, files), b) + Recent(b, files)
    decreases |a|
  {
    if a == [] {
      assert a + b == b;
    } else {
      var k, tail := a[0], a[1..];
      assert a + b == [k] + (tail + b) && (a + b)[1..] == tail + b;
      RecentAppend(tail, b, files);
      OutsideCons(Entry(k, files[k]), Recent(tail, files), b);
      FrontAssociates(Entry(k, files[k]), Outside(Recent(tail, files), b), Recent(b, files));
    }
  }

  lemma {:induction false} FrontAssociates(e: Entry, x: Entries, y: Entries)
    ensures [e] + (x + y) == ([e] + x) + y && [] + x == x
  {
  }

  lemma {:induction false} RecentOfKeys(es: Entries, files: Files)
    requires Distinct(es) && Consistent(es, files)
    ensures Stored(Keys(es), files) && Recent(Keys(es), files) == es
    ensures forall k :: k in Keys(es) <==> HasKey(es, k)
    decreases |es|
  {
    if es != [] {
      var before, e := es[..|es| - 1], es[|es| - 1];
      assert es == before + [e] && e in es;
      assert forall x :: x in before ==> x in es;
      RecentOfKeys(before, files);
      RecentAccess(Keys(before), files, e.key);
      assert !HasKey(before, e.key);
    }
  }

  lemma {:induction false} EntryFits(es: Entries, e: Entry)
    requires e in es
    ensures |e.data| <= Total(es)
    decreases |es|
  {
    if e != es[0] {
      EntryFits(es[1..], e);
    }
  }

  lemma {:induction false} WholeFits(es: Entries, capacity: int)
    requires WithinBudget(es, capacity)
    ensures LongestFit(es, capacity, 0)
  {
    assert es[0..] == es;
  }

  lemma {:induction false} LongestFitUnique(es: Entries, capacity: int, n: nat, m: nat)
    requires LongestFit(es, capacity, n) && LongestFit(es, capacity, m)
    ensures n == m
  {
    if n < m {
      SuffixTotals(es, n, m - 1);
    } else if m < n {
      SuffixTotals(es, m, n - 1);
    }
  }

  lemma {:induction false} KeysFit(es: Entries, capacity: int, files: Files)
    requires WithinBudget(es, capacity) && Consistent(es, files)
    ensures Stored(Keys(es), files) && forall k :: k in Keys(es) ==> |files[k]| <= capacity
  {
    RecentOfKeys(es, files);
    forall k | k in Keys(es) ensures |files[k]| <= capacity {
      var e :| e in es && e.key == k;
      EntryFits(es, e);
    }
  }

  /** Accessing the entries of a cache in their order builds that cache. */
  lemma {:induction false} Replay(es: Entries, capacity: int, files: Files)
    requires WithinBudget(es, capacity) && Consistent(es, files)
    ensures Stored(Keys(es), files) && AccessAll([], capacity, files, Keys(es)) == es
  {
    RecentOfKeys(es, files);
    KeysFit(es, capacity, files);
    AllCacheable(Keys(es), files, capacity);
    var n := CacheIsLongestRecentFit(Keys(es), files, capacity);
    WholeFits(es, capacity);
    LongestFitUnique(es, capacity, n, 0);
    assert es[0..] == es;
  }

  /** The stack theorem from any cache within its budget: what it held stands before what is accessed, in the order it
      had, except for what is accessed again. */
  lemma {:induction false} WarmCache(es: Entries, trace: seq<string>, files: Files, capacity: int) returns (n: nat)
    requires WithinBudget(es, capacity) && Consistent(es, files) && Stored(trace, files)
    ensures var t := Cacheable(trace, files, capacity);
      var order := Outside(es, t) + Recent(t, files);
      LongestFit(order, capacity, n) && AccessAll(es, capacity, files, trace) == order[n..]
  {
    Replay(es, capacity, files);
    RecentOfKeys(es, files);
    KeysFit(es, capacity, files);
    var ks := Keys(es);
    AccessAllAppend([], capacity, files, ks, trace);
    CacheableAppend(ks, trace, files, capacity);
    RecentAppend(ks, Cacheable(trace, files, capacity), files);
    n := CacheIsLongestRecentFit(ks + trace, files, capacity);
  }

  predicate EndsWith(es: Entries, tail: Entries) {
    |tail| <= |es| && es[|es| - |tail|..] == tail
  }

  /** The cache already is what accesses with this order of recency leave: they are its most recent entries, in that
      order, or they alone fill it with exactly what it holds. */
  predicate Settled(es: Entries, recent: Entries, capacity: int) {
    || EndsWith(es, recent)
    || (EndsWith(recent, es) && |es| < |recent| && LongestFit(recent, capacity, |recent| - |es|))
  }

  /** Accesses leave a cache as it is exactly when it is settled for them. */
  lemma {:induction false} AccessesChangeNothing(es: Entries, trace: seq<string>, files: Files, capacity: int)
    requires WithinBudget(es, capacity) && Consistent(es, files) && Stored(trace, files)
    ensures AccessAll(es, capacity, files, trace) == es
       <==> Settled(es, Recent(Cacheable(trace, files, capacity), files), capacity)
  {
    var t := Cacheable(trace, files, capacity);
    var x, d := Outside(es, t), Recent(t, files);
    var n := WarmCache(es, trace, files, capacity);
    RecentKeys(t, files);
    if EndsWith(es, d) {
      OutsideOfSuffix(es, d, t);
    }
    SettledFits(es, x, d, capacity, n);
    if (x + d)[n..] == es {
      FitsSettled(es, x, d, capacity, n);
    }
  }

  lemma {:induction false} SettledFits(es: Entries, x: Entries, d: Entries, capacity: int, n: nat)
    requires WithinBudget(es, capacity) && LongestFit(x + d, capacity, n)
    requires EndsWith(es, d) ==> x + d == es
    ensures Settled(es, d, capacity) ==> (x + d)[n..] == es
  {
    if EndsWith(es, d) {
      WholeFits(es, capacity);
      LongestFitUnique(es, capacity, n, 0);
      assert es[0..] == es;
    } else if Settled(es, d, capacity) {
      var m := |d| - |es|;
      BehindFront(x, d, m);
      LongestFitUnique(x + d, capacity, n, |x| + m);
    }
  }

  lemma {:induction false} FitsSettled(es: Entries, x: Entries, d: Entries, capacity: int, n: nat)
    requires LongestFit(x + d, capacity, n) && (x + d)[n..] == es
    ensures Settled(es, d, capacity)
  {
    if n <= |x| {
      SuffixThroughFront(x, d, n);
    } else {
      BehindFront(x, d, n - |x|);
    }
  }

  lemma {:induction false} BehindFront(x: Entries, d: Entries, m: nat)
    requires 0 < m <= |d|
    ensures (x + d)[|x| + m..] == d[m..] && (x + d)[|x| + m - 1..] == d[m - 1..]
  {
  }

  lemma {:induction false} SuffixThroughFront(x: Entries, d: Entries, n: nat)
    requires n <= |x|
    ensures EndsWith((x + d)[n..], d)
  {
  }

  lemma {:induction false} OutsideOfFront(p: Entries, d: Entries, t: seq<string>)
    requires Distinct(p + d) && forall k :: HasKey(d, k) <==> k in t
    ensures Outside(p + d, t) == p
    decreases |p|
  {
    if p == [] {
      assert p + d == d;
      OutsideNothing(d, t);
    } else {
      var e, rest := p[0], p[1..];
      assert p + d == [e] + (rest + d) && p == [e] + rest;
      NoOther(e, rest + d);
      assert forall y :: y in d ==> y in rest + d;
      OutsideOfFront(rest, d, t);
      OutsideCons(e, rest + d, t);
    }
  }

  lemma {:induction false} OutsideOfSuffix(es: Entries, d: Entries, t: seq<string>)
    requires Distinct(es) && EndsWith(es, d) && forall k :: HasKey(d, k) <==> k in t
    ensures Outside(es, t) + d == es
  {
    var p := es[..|es| - |d|];
    assert es == p + d;
    OutsideOfFront(p, d, t);
  }

  lemma {:induction false} OutsideNothing(es: Entries, t: seq<string>)
    requires forall e :: e in es ==> e.key in t
    ensures Outside(es, t) == []
    decreases |es|
  {
    if es != [] {
      OutsideNothing(es[1..], t);
    }
  }

  // ---- Inclusion, exactly ----

  /** The entries that could fit. */
  function Fitting(es: Entries, capacity: int): Entries {
    if es == [] then [] else (if |es[0].data| <= capacity then [es[0]] else []) + Fitting(es[1..], capacity)
  }

  lemma {:induction false} FittingCons(e: Entry, es: Entries, capacity: int)
    ensures Fitting([e] + es, capacity) == (if |e.data| <= capacity then [e] else []) + Fitting(es, capacity)
  {
    assert ([e] + es)[1..] == es;
  }

  lemma {:induction false} FittingAppend(a: Entries, b: Entries, capacity: int)
    ensures Fitting(a + b, capacity) == Fitting(a, capacity) + Fitting(b, capacity)
    decreases |a|
  {
    if a == [] {
      assert a + b == b;
    } else {
      var e, es := a[0], a[1..];
      assert a == [e] + es && a + b == [e] + (es + b);
      FittingAppend(es, b, capacity);
      FittingCons(e, es, capacity);
      FittingCons(e, es + b, capacity);
    }
  }

  lemma {:induction false} FittingMembers(es: Entries, capacity: int)
    ensures forall e :: e in Fitting(es, capacity) <==> e in es && |e.data| <= capacity
    decreases |es|
  {
    if es != [] {
      FittingMembers(es[1..], capacity);
      assert es == [es[0]] + es[1..];
    }
  }

  lemma {:induction false} FittingKeys(es: Entries, capacity: int)
    requires Distinct(es)
    ensures Distinct(Fitting(es, capacity))
    ensures forall k :: HasKey(Fitting(es, capacity), k) ==> HasKey(es, k)
    decreases |es|
  {
    FittingMembers(es, capacity);
    if es != [] {
      var e, rest := es[0], es[1..];
      assert es == [e] + rest;
      NoOther(e, rest);
      FittingKeys(rest, capacity);
      DistinctCons(e, Fitting(rest, capacity));
      assert [] + Fitting(rest, capacity) == Fitting(rest, capacity);
    }
  }

  lemma {:induction false} FittingWithout(es: Entries, k: string, capacity: int)
    requires Distinct(es)
    ensures Fitting(Without(es, k), capacity) == Without(Fitting(es, capacity), k)
    decreases |es|
  {
    if es != [] {
      var e, rest := es[0], es[1..];
      assert es == [e] + rest;
      NoOther(e, rest);
      WithoutCons(e, rest, k);
      FittingCons(e, rest, capacity);
      FittingKeys(rest, capacity);
      WithoutCons(e, Fitting(rest, capacity), k);
      assert [] + Fitting(rest, capacity) == Fitting(rest, capacity);
      if e.key != k {
        FittingWithout(rest, k, capacity);
        FittingCons(e, Without(rest, k), capacity);
        assert [] + Fitting(Without(rest, k), capacity) == Fitting(Without(rest, k), capacity);
      }
    }
  }

  lemma {:induction false} NoOther(e: Entry, rest: Entries)
    requires Distinct([e] + rest)
    ensures !HasKey(rest, e.key) && Distinct(rest)
  {
    var es := [e] + rest;
    forall i | 0 <= i < |rest| ensures rest[i].key != e.key {
      assert es[0] == e && es[i + 1] == rest[i];
    }
    forall i, j | 0 <= i < j < |rest| ensures rest[i].key != rest[j].key {
      assert es[i + 1] == rest[i] && es[j + 1] == rest[j];
    }
  }

  lemma {:induction false} DistinctCons(e: Entry, rest: Entries)
    requires Distinct(rest)
    ensures !HasKey(rest, e.key) ==> Distinct([e] + rest)
  {
    if !HasKey(rest, e.key) {
      var es := [e] + rest;
      assert forall i :: 0 < i < |es| ==> es[i] == rest[i - 1] && es[i] in rest;
    }
  }

  /** A smaller cache sees the recency order of a larger one with the files too large for it struck out. */
  lemma {:induction false} SmallerOrder(trace: seq<string>, files: Files, small: int, large: int)
    requires Stored(trace, files) && small <= large
    ensures Recent(Cacheable(trace, files, small), files)
         == Fitting(Recent(Cacheable(trace, files, large), files), small)
    decreases |trace|
  {
    if trace != [] {
      var before, k := trace[..|trace| - 1], trace[|trace| - 1];
      SmallerOrder(before, files, small, large);
      OrderStep(Cacheable(before, files, small), Cacheable(before, files, large), files, small, large, k);
    }
  }

  lemma {:induction false} OrderStep(s: seq<string>, l: seq<string>, files: Files, small: int, large: int, k: string)
    requires Stored(s, files) && Stored(l, files) && k in files && small <= large
    requires Recent(s, files) == Fitting(Recent(l, files), small)
    ensures var s' := s + if |files[k]| <= small then [k] else [];
      var l' := l + if |files[k]| <= large then [k] else [];
      Stored(s', files) && Stored(l', files) && Recent(s', files) == Fitting(Recent(l', files), small)
  {
    assert s + [] == s && l + [] == l;
    if |files[k]| <= large {
      RecentAccess(l, files, k);
      RecentKeys(l, files);
      FittingAccess(Recent(l, files), files, small, k);
    }
    if |files[k]| <= small {
      RecentAccess(s, files, k);
    }
  }

  lemma {:induction false} FittingAccess(es: Entries, files: Files, small: int, k: string)
    requires Distinct(es) && Consistent(es, files) && k in files
    ensures var e, es' := Entry(k, files[k]), Without(es, k) + [Entry(k, files[k])];
      Fitting(es', small) == if |files[k]| <= small then Without(Fitting(es, small), k) + [e] else Fitting(es, small)
  {
    var e := Entry(k, files[k]);
    FittingWithout(es, k, small);
    FittingAppend(Without(es, k), [e], small);
    assert Fitting([e], small) == if |files[k]| <= small then [e] else [];
    if |files[k]| > small {
      NeverFitting(es, files, small, k);
      assert Fitting(es, small) + [] == Fitting(es, small);
    }
  }

  lemma {:induction false} NeverFitting(es: Entries, files: Files, small: int, k: string)
    requires Consistent(es, files) && k in files && |files[k]| > small
    ensures Without(Fitting(es, small), k) == Fitting(es, small)
  {
    FittingMembers(es, small);
    assert !HasKey(Fitting(es, small), k);
  }

  lemma {:induction false} MoreCacheable(trace: seq<string>, files: Files, small: int, large: int)
    requires Stored(trace, files) && small <= large
    ensures forall k :: k in Cacheable(trace, files, small) ==> k in Cacheable(trace, files, large)
  {
    if trace != [] {
      MoreCacheable(trace[..|trace| - 1], files, small, large);
    }
  }

  /** The larger cache holds everything the smaller one holds exactly when every file that survives in the smaller one
      is within the capacity of the larger one by its reuse distance there, where files too large for the smaller
      cache count too. */
  lemma {:induction false} InclusionExactly(trace: seq<string>, files: Files, small: int, large: int)
    requires Stored(trace, files) && small <= large
    ensures var s, l := Cacheable(trace, files, small), Cacheable(trace, files, large);
      (forall k :: HasKey(AccessAll([], small, files, trace), k) ==> HasKey(AccessAll([], large, files, trace), k))
      <==> (forall k :: k in s && ReuseDistance(s, files, k) <= small ==>
              k in l && ReuseDistance(l, files, k) <= large)
  {
    MoreCacheable(trace, files, small, large);
    var s, l := Cacheable(trace, files, small), Cacheable(trace, files, large);
    forall k ensures HasKey(AccessAll([], small, files, trace), k) <==> k in s && ReuseDistance(s, files, k) <= small {
      HitByReuseDistance(trace, files, small, k);
    }
    forall k ensures HasKey(AccessAll([], large, files, trace), k) <==> k in l && ReuseDistance(l, files, k) <= large {
      HitByReuseDistance(trace, files, large, k);
    }
  }

  /** It is enough to look at the least recent file of the smaller cache. */
  lemma {:induction false} InclusionByLeastRecent(trace: seq<string>, files: Files, small: int, large: int)
    requires Stored(trace, files) && small <= large
    ensures var s, t := AccessAll([], small, files, trace), Cacheable(trace, files, large);
      (forall k :: HasKey(s, k) ==> HasKey(AccessAll([], large, files, trace), k))
      <==> s == [] || (s[0].key in t && ReuseDistance(t, files, s[0].key) <= large)
  {
    var n := CacheIsLongestRecentFit(trace, files, small);
    var m := CacheIsLongestRecentFit(trace, files, large);
    SmallerOrder(trace, files, small, large);
    var r := Recent(Cacheable(trace, files, large), files);
    RecentKeys(Cacheable(trace, files, large), files);
    var s := Fitting(r, small)[n..];
    if s != [] {
      HitByReuseDistance(trace, files, large, s[0].key);
      FirstSurvivorDecides(r, small, n, m);
    }
  }

  lemma {:induction false} FirstSurvivorDecides(r: Entries, small: int, n: nat, m: nat)
    requires Distinct(r) && n < |Fitting(r, small)| && m <= |r|
    ensures var s := Fitting(r, small)[n..];
      (forall k :: HasKey(s, k) ==> HasKey(r[m..], k)) <==> HasKey(r[m..], s[0].key)
  {
    var e := Fitting(r, small)[n];
    var p := FittingSuffix(r, small, n);
    var s := Fitting(r, small)[n..];
    assert s[0] == e && e in s;
    if HasKey(r[m..], e.key) {
      KeyAt(r, p);
      SuffixKey(r, m, e.key);
      forall k | HasKey(s, k) ensures HasKey(r[m..], k) {
        FittingMembers(r[p..], small);
        var x :| x in s && x.key == k;
        assert x in r[p..];
        assert r[p..] == r[m..][p - m..];
        assert x in r[m..];
      }
    }
  }

  lemma {:induction false} KeyAt(r: Entries, p: nat)
    requires Distinct(r) && p < |r|
    ensures HasKey(r, r[p].key) && IndexOf(r, r[p].key) == p
  {
    assert r[p] in r;
  }

  /** A suffix of what fits is what fits of a suffix that starts with its first entry. */
  lemma {:induction false} FittingSuffix(r: Entries, small: int, n: nat) returns (p: nat)
    requires n < |Fitting(r, small)|
    ensures p < |r| && r[p] == Fitting(r, small)[n] && Fitting(r, small)[n..] == Fitting(r[p..], small)
    decreases |r|
  {
    var e, rest := r[0], r[1..];
    assert r == [e] + rest;
    FittingCons(e, rest, small);
    if |e.data| <= small && n == 0 {
      p := 0;
      assert r[0..] == r;
    } else {
      var drop := if |e.data| <= small then 1 else 0;
      var q := FittingSuffix(rest, small, n - drop);
      p := q + 1;
      assert r[p..] == rest[q..];
      assert Fitting(r, small)[n..] == Fitting(rest, small)[n - drop..];
    }
  }

  /** The size bound is needed: a file that fits only the larger cache drives an older one out of it alone. */
  lemma {:induction false} InclusionFailsForOversizedFiles(a: string, b: string, files: Files, small: int, large: int)
    requires a != b && a in files && b in files
    requires |files[a]| <= small < |files[b]| <= large < |files[a]| + |files[b]|
    ensures HasKey(AccessAll([], small, files, [a, b]), a)
    ensures !HasKey(AccessAll([], large, files, [a, b]), a)
  {
    var trace := [a, b];
    assert trace[..1] == [a] && [a][..0] == [];
    var e := Entry(a, files[a]);
    TotalOne(e);
    assert Evict([], small, |files[a]|) == [] && Evict([], large, |files[a]|) == [];
    assert AccessAll([], small, files, [a]) == [e];
    assert AccessAll([], large, files, [a]) == [e];
    assert e in [e];
    assert Evict([e], large, |files[b]|) == Evict([e][1..], large, |files[b]|) == [];
    assert AccessAll([], large, files, trace) == [Entry(b, files[b])];
  }
}
