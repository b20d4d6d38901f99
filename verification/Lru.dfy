/** The byte cache of src/core/cache.cc as a sequence of entries, least recently used first, and what least-recently
    used replacement means for it. */
module Lru {
  import opened Strings

  datatype Entry = Entry(key: string, data: string)

  type Entries = seq<Entry>

  function Total(es: Entries): nat {
    if es == [] then 0 else |es[0].data| + Total(es[1..])
  }

  predicate Distinct(es: Entries) {
    forall i, j :: 0 <= i < j < |es| ==> es[i].key != es[j].key
  }

  predicate HasKey(es: Entries, k: string) {
    exists e :: e in es && e.key == k
  }

  function IndexOf(es: Entries, k: string): (i: nat)
    requires HasKey(es, k)
    ensures i < |es| && es[i].key == k
    ensures forall j :: 0 <= j < i ==> es[j].key != k
  {
    if es[0].key == k then 0 else 1 + IndexOf(es[1..], k)
  }

  function RemoveAt<T>(s: seq<T>, i: nat): seq<T>
    requires i < |s|
  {
    s[..i] + s[i + 1..]
  }

  function MoveToEnd<T>(s: seq<T>, i: nat): seq<T>
    requires i < |s|
  {
    RemoveAt(s, i) + [s[i]]
  }

  function Without(es: Entries, k: string): Entries {
    if HasKey(es, k) then RemoveAt(es, IndexOf(es, k)) else es
  }

  /** A hit moves the entry to the most recent end. */
  function Load(es: Entries, k: string): Entries {
    if HasKey(es, k) then MoveToEnd(es, IndexOf(es, k)) else es
  }

  /** Entries go from the least recent end until `need` bytes are free or nothing is left. */
  function Evict(es: Entries, capacity: int, need: int): Entries {
    if capacity - Total(es) < need && es != [] then Evict(es[1..], capacity, need) else es
  }

  predicate Admits(es: Entries, capacity: int, k: string, data: string) {
    !HasKey(es, k) && |data| <= capacity
  }

  function Insert(es: Entries, capacity: int, k: string, data: string): Entries {
    if Admits(es, capacity, k, data) then Evict(es, capacity, |data|) + [Entry(k, data)] else es
  }

  /** One key once, and within the byte budget (a cache of negative capacity stays empty). */
  predicate WithinBudget(es: Entries, capacity: int) {
    Distinct(es) && (es == [] || Total(es) <= capacity)
  }

  // ---- Sizes ----

  lemma {:induction false} TotalAppend(a: Entries, b: Entries)
    ensures Total(a + b) == Total(a) + Total(b)
    decreases |a|
  {
    if a == [] {
      assert a + b == b;
    } else {
      TotalAppend(a[1..], b);
      assert (a + b)[1..] == a[1..] + b;
    }
  }

  lemma {:induction false} TotalOne(e: Entry)
    ensures Total([e]) == |e.data|
  {
    assert Total([]) == 0;
  }

  lemma {:induction false} TotalSuffix(es: Entries, n: nat)
    requires n <= |es|
    ensures Total(es[n..]) <= Total(es)
    ensures n > 0 ==> Total(es[n - 1..]) == |es[n - 1].data| + Total(es[n..])
  {
    assert es == es[..n] + es[n..];
    TotalAppend(es[..n], es[n..]);
    if n > 0 {
      assert es[n - 1..][1..] == es[n..];
    }
  }

  lemma {:induction false} TotalRemoveAt(es: Entries, i: nat)
    requires i < |es|
    ensures Total(es) == Total(RemoveAt(es, i)) + |es[i].data|
    ensures Total(MoveToEnd(es, i)) == Total(es)
  {
    TotalSuffix(es, i + 1);
    TotalAppend(es[..i], es[i..]);
    TotalAppend(es[..i], es[i + 1..]);
    assert es == es[..i] + es[i..];
    TotalAppend(RemoveAt(es, i), [es[i]]);
    TotalOne(es[i]);
  }

  // ---- Eviction is minimal ----

  /** Eviction removes the shortest prefix, in recency order, that makes room: survivors keep their order, they leave
      `need` bytes free, and with one more survivor they would not. */
  lemma {:induction false} EvictionMinimal(es: Entries, capacity: int, need: nat) returns (n: nat)
    requires need <= capacity
    ensures n <= |es| && Evict(es, capacity, need) == es[n..]
    ensures Total(es[n..]) + need <= capacity
    ensures forall m :: 0 <= m < n ==> Total(es[m..]) + need > capacity
  {
    if capacity - Total(es) < need && es != [] {
      n := EvictionMinimal(es[1..], capacity, need);
      forall m | 0 <= m < n + 1 ensures Total(es[m..]) + need > capacity {
        if m == 0 {
          assert es[0..] == es;
        } else {
          assert es[m..] == es[1..][m - 1..];
        }
      }
      assert es[1..][n..] == es[n + 1..];
      n := n + 1;
    } else {
      n := 0;
      assert es[0..] == es;
    }
  }

  lemma {:induction false} MoveReorders<T>(s: seq<T>, i: nat)
    requires i < |s|
    ensures multiset(MoveToEnd(s, i)) == multiset(s)
  {
    assert s == s[..i] + [s[i]] + s[i + 1..];
  }

  lemma {:induction false} RemoveKeepsDistinct(es: Entries, i: nat)
    requires Distinct(es) && i < |es|
    ensures Distinct(RemoveAt(es, i)) && Distinct(MoveToEnd(es, i))
  {
    var rest := RemoveAt(es, i);
    assert forall j :: 0 <= j < |rest| ==> rest[j] == es[if j < i then j else j + 1];
  }

  /** A load only reorders, so the budget is kept. */
  lemma {:induction false} LoadKeepsBudget(es: Entries, capacity: int, k: string)
    requires WithinBudget(es, capacity)
    ensures WithinBudget(Load(es, k), capacity)
    ensures multiset(Load(es, k)) == multiset(es)
  {
    if HasKey(es, k) {
      var i := IndexOf(es, k);
      RemoveKeepsDistinct(es, i);
      MoveReorders(es, i);
      TotalRemoveAt(es, i);
    }
  }

  lemma {:induction false} NewestKeepsDistinct(es: Entries, n: nat, e: Entry)
    requires Distinct(es) && !HasKey(es, e.key) && n <= |es|
    ensures Distinct(es[n..] + [e])
  {
    var r := es[n..] + [e];
    assert forall i :: 0 <= i < |r| - 1 ==> r[i] == es[n + i] && es[n + i] in es;
  }

  lemma {:induction false} InsertKeepsBudget(es: Entries, capacity: int, k: string, data: string)
    requires WithinBudget(es, capacity)
    ensures WithinBudget(Insert(es, capacity, k, data), capacity)
  {
    if Admits(es, capacity, k, data) {
      var n := EvictionMinimal(es, capacity, |data|);
      NewestKeepsDistinct(es, n, Entry(k, data));
      TotalAppend(es[n..], [Entry(k, data)]);
      TotalOne(Entry(k, data));
    }
  }

  /** A duplicate or data that can never fit changes nothing; otherwise the new entry is the most recent one, behind a
      suffix of the old ones. */
  lemma {:induction false} InsertAddsNewest(es: Entries, capacity: int, k: string, data: string)
    ensures HasKey(es, k) || |data| > capacity ==> Insert(es, capacity, k, data) == es
    ensures !HasKey(es, k) && |data| <= capacity ==> var r := Insert(es, capacity, k, data);
      1 <= |r| <= |es| + 1 && r == es[|es| + 1 - |r|..] + [Entry(k, data)]
  {
    if Admits(es, capacity, k, data) {
      var n := EvictionMinimal(es, capacity, |data|);
    }
  }

  // ---- Contents ----

  /** Every stored entry is the file stored under its key. */
  predicate Consistent(es: Entries, files: map<string, string>) {
    forall e :: e in es ==> e.key in files && files[e.key] == e.data
  }

  lemma {:induction false} ConsistencyKept(es: Entries, files: map<string, string>, capacity: int, k: string)
    requires Consistent(es, files)
    ensures Consistent(Load(es, k), files)
    ensures k in files ==> Consistent(Insert(es, capacity, k, files[k]), files)
  {
    if k in files && Admits(es, capacity, k, files[k]) {
      var n := EvictionMinimal(es, capacity, |files[k]|);
    }
  }
}
