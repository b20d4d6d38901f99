/** The LRU byte cache of src/core/cache.cc: a hash map and a doubly linked list between two dummy nodes. Each public
    operation is one atomic step. */
module Caching {
  import opened Strings
  import opened Lru

  class CacheNode {
    const identifier: string
    const data: string
    var prev: CacheNode?
    var next: CacheNode?

    constructor (identifier: string, data: string)
      ensures this.identifier == identifier && this.data == data
    {
      this.identifier, this.data := identifier, data;
      prev, next := null, null;
    }
  }

  /** `next` leads from each node of the chain to the following one and `prev` back; no node comes twice. */
  ghost predicate Linked(c: seq<CacheNode>)
    reads c
  {
    && (forall i, j :: 0 <= i < j < |c| ==> c[i] != c[j])
    && (forall i :: 0 <= i < |c| - 1 ==> c[i].next == c[i + 1])
    && (forall i :: 0 < i < |c| ==> c[i].prev == c[i - 1])
  }

  /** The same for the nodes of `repr`, node after node from position `i`: this is what the invariant of the cache says,
      so that its users need not see the links. */
  ghost predicate ListFrom(c: seq<CacheNode>, i: nat, repr: set<object>)
    reads repr
    decreases |c| - i
  {
    i < |c| ==>
      && c[i] in repr
      && (i + 1 < |c| ==>
           && c[i + 1] in repr && c[i] !in c[i + 1..]
           && c[i].next == c[i + 1] && c[i + 1].prev == c[i]
           && ListFrom(c, i + 1, repr))
  }

  lemma {:induction false} ListFromMeans(c: seq<CacheNode>, i: nat, repr: set<object>)
    ensures ListFrom(c, i, repr) <==>
      && (forall k :: i <= k < |c| ==> c[k] in repr)
      && (forall j, k :: i <= j < k < |c| ==> c[j] != c[k])
      && (forall k :: i <= k < |c| - 1 ==> c[k].next == c[k + 1])
      && (forall k :: i < k < |c| ==> c[k].prev == c[k - 1])
    decreases |c| - i
  {
    if i + 1 < |c| {
      ListFromMeans(c, i + 1, repr);
      assert c[i] !in c[i + 1..] <==> forall k :: i < k < |c| ==> c[i] != c[k];
    }
  }

  lemma {:induction false} ListIsLinked(c: seq<CacheNode>, repr: set<object>)
    ensures ListFrom(c, 0, repr) <==> (forall n :: n in c ==> n in repr) && Linked(c)
  {
    ListFromMeans(c, 0, repr);
  }

  /** The map holds exactly these nodes, each under its own identifier. */
  ghost predicate MappedBy(ns: seq<CacheNode>, m: map<string, CacheNode>) {
    && (forall n :: n in ns ==> n.identifier in m && m[n.identifier] == n)
    && (forall k :: k in m ==> m[k] in ns && m[k].identifier == k)
  }

  ghost function EntriesOf(ns: seq<CacheNode>): (es: Entries)
    ensures |es| == |ns| && forall i :: 0 <= i < |ns| ==> es[i] == Entry(ns[i].identifier, ns[i].data)
  {
    seq(|ns|, i requires 0 <= i < |ns| => Entry(ns[i].identifier, ns[i].data))
  }

  class Cache {
    const capacity: int
    const header: CacheNode
    const tailer: CacheNode
    var mapping: map<string, CacheNode>
    var currentSize: int
    /** The nodes between the dummies, in list order. */
    ghost var nodes: seq<CacheNode>
    ghost var Repr: set<object>

    ghost function Chain(): seq<CacheNode>
      reads this
    {
      [header] + nodes + [tailer]
    }

    /** The list: properly linked, and made of objects this cache owns. */
    ghost predicate ListValid()
      reads this, Repr
    {
      this in Repr && (forall n :: n in Chain() ==> n in Repr) && Linked(Chain())
    }

    /** The abstract value: the entries in recency order. */
    ghost function Entries(): Entries
      reads this
    {
      EntriesOf(nodes)
    }

    ghost predicate Mapped()
      reads this
    {
      MappedBy(nodes, mapping)
    }

    ghost predicate Valid()
      reads this, Repr
    {
      && this in Repr && ListFrom(Chain(), 0, Repr)
      && Mapped()
      && currentSize == Total(Entries())
      && WithinBudget(Entries(), capacity)
    }

    constructor (capacity: int)
      ensures Valid() && fresh(Repr)
      ensures this.capacity == capacity && Entries() == []
    {
      this.capacity := capacity;
      var h := new CacheNode("", "");
      var t := new CacheNode("", "");
      header, tailer := h, t;
      mapping, currentSize := map[], 0;
      nodes := [];
      Repr := {this, h, t};
      new;
      tailer.prev := header;
      header.next := tailer;
      ListIsLinked(Chain(), Repr);
    }

    /** The ends of the list, as the dummies see them. */
    lemma {:induction false} ChainEnds(ns: seq<CacheNode>)
      requires ns == nodes && ListValid()
      ensures header != tailer
      ensures header.next == (if ns == [] then tailer else ns[0]) && (ns != [] ==> ns[0] != tailer)
      ensures forall i, j :: 0 <= i < j < |ns| ==> ns[i] != ns[j]
    {
      var c := Chain();
      assert c[0] == header && c[|c| - 1] == tailer && c[1] == header.next;
      assert forall i :: 0 <= i < |ns| ==> c[i + 1] == ns[i];
    }

    method RemoveFromList(node: CacheNode, ghost i: nat)
      requires ListValid()
      requires i < |nodes| && node == nodes[i]
      modifies Repr
      ensures ListValid() && nodes == RemoveAt(old(nodes), i) && Repr == old(Repr)
      ensures mapping == old(mapping) && currentSize == old(currentSize)
    {
      ghost var c := Chain();
      assert c[i + 1] == node;
      var pre, nxt := node.prev, node.next;
      assert pre == c[i] && nxt == c[i + 2];
      pre.next := nxt;
      nxt.prev := pre;
      nodes := RemoveAt(nodes, i);
      ChainWithout(c, i + 1);
      assert Chain() == RemoveAt(c, i + 1);
    }

    method AppendToEndOfList(node: CacheNode)
      requires ListValid() && node !in Chain()
      modifies Repr, node
      ensures ListValid() && nodes == old(nodes) + [node] && Repr == old(Repr) + {node}
      ensures mapping == old(mapping) && currentSize == old(currentSize)
    {
      ghost var c, m := Chain(), |nodes|;
      assert c[m + 1] == tailer;
      var last := tailer.prev;
      assert last == c[m];
      node.prev := last;
      node.next := tailer;
      last.next := node;
      tailer.prev := node;
      nodes := nodes + [node];
      Repr := Repr + {node};
      assert Chain() == c[..m + 1] + [node, tailer];
    }

    /** Relinking a node behind all others, as a hit does. */
    method MoveToMostRecent(node: CacheNode, ghost i: nat)
      requires ListValid()
      requires i < |nodes| && node == nodes[i]
      modifies Repr
      ensures ListValid() && nodes == MoveToEnd(old(nodes), i) && Repr == old(Repr)
      ensures mapping == old(mapping) && currentSize == old(currentSize)
    {
      ghost var c := Chain();
      RemoveFromList(node, i);
      RemovedIsGone(c, i + 1);
      assert Chain() == RemoveAt(c, i + 1);
      AppendToEndOfList(node);
    }

    /** A hit appends the stored bytes to the destination and makes the entry the most recent one; a miss changes
        nothing. */
    method TryLoad(identifier: string, destination: string) returns (found: bool, filled: string)
      requires Valid()
      modifies Repr
      ensures Valid() && fresh(Repr - old(Repr))
      ensures found == HasKey(old(Entries()), identifier)
      ensures filled == if found
                        then destination + old(Entries()[IndexOf(Entries(), identifier)].data) else destination
      ensures Entries() == Load(old(Entries()), identifier)
    {
      ListIsLinked(Chain(), Repr);
      FoundIffMapped(nodes, mapping, identifier);
      if identifier in mapping {
        ghost var i := IndexOf(Entries(), identifier);
        var node := mapping[identifier];
        filled := destination + node.data;
        HitKeepsValid(nodes, mapping, capacity, identifier);
        MoveToMostRecent(node, i);
        ListIsLinked(Chain(), Repr);
        return true, filled;
      }
      return false, destination;
    }

    method EvitOne()
      requires ListValid() && Mapped() && nodes != []
      requires currentSize == Total(Entries())
      modifies Repr
      ensures nodes == old(nodes[1..]) && ListValid() && Mapped() && Repr == old(Repr)
      ensures currentSize == Total(Entries())
    {
      ghost var ns := nodes;
      ChainEnds(ns);
      FirstRemoved(ns, mapping);
      var first := header.next;
      var node := mapping[first.identifier];
      RemoveFromList(node, 0);
      Unmap(first);
    }

    /** What a node that has left the list takes with it. */
    method Unmap(node: CacheNode)
      requires ListValid()
      modifies `mapping, `currentSize
      ensures ListValid() && nodes == old(nodes) && Repr == old(Repr)
      ensures mapping == old(mapping) - {node.identifier}
      ensures currentSize == old(currentSize) - |node.data|
    {
      mapping := mapping - {node.identifier};
      currentSize := currentSize - |node.data|;
    }

    /** Inserts unless the key is present or the data can never fit, after evicting from the least recent end as long
        as there is too little room. */
    method TryInsert(identifier: string, source: string) returns (inserted: bool)
      requires Valid()
      modifies Repr
      ensures Valid() && fresh(Repr - old(Repr))
      ensures inserted == Admits(old(Entries()), capacity, identifier, source)
      ensures Entries() == Insert(old(Entries()), capacity, identifier, source)
    {
      ghost var es := Entries();
      ListIsLinked(Chain(), Repr);
      FoundIffMapped(nodes, mapping, identifier);
      if identifier in mapping {
        return false;
      }
      var needed := |source|;
      if needed > capacity {
        return false;
      }
      while capacity - currentSize < needed && mapping != map[]
        invariant ListValid() && Mapped() && identifier !in mapping
        invariant currentSize == Total(Entries())
        invariant Evict(Entries(), capacity, needed) == Evict(es, capacity, needed)
        invariant Repr == old(Repr)
        decreases |nodes|
      {
        assert nodes != [];
        assert Entries()[1..] == EntriesOf(nodes[1..]);
        EvitOne();
      }
      MappedEmpty();
      assert Entries() == Evict(es, capacity, needed);
      InsertKeepsBudget(es, capacity, identifier, source);
      AddNewest(identifier, source);
      ListIsLinked(Chain(), Repr);
      return true;
    }

    lemma {:induction false} MappedEmpty()
      requires Mapped()
      ensures mapping == map[] <==> nodes == []
    {
      if nodes != [] {
        assert nodes[0] in nodes && nodes[0].identifier in mapping;
      }
      if mapping != map[] {
        var k :| k in mapping;
        assert mapping[k] in nodes;
      }
    }

    method AddNewest(identifier: string, source: string)
      requires ListValid() && Mapped() && identifier !in mapping && currentSize == Total(Entries())
      modifies Repr
      ensures ListValid() && Mapped() && currentSize == Total(Entries())
      ensures Entries() == old(Entries()) + [Entry(identifier, source)]
      ensures fresh(Repr - old(Repr))
    {
      ghost var ns := nodes;
      var node := new CacheNode(identifier, source);
      AppendToEndOfList(node);
      currentSize := currentSize + |source|;
      mapping := mapping[identifier := node];
      TotalAppend(EntriesOf(ns), [Entry(identifier, source)]);
      TotalOne(Entry(identifier, source));
      assert Entries() == EntriesOf(ns) + [Entry(identifier, source)];
    }

    method Clear()
      requires Valid()
      modifies Repr
      ensures Valid() && fresh(Repr - old(Repr))
      ensures Entries() == []
    {
      ListIsLinked(Chain(), Repr);
      ChainEnds(nodes);
      tailer.prev := header;
      header.next := tailer;
      mapping := map[];
      currentSize := 0;
      nodes := [];
      ListIsLinked(Chain(), Repr);
    }
  }

  lemma {:induction false} ChainWithout(c: seq<CacheNode>, i: nat)
    requires 0 < i < |c| - 1
    ensures var c' := RemoveAt(c, i);
      && |c'| == |c| - 1
      && forall j :: 0 <= j < |c'| ==> c'[j] == c[if j < i then j else j + 1]
  {
  }

  lemma {:induction false} FoundIffMapped(ns: seq<CacheNode>, m: map<string, CacheNode>, k: string)
    requires MappedBy(ns, m)
    ensures k in m <==> HasKey(EntriesOf(ns), k)
    ensures k in m ==> m[k] == ns[IndexOf(EntriesOf(ns), k)]
  {
    var es := EntriesOf(ns);
    if k in m {
      var i :| 0 <= i < |ns| && ns[i] == m[k];
      assert es[i].key == k;
    }
    if HasKey(es, k) {
      assert ns[IndexOf(es, k)].identifier == k;
    }
  }

  /** Moving the node of a key behind all others is the load of that key, and disturbs neither the map nor the
      budget. */
  lemma {:induction false} HitKeepsValid(ns: seq<CacheNode>, m: map<string, CacheNode>, capacity: int, k: string)
    requires MappedBy(ns, m) && k in m && WithinBudget(EntriesOf(ns), capacity)
    ensures HasKey(EntriesOf(ns), k)
    ensures var i := IndexOf(EntriesOf(ns), k);
      && EntriesOf(MoveToEnd(ns, i)) == Load(EntriesOf(ns), k)
      && Total(EntriesOf(MoveToEnd(ns, i))) == Total(EntriesOf(ns))
      && WithinBudget(EntriesOf(MoveToEnd(ns, i)), capacity)
      && MappedBy(MoveToEnd(ns, i), m)
  {
    FoundIffMapped(ns, m, k);
    var i := IndexOf(EntriesOf(ns), k);
    EntriesMove(ns, i);
    LoadKeepsBudget(EntriesOf(ns), capacity, k);
    TotalRemoveAt(EntriesOf(ns), i);
    SameMembers(ns, i);
  }

  lemma {:induction false} EntriesMove(ns: seq<CacheNode>, i: nat)
    requires i < |ns|
    ensures EntriesOf(MoveToEnd(ns, i)) == MoveToEnd(EntriesOf(ns), i)
  {
  }

  lemma {:induction false} SameMembers<T>(s: seq<T>, i: nat)
    requires i < |s|
    ensures forall x :: x in MoveToEnd(s, i) <==> x in s
  {
    MoveReorders(s, i);
    assert forall x :: x in MoveToEnd(s, i) <==> x in multiset(MoveToEnd(s, i));
  }

  lemma {:induction false} RemovedIsGone(c: seq<CacheNode>, i: nat)
    requires i < |c| && forall j, k :: 0 <= j < k < |c| ==> c[j] != c[k]
    ensures c[i] !in RemoveAt(c, i)
  {
  }

  /** The map of the other nodes, once the first one is gone. */
  lemma {:induction false} UnmapFirst(n: CacheNode, rest: seq<CacheNode>, m: map<string, CacheNode>)
    requires MappedBy([n] + rest, m) && n !in rest
    ensures n.identifier in m && m[n.identifier] == n
    ensures MappedBy(rest, m - {n.identifier})
  {
    var ns, others := [n] + rest, m - {n.identifier};
    assert n in ns && n.identifier in m && m[n.identifier] == n;
    forall x | x in rest ensures x.identifier in others && others[x.identifier] == x {
      assert x in ns && x != n;
      assert m[x.identifier] == x;
    }
    forall k | k in others ensures others[k] in rest && others[k].identifier == k {
      assert m[k] in ns && m[k].identifier == k;
    }
  }

  lemma {:induction false} FirstEntry(n: CacheNode, rest: seq<CacheNode>)
    ensures EntriesOf([n] + rest) == [Entry(n.identifier, n.data)] + EntriesOf(rest)
    ensures Total(EntriesOf([n] + rest)) == |n.data| + Total(EntriesOf(rest))
  {
    var es := EntriesOf(rest);
    assert EntriesOf([n] + rest) == [Entry(n.identifier, n.data)] + es;
    TotalAppend([Entry(n.identifier, n.data)], es);
    TotalOne(Entry(n.identifier, n.data));
  }

  lemma {:induction false} FirstOf<T>(ns: seq<T>) returns (n: T, rest: seq<T>)
    requires ns != [] && forall i, j :: 0 <= i < j < |ns| ==> ns[i] != ns[j]
    ensures ns == [n] + rest && n == ns[0] && n !in rest && rest == ns[1..] && rest == RemoveAt(ns, 0)
  {
    n, rest := ns[0], ns[1..];
  }

  lemma {:induction false} FirstRemoved(ns: seq<CacheNode>, m: map<string, CacheNode>)
    requires ns != [] && MappedBy(ns, m)
    requires forall i, j :: 0 <= i < j < |ns| ==> ns[i] != ns[j]
    ensures RemoveAt(ns, 0) == ns[1..]
    ensures ns[0].identifier in m && m[ns[0].identifier] == ns[0]
    ensures MappedBy(ns[1..], m - {ns[0].identifier})
    ensures Total(EntriesOf(ns)) == |ns[0].data| + Total(EntriesOf(ns[1..]))
  {
    var n, rest := FirstOf(ns);
    UnmapFirst(n, rest, m);
    FirstEntry(n, rest);
  }
}
