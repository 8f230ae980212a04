/** Reference counts, the flush list and the closure properties of the trie node cache, stated
    on values. */
module CacheSpec {

  import opened Common

  /** A hash is only ever compared and used as a key. Zero is the meta root, which stands for
      references from outside. */
  type Hash = nat

  const META: Hash := 0

  /** What is stored for a node: the hashes it refers to, in order, and its encoded length. */
  datatype Blob = Blob(kids: seq<Hash>, len: nat)

  /** A cached node. `children` counts references made by the `Reference` call, on top of those
      in the node itself. */
  datatype CachedNode = CachedNode(blob: Blob, size: nat, parents: nat, children: map<Hash, nat>,
                                   flushPrev: Hash, flushNext: Hash)

  type Nodes = map<Hash, CachedNode>

  type Disk = map<Hash, Blob>

  // ----- References

  predicate Child(n: CachedNode, c: Hash) {
    c in n.blob.kids || c in n.children
  }

  /** Number of references from one node to `c`. */
  function Refs(n: CachedNode, c: Hash): (r: nat) {
    multiset(n.blob.kids)[c] + if c in n.children then n.children[c] else 0
  }

  /** Number of references to `c` from all given nodes. */
  ghost function Total(nodes: Nodes, c: Hash): (r: nat)
    decreases |nodes|
  {
    if nodes == map[] then 0 else
      var k :| k in nodes;
      Refs(nodes[k], c) + Total(nodes - {k}, c)
  }

  lemma {:induction false} TotalSplit(nodes: Nodes, k: Hash, c: Hash)
    requires k in nodes
    ensures Total(nodes, c) == Refs(nodes[k], c) + Total(nodes - {k}, c)
    decreases |nodes|
  {
    var p :| p in nodes && Total(nodes, c) == Refs(nodes[p], c) + Total(nodes - {p}, c);
    if p != k {
      TotalSplit(nodes - {p}, k, c);
      TotalSplit(nodes - {k}, p, c);
      assert nodes - {p} - {k} == nodes - {k} - {p};
    }
  }

  /** Totals depend on the references of the nodes alone. */
  lemma {:induction false} TotalSame(a: Nodes, b: Nodes, c: Hash)
    requires a.Keys == b.Keys && forall k :: k in a ==> Refs(a[k], c) == Refs(b[k], c)
    ensures Total(a, c) == Total(b, c)
    decreases |a|
  {
    hide Total, Refs;
    if a == map[] {
      assert b == map[];
    } else {
      var k :| k in a;
      TotalSplit(a, k, c);
      TotalSplit(b, k, c);
      TotalSame(a - {k}, b - {k}, c);
    }
  }

  lemma TotalUpdate(nodes: Nodes, k: Hash, n: CachedNode, c: Hash)
    requires k in nodes
    ensures Total(nodes[k := n], c) + Refs(nodes[k], c) == Total(nodes, c) + Refs(n, c)
  {
    TotalSplit(nodes, k, c);
    TotalSplit(nodes[k := n], k, c);
    assert nodes[k := n] - {k} == nodes - {k};
  }

  lemma TotalAdd(nodes: Nodes, k: Hash, n: CachedNode, c: Hash)
    requires k !in nodes
    ensures Total(nodes[k := n], c) == Total(nodes, c) + Refs(n, c)
  {
    TotalSplit(nodes[k := n], k, c);
    assert nodes[k := n] - {k} == nodes;
  }

  /** What no node refers to has no references in total. */
  lemma {:induction false} TotalZero(nodes: Nodes, c: Hash)
    requires forall k :: k in nodes ==> Refs(nodes[k], c) == 0
    ensures Total(nodes, c) == 0
    decreases |nodes|
  {
    if nodes != map[] {
      var k :| k in nodes;
      TotalSplit(nodes, k, c);
      TotalZero(nodes - {k}, c);
    }
  }

  // ----- Sizes

  const HASH_LENGTH: nat := 32

  /** What the cache holds in bytes: a hash and the encoded node for each entry. */
  ghost function TrueBulk(nodes: Nodes): (r: nat)
    decreases |nodes|
  {
    if nodes == map[] then 0 else
      var k :| k in nodes;
      HASH_LENGTH + nodes[k].blob.len + TrueBulk(nodes - {k})
  }

  lemma {:induction false} TrueBulkSplit(nodes: Nodes, k: Hash)
    requires k in nodes
    ensures TrueBulk(nodes) == HASH_LENGTH + nodes[k].blob.len + TrueBulk(nodes - {k})
    decreases |nodes|
  {
    var p :| p in nodes && TrueBulk(nodes) == HASH_LENGTH + nodes[p].blob.len + TrueBulk(nodes - {p});
    if p != k {
      TrueBulkSplit(nodes - {p}, k);
      TrueBulkSplit(nodes - {k}, p);
      assert nodes - {p} - {k} == nodes - {k} - {p};
    }
  }

  /** With sizes kept in 16 bits, the sizes add up to the true lengths exactly if all lengths fit. */
  lemma {:induction false} BulkIsTrueIff(nodes: Nodes)
    requires forall k :: k in nodes ==> nodes[k].size == nodes[k].blob.len % 0x1_0000
    ensures Bulk(nodes) <= TrueBulk(nodes)
    ensures Bulk(nodes) == TrueBulk(nodes) <==> forall k :: k in nodes ==> nodes[k].blob.len < 0x1_0000
    decreases |nodes|
  {
    hide Bulk, TrueBulk;
    if nodes == map[] {
      NoBulk();
    } else {
      var k :| k in nodes;
      var rest := nodes - {k};
      BulkSplit(nodes, k);
      TrueBulkSplit(nodes, k);
      SizeIsTrueIff(nodes[k].blob.len);
      BulkIsTrueIff(rest);
      assert forall j :: j in nodes <==> j == k || j in rest;
    }
  }

  lemma NoBulk()
    ensures Bulk(map[]) == 0 && TrueBulk(map[]) == 0
  {
  }

  lemma SizeIsTrueIff(len: nat)
    ensures len % 0x1_0000 <= len
    ensures len % 0x1_0000 == len <==> len < 0x1_0000
  {
  }

  ghost function Bulk(nodes: Nodes): (r: nat)
    decreases |nodes|
  {
    if nodes == map[] then 0 else
      var k :| k in nodes;
      HASH_LENGTH + nodes[k].size + Bulk(nodes - {k})
  }

  lemma {:induction false} BulkSplit(nodes: Nodes, k: Hash)
    requires k in nodes
    ensures Bulk(nodes) == HASH_LENGTH + nodes[k].size + Bulk(nodes - {k})
    decreases |nodes|
  {
    var p :| p in nodes && Bulk(nodes) == HASH_LENGTH + nodes[p].size + Bulk(nodes - {p});
    if p != k {
      BulkSplit(nodes - {p}, k);
      BulkSplit(nodes - {k}, p);
      assert nodes - {p} - {k} == nodes - {k} - {p};
    }
  }

  lemma {:induction false} BulkSame(a: Nodes, b: Nodes)
    requires a.Keys == b.Keys && forall k :: k in a ==> a[k].size == b[k].size
    ensures Bulk(a) == Bulk(b)
    decreases |a|
  {
    if a == map[] {
      assert b == map[];
    } else {
      var k :| k in a;
      BulkSplit(a, k);
      BulkSplit(b, k);
      BulkSame(a - {k}, b - {k});
    }
  }

  // ----- The flush list

  /** The links of the nodes thread the sequence `order`, oldest first. The tail link only
      means something while there is a list, and nothing is said about what precedes the head. */
  ghost predicate Links(nodes: Nodes, order: seq<Hash>, oldest: Hash, newest: Hash) {
    && (forall i :: 0 <= i < |order| ==> order[i] in nodes && order[i] != META)
    && (forall i :: 0 <= i < |order| - 1 ==> nodes[order[i]].flushNext == order[i + 1])
    && (forall i :: 0 < i < |order| ==> nodes[order[i]].flushPrev == order[i - 1])
    && oldest == (if order == [] then META else order[0])
    && (order != [] ==> newest == order[|order| - 1] && nodes[newest].flushNext == META)
  }

  /** The list holds each cached node once, in the order of insertion. */
  ghost predicate Threaded(nodes: Nodes, order: seq<Hash>, ages: map<Hash, nat>) {
    && (forall k :: k in nodes <==> k == META || k in order)
    && (forall k :: k in order ==> k in ages)
    && (forall i, j :: 0 <= i < j < |order| ==> ages[order[i]] < ages[order[j]])
  }

  function Without(s: seq<Hash>, i: nat): (r: seq<Hash>)
    requires i < |s|
  {
    s[..i] + s[i + 1..]
  }

  /** Two caches that differ in flush links at most. */
  ghost predicate SameButLinks(a: Nodes, b: Nodes) {
    && a.Keys == b.Keys
    && forall k :: k in a ==> b[k] == a[k].(flushPrev := b[k].flushPrev, flushNext := b[k].flushNext)
  }

  /** `after` has the links around position `i` redirected past it. */
  ghost predicate Bypassed(nodes: Nodes, after: Nodes, order: seq<Hash>, i: nat)
    requires i < |order| && forall j :: 0 <= j < |order| ==> order[j] in nodes
  {
    && (forall j :: 0 <= j < |order| && j != i ==> order[j] in after)
    && (forall j :: 0 <= j < |order| && j != i ==>
          after[order[j]].flushNext == if j == i - 1 then nodes[order[i]].flushNext else nodes[order[j]].flushNext)
    && (forall j :: 0 < j < |order| && j != i && j != i + 1 ==>
          after[order[j]].flushPrev == nodes[order[j]].flushPrev)
    && (0 < i < |order| - 1 ==> after[order[i + 1]].flushPrev == order[i - 1])
  }

  /** Forward links after a bypass. */
  lemma NextBypassed(nodes: Nodes, after: Nodes, order: seq<Hash>, i: nat, oldest: Hash, newest: Hash, j: nat)
    requires i < |order| && Links(nodes, order, oldest, newest)
    requires Bypassed(nodes, after, order, i)
    requires j + 1 < |Without(order, i)|
    ensures Without(order, i)[j] in after && after[Without(order, i)[j]].flushNext == Without(order, i)[j + 1]
  {
    var rest := Without(order, i);
    assert rest[j] == order[if j < i then j else j + 1] && rest[j + 1] == order[if j + 1 < i then j + 1 else j + 2];
  }

  /** Backward links after a bypass. */
  lemma PrevBypassed(nodes: Nodes, after: Nodes, order: seq<Hash>, i: nat, oldest: Hash, newest: Hash, j: nat)
    requires i < |order| && Links(nodes, order, oldest, newest)
    requires Bypassed(nodes, after, order, i)
    requires 0 < j < |Without(order, i)|
    ensures Without(order, i)[j] in after && after[Without(order, i)[j]].flushPrev == Without(order, i)[j - 1]
  {
    var rest := Without(order, i);
    assert rest[j] == order[if j < i then j else j + 1] && rest[j - 1] == order[if j - 1 < i then j - 1 else j];
  }

  lemma EndsBypassed(nodes: Nodes, after: Nodes, order: seq<Hash>, i: nat, oldest: Hash, newest: Hash, head: Hash,
                     tail: Hash)
    requires i < |order| && Links(nodes, order, oldest, newest)
    requires Bypassed(nodes, after, order, i)
    requires head == if i == 0 then nodes[order[0]].flushNext else oldest
    requires 0 < i ==> tail == if i == |order| - 1 then nodes[order[i]].flushPrev else newest
    requires 0 == i ==> tail == newest
    ensures
      var rest := Without(order, i);
      && (forall j :: 0 <= j < |rest| ==> rest[j] in after && rest[j] != META)
      && head == (if rest == [] then META else rest[0])
      && (rest != [] ==> tail == rest[|rest| - 1] && after[tail].flushNext == META)
  {
    var rest := Without(order, i);
    forall j | 0 <= j < |rest| ensures rest[j] in after && rest[j] != META {
      assert rest[j] == order[if j < i then j else j + 1];
    }
  }

  lemma LinksBypassed(nodes: Nodes, after: Nodes, order: seq<Hash>, i: nat, oldest: Hash, newest: Hash, head: Hash,
                      tail: Hash)
    requires i < |order| && Links(nodes, order, oldest, newest)
    requires Bypassed(nodes, after, order, i)
    requires head == if i == 0 then nodes[order[0]].flushNext else oldest
    requires 0 < i ==> tail == if i == |order| - 1 then nodes[order[i]].flushPrev else newest
    requires 0 == i ==> tail == newest
    ensures Links(after, Without(order, i), head, tail)
  {
    var rest := Without(order, i);
    EndsBypassed(nodes, after, order, i, oldest, newest, head, tail);
    forall j | 0 <= j < |rest| - 1 ensures after[rest[j]].flushNext == rest[j + 1] {
      NextBypassed(nodes, after, order, i, oldest, newest, j);
    }
    forall j | 0 < j < |rest| ensures after[rest[j]].flushPrev == rest[j - 1] {
      PrevBypassed(nodes, after, order, i, oldest, newest, j);
    }
    hide Bypassed, Without;
  }

  lemma ThreadedWithout(nodes: Nodes, after: Nodes, order: seq<Hash>, ages: map<Hash, nat>, i: nat)
    requires i < |order| && Threaded(nodes, order, ages) && order[i] != META
    requires after.Keys == nodes.Keys - {order[i]}
    ensures Threaded(after, Without(order, i), ages)
  {
    var rest := Without(order, i);
    SortedWithout(order, ages, i, rest);
    forall k ensures k in rest <==> k in order && k != order[i] {
      if k in order {
        var j :| 0 <= j < |order| && order[j] == k;
      }
    }
  }

  lemma SortedWithout(order: seq<Hash>, ages: map<Hash, nat>, i: nat, rest: seq<Hash>)
    requires i < |order| && |rest| == |order| - 1
    requires forall k :: k in order ==> k in ages
    requires forall j, k :: 0 <= j < k < |order| ==> ages[order[j]] < ages[order[k]]
    requires forall j {:trigger rest[j]} :: 0 <= j < |rest| ==> rest[j] == if j < i then order[j] else order[j + 1]
    ensures forall k :: k in rest ==> k in ages
    ensures forall j, k :: 0 <= j < k < |rest| ==> ages[rest[j]] < ages[rest[k]]
    ensures order[i] !in rest
  {
  }

  /** Changing links of other nodes than those that are neighbours of position `i`. */
  ghost predicate Redirected(nodes: Nodes, after: Nodes, prev: Hash, next: Hash, n: CachedNode) {
    && SameButLinks(nodes, after)
    && (forall k :: k in nodes && k != prev ==> after[k].flushNext == nodes[k].flushNext)
    && (forall k :: k in nodes && k != next ==> after[k].flushPrev == nodes[k].flushPrev)
    && (prev in nodes && prev != META ==> after[prev].flushNext == n.flushNext)
    && (next in nodes && next != META && prev != META ==> after[next].flushPrev == prev)
  }

  lemma RedirectedBypass(nodes: Nodes, after: Nodes, dying: set<Hash>, order: seq<Hash>, i: nat, prev: Hash, next: Hash,
                         oldest: Hash, newest: Hash, ages: map<Hash, nat>)
    requires i < |order| && Links(nodes - dying, order, oldest, newest) && Threaded(nodes - dying, order, ages)
    requires Redirected(nodes, after, prev, next, nodes[order[i]])
    requires prev == if i == 0 then META else order[i - 1]
    requires next == if i + 1 == |order| then META else order[i + 1]
    ensures Bypassed(nodes - dying, after - dying - {order[i]}, order, i)
  {
    var live := nodes - dying;
    var rest := after - dying - {order[i]};
    assert forall j, k :: 0 <= j < |order| && 0 <= k < |order| && j != k ==> order[j] != order[k];
    assert forall j :: 0 <= j < |order| ==> live[order[j]] == nodes[order[j]];
    assert forall j :: 0 <= j < |order| && j != i ==> order[j] in rest && rest[order[j]] == after[order[j]];
  }

  /** The nodes, head and tail after the three-way switch that takes a node off the list. */
  function Unlinked(nodes: Nodes, oldest: Hash, newest: Hash, h: Hash): (r: (Nodes, Hash, Hash))
    requires h in nodes && nodes[h].flushNext in nodes
    requires h != oldest ==> nodes[h].flushPrev in nodes
  {
    var n := nodes[h];
    if h == oldest then
      (nodes[n.flushNext := nodes[n.flushNext].(flushPrev := META)], n.flushNext, newest)
    else if h == newest then
      (nodes[n.flushPrev := nodes[n.flushPrev].(flushNext := META)], oldest, n.flushPrev)
    else
      var a := nodes[n.flushPrev := nodes[n.flushPrev].(flushNext := n.flushNext)];
      (a[n.flushNext := a[n.flushNext].(flushPrev := n.flushPrev)], oldest, newest)
  }

  /** Where the links of the node at position `i` lead. */
  lemma Neighbours(nodes: Nodes, dying: set<Hash>, order: seq<Hash>, i: nat, oldest: Hash, newest: Hash,
                   ages: map<Hash, nat>)
    requires i < |order| && META in nodes
    requires Links(nodes - dying, order, oldest, newest) && Threaded(nodes - dying, order, ages)
    ensures order[i] in nodes
    ensures order[i] == oldest <==> i == 0
    ensures order[i] == newest <==> i == |order| - 1
    ensures i > 0 ==> order[i - 1] in nodes && nodes[order[i]].flushPrev == order[i - 1] != META
    ensures nodes[order[i]].flushNext == if i + 1 < |order| then order[i + 1] else META
    ensures nodes[order[i]].flushNext in nodes
    ensures i + 1 < |order| ==> order[i + 1] != META
    ensures 0 < i < |order| - 1 ==> order[i - 1] != order[i + 1]
  {
  }

  /** Taking the node at position `i` off the list. */
  lemma UnlinkedOk(nodes: Nodes, dying: set<Hash>, order: seq<Hash>, i: nat, oldest: Hash, newest: Hash,
                   ages: map<Hash, nat>)
    requires i < |order| && META in nodes
    requires Links(nodes - dying, order, oldest, newest) && Threaded(nodes - dying, order, ages)
    ensures order[i] in nodes && nodes[order[i]].flushNext in nodes
    ensures order[i] != oldest ==> nodes[order[i]].flushPrev in nodes
    ensures var r := Unlinked(nodes, oldest, newest, order[i]);
            && SameButLinks(nodes, r.0)
            && Links(r.0 - dying - {order[i]}, Without(order, i), r.1, r.2)
            && Threaded(r.0 - dying - {order[i]}, Without(order, i), ages)
  {
    Neighbours(nodes, dying, order, i, oldest, newest, ages);
    var h, after := order[i], Unlinked(nodes, oldest, newest, order[i]).0;
    var prev := if i == 0 then META else order[i - 1];
    UnlinkedRedirects(nodes, oldest, newest, h, prev);
    Relinked(nodes, after, dying, order, i, prev, nodes[h].flushNext, oldest, newest, ages);
  }

  lemma UnlinkedRedirects(nodes: Nodes, oldest: Hash, newest: Hash, h: Hash, prev: Hash)
    requires h in nodes && nodes[h].flushNext in nodes
    requires h == oldest ==> prev == META
    requires h != oldest ==> nodes[h].flushPrev == prev && prev in nodes && prev != META
    requires h == newest ==> nodes[h].flushNext == META
    requires prev != META ==> prev != nodes[h].flushNext
    ensures Redirected(nodes, Unlinked(nodes, oldest, newest, h).0, prev, nodes[h].flushNext, nodes[h])
  {
  }

  lemma Relinked(nodes: Nodes, after: Nodes, dying: set<Hash>, order: seq<Hash>, i: nat, prev: Hash, next: Hash,
                 oldest: Hash, newest: Hash, ages: map<Hash, nat>)
    requires i < |order| && Links(nodes - dying, order, oldest, newest) && Threaded(nodes - dying, order, ages)
    requires Redirected(nodes, after, prev, next, nodes[order[i]])
    requires prev == if i == 0 then META else order[i - 1]
    requires next == if i + 1 == |order| then META else order[i + 1]
    ensures Links(after - dying - {order[i]}, Without(order, i), if i == 0 then next else oldest,
                  if 0 < i == |order| - 1 then prev else newest)
    ensures Threaded(after - dying - {order[i]}, Without(order, i), ages)
  {
    var h := order[i];
    RedirectedBypass(nodes, after, dying, order, i, prev, next, oldest, newest, ages);
    LinksBypassed(nodes - dying, after - dying - {h}, order, i, oldest, newest,
                  if i == 0 then next else oldest, if 0 < i == |order| - 1 then prev else newest);
    assert (after - dying - {h}).Keys == (nodes - dying).Keys - {h};
    ThreadedWithout(nodes - dying, after - dying - {h}, order, ages, i);
  }

  // ----- Children, ages and counts

  type Content = Hash -> Blob

  type Height = Hash -> nat

  /** Every child of a cached node is on disk or cached, and in the latter case older. */
  ghost predicate Linked(live: Nodes, ages: map<Hash, nat>, disk: set<Hash>) {
    forall p, c :: p in live && Child(live[p], c) ==>
      c in disk || (c in live && (p != META ==> p in ages && c in ages && ages[c] < ages[p]))
  }

  /** What is cached under a hash is what has that hash, so references are acyclic. Nodes refer
      to another node through `Reference` once at most, the meta root any number of times. */
  ghost predicate Shaped(live: Nodes, content: Content, height: Height) {
    && META in live
    && live[META].blob.kids == []
    && (forall p, c :: p in live && c in live[p].children ==> live[p].children[c] >= 1)
    && (forall p, c :: p in live && p != META && c in live[p].children ==> live[p].children[c] == 1)
    && (forall p, c {:trigger Child(live[p], c)} :: p in live && Child(live[p], c) ==>
          c != META && (p != META ==> height(c) < height(p)))
    && (forall p :: p in live && p != META ==> live[p].blob == content(p) && live[p].size == content(p).len % 0x1_0000)
  }

  /** The parent counter of a node that is not on disk counts the references to it, and those
      owed by nodes that are being removed. */
  ghost predicate Exact(live: Nodes, disk: set<Hash>, owed: multiset<Hash>) {
    forall c :: c in live && c != META && c !in disk ==> live[c].parents == Total(live, c) + owed[c]
  }

  /** A store holds with every node its children, and those recorded by `Reference` when the
      node was written. */
  ghost predicate StoreClosed(store: set<Hash>, ext: set<(Hash, Hash)>, content: Content) {
    && (forall h, c :: h in store && c in content(h).kids ==> c in store)
    && (forall h, c :: (h, c) in ext ==> c in store)
  }

  lemma ChildHasRefs(live: Nodes, content: Content, height: Height, p: Hash, c: Hash)
    requires Shaped(live, content, height) && p in live
    ensures Child(live[p], c) <==> Refs(live[p], c) > 0
  {
  }

  /** Two caches that hold the same nodes with the same references. */
  ghost predicate SameBodies(a: Nodes, b: Nodes) {
    && a.Keys == b.Keys
    && forall k :: k in a ==> b[k].blob == a[k].blob && b[k].children == a[k].children && b[k].size == a[k].size
  }

  lemma SameLinked(a: Nodes, b: Nodes, ages: map<Hash, nat>, disk: set<Hash>)
    requires SameBodies(a, b) && Linked(a, ages, disk)
    ensures Linked(b, ages, disk)
  {
    assert forall p, c :: p in b && Child(b[p], c) ==> p in a && Child(a[p], c);
  }

  lemma SameShaped(a: Nodes, b: Nodes, content: Content, height: Height)
    requires SameBodies(a, b) && Shaped(a, content, height)
    ensures Shaped(b, content, height)
  {
    assert forall p, c :: p in b && Child(b[p], c) ==> p in a && Child(a[p], c);
  }

  lemma SameTotal(a: Nodes, b: Nodes, c: Hash)
    requires SameBodies(a, b)
    ensures Total(a, c) == Total(b, c)
  {
    assert forall k :: k in a ==> Refs(a[k], c) == Refs(b[k], c);
    TotalSame(a, b, c);
  }

  /** Parent counters and owed references may change together. */
  lemma SameExact(a: Nodes, b: Nodes, disk: set<Hash>, owed: multiset<Hash>, due: multiset<Hash>)
    requires SameBodies(a, b) && Exact(a, disk, owed)
    requires forall c :: c in a && c != META && c !in disk ==> b[c].parents + owed[c] == a[c].parents + due[c]
    ensures Exact(b, disk, due)
  {
    forall c | c in b && c != META && c !in disk ensures b[c].parents == Total(b, c) + due[c] {
      SameTotal(a, b, c);
    }
  }

  /** A node that is on disk or has no references left can go. */
  lemma RemovedLinked(live: Nodes, h: Hash, ages: map<Hash, nat>, disk: set<Hash>, owed: multiset<Hash>,
                      content: Content, height: Height)
    requires Linked(live, ages, disk) && Shaped(live, content, height) && Exact(live, disk, owed)
    requires h in live && h != META
    requires h in disk || live[h].parents == 0
    ensures Linked(live - {h}, ages, disk)
  {
    var rest := live - {h};
    forall p, c | p in rest && Child(rest[p], c)
      ensures c in disk || (c in rest && (p != META ==> p in ages && c in ages && ages[c] < ages[p]))
    {
      assert rest[p] == live[p] && Child(live[p], c);
      if c == h && h !in disk {
        TotalSplit(live, p, h);
        ChildHasRefs(live, content, height, p, h);
      }
    }
  }

  lemma RemovedShaped(live: Nodes, h: Hash, content: Content, height: Height)
    requires Shaped(live, content, height) && h != META
    ensures Shaped(live - {h}, content, height)
  {
  }

  /** The references of a node that goes are owed from then on. */
  lemma RemovedExact(live: Nodes, h: Hash, disk: set<Hash>, owed: multiset<Hash>, more: multiset<Hash>)
    requires Exact(live, disk, owed) && h in live
    requires forall c :: c in live && c !in disk ==> more[c] == Refs(live[h], c)
    ensures Exact(live - {h}, disk, owed + more)
  {
    var rest := live - {h};
    forall c | c in rest && c != META && c !in disk ensures rest[c].parents == Total(rest, c) + (owed + more)[c] {
      TotalSplit(live, h, c);
    }
  }

  /** A reference from `p` to `c` disappears, and is owed. */
  lemma EdgeDropped(live: Nodes, p: Hash, n: CachedNode, child: Hash, disk: set<Hash>, owed: multiset<Hash>)
    requires Exact(live, disk, owed) && p in live && n == live[p].(children := n.children)
    requires forall c :: Refs(live[p], c) == Refs(n, c) + if c == child then 1 else 0
    ensures Exact(live[p := n], disk, owed + multiset{child})
  {
    forall c | c in live ensures Total(live[p := n], c) + (if c == child then 1 else 0) == Total(live, c) {
      TotalUpdate(live, p, n, c);
    }
  }

  /** A reference from `p` to `c` appears that was counted before. */
  lemma EdgeAdded(live: Nodes, p: Hash, n: CachedNode, child: Hash, disk: set<Hash>, owed: multiset<Hash>)
    requires Exact(live, disk, owed + multiset{child}) && p in live && n == live[p].(children := n.children)
    requires forall c :: Refs(n, c) == Refs(live[p], c) + if c == child then 1 else 0
    ensures Exact(live[p := n], disk, owed)
  {
    forall c | c in live ensures Total(live[p := n], c) == Total(live, c) + if c == child then 1 else 0 {
      TotalUpdate(live, p, n, c);
    }
  }

  // ----- The cache as a whole

  ghost predicate Cached(live: Nodes, order: seq<Hash>, oldest: Hash, newest: Hash, ages: map<Hash, nat>,
                         disk: set<Hash>,
                         owed: multiset<Hash>, content: Content, height: Height)
  {
    && Links(live, order, oldest, newest)
    && Threaded(live, order, ages)
    && Linked(live, ages, disk)
    && Shaped(live, content, height)
    && Exact(live, disk, owed)
  }

  /** Taking a node out of the cache that is on disk or has no references. */
  lemma Detached(nodes: Nodes, dying: set<Hash>, order: seq<Hash>, i: nat, oldest: Hash, newest: Hash, ages: map<Hash,
                 nat>,
                 disk: set<Hash>, owed: multiset<Hash>, more: multiset<Hash>, content: Content, height: Height)
    requires i < |order| && META in nodes
    requires Cached(nodes - dying, order, oldest, newest, ages, disk, owed, content, height)
    requires order[i] in nodes && (order[i] in disk || nodes[order[i]].parents == 0)
    requires forall c :: c in nodes - dying && c !in disk ==> more[c] == Refs(nodes[order[i]], c)
    ensures nodes[order[i]].flushNext in nodes
    ensures order[i] != oldest ==> nodes[order[i]].flushPrev in nodes
    ensures var r := Unlinked(nodes, oldest, newest, order[i]);
            && SameButLinks(nodes, r.0)
            && Cached(r.0 - (dying + {order[i]}), Without(order, i), r.1, r.2, ages, disk, owed + more, content, height)
  {
    var h := order[i];
    UnlinkedOk(nodes, dying, order, i, oldest, newest, ages);
    var after := Unlinked(nodes, oldest, newest, h).0;
    assert (nodes - dying)[h] == nodes[h];
    CountsWithout(nodes - dying, after - dying, h, ages, disk, owed, more, content, height);
    assert after - (dying + {h}) == after - dying - {h};
  }

  lemma CountsWithout(live: Nodes, after: Nodes, h: Hash, ages: map<Hash, nat>, disk: set<Hash>, owed: multiset<Hash>,
                      more: multiset<Hash>, content: Content, height: Height)
    requires SameButLinks(live, after)
    requires Linked(live, ages, disk) && Shaped(live, content, height) && Exact(live, disk, owed)
    requires h in live && h != META && (h in disk || live[h].parents == 0)
    requires forall c :: c in live && c !in disk ==> more[c] == Refs(live[h], c)
    ensures Linked(after - {h}, ages, disk) && Shaped(after - {h}, content, height) &&
      Exact(after - {h}, disk, owed + more)
  {
    SameLinked(live, after, ages, disk);
    SameShaped(live, after, content, height);
    SameExact(live, after, disk, owed, owed);
    RemovedLinked(after, h, ages, disk, owed, content, height);
    RemovedShaped(after, h, content, height);
    RemovedExact(after, h, disk, owed, more);
  }

  ghost predicate SameBlobs(before: Nodes, after: Nodes) {
    after.Keys == before.Keys && forall k :: k in after ==>
      after[k].blob == before[k].blob && after[k].size == before[k].size
  }

  /** What a cascade of removals may do: nodes stay what they are, and none is left behind that
      has just lost its last reference. */
  ghost predicate Shrunk(before: Nodes, after: Nodes, dying: set<Hash>) {
    && after.Keys <= before.Keys
    && (forall k :: k in before && k in dying ==> k in after)
    && (forall k :: k in after ==> after[k].blob == before[k].blob && after[k].size == before[k].size)
    && (forall k :: k in after && k != META && k !in dying && after[k].parents == 0 ==> before[k].parents == 0)
    && (forall k :: k in after ==> after[k].parents <= before[k].parents)
    && (forall k :: k in after && k != META && k !in dying ==> after[k].children == before[k].children)
    && (forall k :: k in after ==> after[k].children.Keys <= before[k].children.Keys)
  }

  /** A node has one reference less, and stays exactly if it has others. */
  ghost predicate OneLess(before: Nodes, after: Nodes, h: Hash)
    requires h in before
  {
    (h in after <==> before[h].parents > 1) && (h in after ==> after[h].parents == before[h].parents - 1)
  }

  /** There is a way down from one cached node to another. */
  ghost predicate Reaches(nodes: Nodes, h: Hash, k: Hash) {
    exists path :: Descent(nodes, path) && path[0] == h && path[|path| - 1] == k
  }

  /** Only what lies below the given nodes has gone. */
  ghost predicate GoneBelow(before: Nodes, after: Nodes, tops: seq<Hash>) {
    forall k :: k in before && k !in after ==> exists i :: 0 <= i < |tops| && Reaches(before, tops[i], k)
  }

  lemma ReachesSelf(nodes: Nodes, h: Hash)
    requires h in nodes
    ensures Reaches(nodes, h, h)
  {
    assert Descent(nodes, [h]);
  }

  lemma ReachesFrom(nodes: Nodes, h: Hash, c: Hash, k: Hash)
    requires h in nodes && Child(nodes[h], c) && Reaches(nodes, c, k)
    ensures Reaches(nodes, h, k)
  {
    var path :| Descent(nodes, path) && path[0] == c && path[|path| - 1] == k;
    var longer := [h] + path;
    forall i | 0 <= i < |longer| - 1 ensures Child(nodes[longer[i]], longer[i + 1]) {
      if i > 0 {
        assert longer[i] == path[i - 1] && longer[i + 1] == path[i];
      }
    }
    assert Descent(nodes, longer);
  }

  /** A way down that is there now was there before anything was taken away. */
  lemma ReachedBefore(before: Nodes, after: Nodes, h: Hash, k: Hash)
    requires after.Keys <= before.Keys && Reaches(after, h, k)
    requires forall j :: j in after ==>
      after[j].blob == before[j].blob && after[j].children.Keys <= before[j].children.Keys
    ensures Reaches(before, h, k)
  {
    var path :| Descent(after, path) && path[0] == h && path[|path| - 1] == k;
    forall i | 0 <= i < |path| - 1 ensures Child(before[path[i]], path[i + 1]) {
      assert Child(after[path[i]], path[i + 1]);
    }
    assert Descent(before, path);
  }

  lemma GoneMore(a: Nodes, b: Nodes, c: Nodes, dying: set<Hash>, tops: seq<Hash>, i: nat)
    requires Shrunk(a, b, dying) && GoneBelow(a, b, tops) && i < |tops| && GoneBelow(b, c, [tops[i]])
    ensures GoneBelow(a, c, tops)
  {
    forall k | k in a && k !in c ensures exists j :: 0 <= j < |tops| && Reaches(a, tops[j], k) {
      if k in b {
        assert Reaches(b, tops[i], k);
        ReachedBefore(a, b, tops[i], k);
      }
    }
  }

  lemma GoneNone(a: Nodes, tops: seq<Hash>)
    ensures GoneBelow(a, a, tops)
  {
  }

  /** Dropping an edge and a count first makes no difference to what lies below. */
  lemma GoneAfterDrop(a: Nodes, b: Nodes, c: Nodes, child: Hash)
    requires b.Keys == a.Keys && GoneBelow(b, c, [child])
    requires forall j :: j in b ==> b[j].blob == a[j].blob && b[j].children.Keys <= a[j].children.Keys
    ensures GoneBelow(a, c, [child])
  {
    forall k | k in a && k !in c ensures Reaches(a, [child][0], k) {
      assert Reaches(b, child, k);
      ReachedBefore(a, b, child, k);
    }
  }

  /** What goes with the children of a node goes with the node. */
  lemma GoneWith(a: Nodes, b: Nodes, c: Nodes, h: Hash, cs: seq<Hash>)
    requires SameButLinks(a, b) && h in a && GoneBelow(b, c, cs)
    requires multiset(cs) == multiset(a[h].children.Keys) + multiset(a[h].blob.kids)
    ensures GoneBelow(a, c - {h}, [h])
  {
    forall k | k in a && k !in c - {h} ensures Reaches(a, [h][0], k) {
      if k == h {
        ReachesSelf(a, h);
      } else {
        var i :| 0 <= i < |cs| && Reaches(b, cs[i], k);
        ReachedBefore(a, b, cs[i], k);
        assert cs[i] in multiset(cs);
        ReachesFrom(a, h, cs[i], k);
      }
    }
  }

  // ----- Dropping a reference

  /** The reference counts of a node after one reference to `child` is dropped. */
  function Fewer(children: map<Hash, nat>, child: Hash): (r: map<Hash, nat>) {
    if child !in children || children[child] == 0 then children
    else if children[child] == 1 then children - {child}
    else children[child := children[child] - 1]
  }

  lemma FewerRefs(n: CachedNode, child: Hash)
    requires child in n.children && n.children[child] >= 1
    ensures forall c :: Refs(n, c) == Refs(n.(children := Fewer(n.children, child)), c) + if c == child then 1 else 0
    ensures forall c :: Child(n.(children := Fewer(n.children, child)), c) ==> Child(n, c)
  {
  }

  /** The list does not depend on counts. */
  lemma LinksSame(a: Nodes, b: Nodes, order: seq<Hash>, oldest: Hash, newest: Hash, ages: map<Hash, nat>)
    requires a.Keys == b.Keys
    requires forall k :: k in a && k != META ==> b[k].flushPrev == a[k].flushPrev && b[k].flushNext == a[k].flushNext
    requires Links(a, order, oldest, newest) && Threaded(a, order, ages)
    ensures Links(b, order, oldest, newest) && Threaded(b, order, ages)
  {
  }

  lemma MetaShaped(live: Nodes, n: CachedNode, ages: map<Hash, nat>, disk: set<Hash>, content: Content, height: Height)
    requires Linked(live, ages, disk) && Shaped(live, content, height)
    requires n == live[META].(children := n.children)
    requires forall c :: c in n.children ==> c in live[META].children && n.children[c] >= 1
    ensures Linked(live[META := n], ages, disk) && Shaped(live[META := n], content, height)
  {
    var after := live[META := n];
    assert forall p, c :: p in after && Child(after[p], c) ==> p in live && Child(live[p], c);
  }

  lemma MetaDropped(live: Nodes, n: CachedNode, child: Hash, order: seq<Hash>, oldest: Hash, newest: Hash,
                    ages: map<Hash, nat>,
                    disk: set<Hash>, owed: multiset<Hash>, content: Content, height: Height)
    requires Cached(live, order, oldest, newest, ages, disk, owed, content, height)
    requires META in live && child in live[META].children
    requires n == live[META].(children := Fewer(live[META].children, child))
    ensures Cached(live[META := n], order, oldest, newest, ages, disk, owed + multiset{child}, content, height)
  {
    hide Links, Threaded, Linked, Exact;
    FewerRefs(live[META], child);
    EdgeDropped(live, META, n, child, disk, owed);
    LinksSame(live, live[META := n], order, oldest, newest, ages);
    MetaShaped(live, n, ages, disk, content, height);
  }

  /** One parent fewer, but never fewer than none. */
  function Bereft(n: CachedNode): (r: CachedNode) {
    n.(parents := if n.parents > 0 then n.parents - 1 else 0)
  }

  /** One parent fewer for a node to which a reference was owed. */
  lemma Released(live: Nodes, h: Hash, n: CachedNode, order: seq<Hash>, oldest: Hash, newest: Hash, ages: map<Hash,
                 nat>,
                 disk: set<Hash>, owed: multiset<Hash>, content: Content, height: Height)
    requires Cached(live, order, oldest, newest, ages, disk, owed + multiset{h}, content, height)
    requires h in live && n == Bereft(live[h])
    ensures Cached(live[h := n], order, oldest, newest, ages, disk, owed, content, height)
  {
    hide Links, Threaded, Linked, Shaped;
    LinksSame(live, live[h := n], order, oldest, newest, ages);
    SameLinked(live, live[h := n], ages, disk);
    SameShaped(live, live[h := n], content, height);
    SameExact(live, live[h := n], disk, owed + multiset{h}, owed);
  }

  /** A reference owed to a node that is no longer cached is of no account. */
  lemma OwedToNone(live: Nodes, h: Hash, order: seq<Hash>, oldest: Hash, newest: Hash, ages: map<Hash, nat>,
                   disk: set<Hash>, owed: multiset<Hash>, content: Content, height: Height)
    requires Cached(live, order, oldest, newest, ages, disk, owed + multiset{h}, content, height)
    requires h !in live
    ensures Cached(live, order, oldest, newest, ages, disk, owed, content, height)
  {
    hide Links, Threaded, Linked, Shaped;
    SameExact(live, live, disk, owed + multiset{h}, owed);
  }

  lemma CountsOfChildren(n: CachedNode, cs: seq<Hash>)
    requires forall c :: c in n.children ==> n.children[c] == 1
    requires multiset(cs) == multiset(n.children.Keys) + multiset(n.blob.kids)
    ensures forall c :: multiset(cs)[c] == Refs(n, c)
    ensures forall c :: c in cs ==> Child(n, c)
  {
    forall c | c in cs ensures Child(n, c) {
      assert c in multiset(cs);
    }
  }

  /** The children of a cached node are what its removal owes. */
  lemma ChildrenOwed(live: Nodes, h: Hash, cs: seq<Hash>, content: Content, height: Height)
    requires Shaped(live, content, height) && h in live && h != META
    requires multiset(cs) == multiset(live[h].children.Keys) + multiset(live[h].blob.kids)
    ensures forall c :: multiset(cs)[c] == Refs(live[h], c)
    ensures forall c :: c in cs ==> c != META && height(c) < height(h)
  {
    var n := live[h];
    assert forall c :: c in n.children ==> n.children[c] == 1;
    hide Shaped;
    CountsOfChildren(n, cs);
    assert forall c :: c in cs ==> Child(n, c);
  }

  lemma DropShrinks(a: Nodes, b: Nodes, parent: Hash, child: Hash, dying: set<Hash>)
    requires parent in a && (parent == META || parent in dying)
    requires b == a[parent := a[parent].(children := Fewer(a[parent].children, child))]
    ensures Shrunk(a, b, dying)
  {
    hide Fewer;
    FewerKeys(a[parent].children, child);
  }

  /** One parent fewer for a node that goes with its last one. */
  lemma BereftShrinks(a: Nodes, b: Nodes, child: Hash, dying: set<Hash>)
    requires child in a && child !in dying && child != META
    requires Shrunk(a[child := Bereft(a[child])], b, dying) && (child in b ==> Bereft(a[child]).parents > 0)
    ensures Shrunk(a, b, dying)
  {
  }

  lemma MetaChildren(live: Nodes, order: seq<Hash>, oldest: Hash, newest: Hash, ages: map<Hash, nat>, disk: set<Hash>,
                     owed: multiset<Hash>, content: Content, height: Height)
    requires Cached(live, order, oldest, newest, ages, disk, owed, content, height)
    ensures META in live && forall c :: c in live[META].children ==> live[META].children[c] > 0
  {
  }

  lemma FewerKeys(children: map<Hash, nat>, child: Hash)
    ensures Fewer(children, child).Keys <= children.Keys
  {
  }

  lemma ShrunkRefl(a: Nodes, dying: set<Hash>)
    ensures Shrunk(a, a, dying)
  {
  }

  lemma ShrunkTrans(a: Nodes, b: Nodes, c: Nodes, dying: set<Hash>)
    requires Shrunk(a, b, dying) && Shrunk(b, c, dying)
    ensures Shrunk(a, c, dying)
  {
  }

  /** Once a dying node is gone, what is left has shrunk with respect to the others. */
  lemma ShrunkWithout(a: Nodes, b: Nodes, c: Nodes, h: Hash, dying: set<Hash>)
    requires SameButLinks(a, b) && Shrunk(b, c, dying + {h}) && h !in dying && h in a && h != META && META in a &&
      META !in dying
    requires META in c
    ensures h in c && c[h].size == a[h].size
    ensures Shrunk(a, c - {h}, dying)
  {
  }

  /** A node that is on disk or has no references can be taken off, and then owes its children. */
  lemma Detachable(nodes: Nodes, dying: set<Hash>, h: Hash, cs: seq<Hash>, order: seq<Hash>, oldest: Hash, newest: Hash,
                   ages: map<Hash, nat>, disk: set<Hash>, owed: multiset<Hash>, content: Content, height: Height)
    returns (i: nat)
    requires h != META && h in nodes && h !in dying && (nodes[h].parents == 0 || h in disk)
    requires META in nodes && META !in dying
    requires multiset(cs) == multiset(nodes[h].children.Keys) + multiset(nodes[h].blob.kids)
    requires Cached(nodes - dying, order, oldest, newest, ages, disk, owed, content, height)
    ensures i < |order| && order[i] == h
    ensures nodes[h].flushNext in nodes && (h != oldest ==> nodes[h].flushPrev in nodes)
    ensures var r := Unlinked(nodes, oldest, newest, h);
            && SameButLinks(nodes, r.0)
            && Cached(r.0 - (dying + {h}), Without(order, i), r.1, r.2, ages, disk, owed + multiset(cs), content,
                      height)
    ensures forall c :: c in cs ==> c != META && height(c) < height(h)
  {
    var live := nodes - dying;
    assert live[h] == nodes[h];
    i := Position(live, h, order, ages);
    hide Links, Threaded, Linked, Shaped, Exact;
    ChildrenOwed(live, h, cs, content, height);
    Detached(nodes, dying, order, i, oldest, newest, ages, disk, owed, multiset(cs), content, height);
  }

  lemma Position(live: Nodes, h: Hash, order: seq<Hash>, ages: map<Hash, nat>) returns (i: nat)
    requires Threaded(live, order, ages) && h in live && h != META
    ensures i < |order| && order[i] == h
  {
    i :| 0 <= i < |order| && order[i] == h;
  }

  // ----- Adding references and nodes

  /** One more parent for a node, ahead of the reference that it counts. */
  lemma Adopted(live: Nodes, h: Hash, n: CachedNode, order: seq<Hash>, oldest: Hash, newest: Hash, ages: map<Hash, nat>,
                disk: set<Hash>, owed: multiset<Hash>, content: Content, height: Height)
    requires Cached(live, order, oldest, newest, ages, disk, owed, content, height)
    requires h in live && n == live[h].(parents := live[h].parents + 1)
    ensures Cached(live[h := n], order, oldest, newest, ages, disk, owed + multiset{h}, content, height)
  {
    hide Links, Threaded, Linked, Shaped;
    LinksSame(live, live[h := n], order, oldest, newest, ages);
    SameLinked(live, live[h := n], ages, disk);
    SameShaped(live, live[h := n], content, height);
    SameExact(live, live[h := n], disk, owed, owed + multiset{h});
  }

  function More(children: map<Hash, nat>, child: Hash): (r: map<Hash, nat>) {
    children[child := if child in children then children[child] + 1 else 1]
  }

  lemma MoreRefs(n: CachedNode, child: Hash)
    ensures forall c :: Refs(n.(children := More(n.children, child)), c) == Refs(n, c) + if c == child then 1 else 0
    ensures forall c :: Child(n.(children := More(n.children, child)), c) ==> Child(n, c) || c == child
  {
  }

  /** `child` may become an external child of `parent`: it is older and no ancestor of it. */
  ghost predicate MayRefer(live: Nodes, parent: Hash, child: Hash, ages: map<Hash, nat>, disk: set<Hash>,
                           height: Height) {
    && child != META && parent in live && child in live
    && (parent != META ==>
          && height(child) < height(parent)
          && (child in disk || (parent in ages && child in ages && ages[child] < ages[parent])))
  }

  lemma Referred(live: Nodes, p: Hash, n: CachedNode, child: Hash, order: seq<Hash>, oldest: Hash, newest: Hash,
                 ages: map<Hash, nat>, disk: set<Hash>, owed: multiset<Hash>, content: Content, height: Height)
    requires Cached(live, order, oldest, newest, ages, disk, owed + multiset{child}, content, height)
    requires MayRefer(live, p, child, ages, disk, height)
    requires p == META || child !in live[p].children
    requires n == live[p].(children := More(live[p].children, child))
    ensures Cached(live[p := n], order, oldest, newest, ages, disk, owed, content, height)
  {
    hide Links, Threaded, Linked, Shaped, Exact;
    MoreRefs(live[p], child);
    LinksSame(live, live[p := n], order, oldest, newest, ages);
    EdgeAdded(live, p, n, child, disk, owed);
    ReferredLinked(live, p, n, child, ages, disk, height);
    ReferredShaped(live, p, n, child, ages, disk, content, height);
  }

  /** The nodes after `parent` has been given an external reference to `child`. */
  function WithReference(nodes: Nodes, child: Hash, parent: Hash): (r: Nodes)
    requires child in nodes && parent in nodes
  {
    var a := nodes[child := nodes[child].(parents := nodes[child].parents + 1)];
    a[parent := a[parent].(children := More(a[parent].children, child))]
  }

  lemma ReferenceCached(live: Nodes, p: Hash, child: Hash, order: seq<Hash>, oldest: Hash, newest: Hash,
                        ages: map<Hash, nat>, disk: set<Hash>, owed: multiset<Hash>, content: Content, height: Height)
    requires Cached(live, order, oldest, newest, ages, disk, owed, content, height)
    requires p in live && MayRefer(live, p, child, ages, disk, height)
    requires p == META || child !in live[p].children
    ensures Cached(WithReference(live, child, p), order, oldest, newest, ages, disk, owed, content, height)
  {
    hide Cached, More;
    var n := live[child].(parents := live[child].parents + 1);
    var mid := live[child := n];
    Adopted(live, child, n, order, oldest, newest, ages, disk, owed, content, height);
    Referred(mid, p, mid[p].(children := More(mid[p].children, child)), child, order, oldest, newest, ages, disk, owed,
             content, height);
  }

  lemma ReferenceBlobs(live: Nodes, p: Hash, child: Hash)
    requires p in live && child in live
    ensures SameBlobs(live, WithReference(live, child, p))
    ensures Bulk(WithReference(live, child, p) - {META}) == Bulk(live - {META})
  {
    BulkSame(WithReference(live, child, p) - {META}, live - {META});
  }

  lemma ReferredLinked(live: Nodes, p: Hash, n: CachedNode, child: Hash, ages: map<Hash, nat>, disk: set<Hash>,
                       height: Height)
    requires Linked(live, ages, disk) && MayRefer(live, p, child, ages, disk, height)
    requires forall c :: Child(n, c) ==> Child(live[p], c) || c == child
    ensures Linked(live[p := n], ages, disk)
  {
  }

  lemma ReferredShaped(live: Nodes, p: Hash, n: CachedNode, child: Hash, ages: map<Hash, nat>, disk: set<Hash>,
                       content: Content, height: Height)
    requires Shaped(live, content, height) && MayRefer(live, p, child, ages, disk, height)
    requires p == META || child !in live[p].children
    requires n == live[p].(children := More(live[p].children, child))
    ensures Shaped(live[p := n], content, height)
  {
    var after := live[p := n];
    assert forall q, c :: q in after && Child(after[q], c) ==> (q == p && c == child) || Child(live[q], c);
  }

  /** The counter of a kid goes up if the kid is cached; otherwise nothing needs counting. */
  lemma KidCounted(live: Nodes, kid: Hash, order: seq<Hash>, oldest: Hash, newest: Hash, ages: map<Hash, nat>,
                   disk: set<Hash>, owed: multiset<Hash>, content: Content, height: Height)
    requires Cached(live, order, oldest, newest, ages, disk, owed, content, height)
    requires kid !in live
    ensures Cached(live, order, oldest, newest, ages, disk, owed + multiset{kid}, content, height)
  {
    hide Links, Threaded, Linked, Shaped;
    SameExact(live, live, disk, owed, owed + multiset{kid});
  }

  /** A hash with its content may be inserted: its kids are known and not above it. */
  ghost predicate MayInsert(live: Nodes, h: Hash, blob: Blob, disk: set<Hash>, content: Content, height: Height) {
    && h != META && blob == content(h)
    && forall c :: c in blob.kids ==> c != META && height(c) < height(h) && (c in live || c in disk)
  }

  lemma MayInsertSame(a: Nodes, b: Nodes, h: Hash, blob: Blob, disk: set<Hash>, content: Content, height: Height)
    requires MayInsert(a, h, blob, disk, content, height) && a.Keys == b.Keys
    ensures MayInsert(b, h, blob, disk, content, height)
  {
  }

  lemma KidsAreNotMeta(nodes: Nodes, cs: seq<Hash>, h: Hash, blob: Blob, disk: set<Hash>, content: Content,
                       height: Height)
    requires MayInsert(nodes, h, blob, disk, content, height) && multiset(cs) == multiset(blob.kids)
    ensures META !in cs
  {
    assert META !in blob.kids;
    assert META !in multiset(blob.kids);
    assert forall c :: c in cs ==> c in multiset(cs);
  }

  lemma SameBlobsKeys(a: Nodes, b: Nodes)
    requires SameBlobs(a, b)
    ensures a.Keys == b.Keys
  {
  }

  lemma AppendLinks(live: Nodes, h: Hash, n: CachedNode, order: seq<Hash>, oldest: Hash, newest: Hash, ages: map<Hash,
                    nat>)
    requires Links(live, order, oldest, newest) && Threaded(live, order, ages) && h != META && h !in live
    requires n.flushNext == META && n.flushPrev == newest && order != []
    ensures newest in live
    ensures Links(live[h := n][newest := live[newest].(flushNext := h)], order + [h], oldest, h)
  {
    var after, all, last := live[h := n][newest := live[newest].(flushNext := h)], order + [h], |order| - 1;
    assert newest == order[last] != h;
    forall i | 0 <= i < last ensures order[i] != newest {
      assert ages[order[i]] < ages[order[last]];
    }
    forall i | 0 <= i < |all| - 1 ensures all[i] in after && after[all[i]].flushNext == all[i + 1] {
      assert all[i] == order[i];
    }
  }

  lemma AppendThreaded(live: Nodes, after: Nodes, h: Hash, order: seq<Hash>, ages: map<Hash, nat>, clock: nat)
    requires Threaded(live, order, ages) && h != META && h !in live && after.Keys == live.Keys + {h}
    requires forall k :: k in ages ==> ages[k] < clock
    ensures Threaded(after, order + [h], ages[h := clock])
  {
  }

  lemma InsertedLinked(live: Nodes, h: Hash, n: CachedNode, order: seq<Hash>, ages: map<Hash, nat>, clock: nat,
                       disk: set<Hash>)
    requires Linked(live, ages, disk) && Threaded(live, order, ages) && h !in live && h != META
    requires forall k :: k in ages ==> ages[k] < clock
    requires n.children == map[] && forall c :: c in n.blob.kids ==> c != META && (c in live || c in disk)
    ensures Linked(live[h := n], ages[h := clock], disk)
  {
    var after, aged := live[h := n], ages[h := clock];
    forall p, c | p in after && Child(after[p], c)
      ensures c in disk || (c in after && (p != META ==> p in aged && c in aged && aged[c] < aged[p]))
    {
      if p != h {
        assert Child(live[p], c);
      }
    }
  }

  lemma InsertedShaped(live: Nodes, h: Hash, n: CachedNode, disk: set<Hash>, content: Content, height: Height)
    requires Shaped(live, content, height) && h !in live && MayInsert(live, h, n.blob, disk, content, height)
    requires n.children == map[] && n.size == n.blob.len % 0x1_0000
    ensures Shaped(live[h := n], content, height)
  {
    var after := live[h := n];
    forall p, c | p in after && Child(after[p], c) ensures c != META && (p != META ==> height(c) < height(p)) {
      assert if p == h then c in n.blob.kids else Child(live[p], c);
    }
  }

  /** What was neither cached nor on disk had no references, so a count of none is right. */
  lemma InsertedExact(live: Nodes, h: Hash, n: CachedNode, ages: map<Hash, nat>, disk: set<Hash>, content: Content,
                      height: Height)
    requires Exact(live, disk, multiset(n.blob.kids)) && Linked(live, ages, disk) && Shaped(live, content, height)
    requires h !in live && h !in n.blob.kids
    requires n.children == map[] && n.parents == 0
    ensures Exact(live[h := n], disk, multiset{})
  {
    var after := live[h := n];
    forall c | c in after && c != META && c !in disk ensures after[c].parents == Total(after, c) {
      TotalAdd(live, h, n, c);
      if c == h {
        forall p | p in live ensures Refs(live[p], h) == 0 {
          ChildHasRefs(live, content, height, p, h);
        }
        TotalZero(live, h);
      }
    }
  }

  /** Nodes after `h` has been put in and appended to the list. */
  function WithNode(nodes: Nodes, h: Hash, n: CachedNode, oldest: Hash, newest: Hash): (r: Nodes) {
    if oldest == META || newest !in nodes then nodes[h := n]
    else nodes[h := n][newest := nodes[newest].(flushNext := h)]
  }

  lemma NodeListed(live: Nodes, h: Hash, n: CachedNode, order: seq<Hash>, oldest: Hash, newest: Hash, ages: map<Hash,
                   nat>, clock: nat)
    requires Links(live, order, oldest, newest) && Threaded(live, order, ages) && h != META && h !in live
    requires n.flushNext == META && n.flushPrev == newest
    requires forall k :: k in ages ==> ages[k] < clock
    ensures Links(WithNode(live, h, n, oldest, newest), order + [h], if oldest == META then h else oldest, h)
    ensures Threaded(WithNode(live, h, n, oldest, newest), order + [h], ages[h := clock])
    ensures oldest != META ==> newest in live
  {
    if order != [] {
      AppendLinks(live, h, n, order, oldest, newest, ages);
    }
    AppendThreaded(live, WithNode(live, h, n, oldest, newest), h, order, ages, clock);
  }

  /** `h` is new, without external children, and the other nodes keep their contents. */
  ghost predicate Gained(before: Nodes, after: Nodes, h: Hash, blob: Blob) {
    && after.Keys == before.Keys + {h}
    && after[h].blob == blob && after[h].children == map[]
    && forall k :: k in before && k != h ==> after[k].blob == before[k].blob && after[k].size == before[k].size
  }

  lemma NodeGained(before: Nodes, mid: Nodes, h: Hash, n: CachedNode, oldest: Hash, newest: Hash)
    requires SameBlobs(before, mid) && h !in before && n.children == map[]
    ensures Gained(before, WithNode(mid, h, n, oldest, newest), h, n.blob)
  {
  }

  /** How many of the 16-bit sums of hash length and entry size wrap around, for blobs of the
      given lengths: those 32 bytes short of a multiple of 65536, or less. */
  ghost function Wraps(lens: seq<nat>): (r: nat) {
    if lens == [] then 0 else Wraps(lens[..|lens| - 1]) + if lens[|lens| - 1] % 0x1_0000 < 65504 then 0 else 1
  }

  lemma {:induction false} WrapsNoneIff(lens: seq<nat>)
    ensures Wraps(lens) == 0 <==> forall i :: 0 <= i < |lens| ==> lens[i] % 0x1_0000 < 65504
  {
    if lens != [] {
      var init := lens[..|lens| - 1];
      WrapsNoneIff(init);
      assert forall i :: 0 <= i < |init| ==> init[i] == lens[i];
    }
  }

  lemma WrappedSum(lens: seq<nat>, len: nat)
    ensures
      var size := len % 0x1_0000;
      (HASH_LENGTH + size) % 0x1_0000 + 0x1_0000 * Wraps(lens + [len]) == HASH_LENGTH + size + 0x1_0000 * Wraps(lens)
  {
    assert (lens + [len])[..|lens|] == lens;
  }

  lemma LoneBulk(nodes: Nodes, h: Hash)
    requires META in nodes && nodes.Keys == {META, h} && h != META
    ensures TrueBulk(nodes - {META}) == HASH_LENGTH + nodes[h].blob.len
    ensures Bulk(nodes - {META}) == HASH_LENGTH + nodes[h].size
  {
    var only := nodes - {META};
    TrueBulkSplit(only, h);
    BulkSplit(only, h);
    assert only - {h} == map[];
  }

  lemma InsertedBulk(live: Nodes, h: Hash, n: CachedNode, oldest: Hash, newest: Hash)
    requires h !in live && h != META
    ensures Bulk(WithNode(live, h, n, oldest, newest) - {META}) == Bulk(live - {META}) + HASH_LENGTH + n.size
  {
    var after := WithNode(live, h, n, oldest, newest);
    BulkSplit(after - {META}, h);
    BulkSame(after - {META} - {h}, live - {META});
  }

  lemma NewNodeLinks(live: Nodes, h: Hash, n: CachedNode, oldest: Hash, newest: Hash)
    requires h !in live && META in live
    ensures SameButLinks(live[h := n], WithNode(live, h, n, oldest, newest)) &&
      META in WithNode(live, h, n, oldest, newest)
  {
  }

  lemma Inserted(live: Nodes, h: Hash, n: CachedNode, order: seq<Hash>, oldest: Hash, newest: Hash, ages: map<Hash,
                 nat>,
                 clock: nat, disk: set<Hash>, content: Content, height: Height)
    requires Cached(live, order, oldest, newest, ages, disk, multiset(n.blob.kids), content, height)
    requires h !in live && MayInsert(live, h, n.blob, disk, content, height)
    requires n == CachedNode(n.blob, n.blob.len % 0x1_0000, 0, map[], newest, META)
    requires forall k :: k in ages ==> ages[k] < clock
    ensures META in WithNode(live, h, n, oldest, newest)
    ensures Cached(WithNode(live, h, n, oldest, newest), order + [h], if oldest == META then h else oldest, h,
                   ages[h := clock], disk, multiset{}, content, height)
    ensures oldest != META ==> newest in live
  {
    assert META in live;
    NewNodeLinks(live, h, n, oldest, newest);
    hide Links, Threaded, Linked, Shaped, Exact, WithNode, SameButLinks;
    var mid, after := live[h := n], WithNode(live, h, n, oldest, newest);
    NodeListed(live, h, n, order, oldest, newest, ages, clock);
    InsertedLinked(live, h, n, order, ages, clock, disk);
    InsertedShaped(live, h, n, disk, content, height);
    InsertedExact(live, h, n, ages, disk, content, height);
    SameLinked(mid, after, ages[h := clock], disk);
    SameShaped(mid, after, content, height);
    SameExact(mid, after, disk, multiset{}, multiset{});
  }

  // ----- Writing to disk

  /** A cache that is right stays so when more gets on disk. */
  lemma DiskGrown(live: Nodes, order: seq<Hash>, oldest: Hash, newest: Hash, ages: map<Hash, nat>, disk: set<Hash>,
                  more: set<Hash>,
                  owed: multiset<Hash>, content: Content, height: Height)
    requires Cached(live, order, oldest, newest, ages, disk, owed, content, height) && disk <= more
    ensures Cached(live, order, oldest, newest, ages, more, owed, content, height)
  {
    hide Links, Threaded, Shaped;
  }

  /** The nodes in `done` are stored, and so are their children. */
  ghost predicate Covered(nodes: Nodes, store: set<Hash>, done: set<Hash>) {
    && (forall h :: h in done && h in nodes ==> h in store)
    && (forall h, c :: h in done && h in nodes && Child(nodes[h], c) ==> c in store)
  }

  /** Besides, the children that are cached are in `done` themselves. */
  ghost predicate Flushed(nodes: Nodes, store: set<Hash>, done: set<Hash>) {
    && Covered(nodes, store, done)
    && (forall h, c :: h in done && h in nodes && Child(nodes[h], c) && c in nodes ==> c in done)
  }

  ghost function ExternalRefs(h: Hash, n: CachedNode): (r: set<(Hash, Hash)>) {
    set c | c in n.children :: (h, c)
  }

  lemma StoreExtended(store: set<Hash>, ext: set<(Hash, Hash)>, h: Hash, n: CachedNode, content: Content)
    requires StoreClosed(store, ext, content) && n.blob == content(h)
    requires forall c :: Child(n, c) ==> c in store
    ensures StoreClosed(store + {h}, ext + ExternalRefs(h, n), content)
  {
  }

  lemma FlushedMore(nodes: Nodes, store: set<Hash>, done: set<Hash>, h: Hash)
    requires Flushed(nodes, store, done) && h in nodes && h in store
    requires forall c :: Child(nodes[h], c) ==> c in store && (c in nodes ==> c in done)
    ensures Flushed(nodes, store, done + {h})
  {
  }

  lemma FlushedLater(nodes: Nodes, store: set<Hash>, more: set<Hash>, done: set<Hash>)
    requires Flushed(nodes, store, done) && store <= more
    ensures Flushed(nodes, more, done)
  {
  }

  /** What taking stored nodes out of the cache may do. */
  ghost predicate Evicted(before: Nodes, after: Nodes, done: set<Hash>, kept: set<Hash>) {
    && after.Keys <= before.Keys
    && (forall k :: k in before && k !in after ==> k in done)
    && (forall k :: k in before && k in kept ==> k in after)
    && (forall k :: k in after ==>
          && after[k].blob == before[k].blob && after[k].size == before[k].size
          && after[k].children == before[k].children && after[k].parents == before[k].parents)
  }

  /** Whatever goes takes its children along. */
  ghost predicate Sunk(before: Nodes, after: Nodes) {
    forall h, c :: h in before && h !in after && Child(before[h], c) ==> c !in after
  }

  lemma SunkRefl(nodes: Nodes)
    ensures Sunk(nodes, nodes)
  {
  }

  lemma SunkTrans(a: Nodes, b: Nodes, c: Nodes, done: set<Hash>, kept: set<Hash>)
    requires Sunk(a, b) && Sunk(b, c) && Evicted(a, b, done, kept) && Evicted(b, c, done, kept)
    ensures Sunk(a, c) && c.Keys <= b.Keys
  {
    forall h, d | h in a && h !in c && Child(a[h], d) ensures d !in c {
      if h in b {
        assert Child(b[h], d);
      }
    }
  }

  lemma SunkOne(a: Nodes, b: Nodes, c: Nodes, h: Hash, cs: seq<Hash>)
    requires SameButLinks(a, b) && Sunk(b, c) && h in a && (forall d :: d in cs ==> d !in c)
    requires multiset(cs) == multiset(a[h].children.Keys) + multiset(a[h].blob.kids)
    ensures Sunk(a, c - {h})
  {
    AllChildren(a[h], cs);
    forall k, d | k in a && k !in c - {h} && Child(a[k], d) ensures d !in c - {h} {
      assert Child(b[k], d);
    }
  }

  /** With a node goes all that lies below it. */
  lemma {:induction false} SunkBelow(before: Nodes, after: Nodes, path: seq<Hash>)
    requires Sunk(before, after) && Descent(before, path) && path[0] !in after
    ensures path[|path| - 1] !in after
    decreases |path|
  {
    if |path| > 1 {
      assert Child(before[path[0]], path[1]);
      var rest := path[1..];
      forall i | 0 <= i < |rest| - 1 ensures Child(before[rest[i]], rest[i + 1]) {
        var j := i + 1;
        assert rest[i] == path[j] && rest[i + 1] == path[j + 1];
      }
      SunkBelow(before, after, rest);
    }
  }

  lemma AllBelowGone(before: Nodes, after: Nodes, h: Hash)
    requires Sunk(before, after) && h !in after
    ensures forall k :: Reaches(before, h, k) ==> k !in after
  {
    forall k | Reaches(before, h, k) ensures k !in after {
      var path :| Descent(before, path) && path[0] == h && path[|path| - 1] == k;
      SunkBelow(before, after, path);
    }
  }

  lemma EvictedTrans(a: Nodes, b: Nodes, c: Nodes, done: set<Hash>, kept: set<Hash>)
    requires Evicted(a, b, done, kept) && Evicted(b, c, done, kept)
    ensures Evicted(a, c, done, kept)
  {
  }

  lemma EvictedFlushed(a: Nodes, b: Nodes, done: set<Hash>, kept: set<Hash>, store: set<Hash>)
    requires Evicted(a, b, done, kept) && Flushed(a, store, done)
    ensures Flushed(b, store, done)
  {
    assert forall h, c :: h in b && Child(b[h], c) ==> h in a && Child(a[h], c);
  }

  lemma EvictedOne(a: Nodes, b: Nodes, c: Nodes, h: Hash, done: set<Hash>, kept: set<Hash>)
    requires SameButLinks(a, b) && Evicted(b, c, done, kept + {h}) && h in a && h in done && h !in kept
    ensures h in c && c[h].size == a[h].size
    ensures Evicted(a, c - {h}, done, kept)
  {
  }

  /** What a stored node owes is owed to nodes on disk, whose counters do not matter. */
  lemma OwedToDisk(live: Nodes, cs: seq<Hash>, order: seq<Hash>, oldest: Hash, newest: Hash, ages: map<Hash, nat>,
                   disk: set<Hash>, owed: multiset<Hash>, content: Content, height: Height)
    requires Cached(live, order, oldest, newest, ages, disk, owed + multiset(cs), content, height)
    requires forall c :: c in cs ==> c in disk
    ensures Cached(live, order, oldest, newest, ages, disk, owed, content, height)
  {
    hide Links, Threaded, Linked, Shaped;
    assert forall c :: c !in disk ==> c !in multiset(cs);
    SameExact(live, live, disk, owed + multiset(cs), owed);
  }

  lemma ChildrenFlushed(nodes: Nodes, h: Hash, cs: seq<Hash>, store: set<Hash>, done: set<Hash>)
    requires Flushed(nodes, store, done) && h in nodes && h in done
    requires multiset(cs) == multiset(nodes[h].children.Keys) + multiset(nodes[h].blob.kids)
    ensures h in store
    ensures forall c :: c in cs ==> c in store && (c in nodes ==> c in done)
  {
    forall c | c in cs ensures Child(nodes[h], c) {
      assert c in multiset(cs);
    }
  }

  lemma EvictedRefl(a: Nodes, done: set<Hash>, kept: set<Hash>)
    ensures Evicted(a, a, done, kept)
  {
  }

  lemma LinksFlushed(a: Nodes, b: Nodes, store: set<Hash>, done: set<Hash>)
    requires SameButLinks(a, b) && Flushed(a, store, done)
    ensures Flushed(b, store, done)
  {
    assert forall h, c :: h in b && Child(b[h], c) ==> h in a && Child(a[h], c);
  }

  lemma FlushedKnown(nodes: Nodes, store: set<Hash>, done: set<Hash>, h: Hash)
    requires Flushed(nodes, store, done)
    ensures h in nodes && h in done ==> h in store
  {
  }

  lemma AllChildren(n: CachedNode, cs: seq<Hash>)
    requires multiset(cs) == multiset(n.children.Keys) + multiset(n.blob.kids)
    ensures forall c :: Child(n, c) <==> c in cs
  {
    forall c ensures Child(n, c) <==> c in cs {
      assert c in cs <==> c in multiset(cs);
    }
  }

  lemma CachedChildren(nodes: Nodes, h: Hash, cs: seq<Hash>, order: seq<Hash>, oldest: Hash, newest: Hash,
                       ages: map<Hash, nat>,
                       disk: set<Hash>, content: Content, height: Height)
    requires Cached(nodes, order, oldest, newest, ages, disk, multiset{}, content, height)
    requires h in nodes && h != META
    requires multiset(cs) == multiset(nodes[h].children.Keys) + multiset(nodes[h].blob.kids)
    ensures nodes[h].blob == content(h)
    ensures forall c :: c in cs ==> c != META && height(c) < height(h) && (c in nodes || c in disk)
  {
    hide Links, Threaded, Exact;
    AllChildren(nodes[h], cs);
  }

  lemma EvictedOnDisk(a: Nodes, b: Nodes, done: set<Hash>, store: set<Hash>)
    requires Evicted(a, b, done, {}) && Covered(a, store, done)
    ensures Evicted(a, b, store, {})
  {
  }

  // ----- Flushing the oldest nodes

  /** Bytes that removing the first `k` nodes of the list frees, list links included. */
  ghost function Freed(nodes: Nodes, order: seq<Hash>, k: nat): (r: nat)
    requires k <= |order|
  {
    if k == 0 || order[k - 1] !in nodes then 0
    else Freed(nodes, order, k - 1) + 3 * HASH_LENGTH + nodes[order[k - 1]].size
  }

  /** What is left was above the limit before each of the first `k` nodes of the list went. */
  ghost predicate Above(whole: Nodes, all: seq<Hash>, total: int, k: nat, limit: int) {
    forall j :: 0 <= j < k <= |all| ==> total - Freed(whole, all, j) > limit
  }

  lemma NothingFreed(whole: Nodes, all: seq<Hash>, total: int, k: nat, limit: int)
    requires Above(whole, all, total, k, limit) && k <= |all|
    ensures total <= limit ==> k == 0
  {
    assert k > 0 ==> Freed(whole, all, 0) == 0;
  }

  lemma NoneAbove(whole: Nodes, all: seq<Hash>, total: int, limit: int)
    ensures Above(whole, all, total, 0, limit)
  {
  }

  lemma AboveMore(whole: Nodes, all: seq<Hash>, total: int, k: nat, limit: int)
    requires Above(whole, all, total, k, limit) && k < |all| && total - Freed(whole, all, k) > limit
    ensures Above(whole, all, total, k + 1, limit)
  {
    hide Freed;
  }

  lemma FreedStep(nodes: Nodes, order: seq<Hash>, k: nat)
    requires k < |order| && order[k] in nodes
    ensures Freed(nodes, order, k + 1) == Freed(nodes, order, k) + 3 * HASH_LENGTH + nodes[order[k]].size
  {
  }

  ghost function Firsts(order: seq<Hash>, k: nat): (r: set<Hash>)
    requires k <= |order|
  {
    set i | 0 <= i < k :: order[i]
  }

  /** The children of the next node to flush are stored or have been flushed before it. */
  lemma NextChildren(live: Nodes, order: seq<Hash>, k: nat, oldest: Hash, newest: Hash, ages: map<Hash, nat>,
                     disk: set<Hash>,
                     content: Content, height: Height, c: Hash)
    requires Cached(live, order, oldest, newest, ages, disk, multiset{}, content, height)
    requires k < |order| && order[k] in live && Child(live[order[k]], c)
    ensures c in disk || (c in live && c in Firsts(order, k))
  {
    var p := order[k];
    assert p != META;
    assert c != META;
    if c !in disk {
      assert c in live && ages[c] < ages[p];
      assert c in order;
    }
  }

  lemma HeadLinks(live: Nodes, order: seq<Hash>, oldest: Hash, newest: Hash, ages: map<Hash, nat>)
    requires Links(live, order, oldest, newest) && Threaded(live, order, ages) && order != []
    ensures oldest in live && oldest == order[0] && oldest != META
    ensures Links(live - {oldest}, order[1..], live[oldest].flushNext, newest)
    ensures Threaded(live - {oldest}, order[1..], ages)
  {
    HeadBypass(live, order, oldest, newest, ages);
    hide Links, Threaded, Bypassed;
    var rest := live - {oldest};
    assert order[1..] == Without(order, 0);
    LinksBypassed(live, rest, order, 0, oldest, newest, live[oldest].flushNext, newest);
    ThreadedWithout(live, rest, order, ages, 0);
  }

  lemma HeadBypass(live: Nodes, order: seq<Hash>, oldest: Hash, newest: Hash, ages: map<Hash, nat>)
    requires Links(live, order, oldest, newest) && Threaded(live, order, ages) && order != []
    ensures oldest in live && oldest == order[0] && oldest != META
    ensures forall i :: 0 <= i < |order| ==> order[i] in live
    ensures Bypassed(live, live - {oldest}, order, 0)
  {
    var rest := live - {oldest};
    assert forall i :: 0 < i < |order| ==> order[i] != oldest && order[i] in rest && rest[order[i]] == live[order[i]];
  }

  /** Taking the oldest node out once it and its children are on disk. */
  lemma HeadEvicted(live: Nodes, order: seq<Hash>, oldest: Hash, newest: Hash, ages: map<Hash, nat>, disk: set<Hash>,
                    done: set<Hash>, content: Content, height: Height)
    requires Cached(live, order, oldest, newest, ages, disk, multiset{}, content, height) && order != []
    requires Covered(live, disk, done) && oldest in done
    ensures oldest in live
    ensures Cached(live - {oldest}, order[1..], live[oldest].flushNext, newest, ages, disk, multiset{}, content, height)
  {
    HeadLinks(live, order, oldest, newest, ages);
    var h := oldest;
    RemovedLinked(live, h, ages, disk, multiset{}, content, height);
    RemovedShaped(live, h, content, height);
    forall c | c in live && c !in disk ensures 0 == Refs(live[h], c) {
      ChildHasRefs(live, content, height, h, c);
    }
    var none: multiset<Hash> := multiset{};
    RemovedExact(live, h, disk, none, none);
    assert none + none == none;
    hide Links, Threaded, Linked, Shaped, Exact;
  }

  lemma HeadPrevLinks(live: Nodes, order: seq<Hash>, oldest: Hash, newest: Hash, ages: map<Hash, nat>)
    requires Links(live, order, oldest, newest) && Threaded(live, order, ages) && oldest != META
    ensures oldest in live
    ensures Links(live[oldest := live[oldest].(flushPrev := META)], order, oldest, newest)
    ensures Threaded(live[oldest := live[oldest].(flushPrev := META)], order, ages)
  {
    assert forall i :: 0 < i < |order| ==> order[i] != order[0];
  }

  /** Nothing depends on what precedes the head of the list. */
  lemma HeadPrevFree(live: Nodes, order: seq<Hash>, oldest: Hash, newest: Hash, ages: map<Hash, nat>, disk: set<Hash>,
                     content: Content, height: Height)
    requires Cached(live, order, oldest, newest, ages, disk, multiset{}, content, height) && oldest != META
    ensures oldest in live
    ensures Cached(live[oldest := live[oldest].(flushPrev := META)], order, oldest, newest, ages, disk, multiset{},
                   content, height)
  {
    HeadPrevLinks(live, order, oldest, newest, ages);
    hide Links, Threaded, Linked, Shaped, Exact;
    var after := live[oldest := live[oldest].(flushPrev := META)];
    SameLinked(live, after, ages, disk);
    SameShaped(live, after, content, height);
    SameExact(live, after, disk, multiset{}, multiset{});
  }

  lemma FlushedNone(nodes: Nodes, store: set<Hash>)
    ensures Flushed(nodes, store, {})
  {
  }

  lemma FlushedCovers(nodes: Nodes, store: set<Hash>, done: set<Hash>)
    requires Flushed(nodes, store, done)
    ensures Covered(nodes, store, done)
  {
  }

  lemma CoveredLater(nodes: Nodes, store: set<Hash>, more: set<Hash>, done: set<Hash>)
    requires Covered(nodes, store, done) && store <= more
    ensures Covered(nodes, more, done)
  {
  }

  lemma CoveredMore(nodes: Nodes, store: set<Hash>, order: seq<Hash>, k: nat)
    requires k < |order| && Covered(nodes, store, Firsts(order, k)) && order[k] in store
    requires forall c :: order[k] in nodes && Child(nodes[order[k]], c) ==> c in store
    ensures Covered(nodes, store, Firsts(order, k + 1))
  {
  }

  /** All children of the next node to flush are known. */
  lemma NextCovered(live: Nodes, order: seq<Hash>, k: nat, oldest: Hash, newest: Hash, ages: map<Hash, nat>,
                    disk: set<Hash>,
                    store: set<Hash>, content: Content, height: Height)
    requires Cached(live, order, oldest, newest, ages, disk, multiset{}, content, height)
    requires k < |order| && Covered(live, store, Firsts(order, k)) && disk <= store
    ensures order[k] in live
    ensures forall c :: Child(live[order[k]], c) ==> c in store
  {
    assert order[k] in live;
    hide Cached, Firsts;
    forall c | Child(live[order[k]], c) ensures c in store {
      NextChildren(live, order, k, oldest, newest, ages, disk, content, height, c);
    }
  }

  lemma Entry(live: Nodes, order: seq<Hash>, k: nat, oldest: Hash, newest: Hash, ages: map<Hash, nat>, disk: set<Hash>,
              owed: multiset<Hash>, content: Content, height: Height)
    requires Cached(live, order, oldest, newest, ages, disk, owed, content, height)
    ensures oldest == if order == [] then META else order[0]
    ensures forall i :: 0 <= i < |order| ==> order[i] in live
    ensures k < |order| ==>
      && order[k] != META && live[order[k]].blob == content(order[k])
      && live[order[k]].flushNext == if k + 1 < |order| then order[k + 1] else META
  {
  }

  lemma CoveredNone(nodes: Nodes, store: set<Hash>, order: seq<Hash>)
    ensures Covered(nodes, store, Firsts(order, 0))
  {
  }

  /** Taking out the node at position `j` after those before it. */
  lemma FirstsOut(nodes: Nodes, order: seq<Hash>, j: nat, k: nat, store: set<Hash>, all: seq<Hash>)
    requires j < k <= |order| && all == order[j..] && Covered(nodes, store, Firsts(order, k))
    ensures nodes - Firsts(order, j + 1) == nodes - Firsts(order, j) - {order[j]}
    ensures order[j] in Firsts(order, k)
    ensures |all| > 0 && all[0] == order[j] && all[1..] == order[j + 1..]
    ensures Covered(nodes - Firsts(order, j), store, Firsts(order, k))
  {
  }

  lemma FirstsEvicted(nodes: Nodes, order: seq<Hash>, k: nat)
    requires k <= |order|
    ensures Evicted(nodes, nodes - Firsts(order, k), Firsts(order, k), {})
  {
  }

  lemma FirstsNone(nodes: Nodes, order: seq<Hash>)
    ensures nodes - Firsts(order, 0) == nodes
  {
  }

  lemma HashAtTail(order: seq<Hash>, j: nat)
    requires j <= |order|
    ensures HashAt(order[j..], 0) == HashAt(order, j)
  {
  }

  lemma EvictedPrev(a: Nodes, b: Nodes, h: Hash, prev: Hash, done: set<Hash>)
    requires Evicted(a, b, done, {}) && h in b
    ensures Evicted(a, b[h := b[h].(flushPrev := prev)], done, {})
    ensures |b[h := b[h].(flushPrev := prev)]| == |b|
  {
    assert b[h := b[h].(flushPrev := prev)].Keys == b.Keys;
  }

  ghost predicate NoRepeats(order: seq<Hash>) {
    && (forall i :: 0 <= i < |order| ==> order[i] != META)
    && (forall i, j :: 0 <= i < j < |order| ==> order[i] != order[j])
  }

  ghost function HashAt(order: seq<Hash>, k: nat): (r: Hash)
    requires k <= |order|
  {
    if k < |order| then order[k] else META
  }

  lemma SamePosition(order: seq<Hash>, j: nat, k: nat)
    requires NoRepeats(order) && j <= k <= |order|
    ensures HashAt(order, j) == HashAt(order, k) <==> j == k
  {
  }

  // ----- Consequences

  /** What a reader gets for a hash: the cached node, or else what is on disk. */
  function Fetch(nodes: Nodes, disk: Disk, h: Hash): (r: Option<Blob>) {
    if h in nodes then Some(nodes[h].blob) else if h in disk then Some(disk[h]) else None
  }

  /** A path through the contents of nodes. */
  ghost predicate Path(path: seq<Hash>, content: Content) {
    path != [] && forall i :: 0 <= i < |path| - 1 ==> path[i + 1] in content(path[i]).kids
  }

  lemma {:induction false} PathHeld(nodes: Nodes, ages: map<Hash, nat>, disk: Disk, ext: set<(Hash, Hash)>,
                                    content: Content,
                                    height: Height, path: seq<Hash>)
    requires Linked(nodes, ages, disk.Keys) && Shaped(nodes, content, height) && StoreClosed(disk.Keys, ext, content)
    requires Path(path, content) && path[0] != META && (path[0] in nodes || path[0] in disk)
    ensures var h := path[|path| - 1]; (h in nodes && h != META) || h in disk
  {
    if |path| > 1 {
      var init := path[..|path| - 1];
      PathHeld(nodes, ages, disk, ext, content, height, init);
      var p, h := path[|path| - 2], path[|path| - 1];
      assert p == init[|init| - 1];
      assert path[|path| - 2 + 1] in content(path[|path| - 2]).kids;
      if p in nodes && p != META {
        assert Child(nodes[p], h);
      }
    }
  }

  lemma PathFetched(nodes: Nodes, ages: map<Hash, nat>, disk: Disk, ext: set<(Hash, Hash)>, content: Content,
                    height: Height, path: seq<Hash>)
    requires Linked(nodes, ages, disk.Keys) && Shaped(nodes, content, height) && StoreClosed(disk.Keys, ext, content)
    requires META !in disk && forall h :: h in disk ==> disk[h] == content(h)
    requires Path(path, content) && path[0] != META && META in nodes
    requires path[0] in nodes[META].children || path[0] in nodes || path[0] in disk
    ensures path[|path| - 1] != META && Fetch(nodes, disk, path[|path| - 1]) == Some(content(path[|path| - 1]))
  {
    assert path[0] in nodes[META].children ==> Child(nodes[META], path[0]);
    hide Path, Linked, StoreClosed;
    PathHeld(nodes, ages, disk, ext, content, height, path);
  }

  /** A way down through cached nodes, references made by `Reference` included. */
  ghost predicate Descent(nodes: Nodes, path: seq<Hash>) {
    && path != []
    && (forall i :: 0 <= i < |path| ==> path[i] in nodes)
    && (forall i :: 0 <= i < |path| - 1 ==> Child(nodes[path[i]], path[i + 1]))
  }

  lemma Referrer(live: Nodes, c: Hash, content: Content, height: Height) returns (p: Hash)
    requires Shaped(live, content, height) && Total(live, c) > 0
    ensures p in live && Child(live[p], c)
  {
    if forall k :: k in live ==> Refs(live[k], c) == 0 {
      TotalZero(live, c);
      assert false;
    }
    p :| p in live && Refs(live[p], c) > 0;
    ChildHasRefs(live, content, height, p, c);
  }

  /** Following references upwards from a node that is not on disk ends at the meta root or at
      a node that is on disk, provided that no node lacks a parent. */
  lemma {:induction false} Ascend(live: Nodes, order: seq<Hash>, ages: map<Hash, nat>, clock: nat, disk: set<Hash>,
                                  content: Content, height: Height,
                                  h: Hash) returns (path: seq<Hash>)
    requires Linked(live, ages, disk) && Shaped(live, content, height) && Exact(live, disk, multiset{}) &&
      Threaded(live, order, ages)
    requires forall k :: k in ages ==> ages[k] < clock
    requires forall k :: k in live && k != META && k !in disk ==> live[k].parents > 0
    requires h in live && h !in disk && h != META && h in ages
    ensures Descent(live, path) && path[|path| - 1] == h && (path[0] == META || path[0] in disk)
    decreases clock - ages[h]
  {
    var p := Referrer(live, h, content, height);
    if p == META || p in disk {
      path := [p, h];
    } else {
      assert ages[h] < ages[p];
      var up := Ascend(live, order, ages, clock, disk, content, height, p);
      path := up + [h];
      DescentExtends(live, up, h);
    }
  }

  lemma DescentExtends(live: Nodes, up: seq<Hash>, h: Hash)
    requires Descent(live, up) && h in live && Child(live[up[|up| - 1]], h)
    ensures Descent(live, up + [h])
  {
  }
}
