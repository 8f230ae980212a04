/** The in-memory node cache over the disk store (trie/database.go). */
module Database {

  import opened Common
  import opened CacheSpec

  const IDEAL_BATCH_SIZE: nat := 100 * 1024

  class Cache {
    var nodes: Nodes
    var oldest: Hash
    var newest: Hash
    var nodesSize: int
    var disk: Disk

    /** The write batch of the running `Cap` or `Commit`. */
    var batch: Disk
    var batchSize: nat

    /** The flush list, oldest first, and when each node was last inserted. */
    ghost var order: seq<Hash>
    ghost var ages: map<Hash, nat>
    ghost var clock: nat

    /** External references that nodes on disk or in the batch had when written. */
    ghost var ext: set<(Hash, Hash)>
    ghost var pend: set<(Hash, Hash)>

    /** The lengths of all blobs put into the cache so far. */
    ghost var inserted: seq<nat>

    ghost const content: Content
    ghost const height: Height

    ghost predicate DiskOk()
      reads this`disk, this`ext
    {
      && META !in disk
      && (forall h :: h in disk ==> disk[h] == content(h))
      && StoreClosed(disk.Keys, ext, content)
    }

    ghost predicate AgesOk()
      reads this`ages, this`clock
    {
      forall k :: k in ages ==> ages[k] < clock
    }

    /** The cache apart from the nodes in `dying`, whose references are owed. */
    ghost predicate Inside(owed: multiset<Hash>, dying: set<Hash>)
      reads this`nodes, this`oldest, this`newest, this`nodesSize, this`disk, this`order, this`ages, this`clock,
            this`ext, this`inserted
    {
      && META !in dying && dying <= nodes.Keys
      && Cached(nodes - dying, order, oldest, newest, ages, disk.Keys, owed, content, height)
      && DiskOk()
      && AgesOk()
      && META in nodes && nodesSize + 0x1_0000 * Wraps(inserted) == Bulk(nodes - {META})
    }

    /** The cache when no node is being removed. */
    ghost predicate Owing(owed: multiset<Hash>)
      reads this`nodes, this`oldest, this`newest, this`nodesSize, this`disk, this`order, this`ages, this`clock,
            this`ext, this`inserted
    {
      && Cached(nodes, order, oldest, newest, ages, disk.Keys, owed, content, height)
      && DiskOk()
      && AgesOk()
      && META in nodes && nodesSize + 0x1_0000 * Wraps(inserted) == Bulk(nodes - {META})
    }

    ghost predicate Valid()
      reads this`nodes, this`oldest, this`newest, this`nodesSize, this`disk, this`order, this`ages, this`clock,
            this`ext, this`inserted
    {
      Owing(multiset{})
    }

    lemma NoneDying(owed: multiset<Hash>)
      ensures Owing(owed) <==> Inside(owed, {})
    {
      hide Cached, DiskOk, AgesOk;
      assert nodes - {} == nodes;
    }

    /** An empty cache over a disk store that is closed. */
    constructor (stored: Disk, ghost contents: Content, ghost heights: Height, ghost refs: set<(Hash, Hash)>)
      requires META !in stored && forall h :: h in stored ==> stored[h] == contents(h)
      requires StoreClosed(stored.Keys, refs, contents)
      ensures Valid() && disk == stored && order == [] && content == contents && height == heights && inserted == []
      ensures nodes.Keys == {META} && nodes[META].children == map[]
    {
      nodes := map[META := CachedNode(Blob([], 0), 0, 0, map[], META, META)];
      oldest, newest, nodesSize := META, META, 0;
      disk, batch, batchSize := stored, map[], 0;
      order, ages, clock := [], map[], 0;
      ext, pend, inserted := refs, {}, [];
      content, height := contents, heights;
      new;
      assert nodes - {META} == map[];
    }

    // ----- Children

    /** External children in any order, then the hashes in the node itself. */
    method Childs(n: CachedNode) returns (r: seq<Hash>)
      ensures multiset(r) == multiset(n.children.Keys) + multiset(n.blob.kids)
    {
      r := [];
      var left := n.children.Keys;
      while left != {}
        invariant left <= n.children.Keys
        invariant multiset(r) + multiset(left) == multiset(n.children.Keys)
      {
        var k :| k in left;
        r := r + [k];
        left := left - {k};
      }
      r := r + n.blob.kids;
    }

    // ----- The flush list

    /** Takes a node off the flush list. */
    method Unlink(h: Hash)
      requires h in nodes && nodes[h].flushNext in nodes
      requires h != oldest ==> nodes[h].flushPrev in nodes
      modifies this`nodes, this`oldest, this`newest
      ensures (nodes, oldest, newest) == Unlinked(old(nodes), old(oldest), old(newest), h)
    {
      var n := nodes[h];
      if h == oldest {
        oldest := n.flushNext;
        nodes := nodes[n.flushNext := nodes[n.flushNext].(flushPrev := META)];
      } else if h == newest {
        newest := n.flushPrev;
        nodes := nodes[n.flushPrev := nodes[n.flushPrev].(flushNext := META)];
      } else {
        nodes := nodes[n.flushPrev := nodes[n.flushPrev].(flushNext := n.flushNext)];
        nodes := nodes[n.flushNext := nodes[n.flushNext].(flushPrev := n.flushPrev)];
      }
    }

    // ----- References

    /** Takes one off the count that `parent` keeps for `child`, if it keeps one. */
    method DropEdge(child: Hash, parent: Hash, ghost owed: multiset<Hash>, ghost dying: set<Hash>)
      requires parent in nodes
      requires parent == META ==>
        child in nodes[META].children && nodes[META].children[child] > 0 && Inside(owed, dying)
      requires parent != META ==> parent in dying && Inside(owed + multiset{child}, dying)
      modifies this`nodes
      ensures nodes == old(nodes)[parent := old(nodes)[parent].(children := Fewer(old(nodes)[parent].children, child))]
      ensures Inside(owed + multiset{child}, dying)
    {
      hide Cached, DiskOk, AgesOk;
      ghost var live := nodes - dying;
      var n := nodes[parent];
      if child in n.children && n.children[child] > 0 {
        var count := n.children[child] - 1;
        var rest := if count == 0 then n.children - {child} else n.children[child := count];
        nodes := nodes[parent := n.(children := rest)];
        BulkSame(old(nodes) - {META}, nodes - {META});
        if parent == META {
          assert nodes - dying == live[META := nodes[META]];
          MetaDropped(live, nodes[META], child, order, oldest, newest, ages, disk.Keys, owed, content, height);
        } else {
          assert nodes - dying == live;
        }
      }
    }

    /** One parent fewer, but never fewer than none. */
    method DropParent(child: Hash, ghost owed: multiset<Hash>, ghost dying: set<Hash>)
      requires child != META && child in nodes && child !in dying
      requires Inside(owed + multiset{child}, dying)
      modifies this`nodes
      ensures nodes == old(nodes)[child := Bereft(old(nodes)[child])]
      ensures Inside(owed, dying)
    {
      hide Cached, DiskOk, AgesOk;
      ghost var live := nodes - dying;
      var n := nodes[child];
      if n.parents > 0 {
        n := n.(parents := n.parents - 1);
      }
      nodes := nodes[child := n];
      assert nodes - dying == live[child := n];
      Released(live, child, n, order, oldest, newest, ages, disk.Keys, owed, content, height);
      BulkSame(old(nodes) - {META}, nodes - {META});
    }

    /** Releases one reference to `child`; a node that loses its last one is removed, and so on
        for its children. */
    method Release(child: Hash, parent: Hash, ghost owed: multiset<Hash>, ghost dying: set<Hash>)
      requires child != META && parent in nodes
      requires parent == META ==>
        child in nodes[META].children && nodes[META].children[child] > 0 && Inside(owed, dying)
      requires parent != META ==> parent in dying && Inside(owed + multiset{child}, dying)
      requires forall d :: d in dying ==> height(child) < height(d)
      modifies this`nodes, this`oldest, this`newest, this`order, this`nodesSize
      ensures Inside(owed, dying)
      ensures Shrunk(old(nodes), nodes, dying) && GoneBelow(old(nodes), nodes, [child])
      ensures parent != META ==> nodes[META].children == old(nodes[META].children)
      ensures parent == META ==> nodes[META].children == Fewer(old(nodes[META].children), child)
      ensures child in old(nodes) ==> OneLess(old(nodes), nodes, child)
      decreases height(child), 3
    {
      hide Cached, DiskOk, AgesOk, Fewer, Shrunk, GoneBelow;
      FewerKeys(nodes[parent].children, child);
      DropEdge(child, parent, owed, dying);
      DropShrinks(old(nodes), nodes, parent, child, dying);
      ghost var loose := nodes;
      ReleaseNode(child, owed, dying);
      GoneAfterDrop(old(nodes), loose, nodes, child);
      ShrunkTrans(old(nodes), loose, nodes, dying);
    }

    /** The second half of a release: the count of the node itself. */
    method ReleaseNode(child: Hash, ghost owed: multiset<Hash>, ghost dying: set<Hash>)
      requires child != META && Inside(owed + multiset{child}, dying)
      requires forall d :: d in dying ==> height(child) < height(d)
      modifies this`nodes, this`oldest, this`newest, this`order, this`nodesSize
      ensures Inside(owed, dying)
      ensures Shrunk(old(nodes), nodes, dying) && GoneBelow(old(nodes), nodes, [child])
      ensures nodes[META].children == old(nodes[META].children)
      ensures child in old(nodes) ==> OneLess(old(nodes), nodes, child)
      decreases height(child), 2
    {
      hide Cached, DiskOk, AgesOk, Shrunk, GoneBelow;
      ShrunkRefl(nodes, dying);
      GoneNone(nodes, [child]);
      if child in nodes {
        DropParent(child, owed, dying);
        ShrunkRefl(nodes, dying);
        ghost var mid := nodes;
        GoneNone(nodes, [child]);
        if nodes[child].parents == 0 {
          Remove(child, owed, dying);
        }
        GoneAfterDrop(old(nodes), mid, nodes, child);
        BereftShrinks(old(nodes), nodes, child, dying);
      } else {
        OwedToNone(nodes - dying, child, order, oldest, newest, ages, disk.Keys, owed, content, height);
      }
    }

    /** Takes a node without parents off the list and out of the cache, and releases its children. */
    method Remove(h: Hash, ghost owed: multiset<Hash>, ghost dying: set<Hash>)
      requires h != META && h in nodes && h !in dying && nodes[h].parents == 0
      requires Inside(owed, dying)
      requires forall d :: d in dying ==> height(h) < height(d)
      modifies this`nodes, this`oldest, this`newest, this`order, this`nodesSize
      ensures h !in nodes
      ensures Inside(owed, dying)
      ensures Shrunk(old(nodes), nodes, dying) && GoneBelow(old(nodes), nodes, [h])
      ensures nodes[META].children == old(nodes[META].children)
      decreases height(h), 1
    {
      hide Cached, DiskOk, AgesOk, Shrunk, GoneBelow;
      var n := nodes[h];
      var cs := Childs(n);
      Detach(h, cs, owed, dying);
      ghost var mid := nodes;
      ReleaseAll(cs, h, owed, dying + {h});
      ShrunkWithout(old(nodes), mid, nodes, h, dying);
      GoneWith(old(nodes), mid, nodes, h, cs);
      Forget(h, n.size, owed, dying);
    }

    /** Deletes a node that is off the list. */
    method Forget(h: Hash, size: nat, ghost owed: multiset<Hash>, ghost dying: set<Hash>)
      requires h in nodes && h != META && h !in dying && nodes[h].size == size
      requires Inside(owed, dying + {h})
      modifies this`nodes, this`nodesSize
      ensures nodes == old(nodes) - {h}
      ensures Inside(owed, dying)
    {
      hide Cached, DiskOk, AgesOk;
      BulkSplit(nodes - {META}, h);
      nodes := nodes - {h};
      nodesSize := nodesSize - (HASH_LENGTH + size);
      assert nodes - dying == old(nodes) - (dying + {h});
      assert nodes - {META} == old(nodes) - {META} - {h};
    }

    /** Takes a node off the list that is on disk or has no parents. */
    method Detach(h: Hash, ghost cs: seq<Hash>, ghost owed: multiset<Hash>, ghost dying: set<Hash>)
      requires h != META && h in nodes && h !in dying && (nodes[h].parents == 0 || h in disk)
      requires multiset(cs) == multiset(nodes[h].children.Keys) + multiset(nodes[h].blob.kids)
      requires Inside(owed, dying)
      modifies this`nodes, this`oldest, this`newest, this`order
      ensures SameButLinks(old(nodes), nodes)
      ensures Inside(owed + multiset(cs), dying + {h})
      ensures forall c :: c in cs ==> c != META && height(c) < height(h)
    {
      hide Cached, DiskOk, AgesOk, Unlinked;
      ghost var i := Detachable(nodes, dying, h, cs, order, oldest, newest, ages, disk.Keys, owed, content, height);
      Unlink(h);
      order := Without(order, i);
      BulkSame(old(nodes) - {META}, nodes - {META});
    }

    method ReleaseAll(cs: seq<Hash>, parent: Hash, ghost owed: multiset<Hash>, ghost dying: set<Hash>)
      requires parent in nodes && parent in dying && parent != META
      requires Inside(owed + multiset(cs), dying)
      requires forall d :: d in dying ==> height(parent) <= height(d)
      requires forall c :: c in cs ==> c != META && height(c) < height(parent)
      modifies this`nodes, this`oldest, this`newest, this`order, this`nodesSize
      ensures Inside(owed, dying)
      ensures Shrunk(old(nodes), nodes, dying) && GoneBelow(old(nodes), nodes, cs)
      ensures nodes[META].children == old(nodes[META].children)
      decreases height(parent), 0
    {
      hide Cached, DiskOk, AgesOk, Shrunk, GoneBelow;
      ShrunkRefl(nodes, dying);
      GoneNone(nodes, cs);
      assert cs[0..] == cs;
      var k := 0;
      while k < |cs|
        invariant k <= |cs|
        invariant Inside(owed + multiset(cs[k..]), dying)
        invariant Shrunk(old(nodes), nodes, dying) && nodes[META].children == old(nodes[META].children)
        invariant GoneBelow(old(nodes), nodes, cs)
      {
        ghost var rest := owed + multiset(cs[k + 1..]);
        assert cs[k..] == [cs[k]] + cs[k + 1..];
        assert owed + multiset(cs[k..]) == rest + multiset{cs[k]};
        ghost var before := nodes;
        Release(cs[k], parent, rest, dying);
        GoneMore(old(nodes), before, nodes, dying, cs, k);
        ShrunkTrans(old(nodes), before, nodes, dying);
        k := k + 1;
      }
      assert cs[k..] == [];
      assert owed + multiset(cs[k..]) == owed;
    }

    /** Drops one reference to a root from outside; the meta root itself is left alone. A root that has
        references, but none from outside, must not be given: the program takes one all the same. */
    method Dereference(root: Hash)
      requires META in nodes
      requires root in nodes && root !in nodes[META].children ==> root == META || nodes[root].parents == 0
      requires Valid()
      modifies this`nodes, this`oldest, this`newest, this`order, this`nodesSize
      ensures META in old(nodes) && META in nodes
      ensures root == META ==> nodes == old(nodes)
      ensures root != META ==> nodes[META].children == Fewer(old(nodes)[META].children, root)
      ensures Shrunk(old(nodes), nodes, {}) && (root != META ==> GoneBelow(old(nodes), nodes, [root]))
      ensures root != META && root in old(nodes) ==> OneLess(old(nodes), nodes, root)
      ensures Valid()
    {
      hide GoneBelow, Shrunk;
      ShrunkRefl(nodes, {});
      GoneNone(nodes, [root]);
      if root != META {
        MetaChildren(nodes, order, oldest, newest, ages, disk.Keys, multiset{}, content, height);
        NoneDying(multiset{});
        if root in nodes[META].children {
          Release(root, META, multiset{}, {});
        } else if root in nodes {
          Remove(root, multiset{}, {});
        }
        NoneDying(multiset{});
      }
    }

    /** Records a reference from `parent` to `child`; only the meta root may hold one twice. */
    method Reference(child: Hash, parent: Hash)
      requires parent in nodes
      requires child in nodes ==> MayRefer(nodes, parent, child, ages, disk.Keys, height)
      requires Valid()
      modifies this`nodes
      ensures nodes ==
        if child in old(nodes) && (parent == META || child !in old(nodes)[parent].children)
        then WithReference(old(nodes), child, parent)
        else old(nodes)
      ensures SameBlobs(old(nodes), nodes)
      ensures Valid()
    {
      hide Cached, DiskOk, AgesOk;
      if child !in nodes {
        return;
      }
      if parent != META && child in nodes[parent].children {
        return;
      }
      ReferenceBlobs(nodes, parent, child);
      ReferenceCached(nodes, parent, child, order, oldest, newest, ages, disk.Keys, multiset{}, content, height);
      nodes := nodes[child := nodes[child].(parents := nodes[child].parents + 1)];
      nodes := nodes[parent := nodes[parent].(children := More(nodes[parent].children, child))];
    }

    // ----- Insertion

    /** Counts the references of a node that is about to be put in. */
    method CountKids(cs: seq<Hash>)
      requires META !in cs && Valid()
      modifies this`nodes
      ensures SameBlobs(old(nodes), nodes)
      ensures Owing(multiset(cs))
    {
      hide Owing;
      assert multiset(cs[..0]) == multiset{};
      var k := 0;
      while k < |cs|
        invariant k <= |cs|
        invariant SameBlobs(old(nodes), nodes)
        invariant Owing(multiset(cs[..k]))
      {
        assert cs[..k + 1] == cs[..k] + [cs[k]];
        CountKid(cs[k], multiset(cs[..k]));
        k := k + 1;
      }
      assert cs[..k] == cs;
    }

    method CountKid(c: Hash, ghost owed: multiset<Hash>)
      requires c != META && Owing(owed)
      modifies this`nodes
      ensures SameBlobs(old(nodes), nodes)
      ensures Owing(owed + multiset{c})
    {
      hide Cached, DiskOk, AgesOk;
      ghost var live := nodes;
      if c in nodes {
        nodes := nodes[c := nodes[c].(parents := nodes[c].parents + 1)];
        Adopted(live, c, nodes[c], order, oldest, newest, ages, disk.Keys, owed, content, height);
        BulkSame(live - {META}, nodes - {META});
      } else {
        KidCounted(live, c, order, oldest, newest, ages, disk.Keys, owed, content, height);
      }
    }

    /** Puts a node into the cache unless it is there. Its kids must be known already. The size
        is added as a 16-bit number, so that a large blob may wrap around. */
    method Insert(hash: Hash, blob: Blob)
      requires MayInsert(nodes, hash, blob, disk.Keys, content, height)
      requires Valid()
      modifies this`nodes, this`oldest, this`newest, this`order, this`ages, this`clock, this`nodesSize, this`inserted
      ensures hash in old(nodes) ==> nodes == old(nodes) && order == old(order) && inserted == old(inserted)
      ensures hash !in old(nodes) ==> Gained(old(nodes), nodes, hash, blob) && order == old(order) + [hash]
      ensures hash !in old(nodes) ==> inserted == old(inserted) + [blob.len]
      ensures Valid()
    {
      hide Cached, DiskOk, AgesOk, MayInsert, SameBlobs, Gained, WithNode, Wraps;
      if hash !in nodes {
        var entry := CachedNode(blob, blob.len % 0x1_0000, 0, map[], newest, META);
        var cs := Childs(entry);
        assert multiset(cs) == multiset(blob.kids);
        KidsAreNotMeta(nodes, cs, hash, blob, disk.Keys, content, height);
        CountKids(cs);
        SameBlobsKeys(old(nodes), nodes);
        MayInsertSame(old(nodes), nodes, hash, blob, disk.Keys, content, height);
        NodeGained(old(nodes), nodes, hash, entry, oldest, newest);
        Append(hash, entry);
      }
    }

    /** Puts a new entry at the young end of the list. */
    method Append(hash: Hash, entry: CachedNode)
      requires hash !in nodes && entry == CachedNode(entry.blob, entry.blob.len % 0x1_0000, 0, map[], newest, META)
      requires MayInsert(nodes, hash, entry.blob, disk.Keys, content, height)
      requires Owing(multiset(entry.blob.kids))
      modifies this`nodes, this`oldest, this`newest, this`order, this`ages, this`clock, this`nodesSize, this`inserted
      ensures nodes == WithNode(old(nodes), hash, entry, old(oldest), old(newest))
      ensures order == old(order) + [hash]
      ensures inserted == old(inserted) + [entry.blob.len]
      ensures Valid()
    {
      hide Cached, DiskOk, MayInsert, Wraps, WithNode, Bulk;
      Inserted(nodes, hash, entry, order, oldest, newest, ages, clock, disk.Keys, content, height);
      InsertedBulk(nodes, hash, entry, oldest, newest);
      WrappedSum(inserted, entry.blob.len);
      Link(hash, entry);
      nodesSize := nodesSize + (HASH_LENGTH + entry.size) % 0x1_0000;
      order, inserted := order + [hash], inserted + [entry.blob.len];
      Stamp(hash);
    }

    ghost method Stamp(hash: Hash)
      requires AgesOk()
      modifies this`ages, this`clock
      ensures ages == old(ages)[hash := old(clock)]
      ensures AgesOk()
    {
      ages, clock := ages[hash := clock], clock + 1;
    }

    method Link(hash: Hash, entry: CachedNode)
      requires hash !in nodes && (oldest != META ==> newest in nodes)
      modifies this`nodes, this`oldest, this`newest
      ensures nodes == WithNode(old(nodes), hash, entry, old(oldest), old(newest))
      ensures newest == hash && oldest == if old(oldest) == META then hash else old(oldest)
    {
      nodes := nodes[hash := entry];
      if oldest == META {
        oldest, newest := hash, hash;
      } else {
        nodes := nodes[newest := nodes[newest].(flushNext := hash)];
        newest := hash;
      }
    }

    // ----- Taking stored nodes out of the cache

    /** Removes a stored trie from the cache, root first. */
    method Uncache(h: Hash, ghost done: set<Hash>, ghost dying: set<Hash>)
      requires h != META && h !in dying && (h in nodes ==> h in done)
      requires Flushed(nodes, disk.Keys, done)
      requires Inside(multiset{}, dying)
      requires forall d :: d in dying ==> height(h) < height(d)
      modifies this`nodes, this`oldest, this`newest, this`order, this`nodesSize
      ensures h !in nodes && Sunk(old(nodes), nodes)
      ensures Evicted(old(nodes), nodes, done, dying)
      ensures Inside(multiset{}, dying)
      decreases height(h), 1
    {
      hide Cached, DiskOk, AgesOk, Evicted, Flushed, Sunk;
      if h !in nodes {
        EvictedRefl(nodes, done, dying);
        SunkRefl(nodes);
      } else {
        var n := nodes[h];
        var cs := Childs(n);
        ChildrenFlushed(nodes, h, cs, disk.Keys, done);
        Detach(h, cs, multiset{}, dying);
        OwedToDisk(nodes - (dying + {h}), cs, order, oldest, newest, ages, disk.Keys, multiset{}, content, height);
        LinksFlushed(old(nodes), nodes, disk.Keys, done);
        ghost var mid := nodes;
        UncacheAll(cs, h, done, dying + {h});
        EvictedOne(old(nodes), mid, nodes, h, done, dying);
        SunkOne(old(nodes), mid, nodes, h, cs);
        Forget(h, n.size, multiset{}, dying);
      }
    }

    method UncacheAll(cs: seq<Hash>, parent: Hash, ghost done: set<Hash>, ghost dying: set<Hash>)
      requires forall c :: c in cs ==> c != META && height(c) < height(parent) && (c in nodes ==> c in done)
      requires forall d :: d in dying ==> height(parent) <= height(d)
      requires Flushed(nodes, disk.Keys, done)
      requires Inside(multiset{}, dying)
      modifies this`nodes, this`oldest, this`newest, this`order, this`nodesSize
      ensures Evicted(old(nodes), nodes, done, dying)
      ensures Sunk(old(nodes), nodes) && forall c :: c in cs ==> c !in nodes
      ensures Inside(multiset{}, dying)
      decreases height(parent), 0
    {
      hide Cached, DiskOk, AgesOk, Evicted, Flushed, Sunk;
      EvictedRefl(nodes, done, dying);
      SunkRefl(nodes);
      var k := 0;
      while k < |cs|
        invariant k <= |cs|
        invariant Evicted(old(nodes), nodes, done, dying) && Sunk(old(nodes), nodes)
        invariant forall j :: 0 <= j < k ==> cs[j] !in nodes
        invariant Flushed(nodes, disk.Keys, done)
        invariant nodes.Keys <= old(nodes.Keys)
        invariant Inside(multiset{}, dying)
      {
        ghost var before := nodes;
        Uncache(cs[k], done, dying);
        EvictedFlushed(before, nodes, done, dying, disk.Keys);
        SunkTrans(old(nodes), before, nodes, done, dying);
        EvictedTrans(old(nodes), before, nodes, done, dying);
        k := k + 1;
      }
    }

    // ----- The write batch

    /** Hashes on disk or about to be. */
    ghost function Known(): (r: set<Hash>)
      reads this`disk, this`batch
    {
      disk.Keys + batch.Keys
    }

    /** What the disk will hold once the batch is written is closed as well. */
    ghost predicate BatchOk()
      reads this`disk, this`batch, this`ext, this`pend
    {
      && META !in batch
      && (forall h :: h in batch ==> batch[h] == content(h))
      && StoreClosed(Known(), ext + pend, content)
    }

    /** Writes the batch, which may fail unless the disk works; then the disk stays as it was. */
    method Write(works: bool) returns (ok: bool)
      requires Valid() && BatchOk()
      modifies this`disk, this`ext
      ensures works ==> ok
      ensures disk == (if ok then old(disk) + batch else old(disk)) && (!ok ==> ext == old(ext))
      ensures Valid() && BatchOk()
    {
      hide Cached, AgesOk, StoreClosed;
      ok := *;
      ok := ok || works;
      if ok {
        WriteKeeps();
        disk, ext := disk + batch, ext + pend;
        assert Known() == old(Known());
        assert ext + pend == old(ext + pend);
      }
    }

    lemma WriteKeeps()
      requires Valid()
      ensures Cached(nodes, order, oldest, newest, ages, (disk + batch).Keys, multiset{}, content, height)
    {
      DiskGrown(nodes, order, oldest, newest, ages, disk.Keys, (disk + batch).Keys, multiset{}, content, height);
    }

    /** Adds a node to the batch, which may fail unless the disk works. */
    method Put(h: Hash, n: CachedNode, works: bool) returns (ok: bool)
      requires h != META && n.blob == content(h)
      requires forall c :: Child(n, c) ==> c in Known()
      requires BatchOk()
      modifies this`batch, this`batchSize, this`pend
      ensures works ==> ok
      ensures Known() == if ok then old(Known()) + {h} else old(Known())
      ensures BatchOk()
    {
      ok := *;
      ok := ok || works;
      if ok {
        StoreExtended(Known(), ext + pend, h, n, content);
        hide StoreClosed;
        batch, batchSize := batch[h := n.blob], batchSize + n.blob.len;
        pend := pend + ExternalRefs(h, n);
        assert Known() == old(Known()) + {h};
        assert ext + pend == old(ext + pend) + ExternalRefs(h, n);
      }
    }

    /** Empties the batch. */
    method Reset()
      requires DiskOk()
      modifies this`batch, this`batchSize, this`pend
      ensures Known() == disk.Keys
      ensures BatchOk()
    {
      hide StoreClosed;
      batch, batchSize, pend := map[], 0, {};
      assert Known() == disk.Keys;
      assert ext + pend == ext;
    }

    /** Adds a node to the batch, and writes the batch out once it is large. */
    method Store(h: Hash, works: bool) returns (ok: bool)
      requires h in nodes && h != META && nodes[h].blob == content(h)
      requires forall c :: Child(nodes[h], c) ==> c in Known()
      requires Valid() && BatchOk()
      modifies this`disk, this`ext, this`batch, this`batchSize, this`pend
      ensures old(Known()) <= Known() && old(disk.Keys) <= disk.Keys
      ensures (works ==> ok) && (ok ==> h in Known())
      ensures Valid() && BatchOk()
    {
      hide Cached, DiskOk, AgesOk, BatchOk, Child;
      ok := Put(h, nodes[h], works);
      if ok && batchSize >= IDEAL_BATCH_SIZE {
        ok := Write(works);
        if ok {
          Reset();
        }
      }
    }

    // ----- Commit

    /** Puts a trie into the batch, children first. `done` collects what has been put. */
    method CommitNode(h: Hash, works: bool, ghost done: set<Hash>) returns (ok: bool, ghost did: set<Hash>)
      requires h != META
      requires Flushed(nodes, Known(), done)
      requires Valid() && BatchOk()
      modifies this`disk, this`ext, this`batch, this`batchSize, this`pend
      ensures done <= did && old(Known()) <= Known() && old(disk.Keys) <= disk.Keys
      ensures (works ==> ok) && (ok && h in nodes ==> h in did)
      ensures Flushed(nodes, Known(), did)
      ensures Valid() && BatchOk()
      decreases height(h), 1
    {
      hide Cached, DiskOk, AgesOk, BatchOk, Flushed;
      ok, did := true, done;
      if h in nodes {
        var cs := Childs(nodes[h]);
        CachedChildren(nodes, h, cs, order, oldest, newest, ages, disk.Keys, content, height);
        ok, did := CommitAll(cs, h, works, done);
        if ok {
          ghost var known := Known();
          AllChildren(nodes[h], cs);
          ok := Store(h, works);
          FlushedLater(nodes, known, Known(), did);
          if ok {
            FlushedMore(nodes, Known(), did, h);
            did := did + {h};
          }
        }
      }
    }

    method CommitAll(cs: seq<Hash>, parent: Hash, works: bool, ghost done: set<Hash>)
      returns (ok: bool, ghost did: set<Hash>)
      requires forall c :: c in cs ==> c != META && height(c) < height(parent) && (c in nodes || c in disk)
      requires Flushed(nodes, Known(), done)
      requires Valid() && BatchOk()
      modifies this`disk, this`ext, this`batch, this`batchSize, this`pend
      ensures done <= did && old(Known()) <= Known() && old(disk.Keys) <= disk.Keys
      ensures works ==> ok
      ensures ok ==> forall c :: c in cs ==> c in Known() && (c in nodes ==> c in did)
      ensures Flushed(nodes, Known(), did)
      ensures Valid() && BatchOk()
      decreases height(parent), 0
    {
      hide Cached, DiskOk, AgesOk, BatchOk, Flushed;
      ok, did := true, done;
      var k := 0;
      while k < |cs| && ok
        invariant k <= |cs|
        invariant done <= did && old(Known()) <= Known() && old(disk.Keys) <= disk.Keys
        invariant works ==> ok
        invariant ok ==> forall j :: 0 <= j < k ==> cs[j] in Known() && (cs[j] in nodes ==> cs[j] in did)
        invariant Flushed(nodes, Known(), did)
        invariant Valid() && BatchOk()
      {
        ok, did := CommitNode(cs[k], works, did);
        FlushedKnown(nodes, Known(), did, cs[k]);
        k := k + 1;
      }
    }

    /** Writes a trie to disk and then drops it from the cache. A failed write leaves the cache
        as it was, and the disk closed. */
    method Commit(root: Hash, works: bool) returns (ok: bool)
      requires root != META && Valid()
      modifies this
      ensures old(disk.Keys) <= disk.Keys
      ensures works ==> ok
      ensures ok ==> root !in nodes && (root in old(nodes) ==> root in disk)
      ensures ok ==> forall k :: Reaches(old(nodes), root, k) ==> k !in nodes
      ensures Evicted(old(nodes), nodes, disk.Keys, {})
      ensures !ok ==> nodes == old(nodes) && order == old(order) && nodesSize == old(nodesSize)
      ensures inserted == old(inserted)
      ensures Valid()
    {
      hide Cached, DiskOk, AgesOk, BatchOk, Flushed, Evicted, Sunk, Reaches;
      EvictedRefl(nodes, {}, {});
      Reset();
      ghost var done: set<Hash> := {};
      FlushedNone(nodes, Known());
      ok, done := CommitNode(root, works, done);
      if ok {
        ok := Write(works);
      }
      EvictedRefl(nodes, disk.Keys, {});
      if ok {
        assert disk.Keys == Known();
        FlushedCovers(nodes, disk.Keys, done);
        NoneDying(multiset{});
        Uncache(root, done, {});
        AllBelowGone(old(nodes), nodes, root);
        NoneDying(multiset{});
        FlushedKnown(old(nodes), disk.Keys, done, root);
        EvictedOnDisk(old(nodes), nodes, done, disk.Keys);
      }
    }

    // ----- Cap

    /** Total size of the cache, with two list links for each node but the meta root. */
    function Size(): (r: int)
      reads this`nodes, this`nodesSize
    {
      nodesSize + (|nodes| - 1) * 2 * HASH_LENGTH
    }

    /** Flushes the oldest nodes until the cache is within the limit or the list is empty. A failed
        write leaves the cache as it was, and the disk closed. */
    method Cap(limit: int, works: bool) returns (ok: bool)
      requires Valid()
      modifies this
      ensures old(disk.Keys) <= disk.Keys
      ensures works ==> ok
      ensures ok ==> Size() <= limit || order == []
      ensures ok ==> |order| <= |old(order)| && order == old(order)[|old(order)| - |order|..]
      ensures ok ==> Above(old(nodes), old(order), old(Size()), |old(order)| - |order|, limit)
      ensures ok && old(Size()) <= limit ==> order == old(order)
      ensures Evicted(old(nodes), nodes, disk.Keys, {})
      ensures !ok ==> nodes == old(nodes) && order == old(order) && nodesSize == old(nodesSize)
      ensures inserted == old(inserted)
      ensures Valid()
    {
      hide Cached, DiskOk, AgesOk, BatchOk, Flushed, Evicted, Firsts, Freed, Above;
      var cur, size;
      ghost var k;
      ok, cur, size, k := FlushOldest(limit, works);
      if ok {
        ok := Write(works);
      }
      EvictedRefl(nodes, disk.Keys, {});
      if ok {
        NothingFreed(nodes, order, Size(), k, limit);
        EvictTo(cur, k);
        EvictedOnDisk(old(nodes), nodes, Firsts(old(order), k), disk.Keys);
      }
    }

    /** Puts the oldest nodes into the batch until what is left is within the limit, and no more. */
    method FlushOldest(limit: int, works: bool) returns (ok: bool, cur: Hash, size: int, ghost k: nat)
      requires Valid()
      modifies this`disk, this`ext, this`batch, this`batchSize, this`pend
      ensures old(disk.Keys) <= disk.Keys
      ensures k <= |order| && cur == HashAt(order, k)
      ensures size == Size() - Freed(nodes, order, k)
      ensures works ==> ok
      ensures ok ==> size <= limit || k == |order|
      ensures Above(nodes, order, Size(), k, limit)
      ensures Covered(nodes, Known(), Firsts(order, k))
      ensures Valid() && BatchOk()
    {
      hide Valid, BatchOk, Covered, Firsts, Child, Above;
      Next(0, {});
      Restart();
      ok, size, cur, k := true, Size(), oldest, 0;
      CoveredNone(nodes, Known(), order);
      NoneAbove(nodes, order, Size(), limit);
      while ok && size > limit && cur != META
        invariant old(disk.Keys) <= disk.Keys
        invariant k <= |order| && cur == HashAt(order, k) && (works ==> ok)
        invariant size == Size() - Freed(nodes, order, k) && Above(nodes, order, Size(), k, limit)
        invariant Covered(nodes, Known(), Firsts(order, k))
        invariant Valid() && BatchOk()
        decreases |order| - k, ok
      {
        Next(k, Known());
        ghost var known := Known();
        ok := Store(cur, works);
        CoveredLater(nodes, known, Known(), Firsts(order, k));
        if ok {
          CoveredMore(nodes, Known(), order, k);
          AboveMore(nodes, order, Size(), k, limit);
          size := size - (3 * HASH_LENGTH + nodes[cur].size);
          cur := nodes[cur].flushNext;
          k := k + 1;
        }
      }
      Next(k, {});
    }

    /** What is known of position `k` of the list. */
    lemma Next(k: nat, store: set<Hash>)
      requires Valid()
      ensures oldest == HashAt(order, 0)
      ensures k < |order| ==>
        && order[k] in nodes && order[k] != META && nodes[order[k]].blob == content(order[k])
        && nodes[order[k]].flushNext == if k + 1 < |order| then order[k + 1] else META
      ensures k < |order| && Covered(nodes, store, Firsts(order, k)) && disk.Keys <= store ==>
        forall c :: Child(nodes[order[k]], c) ==> c in store
    {
      hide Cached, DiskOk, AgesOk, Covered, Firsts, Child;
      Entry(nodes, order, k, oldest, newest, ages, disk.Keys, multiset{}, content, height);
      if k < |order| && Covered(nodes, store, Firsts(order, k)) && disk.Keys <= store {
        NextCovered(nodes, order, k, oldest, newest, ages, disk.Keys, store, content, height);
      }
    }

    /** A new batch. */
    method Restart()
      requires Valid()
      modifies this`batch, this`batchSize, this`pend
      ensures Known() == disk.Keys
      ensures Valid() && BatchOk()
    {
      hide Cached, DiskOk, AgesOk, BatchOk;
      Reset();
    }

    /** Drops the oldest node, which is on disk with its children. */
    method DropOldest(ghost done: set<Hash>)
      requires order != [] && order[0] in done
      requires Covered(nodes, disk.Keys, done)
      requires Valid()
      modifies this`nodes, this`oldest, this`order, this`nodesSize
      ensures old(order[0]) in old(nodes) && nodes == old(nodes) - {old(order[0])}
      ensures order == old(order)[1..]
      ensures Size() == old(Size()) - (3 * HASH_LENGTH + old(nodes)[old(order[0])].size)
      ensures Valid()
    {
      hide Cached, DiskOk, AgesOk, Covered, Child;
      Next(0, {});
      HeadEvicted(nodes, order, oldest, newest, ages, disk.Keys, done, content, height);
      BulkSplit(nodes - {META}, oldest);
      var n := nodes[oldest];
      nodes := nodes - {oldest};
      oldest, order := n.flushNext, order[1..];
      nodesSize := nodesSize - (HASH_LENGTH + n.size);
      assert nodes - {META} == old(nodes) - {META} - {old(oldest)};
    }

    lemma AllDistinct()
      requires Valid()
      ensures NoRepeats(order)
    {
    }

    /** The head of the list no longer points to a predecessor. */
    method ClearHead()
      requires oldest != META
      requires Valid()
      modifies this`nodes
      ensures oldest in old(nodes) && nodes == old(nodes)[oldest := old(nodes)[oldest].(flushPrev := META)]
      ensures Valid()
    {
      hide Cached, DiskOk, AgesOk;
      HeadPrevFree(nodes, order, oldest, newest, ages, disk.Keys, content, height);
      nodes := nodes[oldest := nodes[oldest].(flushPrev := META)];
      BulkSame(old(nodes) - {META}, nodes - {META});
    }

    /** Drops nodes from the old end of the list up to `cur`. */
    method EvictTo(cur: Hash, ghost k: nat)
      requires k <= |order| && cur == HashAt(order, k)
      requires Covered(nodes, disk.Keys, Firsts(order, k))
      requires Valid()
      modifies this`nodes, this`oldest, this`order, this`nodesSize
      ensures order == old(order)[k..]
      ensures Evicted(old(nodes), nodes, Firsts(old(order), k), {})
      ensures Size() == old(Size() - Freed(nodes, order, k))
      ensures Valid()
    {
      hide Valid, Covered, Firsts, Evicted, Freed;
      ghost var done := Firsts(order, k);
      DropUntil(cur, k);
      if oldest != META {
        ghost var before := nodes;
        ClearHead();
        EvictedPrev(old(nodes), before, oldest, META, done);
      }
    }

    /** The state after the first `j` nodes of the list are gone. */
    ghost predicate Dropped(all: seq<Hash>, whole: Nodes, total: int, j: nat)
      reads this`nodes, this`order, this`oldest, this`nodesSize
    {
      && j <= |all| && order == all[j..] && nodes == whole - Firsts(all, j)
      && oldest == HashAt(all, j) && (order != [] ==> order[0] in nodes)
      && Size() == total - Freed(whole, all, j)
    }

    method DropNext(ghost all: seq<Hash>, ghost whole: Nodes, ghost total: int, ghost j: nat, ghost k: nat)
      requires j < k <= |all| && Covered(whole, disk.Keys, Firsts(all, k))
      requires Dropped(all, whole, total, j) && Valid()
      modifies this`nodes, this`oldest, this`order, this`nodesSize
      ensures Dropped(all, whole, total, j + 1) && Valid()
    {
      hide Valid, Covered, Firsts, Freed, Size, Child, HashAt;
      FirstsOut(whole, all, j, k, disk.Keys, order);
      FreedStep(whole, all, j);
      DropOldest(Firsts(all, k));
      Next(0, {});
      HashAtTail(all, j + 1);
    }

    lemma NoneDropped()
      requires Valid()
      ensures Dropped(order, nodes, Size(), 0)
    {
      Next(0, {});
      FirstsNone(nodes, order);
    }

    method DropUntil(cur: Hash, ghost k: nat)
      requires k <= |order| && cur == HashAt(order, k)
      requires Covered(nodes, disk.Keys, Firsts(order, k))
      requires Valid()
      modifies this`nodes, this`oldest, this`order, this`nodesSize
      ensures order == old(order)[k..]
      ensures Evicted(old(nodes), nodes, Firsts(old(order), k), {})
      ensures Size() == old(Size() - Freed(nodes, order, k))
      ensures Valid()
    {
      hide Valid, Covered, Firsts, Evicted, Freed, Size, NoRepeats, Child, HashAt;
      ghost var all, whole, total, j := order, nodes, Size(), 0;
      AllDistinct();
      NoneDropped();
      while oldest != cur
        invariant j <= k && Dropped(all, whole, total, j) && Valid()
        decreases k - j
      {
        DropNext(all, whole, total, j, k);
        j := j + 1;
      }
      SamePosition(all, j, k);
      FirstsEvicted(whole, all, k);
    }

    // ----- Consequences

    /** The encoded node for a hash, from memory or from disk (`Node`). */
    function Node(h: Hash): (r: Option<Blob>)
      reads this`nodes, this`disk
    {
      Fetch(nodes, disk, h)
    }

    /** Every node of every trie that is referenced, cached or stored can be read, and is the node
        with that hash. */
    lemma ReferencedTrieIsWhole(path: seq<Hash>)
      requires Path(path, content) && META in nodes && path[0] != META
      requires path[0] in nodes[META].children || path[0] in nodes || path[0] in disk
      requires Valid()
      ensures path[|path| - 1] != META && Node(path[|path| - 1]) == Some(content(path[|path| - 1]))
    {
      hide Links, Threaded, Exact, AgesOk, Linked, Shaped, StoreClosed, Path;
      PathFetched(nodes, ages, disk, ext, content, height, path);
    }

    /** No memory leaks: while every node that is not on disk has a parent, each of them lies below
        the meta root, or below a cached node that is on disk. */
    lemma NoLeak(h: Hash) returns (path: seq<Hash>)
      requires Valid() && h in nodes && h != META && h !in disk
      requires forall k :: k in nodes && k != META && k !in disk ==> nodes[k].parents > 0
      ensures Descent(nodes, path) && path[|path| - 1] == h && (path[0] == META || path[0] in disk)
    {
      assert h in order;
      path := Ascend(nodes, order, ages, clock, disk.Keys, content, height, h);
    }

    /** The size account equals the bytes held exactly if every 16-bit size sum so far stayed below
        65536 and every blob still held is shorter than that. */
    lemma AccountIsExactIff()
      requires Valid()
      ensures META in nodes
      ensures nodesSize == TrueBulk(nodes - {META}) <==>
              && (forall i :: 0 <= i < |inserted| ==> inserted[i] % 0x1_0000 < 65504)
              && (forall h :: h in nodes && h != META ==> nodes[h].blob.len < 0x1_0000)
    {
      hide Links, Threaded, Linked, Exact, DiskOk, AgesOk;
      WrapsNoneIff(inserted);
      BulkIsTrueIff(nodes - {META});
      assert forall h :: h in nodes && h != META <==> h in nodes - {META};
    }
  }

  /** A cache that holds a single blob of 65504 bytes. */
  method HoldLongBlob() returns (c: Cache)
    ensures fresh(c) && c.Valid() && c.inserted == [65504]
    ensures c.nodes.Keys == {META, 1} && c.nodes[1].blob == Blob([], 65504)
  {
    hide Cached, Cache.DiskOk, Cache.AgesOk;
    c := new Cache(map[], (h: Hash) => Blob([], 65504), (h: Hash) => 0, {});
    c.Insert(1, Blob([], 65504));
  }

  lemma LoneAccount(c: Cache)
    requires c.Valid() && c.inserted == [65504]
    ensures c.nodes.Keys == {META, 1} && c.nodes[1].blob.len == 65504 ==>
              c.nodesSize == 0 && TrueBulk(c.nodes - {META}) == 65536
    ensures c.nodes.Keys == {META} ==> c.nodesSize == -65536
  {
    hide Links, Threaded, Linked, Exact, Cache.DiskOk, Cache.AgesOk;
    assert Wraps([65504]) == 1;
    if c.nodes.Keys == {META, 1} {
      LoneBulk(c.nodes, 1);
    } else if c.nodes.Keys == {META} {
      assert c.nodes - {META} == map[];
    }
  }

  /** A single blob of 65504 bytes is accounted for as nothing, and once it has been written to disk
      and dropped, the account of the empty cache stands at minus 65536. */
  method LongBlobIsLost() returns (c: Cache, ghost held: int, ghost shown: int)
    ensures held == 65536 && shown == 0
    ensures fresh(c) && c.Valid() && c.inserted == [65504]
    ensures c.nodes.Keys == {META} && c.nodesSize == -65536
  {
    hide Cached, Cache.DiskOk, Cache.AgesOk, Wraps, Bulk, TrueBulk;
    c := HoldLongBlob();
    LoneAccount(c);
    held, shown := TrueBulk(c.nodes - {META}), c.nodesSize;
    var ok := c.Commit(1, true);
    LoneAccount(c);
  }
}
