/** From single nodes to whole tries: what the download scheduler has fetched, and what the node
    cache holds, answers every lookup as the trie does. */
module WholeTries {

  import opened Common
  import opened Hex
  import opened Rlp
  import TT = TrieTree
  import opened NodeCodec
  import opened NodeKids
  import opened Trie
  import opened Hasher
  import SyncSpec
  import Sync
  import CacheSpec
  import Database

  // ----- Stores that hold the children of what they hold

  /** No node of `t` that is referred to by hash is among the excused ones. */
  ghost predicate Clear(H: HashFn, t: TT.Tree, excused: set<nat>)
    requires Sub(t)
  {
    && (Big(H, t) ==> FromBigEndian(H(Enc(H, t))) !in excused)
    && match t
       case Short(_, val) => Clear(H, val, excused)
       case Full(kids) => forall i :: 0 <= i < |kids| ==> Clear(H, kids[i], excused)
       case _ => true
  }

  /** Whatever hash a stored node holds is stored, unless the node is excused. */
  ghost predicate Closed(st: Store, excused: set<nat>) {
    forall k, h :: k in st && FromBigEndian(k) !in excused && |h| == 32 && Refers(st[k], h) ==> h in st
  }

  ghost predicate Refers(data: Bytes, h: Bytes) {
    DecodeNode(None, data, 0).Ok? && Holds(DecodeNode(None, data, 0).value, h)
  }

  ghost predicate HoldsStored(n: Node, st: Store) {
    forall h :: |h| == 32 && Holds(n, h) ==> h in st
  }

  ghost predicate Known(H: HashFn, st: Store, t: TT.Tree, blobs: set<Bytes>, excused: set<nat>) {
    && Sub(t) && Encodable(H, t) && Covers(H, t, blobs) && Clear(H, t, excused)
    && HoldsStored(LoadedRef(H, t, 0), st)
  }

  /** In a store of that kind, all nodes below a stored node that are referred to by hash are
      stored. */
  lemma {:induction false} ClosedSaves(H: HashFn, st: Store, t: TT.Tree, blobs: set<Bytes>, excused: set<nat>)
    requires Hashes32(H) && CollisionFree(H, blobs) && Filed(H, st, blobs) && Closed(st, excused)
    requires Known(H, st, t, blobs, excused)
    ensures Saved(H, st, t)
    decreases t, 1
  {
    if Big(H, t) {
      assert Holds(LoadedRef(H, t, 0), H(Enc(H, t)));
      StoredHolds(H, st, t, excused);
    }
    ClosedSavesKids(H, st, t, blobs, excused);
  }

  /** The hashes that a stored node holds are stored. */
  lemma StoredHolds(H: HashFn, st: Store, t: TT.Tree, excused: set<nat>)
    requires Hashes32(H) && TT.Canon(t) && Encodable(H, t) && At(H, st, t) && Closed(st, excused)
    requires FromBigEndian(H(Enc(H, t))) !in excused
    ensures HoldsStored(Loaded(H, t, None, 0), st)
  {
    DecodeEncoded(H, t, None, 0, []);
    assert Enc(H, t) + [] == Enc(H, t);
    hide Holds, Loaded;
    forall h | |h| == 32 && Holds(Loaded(H, t, None, 0), h) ensures h in st {
      assert Refers(Enc(H, t), h);
    }
  }

  lemma {:induction false} ClosedSavesKids(H: HashFn, st: Store, t: TT.Tree, blobs: set<Bytes>, excused: set<nat>)
    requires Hashes32(H) && CollisionFree(H, blobs) && Filed(H, st, blobs) && Closed(st, excused)
    requires Sub(t) && Encodable(H, t) && Covers(H, t, blobs) && Clear(H, t, excused)
    requires HoldsStored(Loaded(H, t, None, 0), st)
    ensures SavedKids(H, st, t)
    decreases t, 0
  {
    hide Known, Closed, CollisionFree, Filed, Holds, Loaded, Enc, HoldsStored, Clear, Covers, Encodable;
    match t
    case Short(_, val) =>
      ValueKnown(H, st, t, blobs, excused);
      ClosedSaves(H, st, val, blobs, excused);
    case Full(kids) =>
      forall i | 0 <= i < |kids| ensures Saved(H, st, kids[i]) {
        KidKnown(H, st, t, blobs, excused, i);
        ClosedSaves(H, st, kids[i], blobs, excused);
      }
    case _ =>
  }

  lemma ValueKnown(H: HashFn, st: Store, t: TT.Tree, blobs: set<Bytes>, excused: set<nat>)
    requires Sub(t) && t.Short? && Encodable(H, t) && Covers(H, t, blobs) && Clear(H, t, excused)
    requires HoldsStored(Loaded(H, t, None, 0), st)
    ensures Known(H, st, t.val, blobs, excused)
  {
  }

  lemma KidKnown(H: HashFn, st: Store, t: TT.Tree, blobs: set<Bytes>, excused: set<nat>, i: nat)
    requires Sub(t) && t.Full? && i < |t.kids| && Encodable(H, t) && Covers(H, t, blobs) && Clear(H, t, excused)
    requires HoldsStored(Loaded(H, t, None, 0), st)
    ensures Known(H, st, t.kids[i], blobs, excused)
  {
    var n := Loaded(H, t, None, 0);
    hide Loaded;
    forall h | |h| == 32 && Holds(LoadedRef(H, t.kids[i], 0), h) ensures h in st {
      assert Holds(n.kids[i], h);
      assert Holds(n, h);
    }
  }

  /** Trie `t` can be looked up in the store, starting at its root hash. */
  ghost predicate Answers(H: HashFn, st: Store, t: TT.Tree)
    requires TT.Canon(t)
  {
    forall key ::
      && TryGet(st, 0, HashNode(H(Enc(H, t))), HexOf(key)).Ok?
      && TryGet(st, 0, HashNode(H(Enc(H, t))), HexOf(key)).value.value == TT.Lookup(t, HexOf(key))
  }

  /** What `t` and the hash function must be like for the store to be of use. */
  ghost predicate Fair(H: HashFn, st: Store, t: TT.Tree, blobs: set<Bytes>) {
    && Hashes32(H) && CollisionFree(H, blobs) && Filed(H, st, blobs)
    && TT.Canon(t) && Encodable(H, t) && Covers(H, t, blobs)
  }

  lemma ClosedAnswers(H: HashFn, st: Store, t: TT.Tree, blobs: set<Bytes>, excused: set<nat>)
    requires Fair(H, st, t, blobs) && Closed(st, excused) && Clear(H, t, excused)
    requires H(Enc(H, t)) in st && FromBigEndian(H(Enc(H, t))) !in excused
    ensures Answers(H, st, t)
  {
    assert Enc(H, t) in blobs;
    StoredHolds(H, st, t, excused);
    ClosedSavesKids(H, st, t, blobs, excused);
    hide TryGet, HexOf, HexKey, Live, SavedKids;
    forall key
      ensures TryGet(st, 0, HashNode(H(Enc(H, t))), HexOf(key)).Ok?
      ensures TryGet(st, 0, HashNode(H(Enc(H, t))), HexOf(key)).value.value == TT.Lookup(t, HexOf(key))
    {
      HexOfIsKey(key);
      GetLive(H, st, 0, HashNode(H(Enc(H, t))), t, HexOf(key), true);
    }
  }

  // ----- Downloaded tries

  /** The database by hash, the hashes read as numbers. */
  ghost predicate Mirrors(st: Store, db: map<nat, Bytes>) {
    && (forall k :: k in st ==> |k| == 32 && FromBigEndian(k) in db && st[k] == db[FromBigEndian(k)])
    && (forall k :: |k| == 32 && FromBigEndian(k) in db ==> k in st)
  }

  ghost function Reading(db: map<nat, Bytes>): (r: nat -> Bytes) {
    (x: nat) => if x in db then db[x] else []
  }

  lemma SyncedIsClosed(s: Sync.Scheduler, st: Store)
    requires s.Valid() && s.requests == map[] && s.batch == map[] && s.decode == Scan && Mirrors(st, s.database)
    ensures Closed(st, s.skipped + s.excused)
  {
    hide Sync.Scheduler.Inside, Scan, Refers;
    forall k, h | k in st && FromBigEndian(k) !in s.skipped + s.excused && |h| == 32 && Refers(st[k], h)
      ensures h in st
    {
      ReferredIsKid(st[k], h);
      if FromBigEndian(h) !in s.database {
        s.MissingChildIsExcused(FromBigEndian(k), FromBigEndian(h), Reading(s.database));
      }
    }
  }

  lemma ReferredIsKid(data: Bytes, h: Bytes)
    requires Refers(data, h)
    ensures SyncSpec.KidOf(data, FromBigEndian(h), Scan)
  {
    NoHashMissed(data, h);
  }

  /** A trie whose download has finished and been written answers every lookup, as long as none of
      its nodes was excused from being looked into. */
  lemma SyncedTrieAnswers(s: Sync.Scheduler, H: HashFn, st: Store, t: TT.Tree, blobs: set<Bytes>)
    requires s.Valid() && s.requests == map[] && s.batch == map[] && s.decode == Scan && Mirrors(st, s.database)
    requires Fair(H, st, t, blobs) && FromBigEndian(H(Enc(H, t))) in s.roots
    requires Clear(H, t, s.skipped + s.excused) && FromBigEndian(H(Enc(H, t))) !in s.skipped + s.excused
    ensures Answers(H, st, t)
  {
    hide Sync.Scheduler.Inside, Scan, Answers, Clear, Enc;
    var root := FromBigEndian(H(Enc(H, t)));
    SyncedIsClosed(s, st);
    s.NothingPendingNothingMissing([root], Reading(s.database));
    assert |H(Enc(H, t))| == 32;
    ClosedAnswers(H, st, t, blobs, s.skipped + s.excused);
  }

  // ----- Cached and committed tries

  /** What the cache and its disk can serve, and the hashes in it. */
  ghost predicate Serves(c: Database.Cache, st: Store)
    reads c
  {
    && (forall k :: k in st ==> |k| == 32 && FromBigEndian(k) != CacheSpec.META && c.Node(FromBigEndian(k)).Some?)
    && (forall k :: |k| == 32 && FromBigEndian(k) != CacheSpec.META && c.Node(FromBigEndian(k)).Some? ==> k in st)
    && (forall k, h :: k in st && Refers(st[k], h) ==> FromBigEndian(h) in c.content(FromBigEndian(k)).kids)
  }

  lemma ServedIsClosed(c: Database.Cache, st: Store)
    requires c.Valid() && Serves(c, st)
    ensures Closed(st, {})
  {
    hide CacheSpec.Cached, Database.Cache.DiskOk, Database.Cache.AgesOk, Refers;
    forall k, h | k in st && |h| == 32 && Refers(st[k], h) ensures h in st {
      c.ReferencedTrieIsWhole([FromBigEndian(k), FromBigEndian(h)]);
    }
  }

  /** Whatever has been inserted, referenced, released, flushed or committed: a trie whose root is
      referenced, cached or on disk answers every lookup. */
  lemma ServedTrieAnswers(c: Database.Cache, H: HashFn, st: Store, t: TT.Tree, blobs: set<Bytes>)
    requires c.Valid() && Serves(c, st) && Fair(H, st, t, blobs) && CacheSpec.META in c.nodes
    requires
      var root := FromBigEndian(H(Enc(H, t)));
      root != CacheSpec.META && (root in c.nodes[CacheSpec.META].children || root in c.nodes || root in c.disk)
    ensures Answers(H, st, t)
  {
    hide CacheSpec.Cached, Database.Cache.DiskOk, Database.Cache.AgesOk, Refers, Answers, Enc;
    ServedIsClosed(c, st);
    c.ReferencedTrieIsWhole([FromBigEndian(H(Enc(H, t)))]);
    NoneExcused(H, t);
    assert |H(Enc(H, t))| == 32;
    ClosedAnswers(H, st, t, blobs, {});
  }

  lemma {:induction false} NoneExcused(H: HashFn, t: TT.Tree)
    requires Sub(t)
    ensures Clear(H, t, {})
  {
    match t
    case Short(_, val) => NoneExcused(H, val);
    case Full(kids) =>
      forall i | 0 <= i < |kids| ensures Clear(H, kids[i], {}) {
        NoneExcused(H, kids[i]);
      }
    case _ =>
  }

  // ----- A raw request that hides a child of a real node

  /** The encoding of an extension node with one nibble and a hash. */
  function Extension(h: Bytes): (r: Bytes) {
    Encode(Item.List([Str(Compact([1])), Str(h)]))
  }

  lemma ExtensionItems(h: Bytes)
    requires |h| == 32
    ensures
      var a, b := Str(Compact([1])), Str(h);
      && EncodeAll([a, b]) == Encode(a) + Encode(b) && |Encode(a)| == 1 && |Encode(b)| == 33
      && |Extension(h)| == 35 && Compact([1]) == [17] && CompactToHex([17]) == [1]
  {
    var a, b := Str(Compact([1])), Str(h);
    assert Nibbles([1]) && !HasTerm([1]);
    assert Compact([1]) == [17];
    CompactRoundTrip([1]);
    TwoItems(a, b);
    assert EncodeAll([a, b]) == Encode(a) + Encode(b);
  }

  lemma ExtensionDecodes(h: Bytes)
    requires |h| == 32
    ensures DecodeNode(None, Extension(h), 0) == Ok(ShortNode([1], HashNode(h), Flags(None, 0, false)))
  {
    var a, b := Str(Compact([1])), Str(h);
    ExtensionItems(h);
    hide Encode, EncodeAll, Split, Count, Compact, CompactToHex, HasTerm;
    SplitEncoded(Item.List([a, b]), []);
    assert Extension(h) + [] == Extension(h);
    CountEncoded([a, b]);
    SplitEncoded(a, Encode(b));
    SplitEncoded(b, []);
    assert Encode(b) + [] == Encode(b);
    assert DecodeRef(Encode(b), 0) == Ok(Decoded(HashNode(h), []));
  }

  lemma ExtensionScans(h: Bytes)
    requires |h| == 32
    ensures Scan(Extension(h)) == Some([SyncSpec.Kid(FromBigEndian(h), 1)])
    ensures SyncSpec.KidOf(Extension(h), FromBigEndian(h), Scan)
  {
    hide Extension, DecodeNode;
    ExtensionDecodes(h);
    assert Scan(Extension(h)).value[0].hash == FromBigEndian(h);
  }

  lemma ExtensionNames(s: Sync.Scheduler, t: nat, h: Bytes)
    requires |h| == 32 && s.decode == Scan
    ensures s.Named(Sync.Delivery(t, Extension(h), [], false)) == {FromBigEndian(h)}
    ensures s.decode(Extension(h)).Some?
  {
    ExtensionScans(h);
    hide Scan, Extension;
  }

  /** Hash numbers: the empty trie, empty code, a leaf, the extension node above it, and the one
      above that. */
  ghost function Numbers(H: HashFn, leaf: Bytes): (r: seq<nat>)
    ensures |r| == 5
  {
    var low := Extension(leaf);
    var top := Extension(H(low));
    [FromBigEndian(EmptyRoot(H)), FromBigEndian(H([])), FromBigEndian(leaf), FromBigEndian(H(low)),
     FromBigEndian(H(top))]
  }

  lemma NumbersDiffer(H: HashFn, leaf: Bytes, noTrie: nat, noCode: nat, n: nat, l: nat, t: nat)
    requires forall i, j :: 0 <= i < j < 5 ==> Numbers(H, leaf)[i] != Numbers(H, leaf)[j]
    requires Numbers(H, leaf) == [noTrie, noCode, n, l, t]
    ensures n != noTrie && l !in {noTrie, noCode, n} && t !in {noTrie, noCode, n, l}
  {
    hide Numbers;
    var s := Numbers(H, leaf);
    assert s[0] != s[2] && s[0] != s[3] && s[1] != s[3] && s[2] != s[3];
    assert s[0] != s[4] && s[1] != s[4] && s[2] != s[4] && s[3] != s[4];
  }

  /** Two extension nodes, one below the other, and a hash `leaf` below both. The lower one is first
      asked for as a raw entry. Then the trie is complete as far as the scheduler can tell, and
      `leaf` is missing. */
  method RawEntryHidesNode(H: HashFn, leaf: Bytes) returns (s: Sync.Scheduler)
    requires Hashes32(H) && |leaf| == 32
    requires forall i, j :: 0 <= i < j < 5 ==> Numbers(H, leaf)[i] != Numbers(H, leaf)[j]
    ensures fresh(s) && s.Valid() && s.requests == map[] && s.decode == Scan
    ensures Numbers(H, leaf)[4] in s.roots && Numbers(H, leaf)[4] in s.Stored()
    ensures SyncSpec.KidOf(Extension(H(Extension(leaf))), Numbers(H, leaf)[3], Scan) &&
      Numbers(H, leaf)[3] in s.Stored()
    ensures SyncSpec.KidOf(Extension(leaf), Numbers(H, leaf)[2], Scan) && Numbers(H, leaf)[2] !in s.Touched()
  {
    hide Sync.Scheduler.Inside, Scan, Extension, SyncSpec.KidOf, Sync.Scheduler.Named, FromBigEndian, SyncSpec.Extended;
    var low := Extension(leaf);
    var top := Extension(H(low));
    ExtensionScans(leaf);
    ExtensionScans(H(low));
    var noTrie, noCode := FromBigEndian(EmptyRoot(H)), FromBigEndian(H([]));
    var n, l, t := FromBigEndian(leaf), FromBigEndian(H(low)), FromBigEndian(H(top));
    assert Numbers(H, leaf) == [noTrie, noCode, n, l, t];
    NumbersDiffer(H, leaf, noTrie, noCode, n, l, t);
    hide Numbers;
    s := new Sync.Scheduler(noTrie, map[], Scan, noTrie, noCode, {}, {});
    Sync.RawRequestHidesChild(s, l, low, n);
    ExtensionNames(s, t, H(low));
    Sync.FetchAbove(s, t, top);
  }
}
