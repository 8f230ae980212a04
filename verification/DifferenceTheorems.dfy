/** What the difference iteration over two tries meets. */
module DifferenceTheorems {

  import opened Common
  import opened Hex
  import opened NodeCodec
  import opened Hasher
  import opened TrieApi
  import opened TrieTheorems
  import opened Walk
  import opened Difference
  import Iterator
  import TT = TrieTree
  import Rlp

  /** The hash that an iterator has for a node: that of the root, and those of nodes that are
      referred to by hash. */
  ghost function NodeHash(H: HashFn, v: Visit): (r: Bytes) {
    if TT.Canon(v.node) && (v.path == [] || Big(H, v.node)) then H(Enc(H, v.node)) else ZERO_HASH
  }

  ghost predicate HashedBy(hash: VisitHash, H: HashFn, vs: seq<Visit>) {
    forall i :: 0 <= i < |vs| ==> hash(vs[i]) == NodeHash(H, vs[i])
  }

  /** All nodes are fit for hashing. */
  ghost predicate Hashable(H: HashFn, vs: seq<Visit>, blobs: set<Bytes>) {
    forall i :: 0 <= i < |vs| ==> Sub(vs[i].node) && Encodable(H, vs[i].node) && Covers(H, vs[i].node, blobs)
  }

  lemma {:induction false} PreHashable(H: HashFn, t: TT.Tree, p: Bytes, blobs: set<Bytes>)
    requires Sub(t) && Encodable(H, t) && Covers(H, t, blobs)
    ensures Hashable(H, Pre(t, p), blobs)
    decreases t, 18
  {
    if !t.Nil? {
      UnderHashable(H, t, p, 0, blobs);
    }
  }

  lemma {:induction false} UnderHashable(H: HashFn, t: TT.Tree, p: Bytes, i: nat, blobs: set<Bytes>)
    requires Sub(t) && Encodable(H, t) && Covers(H, t, blobs)
    ensures Hashable(H, Under(t, p, i), blobs)
    decreases t, if i <= 17 then 17 - i else 0
  {
    match t
    case Short(k, val) =>
      if i == 0 { PreHashable(H, val, p + k, blobs); }
    case Full(kids) =>
      if i < 17 {
        PreHashable(H, kids[i], p + [i as Byte], blobs);
        UnderHashable(H, t, p, i + 1, blobs);
      }
    case _ =>
  }

  /** Leaves are the nodes whose path is terminated. */
  lemma {:induction false} PreLeafByPath(t: TT.Tree, p: Bytes)
    requires TT.Canon(t) && Nibbles(p)
    ensures LeafByPath(Pre(t, p))
    decreases t, 18
  {
    UnderLeafByPath(t, p, 0);
  }

  lemma {:induction false} UnderLeafByPath(t: TT.Tree, p: Bytes, i: nat)
    requires TT.Canon(t) && Nibbles(p)
    ensures LeafByPath(Under(t, p, i))
    decreases t, if i <= 17 then 17 - i else 0
  {
    match t
    case Short(k, val) =>
      if i == 0 {
        if HasTerm(k) {
          assert Pre(val, p + k) == [Visit(p + k, val)];
        } else {
          PreLeafByPath(val, p + k);
        }
      }
    case Full(kids) =>
      if i < 17 {
        UnderLeafByPath(t, p, i + 1);
        if i < 16 && !kids[i].Nil? {
          PreLeafByPath(kids[i], p + [i as Byte]);
        } else if !kids[i].Nil? {
          assert Pre(kids[i], p + [i as Byte]) == [Visit(p + [i as Byte], kids[i])];
        }
      }
  }

  /** Equal hashes at the same path mean equal nodes. */
  lemma VisitsFaithful(H: HashFn, hash: VisitHash, a: seq<Visit>, b: seq<Visit>, blobs: set<Bytes>)
    requires Hashes32(H) && CollisionFree(H, blobs) && Rlp.Encode(Rlp.Str([])) in blobs
    requires Hashable(H, a, blobs) && Hashable(H, b, blobs) && HashedBy(hash, H, a) && HashedBy(hash, H, b)
    ensures Faithful(hash, ZERO_HASH, a, b)
  {
    forall i, j | 0 <= i < |a| && 0 <= j < |b| && a[i].path == b[j].path && hash(a[i]) == hash(b[j])
      ensures hash(a[i]) == ZERO_HASH || a[i].node == b[j].node
    {
      if hash(a[i]) != ZERO_HASH {
        RootHashInjective(H, a[i].node, b[j].node, blobs);
      }
    }
  }

  lemma WholeReady(H: HashFn, t: TT.Tree, blobs: set<Bytes>)
    requires TT.WellFormed(t) && Encodable(H, t) && Covers(H, t, blobs)
    ensures Shaped(t)
    ensures Ascending(Whole(t)) && LeafByPath(Whole(t)) && Nested(Whole(t)) && Hashable(H, Whole(t), blobs)
  {
    if !t.Nil? {
      CanonIsShaped(t);
      PreLeafByPath(t, []);
      PreNested(t, []);
      PreHashable(H, t, [], blobs);
    }
    WholeAscending(t);
  }

  /** The leaves that the difference iteration over two tries meets are exactly what the second
      trie holds and the first does not, although equal subtrees are skipped, and each is met once. */
  lemma DifferenceIsExact(H: HashFn, hash: VisitHash, a: TT.Tree, b: TT.Tree, blobs: set<Bytes>, p: Bytes, v: Bytes)
    requires Hashes32(H) && CollisionFree(H, blobs) && Rlp.Encode(Rlp.Str([])) in blobs
    requires TT.WellFormed(a) && Encodable(H, a) && Covers(H, a, blobs) && HashedBy(hash, H, Whole(a))
    requires TT.WellFormed(b) && Encodable(H, b) && Covers(H, b, blobs) && HashedBy(hash, H, Whole(b))
    ensures LeafIn(Diff(hash, ZERO_HASH, Whole(a), Whole(b)), p, v) <==>
      TT.Lookup(b, p) == Some(v) && TT.Lookup(a, p) != Some(v)
    ensures Ascending(Diff(hash, ZERO_HASH, Whole(a), Whole(b)))
  {
    WholeReady(H, a, blobs);
    WholeReady(H, b, blobs);
    hide Ascending, LeafByPath, Nested, Hashable, HashedBy, Faithful;
    VisitsFaithful(H, hash, Whole(a), Whole(b), blobs);
    DiffLeaves(hash, ZERO_HASH, Whole(a), Whole(b), Visit(p, TT.Value(v)));
    DiffAscending(hash, ZERO_HASH, Whole(a), Whole(b));
    WholeLeaves(a, p, v);
    WholeLeaves(b, p, v);
  }

  /** A whole run over two tries yields, in order and each once, what the second holds and the first
      does not. */
  method IterateDifference(H: HashFn, hash: VisitHash, a: TT.Tree, b: TT.Tree,
                           ghost blobs: set<Bytes>) returns (r: seq<Visit>)
    requires Hashes32(H) && CollisionFree(H, blobs) && Rlp.Encode(Rlp.Str([])) in blobs
    requires TT.WellFormed(a) && Encodable(H, a) && Covers(H, a, blobs) && HashedBy(hash, H, Whole(a))
    requires TT.WellFormed(b) && Encodable(H, b) && Covers(H, b, blobs) && HashedBy(hash, H, Whole(b))
    ensures forall p, v :: LeafIn(r, p, v) <==> TT.Lookup(b, p) == Some(v) && TT.Lookup(a, p) != Some(v)
    ensures Ascending(r)
  {
    WholeReady(H, a, blobs);
    WholeReady(H, b, blobs);
    hide Ascending, LeafByPath, Nested, Hashable, HashedBy, Diff, LeafIn, Shaped, Under;
    var first := new Iterator.NodeIterator(a);
    var second := new Iterator.NodeIterator(b);
    var it := new DifferenceIterator(first, second, hash, ZERO_HASH);
    r := Drain(it);
    DifferenceIsExact(H, hash, a, b, blobs, [], []);
    forall p, v ensures LeafIn(r, p, v) <==> TT.Lookup(b, p) == Some(v) && TT.Lookup(a, p) != Some(v) {
      DifferenceIsExact(H, hash, a, b, blobs, p, v);
    }
  }
}
