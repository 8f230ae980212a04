/** Main results about the trie: whole runs refine a map, committing loses nothing, and the
    root hash stands for the mapping. */
module TrieTheorems {
  import opened Common
  import opened Hex
  import TT = TrieTree
  import Rlp
  import opened NodeCodec
  import opened Trie
  import opened Hasher
  import opened TrieApi

  // ----- Runs

  datatype Op = DoGet(key: Bytes) | DoUpdate(write: TT.Write) | DoHash | DoCommit

  function Writes(ops: seq<Op>): (r: seq<TT.Write>) {
    if ops == [] then []
    else
      var init, op := Writes(ops[..|ops| - 1]), ops[|ops| - 1];
      if op.DoUpdate? then init + [op.write] else init
  }

  /** What a lookup must answer after the writes `ws`. */
  function Answer(ws: seq<TT.Write>, key: Bytes): (r: Option<Bytes>) {
    if key in TT.Mapping(ws) then Some(TT.Mapping(ws)[key]) else None
  }

  /** Nodes of every trie along the run can be encoded, and their hashes do not collide. */
  ghost predicate Sound(H: HashFn, ops: seq<Op>, blobs: set<Bytes>) {
    && Hashes32(H) && CollisionFree(H, blobs)
    && forall i :: 0 <= i <= |ops| ==>
         Encodable(H, TT.Run(Writes(ops[..i]))) && Covers(H, TT.Run(Writes(ops[..i])), blobs)
  }

  /** Writes after one more operation. */
  function After(ws: seq<TT.Write>, op: Op): (r: seq<TT.Write>) {
    if op.DoUpdate? then ws + [op.write] else ws
  }

  /** One operation on a trie that represents the outcome of the writes `ws`. */
  method Perform(trie: MerkleTrie, op: Op, ghost ws: seq<TT.Write>,
                 ghost blobs: set<Bytes>) returns (answer: Option<Bytes>)
    requires trie.Represents(TT.Run(ws)) && Filed(trie.H, trie.store, blobs)
    requires CollisionFree(trie.H, blobs) && Covers(trie.H, TT.Run(ws), blobs)
    requires Encodable(trie.H, TT.Run(After(ws, op)))
    modifies trie
    ensures trie.Represents(TT.Run(After(ws, op))) && Filed(trie.H, trie.store, blobs)
    ensures op.DoGet? ==> answer == Answer(ws, op.key)
  {
    hide Filed, CollisionFree, Hashes32, TT.WellFormed;
    answer := None;
    match op {
      case DoGet(key) =>
        var r := trie.Get(key);
        TT.RunLookup(ws, key);
        answer := r.value;
      case DoUpdate(w) =>
        assert (ws + [w])[..|ws|] == ws;
        var fault := trie.Update(w.key, w.value);
      case DoHash =>
        var h := trie.Hash();
      case DoCommit =>
        var h := trie.Commit();
    }
  }

  /** Any run of lookups, updates, deletions, hashing and committing on an empty trie: no
      operation fails, each lookup answers with the last non-empty value written to its key,
      and the trie ends up representing the tree that the writes alone determine. */
  method Replay(trie: MerkleTrie, ops: seq<Op>, ghost blobs: set<Bytes>) returns (answers: seq<Option<Bytes>>)
    requires trie.root == NilNode && Filed(trie.H, trie.store, blobs) && Sound(trie.H, ops, blobs)
    modifies trie
    ensures trie.Represents(TT.Run(Writes(ops)))
    ensures |answers| == |ops|
    ensures forall i :: 0 <= i < |ops| && ops[i].DoGet? ==> answers[i] == Answer(Writes(ops[..i]), ops[i].key)
  {
    answers := [];
    assert ops[..0] == [];
    assert trie.Represents(TT.Run(Writes(ops[..0])));
    hide MerkleTrie.Represents, Filed, CollisionFree, Answer;
    var i := 0;
    while i < |ops|
      invariant i <= |ops| && |answers| == i
      invariant trie.Represents(TT.Run(Writes(ops[..i]))) && Filed(trie.H, trie.store, blobs)
      invariant forall j :: 0 <= j < i && ops[j].DoGet? ==> answers[j] == Answer(Writes(ops[..j]), ops[j].key)
    {
      assert ops[..i + 1][..i] == ops[..i];
      var answer := Perform(trie, ops[i], Writes(ops[..i]), blobs);
      answers := answers + [answer];
      i := i + 1;
    }
    assert ops[..|ops|] == ops;
  }

  // ----- Commit and reload

  /** A non-empty trie never hashes to the root of the empty one. */
  lemma NotEmptyRoot(H: HashFn, t: TT.Tree, blobs: set<Bytes>)
    requires TT.Canon(t) && Covers(H, t, blobs) && CollisionFree(H, blobs) && Rlp.Encode(Rlp.Str([])) in blobs
    ensures H(Enc(H, t)) != EmptyRoot(H)
  {
    var it := NodeItem(H, t);
    assert it.List?;
    assert Rlp.Encode(Rlp.Str([]))[0] == 0x80;
  }

  /** After a commit, a trie opened at the returned root represents the same tree and so gives
      the same answer for every key. */
  lemma CommitThenReload(H: HashFn, cfg: Config, root: Node, st: Store, t: TT.Tree, blobs: set<Bytes>, key: Bytes)
    requires cfg.write && Hashes32(H) && TT.WellFormed(t) && Encodable(H, t) && Live(H, st, root, t, true)
    requires CollisionFree(H, blobs) && Filed(H, st, blobs) && Covers(H, t, blobs)
    requires Rlp.Encode(Rlp.Str([])) in blobs && (t.Nil? || H(Enc(H, t)) != ZERO_HASH)
    ensures
      var r := HashRoot(H, cfg, root, st);
      && OpenRoot(H, r.hash, r.store).Ok?
      && Live(H, r.store, OpenRoot(H, r.hash, r.store).value, t, true)
      && TryGet(r.store, 0, OpenRoot(H, r.hash, r.store).value, HexOf(key)).Ok?
      && TryGet(r.store, 0, OpenRoot(H, r.hash, r.store).value, HexOf(key)).value.value == TT.Lookup(t, HexOf(key))
  {
    var r := HashRoot(H, cfg, root, st);
    HashRootLive(H, cfg, root, st, t, blobs);
    HexOfIsKey(key);
    if !t.Nil? {
      NotEmptyRoot(H, t, blobs);
      ResolveLive(H, r.store, r.hash, t, true, 0);
    }
    GetLive(H, r.store, 0, OpenRoot(H, r.hash, r.store).value, t, HexOf(key), true);
  }

  // ----- The root hash determines the tree

  /** A loaded node tells the whole tree, as long as hashes tell nodes apart. */
  lemma {:induction false} LoadedInjective(H: HashFn, a: TT.Tree, b: TT.Tree, blobs: set<Bytes>)
    requires Hashes32(H) && CollisionFree(H, blobs)
    requires TT.Canon(a) && Encodable(H, a) && Covers(H, a, blobs)
    requires TT.Canon(b) && Encodable(H, b) && Covers(H, b, blobs)
    requires Loaded(H, a, None, 0) == Loaded(H, b, None, 0)
    ensures a == b
    decreases a, 0
  {
    CanonParts(a);
    CanonParts(b);
    match a
    case Short(_, val) =>
      LoadedRefInjective(H, val, b.val, blobs);
    case Full(kids) =>
      var la, lb := LoadedKids(H, kids, 0), LoadedKids(H, b.kids, 0);
      forall i | 0 <= i < 17 ensures kids[i] == b.kids[i] {
        assert la[i] == lb[i];
        LoadedRefInjective(H, kids[i], b.kids[i], blobs);
      }
      assert kids == b.kids;
    case _ =>
  }

  lemma {:induction false} LoadedRefInjective(H: HashFn, a: TT.Tree, b: TT.Tree, blobs: set<Bytes>)
    requires Hashes32(H) && CollisionFree(H, blobs)
    requires Sub(a) && Encodable(H, a) && Covers(H, a, blobs)
    requires Sub(b) && Encodable(H, b) && Covers(H, b, blobs)
    requires LoadedRef(H, a, 0) == LoadedRef(H, b, 0)
    ensures a == b
    decreases a, 1
  {
    if Big(H, a) {
      assert Enc(H, a) == Enc(H, b);
      DecodeEncoded(H, a, None, 0, []);
      DecodeEncoded(H, b, None, 0, []);
      LoadedInjective(H, a, b, blobs);
    } else if TT.Canon(a) {
      LoadedInjective(H, a, b, blobs);
    }
  }

  /** Equal root hashes mean equal tries. */
  lemma RootHashInjective(H: HashFn, a: TT.Tree, b: TT.Tree, blobs: set<Bytes>)
    requires Hashes32(H) && CollisionFree(H, blobs) && Rlp.Encode(Rlp.Str([])) in blobs
    requires TT.WellFormed(a) && Encodable(H, a) && Covers(H, a, blobs)
    requires TT.WellFormed(b) && Encodable(H, b) && Covers(H, b, blobs)
    ensures TreeHash(H, a) == TreeHash(H, b) <==> a == b
  {
    if TreeHash(H, a) == TreeHash(H, b) {
      if !a.Nil? {
        NotEmptyRoot(H, a, blobs);
      }
      if !b.Nil? {
        NotEmptyRoot(H, b, blobs);
      }
      if !a.Nil? && !b.Nil? {
        assert Enc(H, a) == Enc(H, b);
        DecodeEncoded(H, a, None, 0, []);
        DecodeEncoded(H, b, None, 0, []);
        LoadedInjective(H, a, b, blobs);
      }
    }
  }

  /** Two tries, each brought about by its own run and in whatever state of loading, hash alike
      if and only if their runs left the same mapping. */
  lemma RootHashStandsForMapping(H: HashFn, cfg: Config, m: Node, n: Node, st: Store, ws: seq<TT.Write>,
                                 us: seq<TT.Write>, blobs: set<Bytes>)
    requires Hashes32(H) && CollisionFree(H, blobs) && Rlp.Encode(Rlp.Str([])) in blobs && Filed(H, st, blobs)
    requires Encodable(H, TT.Run(ws)) && Covers(H, TT.Run(ws), blobs) && Live(H, st, m, TT.Run(ws), true)
    requires Encodable(H, TT.Run(us)) && Covers(H, TT.Run(us), blobs) && Live(H, st, n, TT.Run(us), true)
    ensures HashRoot(H, cfg, m, st).hash == HashRoot(H, cfg, n, st).hash <==> TT.Mapping(ws) == TT.Mapping(us)
  {
    HashRootLive(H, cfg, m, st, TT.Run(ws), blobs);
    HashRootLive(H, cfg, n, st, TT.Run(us), blobs);
    RootHashInjective(H, TT.Run(ws), TT.Run(us), blobs);
    TT.HistoryIndependence(ws, us);
  }
}
