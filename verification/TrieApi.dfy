/** The trie object, what its methods do to the mapping it represents, and what its root hash
    says about that mapping. */
module TrieApi {
  import opened Common
  import opened Hex
  import TT = TrieTree
  import opened NodeCodec
  import opened Trie
  import opened Hasher

  const ZERO_HASH: Bytes :=
    [0, 0, 0, 0, 0, 0, 0, 0, 0, 0, 0, 0, 0, 0, 0, 0, 0, 0, 0, 0, 0, 0, 0, 0, 0, 0, 0, 0, 0, 0, 0, 0]

  /** Root node of a trie opened at a root hash. */
  function OpenRoot(H: HashFn, root: Bytes, st: Store): (r: Result<Node, Fault>) {
    if root == ZERO_HASH || root == EmptyRoot(H) then Ok(NilNode) else ResolveHash(st, root, 0)
  }

  /** Both the zero hash and the hash of the empty trie open an empty trie. */
  lemma EmptyRoots(H: HashFn, st: Store)
    ensures OpenRoot(H, seq(32, _ => 0), st) == Ok(NilNode) && OpenRoot(H, H([0x80]), st) == Ok(NilNode)
  {
    assert ZERO_HASH == seq(32, _ => 0);
    EmptyRootIs(H);
  }

  class MerkleTrie {
    const H: HashFn
    var store: Store
    var root: Node
    var cachegen: nat
    var cachelimit: nat

    /** The trie represents `t`, and every node of it can be encoded. */
    ghost predicate Represents(t: TT.Tree)
      reads this
    {
      Hashes32(H) && TT.WellFormed(t) && Encodable(H, t) && Live(H, store, root, t, true)
    }

    constructor (h: HashFn, st: Store, r: Node, limit: nat)
      ensures H == h && store == st && root == r && cachegen == 0 && cachelimit == limit
    {
      H, store, root, cachegen, cachelimit := h, st, r, 0, limit;
    }

    /** Looks a key up. Nodes loaded on the way are kept, which changes nothing about what the
        trie represents; after a fault nothing has changed at all. */
    method Get(key: Bytes) returns (r: Result<Option<Bytes>, Fault>)
      modifies this`root
      ensures r.Err? ==> root == old(root)
      ensures forall t :: old(Represents(t)) ==> Represents(t) && r == Ok(TT.Lookup(t, HexOf(key)))
    {
      var k := KeybytesToHex(key);
      HexOfIsKey(key);
      var g := TryGet(store, cachegen, root, k);
      match g {
        case Err(e) => r := Err(e);
        case Ok(got) =>
          r := Ok(got.value);
          if got.resolved {
            root := got.node;
          }
      }
      forall t | old(Represents(t)) ensures Represents(t) && r == Ok(TT.Lookup(t, HexOf(key))) {
        GetLive(H, store, cachegen, old(root), t, k, true);
      }
    }

    /** Sets a key, or deletes it when the value is empty. */
    method Update(key: Bytes, value: Bytes) returns (fault: Option<Fault>)
      modifies this`root
      ensures fault.Some? ==> root == old(root)
      ensures forall t :: old(Represents(t)) ==>
                fault == None && Live(H, store, root, TT.Apply(t, TT.Write(key, value)), true)
    {
      var k := KeybytesToHex(key);
      HexOfIsKey(key);
      var r :=
        if |value| != 0 then Insert(store, cachegen, root, k, ValueNode(value))
        else Trie.Delete(store, cachegen, root, k);
      match r {
        case Err(e) => fault := Some(e);
        case Ok(c) =>
          fault := None;
          root := c.node;
      }
      forall t | old(Represents(t))
        ensures fault == None && Live(H, store, root, TT.Apply(t, TT.Write(key, value)), true)
      {
        if |value| != 0 {
          InsertLive(H, store, cachegen, old(root), t, k, value, true);
        } else {
          DeleteLive(H, store, cachegen, old(root), t, k, true);
        }
      }
    }

    method Delete(key: Bytes) returns (fault: Option<Fault>)
      modifies this`root
      ensures fault.Some? ==> root == old(root)
      ensures forall t :: old(Represents(t)) ==>
                fault == None && Live(H, store, root, TT.Apply(t, TT.Write(key, [])), true)
    {
      fault := Update(key, []);
    }

    /** Root hash, without writing anything. */
    method Hash() returns (h: Bytes)
      modifies this`root
      ensures forall t, blobs ::
                old(Represents(t)) && CollisionFree(H, blobs) && Filed(H, store, blobs) && Covers(H, t, blobs) ==>
                && Represents(t) && h == TreeHash(H, t)
                && (TT.Canon(t) ==> exists blob :: BlobOf(H, t, blob) && h == H(blob))
    {
      var cfg := Config(cachegen, cachelimit, false);
      var r := HashRoot(H, cfg, root, store);
      ghost var before := root;
      h, root := r.hash, r.root;
      forall t, blobs | old(Represents(t)) && CollisionFree(H, blobs) && Filed(H, store, blobs) && Covers(H, t, blobs)
        ensures Represents(t) && h == TreeHash(H, t)
        ensures TT.Canon(t) ==> exists blob :: BlobOf(H, t, blob) && h == H(blob)
      {
        if TT.Canon(t) {
          EncIsBlob(H, t);
        }
        HashRootLive(H, cfg, before, store, t, blobs);
        NoWriteKeepsStore(H, cfg, before, store);
      }
    }

    /** Writes every new node to the store and starts the next cache generation. Afterwards the
        whole trie can be loaded from the store by its root hash. */
    method Commit() returns (h: Bytes)
      modifies this`root, this`store, this`cachegen
      ensures cachegen == (old(cachegen) + 1) % 65536
      ensures forall t, blobs ::
                old(Represents(t)) && CollisionFree(H, blobs) && old(Filed(H, store, blobs)) && Covers(H, t, blobs) ==>
                && Represents(t) && h == TreeHash(H, t) && Grown(old(store), store) && Filed(H, store, blobs)
                && (!t.Nil? ==> Live(H, store, HashNode(h), t, true))
                && Written(H, old(store), store, t)
    {
      var cfg := Config(cachegen, cachelimit, true);
      var r := HashRoot(H, cfg, root, store);
      ghost var before, st := root, store;
      h, root, store := r.hash, r.root, r.store;
      cachegen := (cachegen + 1) % 65536;
      forall t, blobs | old(Represents(t)) && CollisionFree(H, blobs) && old(Filed(H, store, blobs)) &&
        Covers(H, t, blobs)
        ensures
          && Represents(t) && h == TreeHash(H, t) && Grown(old(store), store) && Filed(H, store, blobs)
          && (!t.Nil? ==> Live(H, store, HashNode(h), t, true))
          && Written(H, old(store), store, t)
      {
        HashRootLive(H, cfg, before, st, t, blobs);
        HashRootWrites(H, cfg, before, st, t, blobs);
      }
    }
  }

  lemma {:induction false} HashKeepsStore(H: HashFn, cfg: Config, n: Node, st: Store, force: bool)
    requires !cfg.write
    ensures Hasher.Hash(H, cfg, n, st, force).store == st
    decreases n, 1
  {
    match n
    case ShortNode(_, val, _) => HashKeepsStore(H, cfg, val, st, false);
    case FullNode(kids, _) =>
      if |kids| == 17 {
        HashKidsKeepStore(H, cfg, kids[..16], st);
      }
    case _ =>
  }

  lemma {:induction false} HashKidsKeepStore(H: HashFn, cfg: Config, kids: seq<Node>, st: Store)
    requires !cfg.write
    ensures HashKids(H, cfg, kids, st).store == st
    decreases kids, 2
  {
    if kids != [] {
      HashKeepsStore(H, cfg, kids[0], st, false);
      HashKidsKeepStore(H, cfg, kids[1..], st);
    }
  }

  lemma NoWriteKeepsStore(H: HashFn, cfg: Config, root: Node, st: Store)
    requires !cfg.write
    ensures HashRoot(H, cfg, root, st).store == st
  {
    HashKeepsStore(H, cfg, root, st, true);
  }
}
