/** Collapsing a trie into its hash: children are replaced by their hashes from the bottom up,
    and in commit mode every hashed node is put into the node store. */
module Hasher {
  import opened Common
  import opened Hex
  import TT = TrieTree
  import Rlp
  import opened NodeCodec
  import opened Trie

  /** Generation and limit decide which clean nodes are dropped from memory on commit. */
  datatype Config = Config(gen: nat, limit: nat, write: bool)

  /** Generations are 16-bit counters, so their difference wraps around. */
  predicate CanUnload(f: Flags, cfg: Config) {
    !f.dirty && (cfg.gen - f.gen) % 65536 >= cfg.limit
  }

  function FlagsOf(n: Node): (f: Flags) {
    match n
    case ShortNode(_, _, f) => f
    case FullNode(_, f) => f
    case _ => Flags(None, 0, true)
  }

  function SetFlags(n: Node, f: Flags): (r: Node) {
    match n
    case ShortNode(k, val, _) => ShortNode(k, val, f)
    case FullNode(kids, _) => FullNode(kids, f)
    case _ => n
  }

  // ----- Collapsed nodes: keys are compact, children are hashes or embedded

  /** What the memory cache keeps of a collapsed node: the data without the flags. */
  datatype Raw =
    | RawNil
    | RawValue(v: Bytes)
    | RawHash(h: Bytes)
    | RawShort(key: Bytes, val: Raw)
    | RawFull(kids: seq<Raw>)

  function Simplify(n: Node): (r: Raw) {
    match n
    case NilNode => RawNil
    case ValueNode(v) => RawValue(v)
    case HashNode(h) => RawHash(h)
    case ShortNode(k, val, _) => RawShort(k, Simplify(val))
    case FullNode(kids, _) => RawFull(SimplifyAll(kids))
  }

  function SimplifyAll(kids: seq<Node>): (r: seq<Raw>)
    ensures |r| == |kids|
  {
    if kids == [] then [] else [Simplify(kids[0])] + SimplifyAll(kids[1..])
  }

  /** RLP form of a collapsed node. */
  function RawItem(n: Raw): (r: Rlp.Item) {
    match n
    case RawNil => Rlp.Str([])
    case RawValue(v) => Rlp.Str(v)
    case RawHash(h) => Rlp.Str(h)
    case RawShort(k, val) => Rlp.List([Rlp.Str(k), RawItem(val)])
    case RawFull(kids) => Rlp.List(RawItems(kids))
  }

  function RawItems(kids: seq<Raw>): (r: seq<Rlp.Item>)
    ensures |r| == |kids|
  {
    if kids == [] then [] else [RawItem(kids[0])] + RawItems(kids[1..])
  }

  /** The memory form turned back into a live node. */
  function Expand(hash: Option<Bytes>, n: Raw, gen: nat): (r: Node)
    decreases n
  {
    match n
    case RawNil => NilNode
    case RawValue(v) => ValueNode(v)
    case RawHash(h) => HashNode(h)
    case RawShort(k, val) =>
      ShortNode(if k == [] then [] else CompactToHex(k), Expand(None, val, gen), Flags(hash, gen, false))
    case RawFull(kids) => FullNode(ExpandAll(kids, gen), Flags(hash, gen, false))
  }

  function ExpandAll(kids: seq<Raw>, gen: nat): (r: seq<Node>)
    ensures |r| == |kids|
    decreases kids
  {
    if kids == [] then [] else [Expand(None, kids[0], gen)] + ExpandAll(kids[1..], gen)
  }

  /** The collapsed form of a tree's node. */
  ghost function RawNode(H: HashFn, t: TT.Tree): (r: Raw)
    requires Sub(t)
    decreases t, 0
  {
    match t
    case Nil => RawNil
    case Value(v) => RawValue(v)
    case Short(k, val) => RawShort(Compact(k), RawRef(H, val))
    case Full(kids) => RawFull(RawKids(H, kids))
  }

  ghost function RawRef(H: HashFn, t: TT.Tree): (r: Raw)
    requires Sub(t)
    decreases t, 1
  {
    if Big(H, t) then RawHash(H(Enc(H, t))) else RawNode(H, t)
  }

  ghost function RawKids(H: HashFn, kids: seq<TT.Tree>): (r: seq<Raw>)
    requires forall i :: 0 <= i < |kids| ==> Sub(kids[i])
    ensures |r| == |kids|
    decreases kids, 2
  {
    if kids == [] then [] else [RawRef(H, kids[0])] + RawKids(H, kids[1..])
  }

  lemma {:induction false} RawNodeItem(H: HashFn, t: TT.Tree)
    requires Sub(t)
    ensures RawItem(RawNode(H, t)) == NodeItem(H, t)
    decreases t, 0
  {
    match t
    case Short(_, val) => RawRefItem(H, val);
    case Full(kids) => RawKidsItems(H, kids);
    case _ =>
  }

  lemma {:induction false} RawRefItem(H: HashFn, t: TT.Tree)
    requires Sub(t)
    ensures RawItem(RawRef(H, t)) == RefItem(H, t)
    decreases t, 1
  {
    RawNodeItem(H, t);
  }

  lemma {:induction false} RawKidsItems(H: HashFn, kids: seq<TT.Tree>)
    requires forall i :: 0 <= i < |kids| ==> Sub(kids[i])
    ensures RawItems(RawKids(H, kids)) == KidItems(H, kids)
    decreases kids, 2
  {
    if kids != [] {
      RawRefItem(H, kids[0]);
      RawKidsItems(H, kids[1..]);
      assert RawKids(H, kids)[1..] == RawKids(H, kids[1..]);
    }
  }

  /** A node taken from the memory cache is the same live node as one decoded from disk. */
  lemma {:induction false} ExpandIsLoaded(H: HashFn, t: TT.Tree, hash: Option<Bytes>, gen: nat)
    requires Sub(t)
    ensures Expand(hash, RawNode(H, t), gen) == Loaded(H, t, hash, gen)
    decreases t, 0
  {
    match t
    case Short(k, val) =>
      CompactRoundTrip(k);
      ExpandRefIsLoaded(H, val, gen);
    case Full(kids) => ExpandKidsAreLoaded(H, kids, gen);
    case _ =>
  }

  lemma {:induction false} ExpandRefIsLoaded(H: HashFn, t: TT.Tree, gen: nat)
    requires Sub(t)
    ensures Expand(None, RawRef(H, t), gen) == LoadedRef(H, t, gen)
    decreases t, 1
  {
    ExpandIsLoaded(H, t, None, gen);
  }

  lemma {:induction false} ExpandKidsAreLoaded(H: HashFn, kids: seq<TT.Tree>, gen: nat)
    requires forall i :: 0 <= i < |kids| ==> Sub(kids[i])
    ensures ExpandAll(RawKids(H, kids), gen) == LoadedKids(H, kids, gen)
    decreases kids, 2
  {
    if kids != [] {
      ExpandRefIsLoaded(H, kids[0], gen);
      ExpandKidsAreLoaded(H, kids[1..], gen);
      assert RawKids(H, kids)[1..] == RawKids(H, kids[1..]);
    }
  }

  // ----- Hashing

  datatype Hashed = Hashed(hashed: Node, cached: Node, store: Store)

  datatype HashedKids = HashedKids(hashed: seq<Node>, cached: seq<Node>, store: Store)

  function Hash(H: HashFn, cfg: Config, n: Node, st: Store, force: bool): (r: Hashed)
    decreases n, 2
  {
    var f := FlagsOf(n);
    if f.hash.Some? && (!cfg.write || CanUnload(f, cfg) || !f.dirty) then
      var h := HashNode(f.hash.value);
      Hashed(h, if cfg.write && CanUnload(f, cfg) then h else n, st)
    else
      var c := HashChildren(H, cfg, n, st);
      var s := StoreNode(H, cfg, c.hashed, c.store, force);
      var known := if s.hashed.HashNode? then Some(s.hashed.h) else None;
      var flags := Flags(known, FlagsOf(c.cached).gen, FlagsOf(c.cached).dirty && !cfg.write);
      Hashed(s.hashed, SetFlags(c.cached, flags), s.store)
  }

  /** A commit unloads exactly the nodes that are clean and whose generation lies back by the limit or more,
      counted modulo 2^16; other clean nodes stay as they are. Nothing is written for either. */
  lemma UnloadedIff(H: HashFn, cfg: Config, n: Node, st: Store, force: bool)
    requires cfg.write && FlagsOf(n).hash.Some? && !FlagsOf(n).dirty
    ensures
      var r, f := Hash(H, cfg, n, st, force), FlagsOf(n);
      && r.hashed == HashNode(f.hash.value) && r.store == st
      && r.cached == if (cfg.gen - f.gen) % 65536 >= cfg.limit then HashNode(f.hash.value) else n
  {
  }

  /** Keys of nodes are hex paths; on anything else the conversion is not defined here. */
  function CompactKey(k: Bytes): (r: Bytes) {
    if HexPath(k) then Compact(k) else []
  }

  function HashChildren(H: HashFn, cfg: Config, n: Node, st: Store): (r: Hashed)
    decreases n, 1
  {
    match n
    case ShortNode(k, val, f) =>
      if val.ValueNode? then Hashed(ShortNode(CompactKey(k), val, f), n, st)
      else
        var c := Hash(H, cfg, val, st, false);
        Hashed(ShortNode(CompactKey(k), c.hashed, f), ShortNode(k, c.cached, f), c.store)
    case FullNode(kids, f) =>
      if |kids| != 17 then Hashed(n, n, st)
      else
        var c := HashKids(H, cfg, kids[..16], st);
        Hashed(FullNode(c.hashed + [kids[16]], f), FullNode(c.cached + [kids[16]], f), c.store)
    case _ => Hashed(n, n, st)
  }

  function HashKids(H: HashFn, cfg: Config, kids: seq<Node>, st: Store): (r: HashedKids)
    ensures |r.hashed| == |r.cached| == |kids|
    decreases kids, 3
  {
    if kids == [] then HashedKids([], [], st)
    else
      var c := if kids[0].NilNode? then Hashed(NilNode, NilNode, st) else Hash(H, cfg, kids[0], st, false);
      var r := HashKids(H, cfg, kids[1..], c.store);
      HashedKids([c.hashed] + r.hashed, [c.cached] + r.cached, r.store)
  }

  /** Replaces a collapsed node by its hash unless it is small enough to be embedded. */
  function StoreNode(H: HashFn, cfg: Config, n: Node, st: Store, force: bool): (r: Hashed) {
    if n.HashNode? || n.NilNode? then Hashed(n, n, st)
    else
      var enc := Rlp.Encode(RawItem(Simplify(n)));
      if |enc| < 32 && !force then Hashed(n, n, st)
      else
        var h := if FlagsOf(n).hash.Some? then FlagsOf(n).hash.value else H(enc);
        Hashed(HashNode(h), n, if cfg.write && h !in st then st[h := enc] else st)
  }

  // ----- The store and the hash function

  /** No two of the given blobs share a hash. */
  ghost predicate CollisionFree(H: HashFn, blobs: set<Bytes>) {
    forall x, y :: x in blobs && y in blobs && H(x) == H(y) ==> x == y
  }

  /** Every entry is filed under its own hash. */
  ghost predicate Filed(H: HashFn, st: Store, blobs: set<Bytes>) {
    forall h :: h in st ==> st[h] in blobs && H(st[h]) == h
  }

  /** All nodes of `t` are among the blobs. */
  ghost predicate Covers(H: HashFn, t: TT.Tree, blobs: set<Bytes>)
    requires Sub(t)
  {
    match t
    case Short(_, val) => Enc(H, t) in blobs && Covers(H, val, blobs)
    case Full(kids) => Enc(H, t) in blobs && forall i :: 0 <= i < |kids| ==> Covers(H, kids[i], blobs)
    case _ => true
  }

  ghost predicate Grown(a: Store, b: Store) {
    forall h :: h in a ==> h in b && b[h] == a[h]
  }

  lemma {:induction false} SavedGrown(H: HashFn, a: Store, b: Store, t: TT.Tree)
    requires Sub(t) && Grown(a, b)
    ensures Saved(H, a, t) ==> Saved(H, b, t)
    ensures SavedKids(H, a, t) ==> SavedKids(H, b, t)
  {
    match t {
      case Short(_, val) => SavedGrown(H, a, b, val);
      case Full(kids) =>
        forall i | 0 <= i < |kids| ensures Saved(H, a, kids[i]) ==> Saved(H, b, kids[i]) {
          SavedGrown(H, a, b, kids[i]);
        }
      case _ =>
    }
    assert SavedKids(H, a, t) ==> SavedKids(H, b, t);
  }

  /** A live trie stays live when the store grows. */
  lemma {:induction false} LiveGrown(H: HashFn, a: Store, b: Store, n: Node, t: TT.Tree, root: bool)
    requires Sub(t) && Grown(a, b) && Live(H, a, n, t, root)
    ensures Live(H, b, n, t, root)
    decreases t
  {
    SavedGrown(H, a, b, t);
    match n
    case ShortNode(_, val, _) => LiveGrown(H, a, b, val, t.val, false);
    case FullNode(kids, _) =>
      forall i | 0 <= i < 17 ensures Live(H, b, kids[i], t.kids[i], false) {
        LiveGrown(H, a, b, kids[i], t.kids[i], false);
      }
    case _ =>
  }

  // ----- Hashing a live trie

  /** What hashing a node that represents `t` must come to: its reference, a node that still
      represents `t`, and in commit mode everything below it in the store. */
  ghost predicate HashedOk(H: HashFn, cfg: Config, r: Hashed, st: Store, t: TT.Tree, blobs: set<Bytes>, force: bool)
    requires TT.Canon(t)
  {
    var ref := force || Big(H, t);
    && Grown(st, r.store) && Filed(H, r.store, blobs)
    && (if ref then r.hashed == HashNode(H(Enc(H, t))) else !r.hashed.HashNode? && Simplify(r.hashed) == RawNode(H, t))
    && Live(H, r.store, r.cached, t, force)
    && (cfg.write ==> (ref ==> At(H, r.store, t)) && SavedKids(H, r.store, t))
  }

  /** The same for the children alone; flags are not looked at. */
  ghost predicate ChildrenOk(H: HashFn, cfg: Config, r: Hashed, n: Node, st: Store, t: TT.Tree, blobs: set<Bytes>)
    requires TT.Canon(t)
  {
    && Grown(st, r.store) && Filed(H, r.store, blobs)
    && (r.hashed.ShortNode? || r.hashed.FullNode?) && (r.cached.ShortNode? || r.cached.FullNode?)
    && FlagsOf(r.hashed) == FlagsOf(n) == FlagsOf(r.cached)
    && Simplify(r.hashed) == RawNode(H, t)
    && Live(H, r.store, SetFlags(r.cached, NewFlag(0)), t, false)
    && (cfg.write ==> SavedKids(H, r.store, t))
  }

  /** A live node with other flags that are right for it. */
  lemma Reflag(H: HashFn, st: Store, n: Node, f: Flags, t: TT.Tree, root: bool)
    requires TT.Canon(t) && Live(H, st, SetFlags(n, NewFlag(0)), t, false) && FlagOk(H, st, f, t, root)
    requires n.ShortNode? || n.FullNode?
    ensures Live(H, st, SetFlags(n, f), t, root)
  {
  }

  lemma StoreLive(H: HashFn, cfg: Config, c: Hashed, n: Node, st: Store, t: TT.Tree, blobs: set<Bytes>, force: bool)
    requires TT.Canon(t) && ChildrenOk(H, cfg, c, n, st, t, blobs) && Enc(H, t) in blobs && CollisionFree(H, blobs)
    requires FlagsOf(n).hash.Some? ==> FlagsOf(n).hash.value == H(Enc(H, t))
    ensures
      var s := StoreNode(H, cfg, c.hashed, c.store, force);
      && Grown(c.store, s.store) && Filed(H, s.store, blobs)
      && (if force || Big(H, t) then s.hashed == HashNode(H(Enc(H, t))) else s.hashed == c.hashed && s.store == c.store)
      && (cfg.write && (force || Big(H, t)) ==> At(H, s.store, t))
  {
    RawNodeItem(H, t);
    assert Rlp.Encode(RawItem(Simplify(c.hashed))) == Enc(H, t);
  }

  lemma {:induction false} HashLive(H: HashFn, cfg: Config, n: Node, st: Store, t: TT.Tree, blobs: set<Bytes>,
                                    force: bool)
    requires TT.Canon(t) && Live(H, st, n, t, force)
    requires CollisionFree(H, blobs) && Filed(H, st, blobs) && Covers(H, t, blobs)
    ensures HashedOk(H, cfg, Hash(H, cfg, n, st, force), st, t, blobs, force)
    decreases t, 2
  {
    var f := FlagsOf(n);
    if n.HashNode? {
    } else if f.hash.Some? && (!cfg.write || CanUnload(f, cfg) || !f.dirty) {
    } else {
      HashChildrenLive(H, cfg, n, st, t, blobs, force);
      HashFresh(H, cfg, n, st, t, blobs, force);
    }
  }

  lemma FreshFlags(H: HashFn, cfg: Config, f: Flags, a: Store, b: Store, t: TT.Tree, force: bool)
    requires TT.Canon(t) && FlagOk(H, a, f, t, force) && Grown(a, b)
    requires cfg.write ==> (force || Big(H, t) ==> At(H, b, t)) && SavedKids(H, b, t)
    ensures FlagOk(H, b, Flags(if force || Big(H, t) then Some(H(Enc(H, t))) else None, f.gen, f.dirty && !cfg.write),
                   t, force)
  {
    SavedGrown(H, a, b, t);
  }

  lemma LiveFlags(H: HashFn, st: Store, n: Node, t: TT.Tree, root: bool)
    requires TT.Canon(t) && Live(H, st, n, t, root) && (n.ShortNode? || n.FullNode?)
    ensures FlagOk(H, st, FlagsOf(n), t, root)
  {
  }

  lemma CoversSelf(H: HashFn, t: TT.Tree, blobs: set<Bytes>)
    requires TT.Canon(t) && Covers(H, t, blobs)
    ensures Enc(H, t) in blobs
  {
  }

  lemma HashUnfold(H: HashFn, cfg: Config, n: Node, st: Store, force: bool)
    requires FlagsOf(n).hash.Some? ==> cfg.write && FlagsOf(n).dirty && !CanUnload(FlagsOf(n), cfg)
    ensures
      var c := HashChildren(H, cfg, n, st);
      var s := StoreNode(H, cfg, c.hashed, c.store, force);
      var known := if s.hashed.HashNode? then Some(s.hashed.h) else None;
      Hash(H, cfg, n, st, force) ==
      Hashed(s.hashed, SetFlags(c.cached, Flags(known, FlagsOf(c.cached).gen, FlagsOf(c.cached).dirty && !cfg.write)),
             s.store)
  {
    hide HashChildren, StoreNode;
  }

  lemma HashFresh(H: HashFn, cfg: Config, n: Node, st: Store, t: TT.Tree, blobs: set<Bytes>, force: bool)
    requires TT.Canon(t) && Live(H, st, n, t, force) && (n.ShortNode? || n.FullNode?)
    requires CollisionFree(H, blobs) && Filed(H, st, blobs) && Covers(H, t, blobs)
    requires FlagsOf(n).hash.Some? ==> cfg.write && FlagsOf(n).dirty && !CanUnload(FlagsOf(n), cfg)
    requires ChildrenOk(H, cfg, HashChildren(H, cfg, n, st), n, st, t, blobs)
    ensures HashedOk(H, cfg, Hash(H, cfg, n, st, force), st, t, blobs, force)
  {
    hide TT.Canon, Filed, CollisionFree, Covers, Live, SavedKids, At, RawNode, Simplify, Hash, HashChildren, StoreNode;
    LiveFlags(H, st, n, t, force);
    CoversSelf(H, t, blobs);
    HashUnfold(H, cfg, n, st, force);
    var c := HashChildren(H, cfg, n, st);
    StoreLive(H, cfg, c, n, st, t, blobs, force);
    var s := StoreNode(H, cfg, c.hashed, c.store, force);
    var known := if s.hashed.HashNode? then Some(s.hashed.h) else None;
    var flags := Flags(known, FlagsOf(c.cached).gen, FlagsOf(c.cached).dirty && !cfg.write);
    LiveGrown(H, c.store, s.store, SetFlags(c.cached, NewFlag(0)), t, false);
    SavedGrown(H, c.store, s.store, t);
    FreshFlags(H, cfg, FlagsOf(n), st, s.store, t, force);
    Reflag(H, s.store, c.cached, flags, t, force);
  }

  lemma {:induction false} HashChildrenLive(H: HashFn, cfg: Config, n: Node, st: Store, t: TT.Tree, blobs: set<Bytes>,
                                            force: bool)
    requires TT.Canon(t) && Live(H, st, n, t, force) && (n.ShortNode? || n.FullNode?)
    requires CollisionFree(H, blobs) && Filed(H, st, blobs) && Covers(H, t, blobs)
    ensures ChildrenOk(H, cfg, HashChildren(H, cfg, n, st), n, st, t, blobs)
    decreases t, 1
  {
    CanonParts(t);
    match n
    case ShortNode(k, val, f) =>
      if val.ValueNode? {
        HashShortLive(H, cfg, n, Hashed(val, val, st), st, t, blobs);
      } else {
        HashLive(H, cfg, val, st, t.val, blobs, false);
        HashedIsChild(H, cfg, Hash(H, cfg, val, st, false), st, t.val, blobs);
        HashShortLive(H, cfg, n, Hash(H, cfg, val, st, false), st, t, blobs);
      }
    case FullNode(kids, f) =>
      HashKidsLive(H, cfg, kids[..16], t.kids[..16], st, blobs);
      HashFullLive(H, cfg, n, HashKids(H, cfg, kids[..16], st), kids[16], st, t, blobs);
    case _ =>
  }

  ghost predicate KidsOk(H: HashFn, cfg: Config, r: HashedKids, st: Store, trees: seq<TT.Tree>, blobs: set<Bytes>)
    requires forall i :: 0 <= i < |trees| ==> Sub(trees[i])
  {
    && Grown(st, r.store) && Filed(H, r.store, blobs)
    && |r.hashed| == |r.cached| == |trees|
    && SimplifyAll(r.hashed) == RawKids(H, trees)
    && (forall i :: 0 <= i < |trees| ==> Live(H, r.store, r.cached[i], trees[i], false))
    && (cfg.write ==> forall i :: 0 <= i < |trees| ==> Saved(H, r.store, trees[i]))
  }

  lemma {:induction false} HashKidsLive(H: HashFn, cfg: Config, kids: seq<Node>, trees: seq<TT.Tree>, st: Store,
                                        blobs: set<Bytes>)
    requires |kids| == |trees| && forall i :: 0 <= i < |trees| ==> Sub(trees[i])
    requires forall i :: 0 <= i < |trees| ==> !trees[i].Value? && Covers(H, trees[i], blobs)
    requires forall i :: 0 <= i < |trees| ==> Live(H, st, kids[i], trees[i], false)
    requires CollisionFree(H, blobs) && Filed(H, st, blobs)
    ensures KidsOk(H, cfg, HashKids(H, cfg, kids, st), st, trees, blobs)
    decreases trees, 3
  {
    if kids != [] {
      var c := if kids[0].NilNode? then Hashed(NilNode, NilNode, st) else Hash(H, cfg, kids[0], st, false);
      if !kids[0].NilNode? {
        HashLive(H, cfg, kids[0], st, trees[0], blobs, false);
        HashedIsChild(H, cfg, c, st, trees[0], blobs);
      }
      forall i | 0 <= i < |trees[1..]| ensures Live(H, c.store, kids[1..][i], trees[1..][i], false) {
        LiveGrown(H, st, c.store, kids[i + 1], trees[i + 1], false);
      }
      HashKidsLive(H, cfg, kids[1..], trees[1..], c.store, blobs);
      HashKidsStep(H, cfg, c, HashKids(H, cfg, kids[1..], c.store), trees, st, blobs);
    }
  }

  lemma {:induction false} SimplifySnoc(xs: seq<Node>, x: Node)
    ensures SimplifyAll(xs + [x]) == SimplifyAll(xs) + [Simplify(x)]
  {
    if xs == [] {
      assert [x] + [] == [] + [x];
    } else {
      SimplifySnoc(xs[1..], x);
      assert [xs[0]] + (xs[1..] + [x]) == xs + [x];
    }
  }

  lemma {:induction false} RawKidsSnoc(H: HashFn, xs: seq<TT.Tree>, x: TT.Tree)
    requires Sub(x) && forall i :: 0 <= i < |xs| ==> Sub(xs[i])
    ensures forall i :: 0 <= i < |xs + [x]| ==> Sub((xs + [x])[i])
    ensures RawKids(H, xs + [x]) == RawKids(H, xs) + [RawRef(H, x)]
  {
    var all := xs + [x];
    assert forall i :: 0 <= i < |all| ==> Sub(all[i]);
    if xs == [] {
      assert all == [x] && all[1..] == [];
    } else {
      RawKidsSnoc(H, xs[1..], x);
      assert all[1..] == xs[1..] + [x];
    }
  }

  /** What a child contributes to its parent: its reference, and a live replacement. */
  ghost predicate ChildOk(H: HashFn, cfg: Config, c: Hashed, st: Store, t: TT.Tree, blobs: set<Bytes>)
    requires Sub(t)
  {
    && Grown(st, c.store) && Filed(H, c.store, blobs)
    && Simplify(c.hashed) == RawRef(H, t)
    && Live(H, c.store, c.cached, t, false)
    && (cfg.write ==> Saved(H, c.store, t))
  }

  lemma HashedIsChild(H: HashFn, cfg: Config, c: Hashed, st: Store, t: TT.Tree, blobs: set<Bytes>)
    requires TT.Canon(t) && HashedOk(H, cfg, c, st, t, blobs, false)
    ensures ChildOk(H, cfg, c, st, t, blobs)
  {
  }

  lemma HashKidsStep(H: HashFn, cfg: Config, c: Hashed, r: HashedKids, trees: seq<TT.Tree>, st: Store,
                     blobs: set<Bytes>)
    requires |trees| > 0 && forall i :: 0 <= i < |trees| ==> Sub(trees[i])
    requires ChildOk(H, cfg, c, st, trees[0], blobs)
    requires forall i :: 0 <= i < |trees[1..]| ==> Sub(trees[1..][i])
    requires KidsOk(H, cfg, r, c.store, trees[1..], blobs)
    ensures KidsOk(H, cfg, HashedKids([c.hashed] + r.hashed, [c.cached] + r.cached, r.store), st, trees, blobs)
  {
    LiveGrown(H, c.store, r.store, c.cached, trees[0], false);
    SavedGrown(H, c.store, r.store, trees[0]);
    var all := [c.cached] + r.cached;
    forall i | 0 <= i < |trees| ensures Live(H, r.store, all[i], trees[i], false) {
      if i > 0 {
        assert all[i] == r.cached[i - 1] && trees[i] == trees[1..][i - 1];
      }
    }
    if cfg.write {
      forall i | 0 <= i < |trees| ensures Saved(H, r.store, trees[i]) {
        if i > 0 {
          assert trees[i] == trees[1..][i - 1];
        }
      }
    }
  }

  lemma HashShortLive(H: HashFn, cfg: Config, n: Node, c: Hashed, st: Store, t: TT.Tree, blobs: set<Bytes>)
    requires TT.Canon(t) && t.Short? && n.ShortNode? && n.key == t.key && ChildOk(H, cfg, c, st, t.val, blobs)
    ensures
      var r := Hashed(ShortNode(CompactKey(n.key), c.hashed, n.flags), ShortNode(n.key, c.cached, n.flags), c.store);
      ChildrenOk(H, cfg, r, n, st, t, blobs)
  {
    CanonParts(t);
  }

  lemma HashFullLive(H: HashFn, cfg: Config, n: Node, c: HashedKids, last: Node, st: Store, t: TT.Tree,
                     blobs: set<Bytes>)
    requires TT.Canon(t) && t.Full? && n.FullNode? && Live(H, st, last, t.kids[16], false)
    requires forall i :: 0 <= i < 16 ==> Sub(t.kids[..16][i])
    requires KidsOk(H, cfg, c, st, t.kids[..16], blobs)
    ensures
      var r := Hashed(FullNode(c.hashed + [last], n.flags), FullNode(c.cached + [last], n.flags), c.store);
      ChildrenOk(H, cfg, r, n, st, t, blobs)
  {
    var init, tail := t.kids[..16], t.kids[16];
    assert t.kids == init + [tail];
    FullItem(H, c.hashed, last, init, tail);
    LiveGrown(H, st, c.store, last, tail, false);
    var all := c.cached + [last];
    forall i | 0 <= i < 17 ensures Live(H, c.store, all[i], t.kids[i], false) {
      if i < 16 {
        assert all[i] == c.cached[i] && t.kids[i] == init[i];
      }
    }
    if cfg.write {
      forall i | 0 <= i < 17 ensures Saved(H, c.store, t.kids[i]) {
        if i < 16 {
          assert t.kids[i] == init[i];
        }
      }
    }
  }

  lemma FullItem(H: HashFn, hashed: seq<Node>, last: Node, init: seq<TT.Tree>, tail: TT.Tree)
    requires forall i :: 0 <= i < |init| ==> Sub(init[i])
    requires SimplifyAll(hashed) == RawKids(H, init) && TT.Leafy(tail)
    requires last == if tail.Nil? then NilNode else ValueNode(tail.v)
    ensures forall i :: 0 <= i < |init + [tail]| ==> Sub((init + [tail])[i])
    ensures SimplifyAll(hashed + [last]) == RawKids(H, init + [tail])
  {
    SimplifySnoc(hashed, last);
    RawKidsSnoc(H, init, tail);
    assert Simplify(last) == RawRef(H, tail);
  }

  // ----- Which nodes are written

  /** A blob that hashing `t` may write: that of a node of `t`, filed under its hash and not shorter
      than 32 bytes unless it is the root. */
  ghost predicate Writable(H: HashFn, t: TT.Tree, h: Bytes, blob: Bytes, force: bool) {
    exists s :: NodeOf(s, t) && WrittenFor(H, s, h, blob) && (|blob| >= 32 || (force && s == t))
  }

  ghost predicate WrittenFor(H: HashFn, s: TT.Tree, h: Bytes, blob: Bytes) {
    TT.Canon(s) && blob == Enc(H, s) && h == H(blob) && BlobOf(H, s, blob)
  }

  /** Whatever is new in the store may be written for `t`. */
  ghost predicate Adds(H: HashFn, a: Store, b: Store, t: TT.Tree, force: bool) {
    forall h :: h in b && h !in a ==> Writable(H, t, h, b[h], force)
  }

  lemma AddsTrans(H: HashFn, a: Store, b: Store, c: Store, t: TT.Tree, force: bool)
    requires Grown(b, c) && Adds(H, a, b, t, force) && Adds(H, b, c, t, force)
    ensures Adds(H, a, c, t, force)
  {
    hide Writable;
  }

  /** What is written for a child may be written for its parent. */
  lemma AddsBelow(H: HashFn, a: Store, b: Store, child: TT.Tree, t: TT.Tree, force: bool)
    requires Adds(H, a, b, child, false)
    requires (t.Short? && t.val == child) || (t.Full? && child in t.kids)
    ensures Adds(H, a, b, t, force)
  {
    forall h | h in b && h !in a ensures Writable(H, t, h, b[h], force) {
      assert Writable(H, child, h, b[h], false);
      var s :| NodeOf(s, child) && WrittenFor(H, s, h, b[h]) && |b[h]| >= 32;
      assert NodeOf(s, t);
    }
  }

  lemma StoreAdds(H: HashFn, cfg: Config, c: Hashed, n: Node, st: Store, t: TT.Tree, blobs: set<Bytes>, force: bool)
    requires TT.Canon(t) && ChildrenOk(H, cfg, c, n, st, t, blobs)
    requires FlagsOf(n).hash.Some? ==> FlagsOf(n).hash.value == H(Enc(H, t))
    ensures Adds(H, c.store, StoreNode(H, cfg, c.hashed, c.store, force).store, t, force)
  {
    RawNodeItem(H, t);
    assert Rlp.Encode(RawItem(Simplify(c.hashed))) == Enc(H, t);
    EncIsBlob(H, t);
    assert NodeOf(t, t) && WrittenFor(H, t, H(Enc(H, t)), Enc(H, t));
  }

  /** Hashing writes no other blobs. */
  lemma {:induction false} HashAdds(H: HashFn, cfg: Config, n: Node, st: Store, t: TT.Tree, blobs: set<Bytes>,
                                    force: bool)
    requires TT.Canon(t) && Live(H, st, n, t, force)
    requires CollisionFree(H, blobs) && Filed(H, st, blobs) && Covers(H, t, blobs)
    ensures Adds(H, st, Hash(H, cfg, n, st, force).store, t, force)
    decreases t, 2
  {
    var f := FlagsOf(n);
    if n.HashNode? || (f.hash.Some? && (!cfg.write || CanUnload(f, cfg) || !f.dirty)) {
    } else {
      var c := HashChildren(H, cfg, n, st);
      ChildrenAdd(H, cfg, n, st, t, blobs, force);
      HashChildrenLive(H, cfg, n, st, t, blobs, force);
      LiveFlags(H, st, n, t, force);
      CoversSelf(H, t, blobs);
      HashUnfold(H, cfg, n, st, force);
      StoreAdds(H, cfg, c, n, st, t, blobs, force);
      StoreLive(H, cfg, c, n, st, t, blobs, force);
      AddsTrans(H, st, c.store, StoreNode(H, cfg, c.hashed, c.store, force).store, t, force);
    }
  }

  lemma {:induction false} ChildrenAdd(H: HashFn, cfg: Config, n: Node, st: Store, t: TT.Tree, blobs: set<Bytes>,
                                       force: bool)
    requires TT.Canon(t) && Live(H, st, n, t, force) && (n.ShortNode? || n.FullNode?)
    requires CollisionFree(H, blobs) && Filed(H, st, blobs) && Covers(H, t, blobs)
    ensures Adds(H, st, HashChildren(H, cfg, n, st).store, t, force)
    decreases t, 1
  {
    CanonParts(t);
    match n
    case ShortNode(k, val, f) =>
      if !val.ValueNode? {
        HashAdds(H, cfg, val, st, t.val, blobs, false);
        AddsBelow(H, st, Hash(H, cfg, val, st, false).store, t.val, t, force);
      }
    case FullNode(kids, f) =>
      KidsAdd(H, cfg, kids[..16], t.kids[..16], st, t, blobs, force);
    case _ =>
  }

  lemma {:induction false} KidsAdd(H: HashFn, cfg: Config, kids: seq<Node>, trees: seq<TT.Tree>, st: Store, t: TT.Tree,
                                   blobs: set<Bytes>, force: bool)
    requires |kids| == |trees| && t.Full? && forall i :: 0 <= i < |trees| ==> Sub(trees[i]) && trees[i] in t.kids
    requires forall i :: 0 <= i < |trees| ==> !trees[i].Value? && Covers(H, trees[i], blobs)
    requires forall i :: 0 <= i < |trees| ==> Live(H, st, kids[i], trees[i], false)
    requires CollisionFree(H, blobs) && Filed(H, st, blobs)
    ensures Adds(H, st, HashKids(H, cfg, kids, st).store, t, force)
    decreases trees, 3
  {
    if kids != [] {
      var c := if kids[0].NilNode? then Hashed(NilNode, NilNode, st) else Hash(H, cfg, kids[0], st, false);
      if !kids[0].NilNode? {
        HashAdds(H, cfg, kids[0], st, trees[0], blobs, false);
        AddsBelow(H, st, c.store, trees[0], t, force);
        HashLive(H, cfg, kids[0], st, trees[0], blobs, false);
      }
      forall i | 0 <= i < |trees[1..]| ensures Live(H, c.store, kids[1..][i], trees[1..][i], false) {
        LiveGrown(H, st, c.store, kids[i + 1], trees[i + 1], false);
      }
      KidsAdd(H, cfg, kids[1..], trees[1..], c.store, t, blobs, force);
      HashKidsLive(H, cfg, kids[1..], trees[1..], c.store, blobs);
      AddsTrans(H, st, c.store, HashKids(H, cfg, kids, st).store, t, force);
    }
  }

  /** With everything below a node saved, each node of 32 bytes or more is in the store under its hash. */
  lemma {:induction false} SavedNodes(H: HashFn, st: Store, t: TT.Tree, s: TT.Tree)
    requires Sub(t) && NodeOf(s, t) && TT.Canon(s) && |Enc(H, s)| >= 32
    requires Saved(H, st, t) || (s != t && SavedKids(H, st, t))
    ensures At(H, st, s)
  {
    if s != t {
      match t
      case Short(_, val) => SavedNodes(H, st, val, s);
      case Full(kids) =>
        var i :| 0 <= i < |kids| && NodeOf(s, kids[i]);
        SavedNodes(H, st, kids[i], s);
    }
  }

  // ----- The root

  /** Hash of the empty trie: that of the encoded empty string. */
  function EmptyRoot(H: HashFn): (r: Bytes) {
    H(Rlp.Encode(Rlp.Str([])))
  }

  datatype RootHash = RootHash(hash: Bytes, root: Node, store: Store)

  function HashRoot(H: HashFn, cfg: Config, root: Node, st: Store): (r: RootHash) {
    if root.NilNode? then RootHash(EmptyRoot(H), NilNode, st)
    else
      var r := Hash(H, cfg, root, st, true);
      RootHash(if r.hashed.HashNode? then r.hashed.h else [], r.cached, r.store)
  }

  /** The root hash of the represented tree, whatever has been loaded, cached or unloaded. */
  ghost function TreeHash(H: HashFn, t: TT.Tree): (r: Bytes)
    requires TT.WellFormed(t)
  {
    if t.Nil? then EmptyRoot(H) else H(Enc(H, t))
  }

  /** The root hash depends on the represented tree alone; the trie goes on representing it,
      and after a commit all of it can be found in the store from the root hash. */
  lemma HashRootLive(H: HashFn, cfg: Config, root: Node, st: Store, t: TT.Tree, blobs: set<Bytes>)
    requires TT.WellFormed(t) && Live(H, st, root, t, true)
    requires CollisionFree(H, blobs) && Filed(H, st, blobs) && Covers(H, t, blobs)
    ensures
      var r := HashRoot(H, cfg, root, st);
      && r.hash == TreeHash(H, t)
      && Grown(st, r.store) && Filed(H, r.store, blobs)
      && Live(H, r.store, r.root, t, true)
      && (cfg.write && !t.Nil? ==> Live(H, r.store, HashNode(r.hash), t, true))
  {
    if !t.Nil? {
      HashLive(H, cfg, root, st, t, blobs, true);
    }
  }

  /** What a commit of `t` makes of a store: the root and every node of 32 bytes or more are in it
      under their hashes, with smaller ones inside them, and nothing else is new. */
  ghost predicate Written(H: HashFn, a: Store, b: Store, t: TT.Tree) {
    && Adds(H, a, b, t, true)
    && forall s :: NodeOf(s, t) && TT.Canon(s) && (|Enc(H, s)| >= 32 || s == t) ==> At(H, b, s)
  }

  lemma HashRootWrites(H: HashFn, cfg: Config, root: Node, st: Store, t: TT.Tree, blobs: set<Bytes>)
    requires TT.WellFormed(t) && Live(H, st, root, t, true) && cfg.write
    requires CollisionFree(H, blobs) && Filed(H, st, blobs) && Covers(H, t, blobs)
    ensures Written(H, st, HashRoot(H, cfg, root, st).store, t)
  {
    if !t.Nil? {
      hide Live, Covers, Filed, CollisionFree, Adds, TT.Canon, Hash;
      HashLive(H, cfg, root, st, t, blobs, true);
      HashAdds(H, cfg, root, st, t, blobs, true);
      var b := Hash(H, cfg, root, st, true).store;
      forall s | NodeOf(s, t) && TT.Canon(s) && (|Enc(H, s)| >= 32 || s == t) ensures At(H, b, s) {
        if s != t {
          SavedNodes(H, b, t, s);
        }
      }
    }
  }

  /** The empty trie has the hash of a single byte, the encoded empty string. */
  lemma EmptyRootIs(H: HashFn)
    ensures EmptyRoot(H) == H([0x80])
  {
    assert Rlp.Encode(Rlp.Str([])) == [0x80];
  }
}
