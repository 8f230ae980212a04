/** Merkle proofs: the nodes on the path to a key, and the check that replays the lookup on
    them. */
module Proof {
  import opened Common
  import opened Hex
  import TT = TrieTree
  import Rlp
  import opened NodeCodec
  import opened Trie
  import opened Hasher

  // ----- Checking a proof

  /** A walk inside one loaded node ends at a node, with some of the key left. */
  datatype Walk = Walk(rest: Bytes, node: Node) | Astray

  function Descend(n: Node, key: Bytes): (w: Walk) {
    match n
    case ShortNode(k, val, _) => if k <= key then Descend(val, key[|k|..]) else Walk([], NilNode)
    case FullNode(kids, _) => if key != [] && key[0] as int < |kids| then Descend(kids[key[0]], key[1..]) else Astray
    case HashNode(_) => Walk(key, n)
    case NilNode => Walk(key, n)
    case ValueNode(_) => Walk([], n)
  }

  method GetInNode(nIn: Node, keyIn: Bytes) returns (w: Walk)
    ensures w == Descend(nIn, keyIn)
  {
    var tn, key := nIn, keyIn;
    while tn.ShortNode? || tn.FullNode?
      invariant Descend(nIn, keyIn) == Descend(tn, key)
      decreases tn
    {
      match tn
      case ShortNode(k, val, _) =>
        if !(k <= key) {
          return Walk([], NilNode);
        }
        tn, key := val, key[|k|..];
      case FullNode(kids, _) =>
        if key == [] || key[0] as int >= |kids| {
          return Astray;
        }
        tn, key := kids[key[0]], key[1..];
    }
    return if tn.ValueNode? then Walk([], tn) else Walk(key, tn);
  }

  datatype ProofFault = MissingNode(index: nat) | BadNode(index: nat)

  datatype Verified = Verified(value: Option<Bytes>, nodes: nat)

  lemma {:induction false} DescendShrinks(n: Node, key: Bytes)
    ensures Descend(n, key).Walk? ==> |Descend(n, key).rest| <= |key|
    ensures Descend(n, key).Walk? && Descend(n, key).node.HashNode? && Progress(n) ==> |Descend(n, key).rest| < |key|
  {
    match n
    case ShortNode(k, val, _) => if k <= key { DescendShrinks(val, key[|k|..]); }
    case FullNode(kids, _) => if key != [] && key[0] as int < |kids| { DescendShrinks(kids[key[0]], key[1..]); }
    case _ =>
  }

  /** The check, step by step: `i` nodes have been accepted so far. */
  function Verify(proof: Store, want: Bytes, key: Bytes, i: nat): (r: Result<Verified, ProofFault>)
    decreases |key|
  {
    if want !in proof then Err(MissingNode(i))
    else
      match DecodeNode(Some(want), proof[want], 0)
      case Err(_) => Err(BadNode(i))
      case Ok(n) =>
        DescendShrinks(n, key);
        if !Progress(n) || Descend(n, key).Astray? then Err(BadNode(i))
        else
          var w := Descend(n, key);
          match w.node
          case HashNode(h) => Verify(proof, h, w.rest, i + 1)
          case ValueNode(v) => Ok(Verified(Some(v), i + 1))
          case _ => Ok(Verified(None, i))
  }

  method VerifyProof(rootHash: Bytes, keyIn: Bytes, proof: Store) returns (r: Result<Verified, ProofFault>)
    ensures r == Verify(proof, rootHash, HexOf(keyIn), 0)
  {
    var key := KeybytesToHex(keyIn);
    var want, i := rootHash, 0;
    while true
      invariant Verify(proof, rootHash, HexOf(keyIn), 0) == Verify(proof, want, key, i)
      decreases |key|
    {
      if want !in proof {
        return Err(MissingNode(i));
      }
      var d := DecodeNode(Some(want), proof[want], 0);
      if d.Err? || !Progress(d.value) {
        return Err(BadNode(i));
      }
      DescendShrinks(d.value, key);
      var w := GetInNode(d.value, key);
      if w.Astray? {
        return Err(BadNode(i));
      }
      match w.node {
        case HashNode(h) => want, key := h, w.rest;
        case ValueNode(v) => return Ok(Verified(Some(v), i + 1));
        case _ => return Ok(Verified(None, i));
      }
      i := i + 1;
    }
  }

  // ----- Walking inside stored nodes of a tree

  datatype Place = Place(tree: TT.Tree, rest: Bytes)

  /** Where the walk from the stored node of `t` ends: at the first node that is referred to by
      hash, or at the end of the path. */
  ghost function Land(H: HashFn, t: TT.Tree, key: Bytes): (p: Place)
    requires Sub(t)
    ensures Sub(p.tree)
    decreases t, 0
  {
    match t
    case Nil => Place(t, key)
    case Value(_) => Place(t, [])
    case Short(k, val) => if k <= key then LandRef(H, val, key[|k|..]) else Place(TT.Nil, [])
    case Full(kids) => if key != [] && key[0] < 17 then LandRef(H, kids[key[0]], key[1..]) else Place(TT.Nil, [])
  }

  ghost function LandRef(H: HashFn, t: TT.Tree, key: Bytes): (p: Place)
    requires Sub(t)
    ensures Sub(p.tree)
    decreases t, 1
  {
    if Big(H, t) then Place(t, key) else Land(H, t, key)
  }

  /** Height of a tree, so that landing strictly below can be told. */
  function Size(t: TT.Tree): (n: nat) {
    match t
    case Short(_, val) => 1 + Size(val)
    case Full(kids) => 1 + SizeAll(kids)
    case _ => 0
  }

  function SizeAll(kids: seq<TT.Tree>): (n: nat) {
    if kids == [] then 0 else Size(kids[0]) + SizeAll(kids[1..])
  }

  lemma {:induction false} KidSize(kids: seq<TT.Tree>, i: nat)
    requires i < |kids|
    ensures Size(kids[i]) <= SizeAll(kids)
  {
    if i > 0 {
      KidSize(kids[1..], i - 1);
    }
  }

  /** What the walk finds: the landing place is a proper part of the tree, the key fits it, the
      lookup goes on from there, and in the stored node it shows as a reference to that place. */
  ghost predicate Landed(H: HashFn, t: TT.Tree, key: Bytes, n: Node, p: Place)
    requires Sub(t) && Sub(p.tree)
  {
    && TT.Fit(p.tree, p.rest) && Size(p.tree) <= Size(t)
    && TT.Lookup(p.tree, p.rest) == TT.Lookup(t, key)
    && (Big(H, p.tree) || p.tree.Nil? || p.tree.Value?)
    && Descend(n, key).Walk?
    && Descend(n, key).node == LoadedRef(H, p.tree, 0)
    && (Big(H, p.tree) ==> Descend(n, key).rest == p.rest)
  }

  ghost predicate Inherits(H: HashFn, t: TT.Tree, p: TT.Tree, blobs: set<Bytes>)
    requires Sub(t) && Sub(p)
  {
    (Encodable(H, t) ==> Encodable(H, p)) && (Covers(H, t, blobs) ==> Covers(H, p, blobs))
  }

  lemma {:induction false} LandOk(H: HashFn, t: TT.Tree, key: Bytes, hash: Option<Bytes>, blobs: set<Bytes>)
    requires Sub(t) && TT.Fit(t, key)
    ensures Landed(H, t, key, Loaded(H, t, hash, 0), Land(H, t, key))
    ensures TT.Canon(t) ==> Size(Land(H, t, key).tree) < Size(t)
    ensures Inherits(H, t, Land(H, t, key).tree, blobs)
    decreases t, 0
  {
    FitDown(t, key);
    match t
    case Short(k, val) =>
      if k <= key {
        LandRefOk(H, val, key[|k|..], blobs);
      }
    case Full(kids) =>
      LandRefOk(H, kids[key[0]], key[1..], blobs);
      LandInside(H, t, key, hash, blobs);
    case _ =>
  }

  lemma LandInside(H: HashFn, t: TT.Tree, key: Bytes, hash: Option<Bytes>, blobs: set<Bytes>)
    requires Sub(t) && t.Full? && |t.kids| == 17 && key != [] && key[0] < 17
    requires var p := LandRef(H, t.kids[key[0]], key[1..]);
             Landed(H, t.kids[key[0]], key[1..], LoadedRef(H, t.kids[key[0]], 0), p) &&
               Inherits(H, t.kids[key[0]], p.tree, blobs)
    ensures Landed(H, t, key, Loaded(H, t, hash, 0), Land(H, t, key))
    ensures Size(Land(H, t, key).tree) < Size(t)
    ensures Inherits(H, t, Land(H, t, key).tree, blobs)
  {
    KidSize(t.kids, key[0] as int);
  }

  lemma {:induction false} LandRefOk(H: HashFn, t: TT.Tree, key: Bytes, blobs: set<Bytes>)
    requires Sub(t) && TT.Fit(t, key)
    ensures Landed(H, t, key, LoadedRef(H, t, 0), LandRef(H, t, key))
    ensures Inherits(H, t, LandRef(H, t, key).tree, blobs)
    decreases t, 1
  {
    if !Big(H, t) {
      LandOk(H, t, key, None, blobs);
    }
  }

  // ----- Soundness and completeness

  /** The proof holds the node of `t` and every hashed node further down the path. */
  ghost predicate HasPath(H: HashFn, proof: Store, t: TT.Tree, key: Bytes)
    requires TT.Canon(t) && HexKey(key)
    decreases Size(t)
  {
    LandOk(H, t, key, None, {});
    var p := Land(H, t, key);
    At(H, proof, t) && (Big(H, p.tree) ==> HexKey(p.rest) && HasPath(H, proof, p.tree, p.rest))
  }

  lemma VerifyUnfold(H: HashFn, t: TT.Tree, key: Bytes, proof: Store, i: nat)
    requires Hashes32(H) && TT.Canon(t) && HexKey(key) && Encodable(H, t) && At(H, proof, t)
    ensures
      var want := H(Enc(H, t));
      var w := Descend(Loaded(H, t, Some(want), 0), key);
      w.Walk? ==>
        Verify(proof, want, key, i) ==
        match w.node
        case HashNode(h) => if |w.rest| < |key| then Verify(proof, h, w.rest, i + 1) else Err(BadNode(i))
        case ValueNode(v) => Ok(Verified(Some(v), i + 1))
        case _ => Ok(Verified(None, i))
  {
    var want := H(Enc(H, t));
    DecodeEncoded(H, t, Some(want), 0, []);
    assert Enc(H, t) + [] == Enc(H, t);
    DescendShrinks(Loaded(H, t, Some(want), 0), key);
  }

  lemma LandingShrinks(H: HashFn, t: TT.Tree, key: Bytes, hash: Option<Bytes>)
    requires TT.Canon(t) && HexKey(key)
    ensures
      var w := Descend(Loaded(H, t, hash, 0), key);
      w.Walk? && w.node.HashNode? ==> |w.rest| < |key|
  {
    DescendShrinks(Loaded(H, t, hash, 0), key);
  }

  /** One round of the check, in terms of the tree. */
  lemma VerifyStep(H: HashFn, t: TT.Tree, key: Bytes, proof: Store, i: nat)
    requires Hashes32(H) && TT.Canon(t) && HexKey(key) && Encodable(H, t) && At(H, proof, t)
    ensures
      var p := Land(H, t, key);
      Verify(proof, H(Enc(H, t)), key, i) ==
      if Big(H, p.tree) then Verify(proof, H(Enc(H, p.tree)), p.rest, i + 1)
      else if p.tree.Value? then Ok(Verified(Some(p.tree.v), i + 1))
      else Ok(Verified(None, i))
  {
    var want := H(Enc(H, t));
    VerifyUnfold(H, t, key, proof, i);
    LandOk(H, t, key, Some(want), {});
    LandingShrinks(H, t, key, Some(want));
    var p := Land(H, t, key);
    LandingNode(H, p.tree);
  }

  lemma LandingNode(H: HashFn, t: TT.Tree)
    requires Sub(t) && (Big(H, t) || t.Nil? || t.Value?)
    ensures LoadedRef(H, t, 0) ==
            if Big(H, t) then HashNode(H(Enc(H, t))) else if t.Value? then ValueNode(t.v) else NilNode
  {
  }

  lemma LandingPlace(H: HashFn, t: TT.Tree, key: Bytes, blobs: set<Bytes>)
    requires TT.Canon(t) && HexKey(key)
    ensures
      var p := Land(H, t, key);
      && Size(p.tree) < Size(t) && TT.Lookup(p.tree, p.rest) == TT.Lookup(t, key) && Inherits(H, t, p.tree, blobs)
      && (Big(H, p.tree) ==> HexKey(p.rest))
      && (!Big(H, p.tree) ==> TT.Lookup(t, key) == if p.tree.Value? then Some(p.tree.v) else None)
  {
    LandOk(H, t, key, None, blobs);
  }

  lemma VerifyMissing(H: HashFn, t: TT.Tree, key: Bytes, proof: Store, i: nat)
    requires TT.Canon(t) && HexKey(key) && H(Enc(H, t)) !in proof
    ensures Verify(proof, H(Enc(H, t)), key, i).Err? && !HasPath(H, proof, t, key)
  {
  }

  /** Whatever is in a proof, as long as every blob is filed under its own hash: an answer that
      is accepted is the right one, and one is accepted exactly when the path is complete. */
  lemma {:induction false} VerifySound(H: HashFn, t: TT.Tree, key: Bytes, proof: Store, blobs: set<Bytes>, i: nat)
    requires Hashes32(H) && TT.Canon(t) && HexKey(key) && Encodable(H, t) && Covers(H, t, blobs)
    requires CollisionFree(H, blobs) && Filed(H, proof, blobs)
    ensures Checked(H, t, key, proof, i)
    decreases Size(t)
  {
    if H(Enc(H, t)) in proof {
      VerifyStep(H, t, key, proof, i);
      LandingPlace(H, t, key, blobs);
      var p := Land(H, t, key);
      if Big(H, p.tree) {
        VerifySound(H, p.tree, p.rest, proof, blobs, i + 1);
      }
    } else {
      VerifyMissing(H, t, key, proof, i);
    }
  }

  ghost predicate Checked(H: HashFn, t: TT.Tree, key: Bytes, proof: Store, i: nat)
    requires TT.Canon(t) && HexKey(key)
  {
    var r := Verify(proof, H(Enc(H, t)), key, i);
    && (r.Ok? ==> r.value.value == TT.Lookup(t, key))
    && (r.Ok? <==> HasPath(H, proof, t, key))
  }

  /** Nothing can be proved about the empty trie: what hashes to its root is no node. */
  lemma VerifyEmpty(H: HashFn, key: Bytes, proof: Store, blobs: set<Bytes>, i: nat)
    requires CollisionFree(H, blobs) && Filed(H, proof, blobs) && Rlp.Encode(Rlp.Str([])) in blobs
    ensures Verify(proof, EmptyRoot(H), key, i).Err?
  {
    var none := Rlp.Encode(Rlp.Str([]));
    if EmptyRoot(H) in proof {
      assert proof[EmptyRoot(H)] == none;
      assert none == [0x80];
      assert DecodeNode(Some(EmptyRoot(H)), [0x80], 0).Err?;
    }
  }

  /** Over any store that files blobs under their own hash, an answer without an error is what the
      trie holds, and there is one exactly if the trie is not empty and its nodes on the way are in
      the store. */
  lemma VerifyAnswers(H: HashFn, t: TT.Tree, key: Bytes, proof: Store, blobs: set<Bytes>)
    requires Hashes32(H) && TT.WellFormed(t) && HexKey(key) && Encodable(H, t) && Covers(H, t, blobs)
    requires CollisionFree(H, blobs) && Filed(H, proof, blobs) && Rlp.Encode(Rlp.Str([])) in blobs
    ensures
      var r := Verify(proof, TreeHash(H, t), key, 0);
      && (r.Ok? ==> r.value.value == TT.Lookup(t, key))
      && (r.Ok? <==> !t.Nil? && HasPath(H, proof, t, key))
  {
    hide Verify, HasPath;
    if t.Nil? {
      VerifyEmpty(H, key, proof, blobs, 0);
    } else {
      VerifySound(H, t, key, proof, blobs, 0);
    }
  }

  // ----- Making a proof

  /** The inner nodes a lookup passes. */
  function PathTrees(t: TT.Tree, key: Bytes): (r: seq<TT.Tree>) {
    match t
    case Short(k, val) => [t] + if k <= key then PathTrees(val, key[|k|..]) else []
    case Full(kids) => [t] + if key != [] && key[0] as int < |kids| then PathTrees(kids[key[0]], key[1..]) else []
    case _ => []
  }

  lemma {:induction false} LandOnPath(H: HashFn, t: TT.Tree, key: Bytes, c: TT.Tree)
    requires Sub(t) && TT.Fit(t, key)
    requires c in PathTrees(Land(H, t, key).tree, Land(H, t, key).rest)
    ensures c in PathTrees(t, key)
  {
    FitDown(t, key);
    match t
    case Short(k, val) =>
      if k <= key && !Big(H, val) {
        LandOnPath(H, val, key[|k|..], c);
      }
    case Full(kids) =>
      if !Big(H, kids[key[0]]) {
        LandOnPath(H, kids[key[0]], key[1..], c);
      }
    case _ =>
  }

  /** A store with the node of `t` and all hashed nodes on the path is a complete proof. */
  lemma {:induction false} PathSuffices(H: HashFn, proof: Store, t: TT.Tree, key: Bytes)
    requires TT.Canon(t) && HexKey(key) && At(H, proof, t)
    requires forall c :: c in PathTrees(t, key) && TT.Canon(c) && Big(H, c) ==> At(H, proof, c)
    ensures HasPath(H, proof, t, key)
    decreases Size(t)
  {
    LandingPlace(H, t, key, {});
    var p := Land(H, t, key);
    if Big(H, p.tree) {
      forall c | c in PathTrees(p.tree, p.rest) && TT.Canon(c) && Big(H, c) ensures At(H, proof, c) {
        LandOnPath(H, t, key, c);
      }
      assert p.tree in PathTrees(p.tree, p.rest);
      PathSuffices(H, proof, p.tree, p.rest);
    }
  }

  /** A live trie, with all that is needed to hash it. */
  ghost predicate Provable(H: HashFn, st: Store, n: Node, t: TT.Tree, blobs: set<Bytes>, root: bool) {
    && Sub(t) && Encodable(H, t) && Covers(H, t, blobs) && Live(H, st, n, t, root)
  }

  /** `nodes` are live nodes of the trees `trees`, the first one being the root. */
  ghost predicate LivePath(H: HashFn, st: Store, nodes: seq<Node>, trees: seq<TT.Tree>, blobs: set<Bytes>) {
    && |nodes| == |trees|
    && forall j :: 0 <= j < |nodes| ==>
         TT.Canon(trees[j]) && (nodes[j].ShortNode? || nodes[j].FullNode?) &&
           Provable(H, st, nodes[j], trees[j], blobs, j == 0)
  }

  ghost function Onward(t: TT.Tree, key: Bytes): (r: seq<TT.Tree>)
    requires t.Short? || t.Full?
  {
    match t
    case Short(k, val) => if k <= key then PathTrees(val, key[|k|..]) else []
    case Full(kids) => if key != [] && key[0] as int < |kids| then PathTrees(kids[key[0]], key[1..]) else []
  }

  lemma PathStep(t: TT.Tree, key: Bytes, trees: seq<TT.Tree>)
    requires t.Short? || t.Full?
    ensures trees + PathTrees(t, key) == (trees + [t]) + Onward(t, key)
  {
    assert PathTrees(t, key) == [t] + Onward(t, key);
    assert trees + ([t] + Onward(t, key)) == (trees + [t]) + Onward(t, key);
  }

  lemma KidsProvable(H: HashFn, st: Store, n: Node, t: TT.Tree, blobs: set<Bytes>, root: bool)
    requires (n.ShortNode? || n.FullNode?) && Provable(H, st, n, t, blobs, root)
    ensures TT.Canon(t)
    ensures n.ShortNode? ==> t.Short? && t.key == n.key && Provable(H, st, n.val, t.val, blobs, false)
    ensures n.FullNode? ==> t.Full? && |n.kids| == |t.kids| == 17
    ensures n.FullNode? ==> forall i :: 0 <= i < 17 ==> Provable(H, st, n.kids[i], t.kids[i], blobs, false)
  {
    CanonParts(t);
  }

  lemma StepOnPath(H: HashFn, st: Store, n: Node, t: TT.Tree, key: Bytes, trees: seq<TT.Tree>, blobs: set<Bytes>,
                   nodes: seq<Node>)
    requires (n.ShortNode? || n.FullNode?) && Provable(H, st, n, t, blobs, nodes == [])
    requires LivePath(H, st, nodes, trees, blobs)
    ensures TT.Canon(t) && LivePath(H, st, nodes + [n], trees + [t], blobs)
  {
    KidsProvable(H, st, n, t, blobs, nodes == []);
    var ns, ts := nodes + [n], trees + [t];
    forall j | 0 <= j < |ns|
      ensures TT.Canon(ts[j]) && (ns[j].ShortNode? || ns[j].FullNode?) && Provable(H, st, ns[j], ts[j], blobs, j == 0)
    {
      if j < |nodes| {
        assert ns[j] == nodes[j] && ts[j] == trees[j];
      }
    }
  }

  lemma PathEnds(t: TT.Tree, key: Bytes)
    requires TT.Fit(t, key) && (key == [] || t.Nil?)
    ensures PathTrees(t, key) == []
  {
  }

  lemma NothingOnPath(H: HashFn, st: Store, blobs: set<Bytes>)
    ensures LivePath(H, st, [], [], blobs)
    ensures Provable(H, st, NilNode, TT.Nil, blobs, false)
  {
  }

  method CollectPath(H: HashFn, st: Store, root: Node, keyIn: Bytes, ghost t: Option<TT.Tree>, ghost blobs: set<Bytes>)
    returns (r: Result<seq<Node>, Fault>)
    requires t.Some? ==> Hashes32(H) && TT.Fit(t.value, keyIn) && Provable(H, st, root, t.value, blobs, true)
    ensures t.Some? ==> r.Ok? && LivePath(H, st, r.value, PathTrees(t.value, keyIn), blobs)
  {
    hide Encodable, Covers, LivePath;
    NothingOnPath(H, st, blobs);
    var key, tn := keyIn, root;
    var nodes: seq<Node> := [];
    ghost var cur := t;
    ghost var trees: seq<TT.Tree> := [];
    while |key| > 0 && !tn.NilNode?
      invariant t.Some? <==> cur.Some?
      invariant t.Some? ==> TT.Fit(cur.value, key) && Provable(H, st, tn, cur.value, blobs, nodes == [])
      invariant t.Some? ==> LivePath(H, st, nodes, trees, blobs)
      invariant t.Some? ==> PathTrees(t.value, keyIn) == trees + PathTrees(cur.value, key)
      decreases |key|, Detour(tn), if tn.NilNode? then 0 else 1
    {
      ghost var here := if cur.Some? then cur.value else TT.Nil;
      match tn {
        case ShortNode(k, val, f) =>
          if t.Some? {
            StepOnPath(H, st, tn, here, key, trees, blobs, nodes);
            KidsProvable(H, st, tn, here, blobs, nodes == []);
            PathStep(here, key, trees);
            FitDown(here, key);
          }
          nodes := nodes + [tn];
          trees := trees + [here];
          if k <= key {
            tn, key := val, key[|k|..];
            cur := if t.Some? then Some(here.val) else None;
          } else {
            tn := NilNode;
            cur := if t.Some? then Some(TT.Nil) else None;
          }
        case FullNode(kids, f) =>
          if key[0] as int >= |kids| {
            return Err(Broken);
          }
          if t.Some? {
            StepOnPath(H, st, tn, here, key, trees, blobs, nodes);
            KidsProvable(H, st, tn, here, blobs, nodes == []);
            PathStep(here, key, trees);
            FitDown(here, key);
          }
          nodes := nodes + [tn];
          trees := trees + [here];
          tn := kids[key[0]];
          cur := if t.Some? then Some(here.kids[key[0]]) else None;
          key := key[1..];
        case HashNode(h) =>
          if t.Some? {
            ResolveLive(H, st, h, here, nodes == [], 0);
          }
          var n := ResolveHash(st, h, 0);
          if n.Err? {
            return Err(n.error);
          }
          tn := n.value;
        case _ =>
          return Err(Broken);
      }
    }
    if t.Some? {
      PathEnds(cur.value, key);
      assert trees + [] == trees;
    }
    return Ok(nodes);
  }

  /** One proof element: the stored form of a node and its hash, when it has one of its own. */
  method ProofElement(H: HashFn, st: Store, n: Node, ghost t: Option<TT.Tree>, ghost blobs: set<Bytes>,
                      ghost root: bool)
    returns (hash: Option<Bytes>, enc: Bytes)
    requires t.Some? ==>
               && Hashes32(H) && CollisionFree(H, blobs) && Filed(H, st, blobs)
               && TT.Canon(t.value) && (n.ShortNode? || n.FullNode?) && Provable(H, st, n, t.value, blobs, root)
    ensures t.Some? ==> enc == Enc(H, t.value) && hash == if Big(H, t.value) then Some(H(enc)) else None
  {
    var cfg := Config(0, 0, false);
    var c := HashChildren(H, cfg, n, st);
    var s := StoreNode(H, cfg, c.hashed, st, false);
    enc := Rlp.Encode(RawItem(Simplify(c.hashed)));
    hash := if s.hashed.HashNode? then Some(s.hashed.h) else None;
    if t.Some? {
      HashChildrenLive(H, cfg, n, st, t.value, blobs, root);
      RawNodeItem(H, t.value);
    }
  }

  /** All nodes that must be there have been put into the proof. */
  ghost predicate Emitted(H: HashFn, proof: Store, trees: seq<TT.Tree>, n: nat)
    requires n <= |trees|
  {
    forall j :: 0 <= j < n ==> TT.Canon(trees[j]) && (j == 0 || Big(H, trees[j]) ==> At(H, proof, trees[j]))
  }

  /** The elements of a proof for a way through the trie: the encodings of the root and of all nodes of 32
      bytes or more, from the top down. */
  ghost function ProofElements(H: HashFn, trees: seq<TT.Tree>): (r: seq<Bytes>)
    requires forall j :: 0 <= j < |trees| ==> TT.Canon(trees[j])
  {
    if trees == [] then []
    else
      var init, last := trees[..|trees| - 1], trees[|trees| - 1];
      ProofElements(H, init) + if |trees| == 1 || |Enc(H, last)| >= 32 then [Enc(H, last)] else []
  }

  /** A proof consists of the elements from position `from` on, each under its hash, and of nothing else. */
  ghost predicate Consists(H: HashFn, proof: Store, elements: seq<Bytes>, from: nat) {
    && (forall j :: from <= j < |elements| ==> H(elements[j]) in proof && proof[H(elements[j])] == elements[j])
    && (forall h :: h in proof ==> exists j :: from <= j < |elements| && h == H(elements[j]))
  }

  lemma PutElement(H: HashFn, proof: Store, elements: seq<Bytes>, from: nat, enc: Bytes, blobs: set<Bytes>)
    requires CollisionFree(H, blobs) && Consists(H, proof, elements, from) && from <= |elements|
    requires enc in blobs && forall j :: 0 <= j < |elements| ==> elements[j] in blobs
    ensures Consists(H, proof[H(enc) := enc], elements + [enc], from)
  {
    var more, all := proof[H(enc) := enc], elements + [enc];
    assert all[|elements|] == enc;
    forall h | h in more ensures exists j :: from <= j < |all| && h == H(all[j]) {
      if h in proof {
        var j :| from <= j < |elements| && h == H(elements[j]);
        assert all[j] == elements[j];
      }
    }
  }

  lemma SkipElement(H: HashFn, proof: Store, elements: seq<Bytes>, from: nat, enc: Bytes)
    requires Consists(H, proof, elements, from) && from > |elements|
    ensures Consists(H, proof, elements + [enc], from)
  {
  }

  lemma {:induction false} ElementsKnown(H: HashFn, trees: seq<TT.Tree>, blobs: set<Bytes>)
    requires forall j :: 0 <= j < |trees| ==> TT.Canon(trees[j]) && Enc(H, trees[j]) in blobs
    ensures forall j :: 0 <= j < |ProofElements(H, trees)| ==> ProofElements(H, trees)[j] in blobs
  {
    if trees != [] {
      ElementsKnown(H, trees[..|trees| - 1], blobs);
    }
  }

  lemma {:induction false} ElementIn(H: HashFn, trees: seq<TT.Tree>, j: nat)
    requires forall i :: 0 <= i < |trees| ==> TT.Canon(trees[i])
    requires j < |trees| && (j == 0 || |Enc(H, trees[j])| >= 32)
    ensures Enc(H, trees[j]) in ProofElements(H, trees)
  {
    var init := trees[..|trees| - 1];
    if j < |init| {
      ElementIn(H, init, j);
    }
  }

  /** A proof from the root on lacks nothing. */
  lemma ConsistsEmitted(H: HashFn, proof: Store, trees: seq<TT.Tree>)
    requires forall j :: 0 <= j < |trees| ==> TT.Canon(trees[j])
    requires Consists(H, proof, ProofElements(H, trees), 0)
    ensures Emitted(H, proof, trees, |trees|)
  {
    forall j | 0 <= j < |trees| && (j == 0 || Big(H, trees[j])) ensures At(H, proof, trees[j]) {
      ElementIn(H, trees, j);
    }
  }

  lemma ConsistsFiled(H: HashFn, proof: Store, elements: seq<Bytes>, from: nat, blobs: set<Bytes>)
    requires Consists(H, proof, elements, from) && forall j :: 0 <= j < |elements| ==> elements[j] in blobs
    ensures Filed(H, proof, blobs)
  {
    forall h | h in proof ensures proof[h] in blobs && H(proof[h]) == h {
      var j :| from <= j < |elements| && h == H(elements[j]);
    }
  }

  /** One element more, or none. */
  lemma NextElement(H: HashFn, trees: seq<TT.Tree>, i: nat)
    requires i < |trees| && forall j :: 0 <= j < |trees| ==> TT.Canon(trees[j])
    ensures
      var e := if i == 0 || |Enc(H, trees[i])| >= 32 then [Enc(H, trees[i])] else [];
      ProofElements(H, trees[..i + 1]) == ProofElements(H, trees[..i]) + e
  {
    var t := trees[..i + 1];
    assert t[..|t| - 1] == trees[..i] && t[|t| - 1] == trees[i];
  }

  lemma PathCovered(H: HashFn, st: Store, nodes: seq<Node>, trees: seq<TT.Tree>, blobs: set<Bytes>)
    requires LivePath(H, st, nodes, trees, blobs)
    ensures |trees| == |nodes|
    ensures forall j :: 0 <= j < |trees| ==> TT.Canon(trees[j]) && Enc(H, trees[j]) in blobs
    ensures ProofElements(H, trees[..0]) == []
  {
    forall j | 0 <= j < |trees| ensures TT.Canon(trees[j]) && Enc(H, trees[j]) in blobs {
      CoversSelf(H, trees[j], blobs);
    }
  }

  method EmitPath(H: HashFn, st: Store, nodes: seq<Node>, fromLevelIn: nat, ghost trees: Option<seq<TT.Tree>>,
                  ghost blobs: set<Bytes>)
    returns (proof: Store)
    requires trees.Some? ==>
               Hashes32(H) && CollisionFree(H, blobs) && Filed(H, st, blobs) &&
                 LivePath(H, st, nodes, trees.value, blobs)
    ensures trees.Some? ==> Filed(H, proof, blobs) && (nodes == [] ==> proof == map[])
    ensures trees.Some? ==>
      && (forall j :: 0 <= j < |trees.value| ==> TT.Canon(trees.value[j]))
      && Consists(H, proof, ProofElements(H, trees.value), fromLevelIn)
  {
    hide LivePath, Consists, Filed, CollisionFree, ProofElements, TT.Canon, Provable, Enc;
    proof := map[];
    var fromLevel, i := fromLevelIn, 0;
    ghost var done: seq<Bytes> := [];
    if trees.Some? {
      PathCovered(H, st, nodes, trees.value, blobs);
    }
    NothingYet(H, fromLevelIn);
    while i < |nodes|
      invariant i <= |nodes| && (i == 0 ==> proof == map[])
      invariant trees.Some? ==>
        && done == ProofElements(H, trees.value[..i]) && Consists(H, proof, done, fromLevelIn)
        && fromLevel == if |done| < fromLevelIn then fromLevelIn - |done| else 0
    {
      ghost var here := if trees.Some? then Some(trees.value[i]) else None;
      if trees.Some? {
        LiveHere(H, st, nodes, trees.value, blobs, i);
        NextElement(H, trees.value, i);
        ElementsKnown(H, trees.value[..i], blobs);
      }
      var hash, enc := ProofElement(H, st, nodes[i], here, blobs, i == 0);
      if hash.Some? || i == 0 {
        if fromLevel > 0 {
          fromLevel := fromLevel - 1;
          if trees.Some? {
            SkipElement(H, proof, done, fromLevelIn, enc);
          }
        } else {
          if trees.Some? {
            PutElement(H, proof, done, fromLevelIn, enc, blobs);
          }
          proof := proof[if hash.Some? then hash.value else H(enc) := enc];
        }
        done := done + [enc];
      }
      i := i + 1;
    }
    if trees.Some? {
      assert trees.value[..i] == trees.value;
      ElementsKnown(H, trees.value, blobs);
      ConsistsFiled(H, proof, done, fromLevelIn, blobs);
    }
  }

  lemma NothingYet(H: HashFn, from: nat)
    ensures Consists(H, map[], [], from)
  {
  }

  lemma LiveHere(H: HashFn, st: Store, nodes: seq<Node>, trees: seq<TT.Tree>, blobs: set<Bytes>, i: nat)
    requires LivePath(H, st, nodes, trees, blobs) && i < |nodes| == |trees|
    ensures TT.Canon(trees[i]) && (nodes[i].ShortNode? || nodes[i].FullNode?)
    ensures Provable(H, st, nodes[i], trees[i], blobs, i == 0)
  {
  }

  lemma EmittedSuffices(H: HashFn, proof: Store, t: TT.Tree, key: Bytes)
    requires TT.Canon(t) && HexKey(key) && Emitted(H, proof, PathTrees(t, key), |PathTrees(t, key)|)
    ensures HasPath(H, proof, t, key)
  {
    var trees := PathTrees(t, key);
    assert trees[0] == t;
    forall c | c in trees && TT.Canon(c) && Big(H, c) ensures At(H, proof, c) {
      var j :| 0 <= j < |trees| && trees[j] == c;
    }
    PathSuffices(H, proof, t, key);
  }

  /** Collects the encoded nodes on the path to a key. The first `fromLevel` elements are left
      out; with none left out the proof is complete. */
  method Prove(H: HashFn, st: Store, root: Node, key: Bytes, fromLevel: nat, ghost t: Option<TT.Tree>,
               ghost blobs: set<Bytes>)
    returns (r: Result<Store, Fault>)
    requires t.Some? ==>
               && Hashes32(H) && CollisionFree(H, blobs) && Filed(H, st, blobs)
               && TT.WellFormed(t.value) && Provable(H, st, root, t.value, blobs, true)
    ensures t.Some? ==> r.Ok? && Filed(H, r.value, blobs)
    ensures t.Some? ==>
      && HexKey(HexOf(key)) && (forall c :: c in PathTrees(t.value, HexOf(key)) ==> TT.Canon(c))
      && Consists(H, r.value, ProofElements(H, PathTrees(t.value, HexOf(key))), fromLevel)
    ensures t.Some? && !t.value.Nil? && fromLevel == 0 ==>
      HexKey(HexOf(key)) && HasPath(H, r.value, t.value, HexOf(key))
    ensures t.Some? && t.value.Nil? ==> r.value == map[]
  {
    HexOfIsKey(key);
    var k := KeybytesToHex(key);
    var c := CollectPath(H, st, root, k, t, blobs);
    if c.Err? {
      return Err(c.error);
    }
    ghost var trees := if t.Some? then Some(PathTrees(t.value, k)) else None;
    var proof := EmitPath(H, st, c.value, fromLevel, trees, blobs);
    if t.Some? && !t.value.Nil? && fromLevel == 0 {
      ConsistsEmitted(H, proof, trees.value);
      EmittedSuffices(H, proof, t.value, k);
    }
    return Ok(proof);
  }

  /** Making a proof and checking it gives the answer of a lookup, for keys that are present and
      for keys that are not. Only the empty trie has no proof. */
  method ProveThenVerify(H: HashFn, st: Store, root: Node, key: Bytes, ghost t: TT.Tree, ghost blobs: set<Bytes>)
    returns (r: Result<Verified, ProofFault>)
    requires Hashes32(H) && CollisionFree(H, blobs) && Filed(H, st, blobs)
    requires TT.WellFormed(t) && Provable(H, st, root, t, blobs, true)
    ensures r.Ok? <==> !t.Nil?
    ensures r.Ok? ==> r.value.value == TT.Lookup(t, HexOf(key))
  {
    var cfg := Config(0, 0, false);
    HashRootLive(H, cfg, root, st, t, blobs);
    var rootHash := HashRoot(H, cfg, root, st).hash;
    var proof := Prove(H, st, root, key, 0, Some(t), blobs);
    r := VerifyProof(rootHash, key, proof.value);
    if !t.Nil? {
      VerifySound(H, t, HexOf(key), proof.value, blobs, 0);
    }
  }
}
