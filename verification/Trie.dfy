/** The trie as the program holds it: nodes carry cache flags, parts of it may be hash nodes
    that are loaded from the node store on demand. Every operation is related to what it does
    to the represented tree. */
module Trie {
  import opened Common
  import opened Hex
  import TT = TrieTree
  import opened NodeCodec

  /** Encoded nodes by hash, whether still cached in memory or already on disk. */
  type Store = map<Bytes, Bytes>

  /** A node is missing from the store, or what is stored makes the program give up. */
  datatype Fault = Missing(hash: Bytes) | Broken

  // ----- Live nodes

  /** The node of `t` is in the store under its hash. */
  ghost predicate At(H: HashFn, st: Store, t: TT.Tree)
    requires Sub(t)
  {
    H(Enc(H, t)) in st && st[H(Enc(H, t))] == Enc(H, t)
  }

  /** Everything below `t` that is referred to by hash is in the store. */
  ghost predicate SavedKids(H: HashFn, st: Store, t: TT.Tree)
    requires Sub(t)
    decreases t, 0
  {
    match t
    case Short(_, val) => Saved(H, st, val)
    case Full(kids) => forall i :: 0 <= i < |kids| ==> Saved(H, st, kids[i])
    case _ => true
  }

  ghost predicate Saved(H: HashFn, st: Store, t: TT.Tree)
    requires Sub(t)
    decreases t, 1
  {
    (Big(H, t) ==> At(H, st, t)) && SavedKids(H, st, t)
  }

  /** A hash kept in the flags is the right one, and a node that is not dirty can be found in
      the store together with all below it, unless it is embedded in another node. */
  ghost predicate FlagOk(H: HashFn, st: Store, f: Flags, t: TT.Tree, root: bool)
    requires Sub(t)
  {
    && (f.hash.Some? ==> f.hash.value == H(Enc(H, t)) && (root || Big(H, t)))
    && (!f.dirty ==> (root || Big(H, t) ==> At(H, st, t)) && SavedKids(H, st, t))
  }

  /** `n` represents the tree `t`. */
  ghost predicate Live(H: HashFn, st: Store, n: Node, t: TT.Tree, root: bool)
    requires Sub(t)
    decreases t
  {
    match n
    case NilNode => t.Nil?
    case ValueNode(v) => t == TT.Value(v)
    case HashNode(h) =>
      && TT.Canon(t) && h == H(Enc(H, t)) && (root || Big(H, t))
      && At(H, st, t) && SavedKids(H, st, t)
    case ShortNode(k, val, f) =>
      && t.Short? && t.key == k
      && Live(H, st, val, t.val, false)
      && FlagOk(H, st, f, t, root)
    case FullNode(kids, f) =>
      && t.Full? && |kids| == 17
      && (forall i :: 0 <= i < 17 ==> Live(H, st, kids[i], t.kids[i], false))
      && FlagOk(H, st, f, t, root)
  }

  // ----- Loading nodes

  /** Nodes in the store label something: an empty key would not lead anywhere. */
  predicate Progress(n: Node) {
    n.FullNode? || (n.ShortNode? && n.key != [])
  }

  function ResolveHash(st: Store, h: Bytes, gen: nat): (r: Result<Node, Fault>)
    ensures r.Ok? ==> Progress(r.value)
  {
    if h !in st then Err(Missing(h))
    else
      match DecodeNode(Some(h), st[h], gen)
      case Err(_) => Err(Broken)
      case Ok(n) => if Progress(n) then Ok(n) else Err(Broken)
  }

  function Resolve(st: Store, n: Node, gen: nat): (r: Result<Node, Fault>) {
    if n.HashNode? then ResolveHash(st, n.h, gen) else Ok(n)
  }

  /** Nodes that are passed without using up any of the key. */
  function Detour(n: Node): (r: nat) {
    match n
    case HashNode(_) => 1
    case ShortNode(k, val, _) => if k == [] then 2 + Detour(val) else 0
    case _ => 0
  }

  lemma {:induction false} LoadedLive(H: HashFn, st: Store, t: TT.Tree, hash: Option<Bytes>, gen: nat, root: bool)
    requires Sub(t) && SavedKids(H, st, t)
    requires hash == if root || Big(H, t) then Some(H(Enc(H, t))) else None
    requires root || Big(H, t) ==> At(H, st, t)
    ensures Live(H, st, Loaded(H, t, hash, gen), t, root)
    decreases t, 0
  {
    match t
    case Short(_, val) => LoadedRefLive(H, st, val, gen);
    case Full(kids) =>
      forall i | 0 <= i < 17 ensures Live(H, st, LoadedKids(H, kids, gen)[i], kids[i], false) {
        LoadedRefLive(H, st, kids[i], gen);
      }
    case _ =>
  }

  lemma {:induction false} LoadedRefLive(H: HashFn, st: Store, t: TT.Tree, gen: nat)
    requires Sub(t) && Saved(H, st, t)
    ensures Live(H, st, LoadedRef(H, t, gen), t, false)
    decreases t, 1
  {
    if !Big(H, t) {
      LoadedLive(H, st, t, None, gen, false);
    }
  }

  /** A hash node of a live trie always loads, and what is loaded represents the same tree. */
  lemma ResolveLive(H: HashFn, st: Store, h: Bytes, t: TT.Tree, root: bool, gen: nat)
    requires Hashes32(H) && TT.Canon(t) && Encodable(H, t) && Live(H, st, HashNode(h), t, root)
    ensures ResolveHash(st, h, gen) == Ok(Loaded(H, t, Some(h), gen))
    ensures Live(H, st, Loaded(H, t, Some(h), gen), t, root) && !Loaded(H, t, Some(h), gen).HashNode?
  {
    DecodeEncoded(H, t, Some(h), gen, []);
    assert Enc(H, t) + [] == Enc(H, t);
    LoadedLive(H, st, t, Some(h), gen, root);
  }

  // ----- Lookup

  datatype Got = Got(value: Option<Bytes>, node: Node, resolved: bool)

  function TryGet(st: Store, gen: nat, n: Node, key: Bytes): (r: Result<Got, Fault>)
    decreases |key|, Detour(n)
  {
    match n
    case NilNode => Ok(Got(None, NilNode, false))
    case ValueNode(v) => Ok(Got(Some(v), n, false))
    case ShortNode(k, val, f) =>
      if !(k <= key) then Ok(Got(None, n, false))
      else
        (match TryGet(st, gen, val, key[|k|..])
         case Err(e) => Err(e)
         case Ok(g) => Ok(Got(g.value, if g.resolved then ShortNode(k, g.node, f.(gen := gen)) else n, g.resolved)))
    case FullNode(kids, f) =>
      if key == [] || key[0] as int >= |kids| then Err(Broken)
      else
        (match TryGet(st, gen, kids[key[0]], key[1..])
         case Err(e) => Err(e)
         case Ok(g) =>
           Ok(Got(g.value, if g.resolved then FullNode(kids[key[0] := g.node], f.(gen := gen)) else n, g.resolved)))
    case HashNode(h) =>
      match ResolveHash(st, h, gen)
      case Err(e) => Err(e)
      case Ok(child) =>
        match TryGet(st, gen, child, key)
        case Err(e) => Err(e)
        case Ok(g) => Ok(Got(g.value, g.node, true))
  }

  lemma FitDown(t: TT.Tree, key: Bytes)
    requires TT.Fit(t, key)
    ensures Sub(t)
    ensures t.Full? ==> key != [] && key[0] < 17 && |t.kids| == 17 && TT.Fit(t.kids[key[0]], key[1..])
    ensures t.Short? && t.key <= key ==> TT.Fit(t.val, key[|t.key|..])
    ensures t.Short? ==> t.key != []
  {
    match t
    case Full(kids) => TT.StepFull(kids, key);
    case Short(k, val) =>
      if k <= key {
        CommonPrefixUnique(key, k, |k|);
        TT.StepShort(k, val, key, |k|);
      }
    case _ =>
  }

  /** A lookup in a live trie returns what the represented tree holds. Nodes it loads on the way
      stay in the trie, which goes on representing the same tree. */
  lemma {:induction false} GetLive(H: HashFn, st: Store, gen: nat, n: Node, t: TT.Tree, key: Bytes, root: bool)
    requires Hashes32(H) && TT.Fit(t, key) && Sub(t) && Encodable(H, t) && Live(H, st, n, t, root)
    ensures TryGet(st, gen, n, key).Ok?
    ensures TryGet(st, gen, n, key).value.value == TT.Lookup(t, key)
    ensures Live(H, st, TryGet(st, gen, n, key).value.node, t, root)
    ensures !TryGet(st, gen, n, key).value.resolved ==> TryGet(st, gen, n, key).value.node == n
    decreases t, if n.HashNode? then 1 else 0
  {
    FitDown(t, key);
    match n
    case NilNode =>
    case ValueNode(v) =>
    case ShortNode(k, val, f) =>
      if k <= key {
        GetLive(H, st, gen, val, t.val, key[|k|..], false);
      }
    case FullNode(kids, f) =>
      GetLive(H, st, gen, kids[key[0]], t.kids[key[0]], key[1..], false);
    case HashNode(h) =>
      ResolveLive(H, st, h, t, root, gen);
      GetLive(H, st, gen, Loaded(H, t, Some(h), gen), t, key, root);
  }

  // ----- Update

  function NewFlag(gen: nat): (f: Flags) {
    Flags(None, gen, true)
  }

  datatype Changed = Changed(dirty: bool, node: Node)

  function NoNodes(n: nat): (r: seq<Node>)
    ensures |r| == n && forall i :: 0 <= i < n ==> r[i] == NilNode
  {
    if n == 0 then [] else NoNodes(n - 1) + [NilNode]
  }

  /** Inserting below nothing. */
  function InsertNew(gen: nat, key: Bytes, value: Node): (n: Node) {
    if key == [] then value else ShortNode(key, value, NewFlag(gen))
  }

  /** A short node whose key parts from `key` after `m` nibbles becomes a branch. */
  function SplitShort(gen: nat, k: Bytes, val: Node, key: Bytes, value: Node, m: nat): (n: Node)
    requires m < |k| && m < |key| && k[m] < 17 && key[m] < 17
  {
    var branch := FullNode(NoNodes(17)[k[m] := InsertNew(gen, k[m + 1..], val)]
                                      [key[m] := InsertNew(gen, key[m + 1..], value)],
                           NewFlag(gen));
    if m == 0 then branch else ShortNode(key[..m], branch, NewFlag(gen))
  }

  function Insert(st: Store, gen: nat, n: Node, key: Bytes, value: Node): (r: Result<Changed, Fault>)
    decreases |key|, Detour(n)
  {
    if key == [] then Ok(Changed(!(n.ValueNode? && n == value), value))
    else
      match n
      case ShortNode(k, val, f) =>
        var m := CommonPrefix(key, k);
        if m == |k| then
          (match Insert(st, gen, val, key[m..], value)
           case Err(e) => Err(e)
           case Ok(c) => if !c.dirty then Ok(Changed(false, n))
             else Ok(Changed(true, ShortNode(k, c.node, NewFlag(gen)))))
        else if m == |key| || k[m] >= 17 || key[m] >= 17 then Err(Broken)
        else Ok(Changed(true, SplitShort(gen, k, val, key, value, m)))
      case FullNode(kids, f) =>
        if key[0] as int >= |kids| then Err(Broken)
        else
          (match Insert(st, gen, kids[key[0]], key[1..], value)
           case Err(e) => Err(e)
           case Ok(c) =>
             if !c.dirty then Ok(Changed(false, n))
             else Ok(Changed(true, FullNode(kids[key[0] := c.node], NewFlag(gen)))))
      case NilNode => Ok(Changed(true, ShortNode(key, value, NewFlag(gen))))
      case HashNode(h) =>
        (match ResolveHash(st, h, gen)
         case Err(e) => Err(e)
         case Ok(rn) =>
           match Insert(st, gen, rn, key, value)
           case Err(e) => Err(e)
           case Ok(c) => if !c.dirty then Ok(Changed(false, rn)) else Ok(Changed(true, c.node)))
      case ValueNode(_) => Err(Broken)
  }

  lemma InsertNewLive(H: HashFn, st: Store, gen: nat, key: Bytes, n: Node, t: TT.Tree, root: bool)
    requires Sub(t) && Sub(TT.Attach(key, t)) && Live(H, st, n, t, false) && (key == [] ==> !root)
    ensures Live(H, st, InsertNew(gen, key, n), TT.Attach(key, t), root)
  {
  }

  /** The two ways on from where a key leaves the key of a short node. */
  lemma SplitBranchLive(H: HashFn, st: Store, gen: nat, k: Bytes, val: Node, t: TT.Tree, key: Bytes, v: Bytes, m: nat,
                        root: bool)
    requires TT.Canon(TT.Short(k, t)) && HexKey(key) && v != [] && Live(H, st, val, t, false)
    requires m == CommonPrefix(key, k) < |k|
    ensures m < |key| && k[m] < 17 && key[m] < 17
    ensures
      var a, b := TT.Attach(k[m + 1..], t), TT.Attach(key[m + 1..], TT.Value(v));
      var l, r := InsertNew(gen, k[m + 1..], val), InsertNew(gen, key[m + 1..], ValueNode(v));
      && TT.Canon(TT.Branch(k[m], a, key[m], b))
      && Live(H, st, FullNode(NoNodes(17)[k[m] := l][key[m] := r], NewFlag(gen)), TT.Branch(k[m], a, key[m], b), root)
  {
    TT.StepShort(k, t, key, m);
    TT.AttachSlot(k, t, m);
    TT.AttachSlot(key, TT.Value(v), m);
    var a, b := TT.Attach(k[m + 1..], t), TT.Attach(key[m + 1..], TT.Value(v));
    InsertNewLive(H, st, gen, k[m + 1..], val, t, false);
    InsertNewLive(H, st, gen, key[m + 1..], ValueNode(v), TT.Value(v), false);
    TT.BranchCanon(k[m], a, key[m], b);
    BranchLive(H, st, gen, k[m], InsertNew(gen, k[m + 1..], val), a, key[m],
               InsertNew(gen, key[m + 1..], ValueNode(v)), b, root);
  }

  /** What two keys have in common goes in front of the branch. */
  lemma PrefixLive(H: HashFn, st: Store, gen: nat, p: Bytes, n: Node, t: TT.Tree, root: bool)
    requires TT.Canon(t) && TT.Canon(TT.Attach(p, t)) && Live(H, st, n, t, p == [] && root)
    ensures Live(H, st, if p == [] then n else ShortNode(p, n, NewFlag(gen)), TT.Attach(p, t), root)
  {
  }

  lemma SplitShortLive(H: HashFn, st: Store, gen: nat, k: Bytes, val: Node, t: TT.Tree, key: Bytes, v: Bytes,
                       root: bool)
    requires TT.Canon(TT.Short(k, t)) && HexKey(key) && v != [] && Live(H, st, val, t, false)
    requires CommonPrefix(key, k) < |k|
    ensures
      var m := CommonPrefix(key, k);
      && m < |key| && k[m] < 17 && key[m] < 17
      && Sub(TT.Update(TT.Short(k, t), key, v))
      && Live(H, st, SplitShort(gen, k, val, key, ValueNode(v), m), TT.Update(TT.Short(k, t), key, v), root)
  {
    hide Live, TT.Canon, TT.Branch, TT.Attach, InsertNew;
    var m := CommonPrefix(key, k);
    SplitBranchLive(H, st, gen, k, val, t, key, v, m, m == 0 && root);
    TT.UpdateCanon(TT.Short(k, t), key, v);
    var a, b := TT.Attach(k[m + 1..], t), TT.Attach(key[m + 1..], TT.Value(v));
    var l, r := InsertNew(gen, k[m + 1..], val), InsertNew(gen, key[m + 1..], ValueNode(v));
    PrefixLive(H, st, gen, key[..m], FullNode(NoNodes(17)[k[m] := l][key[m] := r], NewFlag(gen)),
               TT.Branch(k[m], a, key[m], b), root);
  }

  lemma BranchLive(H: HashFn, st: Store, gen: nat, i: Byte, m: Node, a: TT.Tree, j: Byte, n: Node, b: TT.Tree,
                   root: bool)
    requires i < 17 && j < 17 && i != j && Sub(a) && Sub(b) && TT.Canon(TT.Branch(i, a, j, b))
    requires Live(H, st, m, a, false) && Live(H, st, n, b, false)
    ensures Live(H, st, FullNode(NoNodes(17)[i := m][j := n], NewFlag(gen)), TT.Branch(i, a, j, b), root)
  {
    var kids, trees := NoNodes(17)[i := m][j := n], TT.NoKids(17)[i := a][j := b];
    assert forall k :: 0 <= k < 17 && k != i as int && k != j as int ==> kids[k] == NilNode && trees[k] == TT.Nil;
    assert TT.Branch(i, a, j, b) == TT.Full(trees);
  }

  lemma SetKidLive(H: HashFn, st: Store, gen: nat, kids: seq<Node>, f: Flags, t: TT.Tree, i: Byte, n: Node,
                   kid: TT.Tree, root: bool, r: bool)
    requires TT.Canon(t) && t.Full? && i < 17 && Sub(kid) && Sub(TT.Full(t.kids[i := kid]))
    requires Live(H, st, FullNode(kids, f), t, r) && Live(H, st, n, kid, false)
    ensures Live(H, st, FullNode(kids[i := n], NewFlag(gen)), TT.Full(t.kids[i := kid]), root)
  {
  }

  /** What an update of `n` must come to. */
  ghost predicate Updated(H: HashFn, st: Store, gen: nat, n: Node, t: TT.Tree, key: Bytes, v: Bytes, root: bool)
    requires TT.Fit(t, key)
  {
    var r := Insert(st, gen, n, key, ValueNode(v));
    && r.Ok? && Sub(TT.Update(t, key, v))
    && Live(H, st, r.value.node, TT.Update(t, key, v), root)
    && (!r.value.dirty ==> TT.Update(t, key, v) == t)
  }

  lemma {:induction false} InsertLiveFull(H: HashFn, st: Store, gen: nat, n: Node, t: TT.Tree, key: Bytes, v: Bytes,
                                          root: bool)
    requires Hashes32(H) && n.FullNode? && HexKey(key) && v != []
    requires TT.Canon(t) && Encodable(H, t) && Live(H, st, n, t, root)
    ensures Updated(H, st, gen, n, t, key, v, root)
    decreases t, 0
  {
    TT.StepFull(t.kids, key);
    TT.UpdateCanon(t, key, v);
    var i, kid := key[0], TT.Update(t.kids[key[0]], key[1..], v);
    InsertLive(H, st, gen, n.kids[i], t.kids[i], key[1..], v, false);
    var c := Insert(st, gen, n.kids[i], key[1..], ValueNode(v)).value;
    if c.dirty {
      SetKidLive(H, st, gen, n.kids, n.flags, t, i, c.node, kid, root, root);
    } else {
      assert t.kids[i := kid] == t.kids;
    }
  }

  lemma {:induction false} InsertLiveShort(H: HashFn, st: Store, gen: nat, n: Node, t: TT.Tree, key: Bytes, v: Bytes,
                                           root: bool)
    requires Hashes32(H) && n.ShortNode? && HexKey(key) && v != []
    requires TT.Canon(t) && Encodable(H, t) && Live(H, st, n, t, root)
    ensures Updated(H, st, gen, n, t, key, v, root)
    decreases t, 0
  {
    var k, m := n.key, CommonPrefix(key, n.key);
    TT.StepShort(k, t.val, key, m);
    if m == |k| {
      TT.UpdateCanon(t, key, v);
      InsertLive(H, st, gen, n.val, t.val, key[m..], v, false);
    } else {
      SplitShortLive(H, st, gen, k, n.val, t.val, key, v, root);
    }
  }

  /** An update of a live trie yields a trie that represents the updated tree; when it reports
      that nothing changed, nothing has. */
  lemma {:induction false} InsertLive(H: HashFn, st: Store, gen: nat, n: Node, t: TT.Tree, key: Bytes, v: Bytes,
                                      root: bool)
    requires Hashes32(H) && TT.Fit(t, key) && Sub(t) && Encodable(H, t) && Live(H, st, n, t, root) && v != []
    ensures Updated(H, st, gen, n, t, key, v, root)
    decreases t, if n.HashNode? then 2 else 1
  {
    if key != [] {
      match n
      case NilNode =>
      case ValueNode(_) =>
      case ShortNode(_, _, _) => InsertLiveShort(H, st, gen, n, t, key, v, root);
      case FullNode(_, _) => InsertLiveFull(H, st, gen, n, t, key, v, root);
      case HashNode(h) =>
        ResolveLive(H, st, h, t, root, gen);
        InsertLive(H, st, gen, Loaded(H, t, Some(h), gen), t, key, v, root);
    }
  }

  // ----- Deletion

  function OnlyNode(kids: seq<Node>): (pos: int)
    ensures -2 <= pos < |kids|
  {
    if kids == [] then -1 else
      var last := |kids| - 1;
      var pos := OnlyNode(kids[..last]);
      if kids[last].NilNode? then pos else if pos == -1 then last else -2
  }

  /** The loop that looks for a single remaining child. */
  method FindOnly(kids: seq<Node>) returns (pos: int)
    ensures pos == OnlyNode(kids)
  {
    pos := -1;
    var i := 0;
    while i < |kids|
      invariant i <= |kids| && pos == OnlyNode(kids[..i])
    {
      assert kids[..i + 1][..i] == kids[..i];
      if !kids[i].NilNode? {
        if pos == -1 {
          pos := i;
        } else {
          pos := -2;
          SeveralStay(kids, i + 1);
          return;
        }
      }
      i := i + 1;
    }
    assert kids[..|kids|] == kids;
  }

  lemma {:induction false} SeveralStay(kids: seq<Node>, i: nat)
    requires i <= |kids| && OnlyNode(kids[..i]) == -2
    ensures OnlyNode(kids) == -2
    decreases |kids| - i
  {
    if i < |kids| {
      assert kids[..i + 1][..i] == kids[..i];
      SeveralStay(kids, i + 1);
    } else {
      assert kids[..i] == kids;
    }
  }

  lemma {:induction false} OnlyNodeLive(kids: seq<Node>, trees: seq<TT.Tree>)
    requires |kids| == |trees| && forall i :: 0 <= i < |kids| ==> (kids[i].NilNode? <==> trees[i].Nil?)
    ensures OnlyNode(kids) == TT.OnlyChild(trees)
  {
    if kids != [] {
      OnlyNodeLive(kids[..|kids| - 1], trees[..|kids| - 1]);
    }
  }

  /** A branch from which a child has been deleted, reduced when only one is left. */
  function ReduceNode(st: Store, gen: nat, kids: seq<Node>): (r: Result<Changed, Fault>) {
    var pos := OnlyNode(kids);
    if pos < 0 then Ok(Changed(true, FullNode(kids, NewFlag(gen))))
    else if pos >= 256 then Err(Broken)
    else if pos != 16 then
      match Resolve(st, kids[pos], gen)
      case Err(e) => Err(e)
      case Ok(cnode) =>
        if cnode.ShortNode? then Ok(Changed(true, ShortNode([pos as Byte] + cnode.key, cnode.val, NewFlag(gen))))
        else Ok(Changed(true, ShortNode([pos as Byte], kids[pos], NewFlag(gen))))
    else Ok(Changed(true, ShortNode([pos as Byte], kids[pos], NewFlag(gen))))
  }

  function Delete(st: Store, gen: nat, n: Node, key: Bytes): (r: Result<Changed, Fault>)
    decreases |key|, Detour(n)
  {
    match n
    case ShortNode(k, val, f) =>
      var m := CommonPrefix(key, k);
      if m < |k| then Ok(Changed(false, n))
      else if m == |key| then Ok(Changed(true, NilNode))
      else
        (match Delete(st, gen, val, key[m..])
         case Err(e) => Err(e)
         case Ok(c) =>
           if !c.dirty then Ok(Changed(false, n))
           else if c.node.ShortNode? then Ok(Changed(true, ShortNode(k + c.node.key, c.node.val, NewFlag(gen))))
           else Ok(Changed(true, ShortNode(k, c.node, NewFlag(gen)))))
    case FullNode(kids, f) =>
      if key == [] || key[0] as int >= |kids| then Err(Broken)
      else
        (match Delete(st, gen, kids[key[0]], key[1..])
         case Err(e) => Err(e)
         case Ok(c) => if !c.dirty then Ok(Changed(false, n)) else ReduceNode(st, gen, kids[key[0] := c.node]))
    case ValueNode(_) => Ok(Changed(true, NilNode))
    case NilNode => Ok(Changed(false, NilNode))
    case HashNode(h) =>
      match ResolveHash(st, h, gen)
      case Err(e) => Err(e)
      case Ok(rn) =>
        match Delete(st, gen, rn, key)
        case Err(e) => Err(e)
        case Ok(c) => if !c.dirty then Ok(Changed(false, rn)) else Ok(Changed(true, c.node))
  }

  /** What a deletion from `n` must come to. */
  ghost predicate Deleted(H: HashFn, st: Store, gen: nat, n: Node, t: TT.Tree, key: Bytes, root: bool)
    requires TT.Fit(t, key)
  {
    var r := Delete(st, gen, n, key);
    && r.Ok? && Sub(TT.Delete(t, key))
    && Live(H, st, r.value.node, TT.Delete(t, key), root)
    && (!r.value.dirty ==> TT.Delete(t, key) == t)
    && (r.value.dirty ==> !r.value.node.HashNode?)
  }

  lemma ReduceLive(H: HashFn, st: Store, gen: nat, kids: seq<Node>, trees: seq<TT.Tree>, root: bool)
    requires Hashes32(H) && |kids| == |trees| == 17 && TT.OnlyChild(trees) != -1
    requires TT.Leafy(trees[16]) && forall i :: 0 <= i < 16 ==> trees[i].Nil? || TT.Canon(trees[i])
    requires forall i :: 0 <= i < 17 ==> Live(H, st, kids[i], trees[i], false)
    requires forall i :: 0 <= i < 17 && kids[i].HashNode? ==> Encodable(H, trees[i])
    ensures ReduceNode(st, gen, kids).Ok? && TT.Canon(TT.Reduce(trees))
    ensures Live(H, st, ReduceNode(st, gen, kids).value.node, TT.Reduce(trees), root)
    ensures ReduceNode(st, gen, kids).value.dirty && !ReduceNode(st, gen, kids).value.node.HashNode?
  {
    OnlyNodeLive(kids, trees);
    TT.ReduceCanon(trees);
    var pos := TT.OnlyChild(trees);
    if 0 <= pos < 16 && kids[pos].HashNode? {
      ResolveLive(H, st, kids[pos].h, trees[pos], false, gen);
    }
  }

  lemma {:induction false} DeleteLiveFull(H: HashFn, st: Store, gen: nat, n: Node, t: TT.Tree, key: Bytes, root: bool)
    requires Hashes32(H) && n.FullNode? && HexKey(key)
    requires TT.Canon(t) && Encodable(H, t) && Live(H, st, n, t, root)
    ensures Deleted(H, st, gen, n, t, key, root)
    decreases t, 0
  {
    TT.StepFull(t.kids, key);
    TT.DeleteCanon(t, key);
    var i, kid := key[0], TT.Delete(t.kids[key[0]], key[1..]);
    DeleteLive(H, st, gen, n.kids[i], t.kids[i], key[1..], false);
    TT.DeleteCanon(t.kids[i], key[1..]);
    var c := Delete(st, gen, n.kids[i], key[1..]).value;
    if c.dirty {
      DeletedInside(H, st, gen, n, t, key, c, kid, root);
    } else {
      assert t.kids[i := kid] == t.kids;
    }
  }

  lemma DeletedInside(H: HashFn, st: Store, gen: nat, n: Node, t: TT.Tree, key: Bytes, c: Changed, kid: TT.Tree,
                      root: bool)
    requires Hashes32(H) && n.FullNode? && TT.Canon(t) && t.Full? && Encodable(H, t) && Live(H, st, n, t, root)
    requires key != [] && key[0] < 17 && Delete(st, gen, n.kids[key[0]], key[1..]) == Ok(c) && c.dirty
    requires TT.Fit(t, key) && TT.Fit(t.kids[key[0]], key[1..]) && kid == TT.Delete(t.kids[key[0]], key[1..])
    requires Sub(kid) && Live(H, st, c.node, kid, false) && !c.node.HashNode?
    requires if key[0] == 16 then kid.Nil? else TT.WellFormed(kid)
    ensures Deleted(H, st, gen, n, t, key, root)
  {
    var i := key[0];
    TT.SomeChildStays(t.kids, i, kid);
    hide FlagOk, Hashes32, HexKey, TT.Delete;
    ReduceLive(H, st, gen, n.kids[i := c.node], t.kids[i := kid], root);
    DeleteUnfold(st, gen, n, t, key);
  }

  lemma DeleteUnfold(st: Store, gen: nat, n: Node, t: TT.Tree, key: Bytes)
    requires n.FullNode? && t.Full? && TT.Fit(t, key) && key != [] && key[0] as int < |n.kids| &&
      key[0] as int < |t.kids|
    requires Delete(st, gen, n.kids[key[0]], key[1..]).Ok? && Delete(st, gen, n.kids[key[0]], key[1..]).value.dirty
    requires TT.Fit(t.kids[key[0]], key[1..])
    ensures Delete(st, gen, n, key) ==
      ReduceNode(st, gen, n.kids[key[0] := Delete(st, gen, n.kids[key[0]], key[1..]).value.node])
    ensures TT.Delete(t, key) == TT.Reduce(t.kids[key[0] := TT.Delete(t.kids[key[0]], key[1..])])
  {
  }

  lemma PrependLive(H: HashFn, st: Store, gen: nat, k: Bytes, n: Node, t: TT.Tree, root: bool)
    requires k != [] && Nibbles(k) && TT.Canon(t) && Live(H, st, n, t, false) && !n.HashNode?
    ensures TT.Canon(TT.Prepend(k, t))
    ensures n.ShortNode? ==> Live(H, st, ShortNode(k + n.key, n.val, NewFlag(gen)), TT.Prepend(k, t), root)
    ensures !n.ShortNode? ==> Live(H, st, ShortNode(k, n, NewFlag(gen)), TT.Prepend(k, t), root)
  {
    TT.PrependCanon(k, t);
  }

  lemma {:induction false} DeleteLiveShort(H: HashFn, st: Store, gen: nat, n: Node, t: TT.Tree, key: Bytes, root: bool)
    requires Hashes32(H) && n.ShortNode? && HexKey(key)
    requires TT.Canon(t) && Encodable(H, t) && Live(H, st, n, t, root)
    ensures Deleted(H, st, gen, n, t, key, root)
    decreases t, 0
  {
    var k, m := n.key, CommonPrefix(key, n.key);
    TT.StepShort(k, t.val, key, m);
    if m == |k| && m < |key| {
      DeleteLive(H, st, gen, n.val, t.val, key[m..], false);
      TT.DeleteCanon(t.val, key[m..]);
      var c := Delete(st, gen, n.val, key[m..]).value;
      if c.dirty {
        PrependLive(H, st, gen, k, c.node, TT.Delete(t.val, key[m..]), root);
      }
    }
  }

  /** A deletion from a live trie yields a trie that represents the tree without the key; when
      it reports that nothing changed, nothing has. */
  lemma {:induction false} DeleteLive(H: HashFn, st: Store, gen: nat, n: Node, t: TT.Tree, key: Bytes, root: bool)
    requires Hashes32(H) && TT.Fit(t, key) && Sub(t) && Encodable(H, t) && Live(H, st, n, t, root)
    ensures Deleted(H, st, gen, n, t, key, root)
    decreases t, if n.HashNode? then 2 else 1
  {
    match n
    case NilNode =>
    case ValueNode(_) =>
    case ShortNode(_, _, _) => DeleteLiveShort(H, st, gen, n, t, key, root);
    case FullNode(_, _) => DeleteLiveFull(H, st, gen, n, t, key, root);
    case HashNode(h) =>
      ResolveLive(H, st, h, t, root, gen);
      DeleteLive(H, st, gen, Loaded(H, t, Some(h), gen), t, key, root);
  }
}
