/** Live trie nodes, the RLP form in which nodes are stored, and the decoder for it. */
module NodeCodec {
  import opened Common
  import opened Hex
  import opened TrieTree
  import opened Rlp

  /** Cache metadata: the hash if it is known, the generation, and whether the node still has
      to be written. */
  datatype Flags = Flags(hash: Option<Bytes>, gen: nat, dirty: bool)

  /** A node in memory. Parts that are not loaded are hash nodes. */
  datatype Node =
    | NilNode
    | ValueNode(v: Bytes)
    | HashNode(h: Bytes)
    | ShortNode(key: Bytes, val: Node, flags: Flags)
    | FullNode(kids: seq<Node>, flags: Flags)

  type HashFn = Bytes -> Bytes

  ghost predicate Hashes32(H: HashFn) {
    forall b :: |H(b)| == 32
  }

  /** A tree as it may occur below another node. */
  ghost predicate Sub(t: Tree) {
    t.Nil? || t.Value? || Canon(t)
  }

  // ----- Encoding of nodes

  /** The stored form of a node: children are replaced by references. */
  ghost function NodeItem(H: HashFn, t: Tree): (r: Item)
    requires Sub(t)
    decreases t, 0
  {
    match t
    case Nil => Str([])
    case Value(v) => Str(v)
    case Short(k, val) => Item.List([Str(Compact(k)), RefItem(H, val)])
    case Full(kids) => Item.List(KidItems(H, kids))
  }

  ghost function Enc(H: HashFn, t: Tree): (r: Bytes)
    requires Sub(t)
    decreases t, 1
  {
    Encode(NodeItem(H, t))
  }

  /** Inner nodes of 32 bytes or more are referred to by hash, all else is embedded. */
  ghost predicate Big(H: HashFn, t: Tree)
    requires Sub(t)
    decreases t, 2
  {
    Canon(t) && |Enc(H, t)| >= 32
  }

  ghost function RefItem(H: HashFn, t: Tree): (r: Item)
    requires Sub(t)
    decreases t, 3
  {
    if Big(H, t) then Str(H(Enc(H, t))) else NodeItem(H, t)
  }

  ghost function KidItems(H: HashFn, kids: seq<Tree>): (r: seq<Item>)
    requires forall i :: 0 <= i < |kids| ==> Sub(kids[i])
    ensures |r| == |kids|
    decreases kids, 4
  {
    if kids == [] then [] else [RefItem(H, kids[0])] + KidItems(H, kids[1..])
  }

  /** No node of the tree encodes to 2^64 bytes or more. */
  ghost predicate Encodable(H: HashFn, t: Tree)
    requires Sub(t)
  {
    match t
    case Short(_, val) => |Enc(H, t)| < SIZE_LIMIT && Encodable(H, val)
    case Full(kids) => |Enc(H, t)| < SIZE_LIMIT && forall i :: 0 <= i < |kids| ==> Encodable(H, kids[i])
    case _ => true
  }

  // ----- Decoding of nodes

  datatype DecodeError =
    | EmptyInput
    | Malformed(error: Error)
    | WrongCount
    | Oversized
    | BadReference
    | EmptyKey

  datatype Decoded = Decoded(node: Node, rest: Bytes)

  datatype DecodedKids = DecodedKids(kids: seq<Node>, rest: Bytes)

  function DecodeNode(hash: Option<Bytes>, buf: Bytes, gen: nat): (r: Result<Node, DecodeError>)
    decreases |buf|, 0
  {
    if buf == [] then Err(EmptyInput)
    else
      match SplitList(buf)
      case Err(e) => Err(Malformed(e))
      case Ok(p) =>
        var elems := p.content;
        var c := match Count(elems) case Ok(n) => n case Err(_) => 0;
        if c == 2 then DecodeShort(hash, elems, gen)
        else if c == 17 then DecodeFull(hash, elems, gen)
        else Err(WrongCount)
  }

  /** A key and a value or a child. The program fails on an empty key string, which no encoder
      writes; the model reports it. */
  function DecodeShort(hash: Option<Bytes>, elems: Bytes, gen: nat): (r: Result<Node, DecodeError>)
    decreases |elems|, 3
  {
    match SplitString(elems)
    case Err(e) => Err(Malformed(e))
    case Ok(p) =>
      if p.content == [] then Err(EmptyKey)
      else
        var key := CompactToHex(p.content);
        if HasTerm(key) then
          match SplitString(p.rest)
          case Err(e) => Err(Malformed(e))
          case Ok(q) => Ok(ShortNode(key, ValueNode(q.content), Flags(hash, gen, false)))
        else
          match DecodeRef(p.rest, gen)
          case Err(e) => Err(e)
          case Ok(d) => Ok(ShortNode(key, d.node, Flags(hash, gen, false)))
  }

  function DecodeFull(hash: Option<Bytes>, elems: Bytes, gen: nat): (r: Result<Node, DecodeError>)
    decreases |elems|, 3
  {
    match DecodeKids(elems, 16, gen)
    case Err(e) => Err(e)
    case Ok(d) =>
      match SplitString(d.rest)
      case Err(e) => Err(Malformed(e))
      case Ok(p) =>
        var last := if |p.content| > 0 then ValueNode(p.content) else NilNode;
        Ok(FullNode(d.kids + [last], Flags(hash, gen, false)))
  }

  function DecodeKids(elems: Bytes, n: nat, gen: nat): (r: Result<DecodedKids, DecodeError>)
    ensures r.Ok? ==> |r.value.rest| <= |elems|
    decreases |elems|, 2
  {
    if n == 0 then Ok(DecodedKids([], elems))
    else
      match DecodeRef(elems, gen)
      case Err(e) => Err(e)
      case Ok(d) =>
        match DecodeKids(d.rest, n - 1, gen)
        case Err(e) => Err(e)
        case Ok(ds) => Ok(DecodedKids([d.node] + ds.kids, ds.rest))
  }

  function DecodeRef(buf: Bytes, gen: nat): (r: Result<Decoded, DecodeError>)
    ensures r.Ok? ==> |r.value.rest| < |buf|
    decreases |buf|, 1
  {
    match Split(buf)
    case Err(e) => Err(Malformed(e))
    case Ok(p) =>
      if p.kind.ListKind? then
        if |buf| - |p.rest| > 32 then Err(Oversized)
        else
          match DecodeNode(None, buf, gen)
          case Err(e) => Err(e)
          case Ok(n) => Ok(Decoded(n, p.rest))
      else if p.kind.StringKind? && |p.content| == 0 then Ok(Decoded(NilNode, p.rest))
      else if p.kind.StringKind? && |p.content| == 32 then Ok(Decoded(HashNode(p.content), p.rest))
      else Err(BadReference)
  }

  /** What may stand for a child in a stored node: a list of at most 32 bytes that decodes as a node, nothing,
      or a hash of 32 bytes; anything else is refused. */
  lemma DecodeRefIs(buf: Bytes, gen: nat)
    requires Split(buf).Ok?
    ensures
      var p, r := Split(buf).value, DecodeRef(buf, gen);
      && (r.Ok? ==> r.value.rest == p.rest)
      && (p.kind.ListKind? ==> (r.Ok? <==> |buf| - |p.rest| <= 32 && DecodeNode(None, buf, gen).Ok?))
      && (p.kind.StringKind? && |p.content| == 0 ==> r == Ok(Decoded(NilNode, p.rest)))
      && (p.kind.StringKind? && |p.content| == 32 ==> r == Ok(Decoded(HashNode(p.content), p.rest)))
      && (!p.kind.ListKind? && |p.content| != 0 && |p.content| != 32 ==> r == Err(BadReference))
  {
  }

  function AfterKids(kids: seq<Node>, r: Result<DecodedKids, DecodeError>): (s: Result<DecodedKids, DecodeError>) {
    match r
    case Err(e) => Err(e)
    case Ok(d) => Ok(DecodedKids(kids + d.kids, d.rest))
  }

  lemma AfterNone(r: Result<DecodedKids, DecodeError>)
    ensures AfterKids([], r) == r
  {
    if r.Ok? {
      assert [] + r.value.kids == r.value.kids;
    }
  }

  lemma AfterOneMore(kids: seq<Node>, n: Node, r: Result<DecodedKids, DecodeError>)
    ensures AfterKids(kids, AfterKids([n], r)) == AfterKids(kids + [n], r)
  {
    if r.Ok? {
      assert kids + ([n] + r.value.kids) == (kids + [n]) + r.value.kids;
    }
  }

  /** The loop of the full node decoder. */
  method DecodeChildren(elemsIn: Bytes, gen: nat) returns (r: Result<DecodedKids, DecodeError>)
    ensures r == DecodeKids(elemsIn, 16, gen)
  {
    var elems, kids, i := elemsIn, [], 0;
    AfterNone(DecodeKids(elemsIn, 16, gen));
    while i < 16
      invariant i <= 16
      invariant DecodeKids(elemsIn, 16, gen) == AfterKids(kids, DecodeKids(elems, 16 - i, gen))
    {
      var d := DecodeRef(elems, gen);
      if d.Err? {
        return Err(d.error);
      }
      AfterOneMore(kids, d.value.node, DecodeKids(d.value.rest, 16 - i - 1, gen));
      kids, elems := kids + [d.value.node], d.value.rest;
      i := i + 1;
    }
    assert kids + [] == kids;
    return Ok(DecodedKids(kids, elems));
  }

  // ----- What a stored node looks like when it is loaded again

  ghost function Loaded(H: HashFn, t: Tree, hash: Option<Bytes>, gen: nat): (r: Node)
    requires Sub(t)
    decreases t, 0
  {
    match t
    case Nil => NilNode
    case Value(v) => ValueNode(v)
    case Short(k, val) => ShortNode(k, LoadedRef(H, val, gen), Flags(hash, gen, false))
    case Full(kids) => FullNode(LoadedKids(H, kids, gen), Flags(hash, gen, false))
  }

  ghost function LoadedRef(H: HashFn, t: Tree, gen: nat): (r: Node)
    requires Sub(t)
    decreases t, 1
  {
    if Big(H, t) then HashNode(H(Enc(H, t))) else Loaded(H, t, None, gen)
  }

  ghost function LoadedKids(H: HashFn, kids: seq<Tree>, gen: nat): (r: seq<Node>)
    requires forall i :: 0 <= i < |kids| ==> Sub(kids[i])
    ensures |r| == |kids| && forall i :: 0 <= i < |kids| ==> r[i] == LoadedRef(H, kids[i], gen)
    decreases kids, 2
  {
    if kids == [] then [] else [LoadedRef(H, kids[0], gen)] + LoadedKids(H, kids[1..], gen)
  }

  // ----- Decoding inverts encoding

  lemma CanonParts(t: Tree)
    requires Canon(t)
    ensures t.Short? ==> HexPath(t.key) && Sub(t.val) && (HasTerm(t.key) <==> t.val.Value?)
    ensures t.Full? ==> |t.kids| == 17 && forall i :: 0 <= i < 17 ==> Sub(t.kids[i])
  {
  }

  lemma {:induction false} KidItemsAt(H: HashFn, kids: seq<Tree>, i: nat)
    requires forall i :: 0 <= i < |kids| ==> Sub(kids[i])
    requires i < |kids|
    ensures KidItems(H, kids)[i] == RefItem(H, kids[i])
  {
    if i > 0 {
      KidItemsAt(H, kids[1..], i - 1);
    }
  }

  // ----- What stands in a stored node

  /** What stands for a child in the encoding of its parent: nothing for none, a value as it is, the
      encoding itself of a node that encodes to less than 32 bytes, and the hash of it for any other. */
  ghost predicate StandsFor(H: HashFn, child: Tree, item: Item)
    requires Sub(child)
  {
    match child
    case Nil => item == Str([])
    case Value(v) => item == Str(v)
    case _ => if |Enc(H, child)| < 32 then Encode(item) == Enc(H, child) else item == Str(H(Enc(H, child)))
  }

  /** The bytes of a node: a list of the compact key and the child, or of the sixteen children and
      the value. */
  ghost predicate BlobOf(H: HashFn, t: Tree, blob: Bytes)
    requires Canon(t)
  {
    match t
    case Short(k, val) =>
      exists item :: StandsFor(H, val, item) && blob == Encode(Item.List([Str(Compact(k)), item]))
    case Full(kids) =>
      exists items ::
        && |items| == 17 && (forall i :: 0 <= i < 17 ==> StandsFor(H, kids[i], items[i]))
        && blob == Encode(Item.List(items))
  }

  lemma RefStands(H: HashFn, t: Tree)
    requires Sub(t)
    ensures StandsFor(H, t, RefItem(H, t))
  {
  }

  lemma ShortIsBlob(H: HashFn, t: Tree)
    requires Canon(t) && t.Short?
    ensures BlobOf(H, t, Enc(H, t))
  {
    hide StandsFor, RefItem;
    CanonParts(t);
    RefStands(H, t.val);
    assert Enc(H, t) == Encode(Item.List([Str(Compact(t.key)), RefItem(H, t.val)]));
  }

  lemma FullIsBlob(H: HashFn, t: Tree)
    requires Canon(t) && t.Full?
    ensures BlobOf(H, t, Enc(H, t))
  {
    hide StandsFor, RefItem, KidItems;
    CanonParts(t);
    var items := KidItems(H, t.kids);
    forall i | 0 <= i < 17 ensures StandsFor(H, t.kids[i], items[i]) {
      KidItemsAt(H, t.kids, i);
      RefStands(H, t.kids[i]);
    }
    assert Enc(H, t) == Encode(Item.List(items));
  }

  /** In every encoded node the children stand as they should. */
  lemma EncIsBlob(H: HashFn, t: Tree)
    requires Canon(t)
    ensures BlobOf(H, t, Enc(H, t))
  {
    hide BlobOf, Enc, Canon;
    assert t.Short? || t.Full? by { InnerShape(t); }
    if t.Short? {
      ShortIsBlob(H, t);
    } else {
      FullIsBlob(H, t);
    }
  }

  lemma InnerShape(t: Tree)
    requires Canon(t)
    ensures t.Short? || t.Full?
  {
  }

  /** `s` is a node of `t`. */
  ghost predicate NodeOf(s: Tree, t: Tree) {
    || (Canon(s) && s == t)
    || match t
       case Short(_, val) => NodeOf(s, val)
       case Full(kids) => exists i :: 0 <= i < |kids| && NodeOf(s, kids[i])
       case _ => false
  }

  lemma {:induction false} NodesAreCanon(s: Tree, t: Tree)
    requires NodeOf(s, t)
    ensures Canon(s)
  {
    if !(Canon(s) && s == t) {
      match t
      case Short(_, val) => NodesAreCanon(s, val);
      case Full(kids) =>
        var i :| 0 <= i < |kids| && NodeOf(s, kids[i]);
        NodesAreCanon(s, kids[i]);
    }
  }

  /** A stored node, loaded again, is the node with its large children replaced by hashes. */
  lemma {:induction false} DecodeEncoded(H: HashFn, t: Tree, hash: Option<Bytes>, gen: nat, rest: Bytes)
    requires Hashes32(H) && Canon(t) && Encodable(H, t)
    ensures DecodeNode(hash, Enc(H, t) + rest, gen) == Ok(Loaded(H, t, hash, gen))
    decreases t, 0
  {
    SplitEncoded(NodeItem(H, t), rest);
    CanonParts(t);
    match t
    case Short(k, val) =>
      var items := [Str(Compact(k)), RefItem(H, val)];
      CountEncoded(items);
      DecodeShortEncoded(H, t, hash, gen);
    case Full(kids) =>
      CountEncoded(KidItems(H, kids));
      DecodeFullEncoded(H, t, hash, gen);
  }

  lemma TwoItems(a: Item, b: Item)
    ensures EncodeAll([a, b]) == Encode(a) + Encode(b)
  {
    EncodeAllCons(a, [b]);
    EncodeAllCons(b, []);
    assert [a] + [b] == [a, b] && [b] + [] == [b];
    assert Encode(b) + [] == Encode(b);
  }

  lemma {:induction false} DecodeShortEncoded(H: HashFn, t: Tree, hash: Option<Bytes>, gen: nat)
    requires Hashes32(H) && Canon(t) && t.Short? && Encodable(H, t)
    requires |EncodeAll([Str(Compact(t.key)), RefItem(H, t.val)])| < SIZE_LIMIT
    ensures DecodeShort(hash, EncodeAll([Str(Compact(t.key)), RefItem(H, t.val)]), gen) == Ok(Loaded(H, t, hash, gen))
    decreases t.val, 2
  {
    CanonParts(t);
    var a, b := Str(Compact(t.key)), RefItem(H, t.val);
    TwoItems(a, b);
    SplitEncoded(a, Encode(b));
    CompactRoundTrip(t.key);
    assert Encode(b) + [] == Encode(b);
    if t.val.Value? {
      assert b == Str(t.val.v) && LoadedRef(H, t.val, gen) == ValueNode(t.val.v);
      SplitEncoded(b, []);
      assert SplitString(Encode(b)).value.content == t.val.v;
    } else {
      DecodeRefEncoded(H, t.val, gen, []);
    }
  }

  lemma {:induction false} DecodeRefEncoded(H: HashFn, t: Tree, gen: nat, rest: Bytes)
    requires Hashes32(H) && WellFormed(t) && Encodable(H, t)
    ensures DecodeRef(Encode(RefItem(H, t)) + rest, gen) == Ok(Decoded(LoadedRef(H, t, gen), rest))
    decreases t, 1
  {
    var it := RefItem(H, t);
    RefSize(H, t);
    SplitEncoded(it, rest);
    if !t.Nil? && !Big(H, t) {
      DecodeEncoded(H, t, None, gen, rest);
    }
  }

  /** A reference takes 33 bytes at most. */
  lemma RefSize(H: HashFn, t: Tree)
    requires Hashes32(H) && WellFormed(t)
    ensures |Encode(RefItem(H, t))| <= 33
    ensures !t.Nil? && !Big(H, t) ==> |Encode(RefItem(H, t))| < 32
  {
    if Big(H, t) {
      var h := H(Enc(H, t));
      assert |h| == 32;
      assert |Encode(Str(h))| == 33;
    } else if !t.Nil? {
      assert Encode(RefItem(H, t)) == Enc(H, t);
    }
  }

  lemma {:induction false} DecodeKidsEncoded(H: HashFn, kids: seq<Tree>, n: nat, gen: nat)
    requires Hashes32(H) && n <= |kids|
    requires forall i :: 0 <= i < |kids| ==> Sub(kids[i]) && Encodable(H, kids[i])
    requires forall i :: 0 <= i < n ==> WellFormed(kids[i])
    ensures DecodeKids(EncodeAll(KidItems(H, kids)), n, gen) ==
            Ok(DecodedKids(LoadedKids(H, kids[..n], gen), EncodeAll(KidItems(H, kids[n..]))))
    decreases kids, 3
  {
    if n == 0 {
      assert kids[0..] == kids;
    } else {
      var items := KidItems(H, kids);
      EncodeAllCons(RefItem(H, kids[0]), KidItems(H, kids[1..]));
      DecodeRefEncoded(H, kids[0], gen, EncodeAll(KidItems(H, kids[1..])));
      DecodeKidsEncoded(H, kids[1..], n - 1, gen);
      assert kids[1..][..n - 1] == kids[..n][1..] && kids[1..][n - 1..] == kids[n..];
    }
  }

  lemma {:induction false} DecodeFullEncoded(H: HashFn, t: Tree, hash: Option<Bytes>, gen: nat)
    requires Hashes32(H) && Canon(t) && t.Full? && Encodable(H, t)
    requires |EncodeAll(KidItems(H, t.kids))| < SIZE_LIMIT
    ensures DecodeFull(hash, EncodeAll(KidItems(H, t.kids)), gen) == Ok(Loaded(H, t, hash, gen))
    decreases t.kids, 4
  {
    var kids := t.kids;
    CanonParts(t);
    DecodeKidsEncoded(H, kids, 16, gen);
    DecodeLastKid(H, kids, gen);
    hide Canon, EncodeAll, SplitString, KidItems, DecodeKids, Encodable;
    var loaded := LoadedKids(H, kids, gen);
    assert loaded == LoadedKids(H, kids[..16], gen) + [LoadedRef(H, kids[16], gen)];
  }

  /** The value slot of a branch is the last string. */
  lemma DecodeLastKid(H: HashFn, kids: seq<Tree>, gen: nat)
    requires |kids| == 17 && Leafy(kids[16]) && forall i :: 0 <= i < |kids| ==> Sub(kids[i])
    requires |EncodeAll(KidItems(H, kids))| < SIZE_LIMIT
    ensures
      var r := SplitString(EncodeAll(KidItems(H, kids[16..])));
      r.Ok? && LoadedRef(H, kids[16], gen) == if |r.value.content| > 0 then ValueNode(r.value.content) else NilNode
  {
    LastKid(H, kids);
    var it := RefItem(H, kids[16]);
    KidItemsAt(H, kids, 16);
    EncodeAllSize(KidItems(H, kids), 16);
    SplitEncoded(it, []);
    assert Encode(it) + [] == Encode(it);
  }

  lemma LastKid(H: HashFn, kids: seq<Tree>)
    requires |kids| == 17 && Sub(kids[16]) && forall i :: 0 <= i < |kids| ==> Sub(kids[i])
    ensures EncodeAll(KidItems(H, kids[16..])) == Encode(RefItem(H, kids[16]))
  {
  }
}
