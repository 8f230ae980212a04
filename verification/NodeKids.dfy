/** The children that the download scheduler finds in a node: only those directly in it. Nodes
    embedded in it are too short to hold a hash, so that none is missed. */
module NodeKids {

  import opened Common
  import opened Hex
  import opened Rlp
  import opened NodeCodec
  import SyncSpec

  /** Hash references anywhere in a node, embedded nodes included. */
  ghost predicate Holds(n: Node, h: Bytes) {
    match n
    case HashNode(x) => x == h
    case ShortNode(_, val, _) => Holds(val, h)
    case FullNode(kids, _) => exists i :: 0 <= i < |kids| && Holds(kids[i], h)
    case _ => false
  }

  ghost predicate NoHashes(n: Node) {
    match n
    case HashNode(_) => false
    case ShortNode(_, val, _) => NoHashes(val)
    case FullNode(kids, _) => forall i :: 0 <= i < |kids| ==> NoHashes(kids[i])
    case _ => true
  }

  lemma {:induction false} HoldsNone(n: Node, h: Bytes)
    requires NoHashes(n)
    ensures !Holds(n, h)
  {
    match n
    case ShortNode(_, val, _) => HoldsNone(val, h);
    case FullNode(kids, _) =>
      forall i | 0 <= i < |kids| ensures !Holds(kids[i], h) {
        HoldsNone(kids[i], h);
      }
    case _ =>
  }

  // ----- Short encodings hold no hashes

  lemma StringHasTag(b: Bytes)
    requires Split(b).Ok? && Split(b).value.kind.StringKind?
    ensures |Split(b).value.content| < |b|
  {
  }

  lemma {:induction false} SmallRef(buf: Bytes, gen: nat)
    requires |buf| <= 32 && DecodeRef(buf, gen).Ok?
    ensures NoHashes(DecodeRef(buf, gen).value.node)
    decreases |buf|, 1
  {
    hide Split;
    var p := Split(buf).value;
    if p.kind.ListKind? {
      SmallNode(None, buf, gen);
    } else if p.kind.StringKind? {
      StringHasTag(buf);
    }
  }

  lemma {:induction false} SmallKids(elems: Bytes, n: nat, gen: nat)
    requires |elems| <= 32 && DecodeKids(elems, n, gen).Ok?
    ensures forall i :: 0 <= i < |DecodeKids(elems, n, gen).value.kids| ==>
      NoHashes(DecodeKids(elems, n, gen).value.kids[i])
    decreases |elems|, 2
  {
    if n > 0 {
      SmallRef(elems, gen);
      SmallKids(DecodeRef(elems, gen).value.rest, n - 1, gen);
    }
  }

  lemma {:induction false} SmallNode(hash: Option<Bytes>, buf: Bytes, gen: nat)
    requires DecodeNode(hash, buf, gen).Ok? && |SplitList(buf).value.content| <= 32
    ensures NoHashes(DecodeNode(hash, buf, gen).value)
    decreases |buf|, 0
  {
    hide Split, CompactToHex, HasTerm;
    var elems := SplitList(buf).value.content;
    var c := match Count(elems) case Ok(n) => n case Err(_) => 0;
    if c == 2 {
      var p := SplitString(elems).value;
      if !HasTerm(CompactToHex(p.content)) {
        SmallRef(p.rest, gen);
      }
    } else {
      SmallKids(elems, 16, gen);
    }
  }

  /** A reference is a hash or holds none. */
  lemma RefHashes(buf: Bytes, gen: nat)
    requires DecodeRef(buf, gen).Ok?
    ensures var n := DecodeRef(buf, gen).value.node; n.HashNode? || NoHashes(n)
  {
    var p := Split(buf).value;
    if p.kind.ListKind? {
      SmallNode(None, buf, gen);
    }
  }

  lemma {:induction false} KidsHashes(elems: Bytes, n: nat, gen: nat)
    requires DecodeKids(elems, n, gen).Ok?
    ensures forall i :: 0 <= i < |DecodeKids(elems, n, gen).value.kids| ==>
      var k := DecodeKids(elems, n, gen).value.kids[i]; k.HashNode? || NoHashes(k)
    decreases |elems|
  {
    if n > 0 {
      RefHashes(elems, gen);
      KidsHashes(DecodeRef(elems, gen).value.rest, n - 1, gen);
    }
  }

  // ----- The children of a decoded node

  /** Hash references among the given children, each one step below. */
  function FullKids(kids: seq<Node>): (r: seq<SyncSpec.Kid>) {
    if kids == [] then [] else
      var last := kids[|kids| - 1];
      FullKids(kids[..|kids| - 1]) + if last.HashNode? then [SyncSpec.Kid(FromBigEndian(last.h), 1)] else []
  }

  /** What the scheduler looks at: the children directly in the node. */
  function Direct(n: Node): (r: seq<SyncSpec.Kid>) {
    match n
    case ShortNode(key, HashNode(h), _) => [SyncSpec.Kid(FromBigEndian(h), |key|)]
    case FullNode(kids, _) => FullKids(kids)
    case _ => []
  }

  /** The scheduler's view of encoded data. */
  function Scan(data: Bytes): (r: Option<seq<SyncSpec.Kid>>) {
    match DecodeNode(None, data, 0)
    case Err(_) => None
    case Ok(n) => Some(Direct(n))
  }

  lemma {:induction false} FullKidsHold(kids: seq<Node>, i: nat)
    requires i < |kids| && kids[i].HashNode?
    ensures SyncSpec.Kid(FromBigEndian(kids[i].h), 1) in FullKids(kids)
  {
    if i < |kids| - 1 {
      FullKidsHold(kids[..|kids| - 1], i);
    }
  }

  lemma DirectShort(hash: Option<Bytes>, elems: Bytes, gen: nat)
    requires DecodeShort(hash, elems, gen).Ok?
    ensures var n := DecodeShort(hash, elems, gen).value; n.ShortNode? && (n.val.HashNode? || NoHashes(n.val))
  {
    hide Split, CompactToHex, HasTerm;
    var p := SplitString(elems).value;
    if !HasTerm(CompactToHex(p.content)) {
      RefHashes(p.rest, gen);
    }
  }

  lemma DirectFull(hash: Option<Bytes>, elems: Bytes, gen: nat)
    requires DecodeFull(hash, elems, gen).Ok?
    ensures var n := DecodeFull(hash, elems, gen).value;
            n.FullNode? && forall i :: 0 <= i < |n.kids| ==> n.kids[i].HashNode? || NoHashes(n.kids[i])
  {
    hide Split;
    KidsHashes(elems, 16, gen);
  }

  lemma DirectHolds(n: Node, h: Bytes)
    requires Holds(n, h)
    requires n.ShortNode? ==> n.val.HashNode? || NoHashes(n.val)
    requires n.FullNode? ==> forall i :: 0 <= i < |n.kids| ==> n.kids[i].HashNode? || NoHashes(n.kids[i])
    requires n.ShortNode? || n.FullNode?
    ensures exists i :: 0 <= i < |Direct(n)| && Direct(n)[i].hash == FromBigEndian(h)
  {
    if n.ShortNode? {
      if NoHashes(n.val) { HoldsNone(n.val, h); }
      assert Direct(n)[0].hash == FromBigEndian(h);
    } else {
      var i :| 0 <= i < |n.kids| && Holds(n.kids[i], h);
      if NoHashes(n.kids[i]) { HoldsNone(n.kids[i], h); }
      FullKidsHold(n.kids, i);
      var ks := Direct(n);
      var j :| 0 <= j < |ks| && ks[j] == SyncSpec.Kid(FromBigEndian(h), 1);
    }
  }

  /** Whatever hash a decoded node holds, at any depth, is among the children looked at. */
  lemma NoHashMissed(data: Bytes, h: Bytes)
    requires DecodeNode(None, data, 0).Ok? && Holds(DecodeNode(None, data, 0).value, h)
    ensures Scan(data).Some?
    ensures exists i :: 0 <= i < |Scan(data).value| && Scan(data).value[i].hash == FromBigEndian(h)
  {
    hide Split, Holds, Direct;
    var elems := SplitList(data).value.content;
    var c := match Count(elems) case Ok(n) => n case Err(_) => 0;
    if c == 2 {
      DirectShort(None, elems, 0);
    } else {
      DirectFull(None, elems, 0);
    }
    DirectHolds(DecodeNode(None, data, 0).value, h);
  }
}
