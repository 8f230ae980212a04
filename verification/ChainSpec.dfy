/** Blocks linked by parent hashes, and what the indexes over them should say. */
module ChainSpec {

  import opened Common

  type Hash = nat
  type TxHash = nat

  /** No block has this hash. */
  const NO_HASH: Hash := 0

  datatype Block = Block(hash: Hash, parent: Hash, number: nat, txs: seq<TxHash>)

  type Blocks = map<Hash, Block>

  /** Blocks are stored under their hash, and a parent is one lower. */
  ghost predicate Linked(blocks: Blocks) {
    && NO_HASH !in blocks
    && (forall h :: h in blocks ==> blocks[h].hash == h)
    && (forall h :: h in blocks && blocks[h].parent in blocks ==>
          blocks[h].number == blocks[blocks[h].parent].number + 1)
  }

  /** The parent of a block, if it is stored. */
  function Parent(blocks: Blocks, b: Block): (r: Option<Block>)
    ensures r.Some? ==> r.value.number + 1 == b.number && b.parent in blocks && r.value == blocks[b.parent]
  {
    if b.number > 0 && b.parent in blocks && blocks[b.parent].number == b.number - 1 then Some(blocks[b.parent])
    else None
  }

  /** The ancestor of a block at a height, if the way to it is stored. */
  function Ancestor(blocks: Blocks, b: Block, n: nat): (r: Option<Block>)
    ensures r.Some? ==> r.value.number == n && n <= b.number
    decreases b.number
  {
    if b.number == n then Some(b)
    else if b.number < n then None
    else
      match Parent(blocks, b)
      case None => None
      case Some(p) => Ancestor(blocks, p, n)
  }

  /** The way from a block down to height zero is stored. */
  ghost predicate Complete(blocks: Blocks, b: Block) {
    forall n :: 0 <= n <= b.number ==> Ancestor(blocks, b, n).Some?
  }

  lemma {:induction false} AncestorTrans(blocks: Blocks, b: Block, m: nat, n: nat)
    requires n <= m && Ancestor(blocks, b, m).Some?
    ensures Ancestor(blocks, b, n) == Ancestor(blocks, Ancestor(blocks, b, m).value, n)
    decreases b.number
  {
    if b.number > m {
      AncestorTrans(blocks, Parent(blocks, b).value, m, n);
    }
  }

  // ----- Common ancestors

  /** Where the ways down from two blocks meet. */
  function Meet(blocks: Blocks, a: Block, b: Block): (r: Option<Block>)
    decreases a.number + b.number
  {
    if a.number > b.number then
      match Parent(blocks, a) case None => None case Some(p) => Meet(blocks, p, b)
    else if b.number > a.number then
      match Parent(blocks, b) case None => None case Some(p) => Meet(blocks, a, p)
    else if a.hash == b.hash then Some(a)
    else
      match Parent(blocks, a)
      case None => None
      case Some(p) =>
        match Parent(blocks, b)
        case None => None
        case Some(q) => Meet(blocks, p, q)
  }

  /** Two blocks with the same hash are the same, as far as they are stored. */
  ghost predicate Known(blocks: Blocks, b: Block) {
    b.hash in blocks && blocks[b.hash] == b
  }

  /** The meeting point is the highest block that both have as an ancestor. */
  lemma {:induction false} MeetIsHighest(blocks: Blocks, a: Block, b: Block)
    requires Linked(blocks) && Known(blocks, a) && Known(blocks, b) && Meet(blocks, a, b).Some?
    ensures var c := Meet(blocks, a, b).value;
            && Known(blocks, c)
            && Ancestor(blocks, a, c.number) == Some(c) && Ancestor(blocks, b, c.number) == Some(c)
            && forall n :: n > c.number && Ancestor(blocks, a, n).Some? ==>
              Ancestor(blocks, a, n) != Ancestor(blocks, b, n)
    decreases a.number + b.number
  {
    if a.number > b.number {
      MeetIsHighest(blocks, Parent(blocks, a).value, b);
    } else if b.number > a.number {
      MeetIsHighest(blocks, a, Parent(blocks, b).value);
    } else if a.hash != b.hash {
      MeetIsHighest(blocks, Parent(blocks, a).value, Parent(blocks, b).value);
    }
  }

  lemma {:induction false} MeetExists(blocks: Blocks, a: Block, b: Block)
    requires Linked(blocks) && Known(blocks, a) && Known(blocks, b)
    requires Complete(blocks, a) && Complete(blocks, b) && Ancestor(blocks, a, 0) == Ancestor(blocks, b, 0)
    ensures Meet(blocks, a, b).Some?
    decreases a.number + b.number
  {
    if a.number > b.number {
      CompleteParent(blocks, a);
      MeetExists(blocks, Parent(blocks, a).value, b);
    } else if b.number > a.number {
      CompleteParent(blocks, b);
      MeetExists(blocks, a, Parent(blocks, b).value);
    } else if a.hash != b.hash {
      CompleteParent(blocks, a);
      CompleteParent(blocks, b);
      MeetExists(blocks, Parent(blocks, a).value, Parent(blocks, b).value);
    }
  }

  lemma CompleteParent(blocks: Blocks, b: Block)
    requires Complete(blocks, b) && b.number > 0
    ensures Parent(blocks, b).Some? && Complete(blocks, Parent(blocks, b).value)
    ensures Ancestor(blocks, Parent(blocks, b).value, 0) == Ancestor(blocks, b, 0)
  {
    assert Ancestor(blocks, b, b.number - 1).Some?;
    var p := Parent(blocks, b).value;
    forall n | 0 <= n <= p.number ensures Ancestor(blocks, p, n).Some? {
      assert Ancestor(blocks, b, n).Some?;
    }
  }

  // ----- The way from a block down

  /** The blocks from `b` down to the one above height `n`. */
  function Way(blocks: Blocks, b: Block, n: nat): (r: seq<Block>)
    decreases b.number
  {
    if b.number <= n then []
    else
      match Parent(blocks, b)
      case None => [b]
      case Some(p) => [b] + Way(blocks, p, n)
  }

  /** One block further down. */
  lemma {:induction false} WayLonger(blocks: Blocks, b: Block, n: nat)
    requires n > 0 && Ancestor(blocks, b, n).Some? && Parent(blocks, Ancestor(blocks, b, n).value).Some?
    ensures Way(blocks, b, n - 1) == Way(blocks, b, n) + [Ancestor(blocks, b, n).value]
    decreases b.number
  {
    if b.number > n {
      var p := Parent(blocks, b).value;
      WayLonger(blocks, p, n);
      var w, x := Way(blocks, p, n), Ancestor(blocks, p, n).value;
      assert [b] + (w + [x]) == ([b] + w) + [x];
    }
  }

  /** The way consists of the ancestors above height `n`. */
  lemma {:induction false} WayIs(blocks: Blocks, b: Block, n: nat)
    requires n <= b.number && Ancestor(blocks, b, n).Some?
    ensures |Way(blocks, b, n)| == b.number - n
    ensures forall i :: 0 <= i < |Way(blocks, b, n)| ==> Ancestor(blocks, b, b.number - i) == Some(Way(blocks, b, n)[i])
    decreases b.number
  {
    if b.number > n {
      var p := Parent(blocks, b).value;
      WayIs(blocks, p, n);
      var w := Way(blocks, b, n);
      forall i | 0 <= i < |w| ensures Ancestor(blocks, b, b.number - i) == Some(w[i]) {
        if i > 0 {
          assert Ancestor(blocks, p, p.number - (i - 1)) == Some(Way(blocks, p, n)[i - 1]);
        }
      }
    }
  }

  /** Transactions of a list of blocks. */
  function TxsOf(bs: seq<Block>): (r: seq<TxHash>) {
    if bs == [] then [] else TxsOf(bs[..|bs| - 1]) + bs[|bs| - 1].txs
  }

  lemma {:induction false} TxsOfIn(bs: seq<Block>, tx: TxHash)
    ensures tx in TxsOf(bs) <==> exists i :: 0 <= i < |bs| && tx in bs[i].txs
  {
    if bs != [] {
      var init := bs[..|bs| - 1];
      TxsOfIn(init, tx);
      if tx in TxsOf(init) {
        var i :| 0 <= i < |init| && tx in init[i].txs;
        assert bs[i] == init[i];
      }
      if exists i :: 0 <= i < |bs| && tx in bs[i].txs {
        var i :| 0 <= i < |bs| && tx in bs[i].txs;
        if i < |init| { assert tx in init[i].txs; }
      }
    }
  }

  // ----- Indexes

  type Index = map<nat, Hash>

  /** The index names the ancestors of `b` at all heights up to it. */
  ghost predicate Follows(canon: Index, blocks: Blocks, b: Block) {
    forall n :: 0 <= n <= b.number ==>
      Ancestor(blocks, b, n).Some? && n in canon && canon[n] == Ancestor(blocks, b, n).value.hash
  }

  /** Where a transaction is. */
  datatype Entry = Entry(block: Hash, number: nat, index: nat)

  type Lookup = map<TxHash, Entry>

  /** An entry names an ancestor of `b` and the place of the transaction in it. */
  ghost predicate EntryOk(e: Entry, tx: TxHash, blocks: Blocks, b: Block) {
    && Ancestor(blocks, b, e.number).Some?
    && var x := Ancestor(blocks, b, e.number).value;
       x.hash == e.block && e.index < |x.txs| && x.txs[e.index] == tx
  }

  ghost predicate Sound(lookup: Lookup, blocks: Blocks, b: Block) {
    forall tx :: tx in lookup ==> EntryOk(lookup[tx], tx, blocks, b)
  }

  /** Every transaction of the chain below `b` has an entry. */
  ghost predicate Full(lookup: Lookup, blocks: Blocks, b: Block) {
    forall n, tx :: 0 <= n <= b.number && Ancestor(blocks, b, n).Some? && tx in Ancestor(blocks, b, n).value.txs ==>
      tx in lookup
  }
}
