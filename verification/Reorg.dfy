/** Switching the canonical chain to another branch (core/blockchain.go, core/rawdb). */
module Reorg {

  import opened Common
  import opened ChainSpec

  /** The last common ancestor of two headers (`FindCommonAncestor`). */
  method FindCommonAncestor(blocks: Blocks, first: Block, second: Block) returns (r: Option<Block>)
    requires Linked(blocks)
    ensures r == Meet(blocks, first, second)
  {
    var a, b := first, second;
    while a.number > b.number
      invariant Meet(blocks, a, b) == Meet(blocks, first, second)
      decreases a.number
    {
      var p := Parent(blocks, a);
      if p.None? { return None; }
      a := p.value;
    }
    while a.number < b.number
      invariant Meet(blocks, a, b) == Meet(blocks, first, second) && a.number <= b.number
      decreases b.number
    {
      var p := Parent(blocks, b);
      if p.None? { return None; }
      b := p.value;
    }
    while a.hash != b.hash
      invariant Meet(blocks, a, b) == Meet(blocks, first, second) && a.number == b.number
      decreases a.number
    {
      var p := Parent(blocks, a);
      if p.None? { return None; }
      var q := Parent(blocks, b);
      if q.None? { return None; }
      a, b := p.value, q.value;
    }
    return Some(a);
  }

  /** A point on the way down from a block, and the blocks passed. */
  ghost predicate Walked(blocks: Blocks, top: Block, chain: seq<Block>, b: Block) {
    Ancestor(blocks, top, b.number) == Some(b) && chain == Way(blocks, top, b.number)
  }

  lemma WalkedOn(blocks: Blocks, top: Block, chain: seq<Block>, b: Block)
    requires Walked(blocks, top, chain, b) && Parent(blocks, b).Some?
    ensures Walked(blocks, top, chain + [b], Parent(blocks, b).value)
  {
    var p := Parent(blocks, b).value;
    AncestorTrans(blocks, top, b.number, p.number);
    WayLonger(blocks, top, b.number);
  }

  /** Walks down from two blocks to where they meet, noting the blocks passed on either way. */
  method FindFork(blocks: Blocks, oldBlock: Block, newBlock: Block) returns (common: Option<Block>,
                                                                             oldChain: seq<Block>, newChain: seq<Block>)
    requires Linked(blocks) && Known(blocks, oldBlock) && Known(blocks, newBlock)
    ensures common == Meet(blocks, oldBlock, newBlock)
    ensures common.Some? ==>
      Walked(blocks, oldBlock, oldChain, common.value) && Walked(blocks, newBlock, newChain, common.value)
  {
    hide Way, Ancestor;
    var a, b := oldBlock, newBlock;
    oldChain, newChain := [], [];
    WalkedNone(blocks, a);
    WalkedNone(blocks, b);
    if a.number > b.number {
      while a.number != b.number
        invariant a.number >= b.number && Meet(blocks, a, b) == Meet(blocks, oldBlock, newBlock)
        invariant Walked(blocks, oldBlock, oldChain, a) && Known(blocks, a)
        decreases a.number
      {
        var p := Parent(blocks, a);
        if p.None? { return None, oldChain, newChain; }
        WalkedOn(blocks, oldBlock, oldChain, a);
        oldChain, a := oldChain + [a], p.value;
      }
    } else {
      while b.number != a.number
        invariant b.number >= a.number && Meet(blocks, a, b) == Meet(blocks, oldBlock, newBlock)
        invariant Walked(blocks, newBlock, newChain, b) && Known(blocks, b)
        decreases b.number
      {
        var p := Parent(blocks, b);
        if p.None? { return None, oldChain, newChain; }
        WalkedOn(blocks, newBlock, newChain, b);
        newChain, b := newChain + [b], p.value;
      }
    }
    while a.hash != b.hash
      invariant a.number == b.number && Meet(blocks, a, b) == Meet(blocks, oldBlock, newBlock)
      invariant Walked(blocks, oldBlock, oldChain, a) && Walked(blocks, newBlock, newChain, b)
      invariant Known(blocks, a) && Known(blocks, b)
      decreases a.number
    {
      var p, q := Parent(blocks, a), Parent(blocks, b);
      if p.None? || q.None? { return None, oldChain, newChain; }
      WalkedOn(blocks, oldBlock, oldChain, a);
      WalkedOn(blocks, newBlock, newChain, b);
      oldChain, newChain := oldChain + [a], newChain + [b];
      a, b := p.value, q.value;
    }
    return Some(a), oldChain, newChain;
  }

  lemma WalkedNone(blocks: Blocks, b: Block)
    ensures Walked(blocks, b, [], b)
  {
  }

  // ----- Writing the indexes

  /** The index after the given blocks have been made canonical, last one first. */
  function Indexed(canon: Index, chain: seq<Block>): (r: Index) {
    if chain == [] then canon else Indexed(canon, chain[1..])[chain[0].number := chain[0].hash]
  }

  /** The lookup entries after those of one block have been written, up to position `n`. */
  function WithTxs(lookup: Lookup, b: Block, n: nat): (r: Lookup)
    requires n <= |b.txs|
  {
    if n == 0 then lookup else WithTxs(lookup, b, n - 1)[b.txs[n - 1] := Entry(b.hash, b.number, n - 1)]
  }

  function WithBlocks(lookup: Lookup, chain: seq<Block>): (r: Lookup) {
    if chain == [] then lookup else WithTxs(WithBlocks(lookup, chain[1..]), chain[0], |chain[0].txs|)
  }

  lemma {:induction false} IndexedIs(canon: Index, blocks: Blocks, b: Block, n: nat, k: nat)
    requires Ancestor(blocks, b, n).Some? && n <= b.number
    ensures var r := Indexed(canon, Way(blocks, b, n));
            if n < k <= b.number then
              Ancestor(blocks, b, k).Some? && k in r && r[k] == Ancestor(blocks, b, k).value.hash
            else (k in r <==> k in canon) && (k in canon ==> r[k] == canon[k])
    decreases b.number
  {
    if b.number > n {
      var p := Parent(blocks, b).value;
      IndexedIs(canon, blocks, p, n, k);
      assert Way(blocks, b, n)[1..] == Way(blocks, p, n);
    }
  }

  /** An index that follows the old branch follows the new one once its blocks are written. */
  lemma FollowsNew(canon: Index, blocks: Blocks, a: Block, b: Block, c: Block)
    requires Follows(canon, blocks, a)
    requires Ancestor(blocks, a, c.number) == Some(c) && Ancestor(blocks, b, c.number) == Some(c)
    ensures Follows(Indexed(canon, Way(blocks, b, c.number)), blocks, b)
  {
    var r := Indexed(canon, Way(blocks, b, c.number));
    forall n | 0 <= n <= b.number
      ensures Ancestor(blocks, b, n).Some? && n in r && r[n] == Ancestor(blocks, b, n).value.hash
    {
      IndexedIs(canon, blocks, b, c.number, n);
      if n <= c.number {
        AncestorTrans(blocks, a, c.number, n);
        AncestorTrans(blocks, b, c.number, n);
        assert Ancestor(blocks, a, n).Some?;
      }
    }
  }

  lemma {:induction false} WithTxsIs(lookup: Lookup, b: Block, n: nat, tx: TxHash)
    requires n <= |b.txs|
    ensures tx in b.txs[..n] ==> tx in WithTxs(lookup, b, n) && Placed(WithTxs(lookup, b, n)[tx], b, tx)
    ensures tx !in b.txs[..n] ==> (tx in WithTxs(lookup, b, n) <==> tx in lookup)
    ensures tx !in b.txs[..n] && tx in lookup ==> WithTxs(lookup, b, n)[tx] == lookup[tx]
  {
    if n > 0 {
      WithTxsIs(lookup, b, n - 1, tx);
      assert b.txs[..n] == b.txs[..n - 1] + [b.txs[n - 1]];
    }
  }

  ghost predicate Placed(e: Entry, b: Block, tx: TxHash) {
    e.block == b.hash && e.number == b.number && e.index < |b.txs| && b.txs[e.index] == tx
  }

  lemma {:induction false} WithBlocksIs(lookup: Lookup, chain: seq<Block>, tx: TxHash)
    ensures tx in TxsOf(chain) ==>
      && tx in WithBlocks(lookup, chain)
      && exists i :: 0 <= i < |chain| && Placed(WithBlocks(lookup, chain)[tx], chain[i], tx)
    ensures tx !in TxsOf(chain) ==> (tx in WithBlocks(lookup, chain) <==> tx in lookup)
    ensures tx !in TxsOf(chain) && tx in lookup ==> WithBlocks(lookup, chain)[tx] == lookup[tx]
  {
    if chain != [] {
      var rest := chain[1..];
      WithBlocksIs(lookup, rest, tx);
      WithTxsIs(WithBlocks(lookup, rest), chain[0], |chain[0].txs|, tx);
      assert chain[0].txs[..|chain[0].txs|] == chain[0].txs;
      TxsOfIn(chain, tx);
      TxsOfIn(rest, tx);
      if tx in TxsOf(rest) {
        var i :| 0 <= i < |rest| && Placed(WithBlocks(lookup, rest)[tx], rest[i], tx);
        assert chain[i + 1] == rest[i];
      }
      if tx in TxsOf(chain) && tx !in chain[0].txs {
        var i :| 0 <= i < |chain| && tx in chain[i].txs;
        assert rest[i - 1] == chain[i];
      }
      if tx in chain[0].txs {
        assert Placed(WithBlocks(lookup, chain)[tx], chain[0], tx);
      }
      if tx !in TxsOf(chain) {
        assert tx !in chain[0].txs;
        forall i | 0 <= i < |rest| ensures tx !in rest[i].txs {
          assert chain[i + 1] == rest[i];
        }
      }
    }
  }

  /** The entries left after those of deleted transactions that were not added again are gone. */
  function Purged(lookup: Lookup, deleted: seq<TxHash>, added: seq<TxHash>): (r: Lookup) {
    map tx | tx in lookup && !(tx in deleted && tx !in added) :: lookup[tx]
  }

  /** Transactions of the branch from `a` down to `c` are not in the chain below. */
  ghost predicate Unrepeated(blocks: Blocks, a: Block, c: Block) {
    forall n, tx :: 0 <= n <= c.number && Ancestor(blocks, c, n).Some? && tx in TxsOf(Way(blocks, a, c.number)) ==>
      tx !in Ancestor(blocks, c, n).value.txs
  }

  lemma BelowFork(blocks: Blocks, a: Block, c: Block, n: nat)
    requires Ancestor(blocks, a, c.number) == Some(c) && n <= c.number
    ensures Ancestor(blocks, a, n) == Ancestor(blocks, c, n)
  {
    AncestorTrans(blocks, a, c.number, n);
  }

  /** A transaction above the fork is in the branch. */
  lemma AboveFork(blocks: Blocks, a: Block, c: Block, n: nat, tx: TxHash)
    requires Ancestor(blocks, a, c.number) == Some(c) && c.number < n <= a.number
    requires Ancestor(blocks, a, n).Some? && tx in Ancestor(blocks, a, n).value.txs
    ensures tx in TxsOf(Way(blocks, a, c.number))
  {
    WayIs(blocks, a, c.number);
    var w := Way(blocks, a, c.number);
    assert w[a.number - n] == Ancestor(blocks, a, a.number - (a.number - n)).value;
    TxsOfIn(w, tx);
  }

  /** After the switch, the entries are those of the new branch and of shared ancestors only. */
  lemma SoundNew(lookup: Lookup, blocks: Blocks, a: Block, b: Block, c: Block)
    requires Sound(lookup, blocks, a)
    requires Ancestor(blocks, a, c.number) == Some(c) && Ancestor(blocks, b, c.number) == Some(c)
    ensures var was, now := Way(blocks, a, c.number), Way(blocks, b, c.number);
            Sound(Purged(WithBlocks(lookup, now), TxsOf(was), TxsOf(now)), blocks, b)
  {
    var was, now := Way(blocks, a, c.number), Way(blocks, b, c.number);
    var r := Purged(WithBlocks(lookup, now), TxsOf(was), TxsOf(now));
    hide Way, TxsOf, WithBlocks, Ancestor;
    forall tx | tx in r ensures EntryOk(r[tx], tx, blocks, b) {
      WithBlocksIs(lookup, now, tx);
      if tx in TxsOf(now) {
        var i :| 0 <= i < |now| && Placed(r[tx], now[i], tx);
        NewEntry(r[tx], tx, blocks, b, c, i);
      } else {
        OldEntry(lookup[tx], tx, blocks, a, b, c);
      }
    }
  }

  lemma NewEntry(e: Entry, tx: TxHash, blocks: Blocks, b: Block, c: Block, i: nat)
    requires Ancestor(blocks, b, c.number) == Some(c) && i < |Way(blocks, b, c.number)| &&
      Placed(e, Way(blocks, b, c.number)[i], tx)
    ensures EntryOk(e, tx, blocks, b)
  {
    WayIs(blocks, b, c.number);
    assert Ancestor(blocks, b, b.number - i) == Some(Way(blocks, b, c.number)[i]);
  }

  lemma OldEntry(e: Entry, tx: TxHash, blocks: Blocks, a: Block, b: Block, c: Block)
    requires EntryOk(e, tx, blocks, a) && tx !in TxsOf(Way(blocks, a, c.number))
    requires Ancestor(blocks, a, c.number) == Some(c) && Ancestor(blocks, b, c.number) == Some(c)
    ensures EntryOk(e, tx, blocks, b)
  {
    if e.number > c.number {
      AboveFork(blocks, a, c, e.number, tx);
    } else {
      BelowFork(blocks, a, c, e.number);
      BelowFork(blocks, b, c, e.number);
    }
  }

  /** Nor is any of theirs missing, if no transaction was in a chain twice. */
  lemma FullNew(lookup: Lookup, blocks: Blocks, a: Block, b: Block, c: Block)
    requires Full(lookup, blocks, a) && Unrepeated(blocks, a, c)
    requires Ancestor(blocks, a, c.number) == Some(c) && Ancestor(blocks, b, c.number) == Some(c)
    ensures var was, now := Way(blocks, a, c.number), Way(blocks, b, c.number);
            Full(Purged(WithBlocks(lookup, now), TxsOf(was), TxsOf(now)), blocks, b)
  {
    var was, now := Way(blocks, a, c.number), Way(blocks, b, c.number);
    var r := Purged(WithBlocks(lookup, now), TxsOf(was), TxsOf(now));
    forall n, tx | 0 <= n <= b.number && Ancestor(blocks, b, n).Some? && tx in Ancestor(blocks, b, n).value.txs
      ensures tx in r
    {
      WithBlocksIs(lookup, now, tx);
      if n > c.number {
        AboveFork(blocks, b, c, n, tx);
      } else {
        BelowFork(blocks, a, c, n);
        BelowFork(blocks, b, c, n);
        assert tx in lookup;
      }
    }
  }

  // ----- The chain

  class Chain {
    var blocks: Blocks
    var canon: Index
    var lookup: Lookup
    var head: Block

    ghost predicate Valid()
      reads this
    {
      Linked(blocks) && Known(blocks, head)
    }

    constructor (stored: Blocks, index: Index, entries: Lookup, top: Block)
      ensures blocks == stored && canon == index && lookup == entries && head == top
    {
      blocks, canon, lookup, head := stored, index, entries, top;
    }

    /** Makes a block canonical at its height, and the head. */
    method Insert(b: Block)
      modifies this`canon, this`head
      ensures canon == old(canon)[b.number := b.hash] && head == b
    {
      canon, head := canon[b.number := b.hash], b;
    }

    method WriteTxLookupEntries(b: Block)
      modifies this`lookup
      ensures lookup == WithTxs(old(lookup), b, |b.txs|)
    {
      var i := 0;
      while i < |b.txs|
        invariant i <= |b.txs| && lookup == WithTxs(old(lookup), b, i)
      {
        lookup := lookup[b.txs[i] := Entry(b.hash, b.number, i)];
        i := i + 1;
      }
    }

    /** Makes the blocks of a branch canonical, lowest first. */
    method Adopt(chain: seq<Block>) returns (added: seq<TxHash>)
      modifies this`canon, this`lookup, this`head
      ensures canon == Indexed(old(canon), chain) && lookup == WithBlocks(old(lookup), chain)
      ensures forall tx :: tx in added <==> tx in TxsOf(chain)
      ensures head == if chain == [] then old(head) else chain[0]
    {
      added := [];
      var i := |chain|;
      assert chain[i..] == [];
      while i > 0
        invariant i <= |chain|
        invariant canon == Indexed(old(canon), chain[i..]) && lookup == WithBlocks(old(lookup), chain[i..])
        invariant forall tx :: tx in added <==> tx in TxsOf(chain[i..])
        invariant head == if i == |chain| then old(head) else chain[i]
      {
        i := i - 1;
        assert chain[i..][0] == chain[i] && chain[i..][1..] == chain[i + 1..];
        Insert(chain[i]);
        WriteTxLookupEntries(chain[i]);
        FirstTxs(chain[i..]);
        added := added + chain[i].txs;
      }
      assert chain[0..] == chain;
    }

    /** Switches from one branch to another, unless a block on either way down to where they meet is
        missing. */
    method SwitchTo(oldBlock: Block, newBlock: Block) returns (ok: bool)
      requires Valid() && Known(blocks, oldBlock) && Known(blocks, newBlock)
      modifies this`canon, this`lookup, this`head
      ensures ok <==> Meet(blocks, oldBlock, newBlock).Some?
      ensures !ok ==> canon == old(canon) && lookup == old(lookup) && head == old(head)
      ensures ok ==> head == if Meet(blocks, oldBlock, newBlock).value == newBlock then old(head) else newBlock
      ensures ok ==> canon == Indexed(old(canon), Way(blocks, newBlock, Meet(blocks, oldBlock, newBlock).value.number))
      ensures ok ==>
        var c := Meet(blocks, oldBlock, newBlock).value.number;
        var was, now := Way(blocks, oldBlock, c), Way(blocks, newBlock, c);
        lookup == Purged(WithBlocks(old(lookup), now), TxsOf(was), TxsOf(now))
      ensures ok && Follows(old(canon), blocks, oldBlock) ==> Follows(canon, blocks, newBlock)
      ensures ok && Sound(old(lookup), blocks, oldBlock) ==> Sound(lookup, blocks, newBlock)
      ensures
        && ok && Full(old(lookup), blocks, oldBlock)
        && Unrepeated(blocks, oldBlock, Meet(blocks, oldBlock, newBlock).value) ==>
        Full(lookup, blocks, newBlock)
      ensures Valid()
    {
      hide Follows, Sound, Full, Unrepeated, Indexed, WithBlocks, TxsOf;
      var common, oldChain, newChain := FindFork(blocks, oldBlock, newBlock);
      if common.None? {
        return false;
      }
      var c := common.value;
      var added := Adopt(newChain);
      var deleted := Gather(oldChain);
      lookup := Purged(lookup, deleted, added);
      SamePurge(WithBlocks(old(lookup), newChain), deleted, added, TxsOf(oldChain), TxsOf(newChain));
      Switched(old(canon), old(lookup), blocks, oldBlock, newBlock, c);
      ok := true;
    }

    /** Takes over a stored block as the new head, switching branches if it does not extend the
        old one. Its transactions are entered afterwards in either case. */
    method SetHead(b: Block) returns (ok: bool)
      requires Valid() && Known(blocks, b)
      modifies this`canon, this`lookup, this`head
      ensures ok <==> b.parent == old(head).hash || Meet(blocks, old(head), b).Some?
      ensures ok ==> head == b
      ensures !ok ==> canon == old(canon) && lookup == old(lookup) && head == old(head)
      ensures ok && Follows(old(canon), blocks, old(head)) ==> Follows(canon, blocks, head)
      ensures ok && Sound(old(lookup), blocks, old(head)) ==> Sound(lookup, blocks, head)
      ensures ok && Full(old(lookup), blocks, old(head)) &&
              (b.parent == old(head).hash || Unrepeated(blocks, old(head), Meet(blocks, old(head), b).value)) ==>
        Full(lookup, blocks, head)
      ensures Valid()
    {
      hide Follows, Sound, Full, Unrepeated, Meet, WithTxs, Indexed;
      if b.parent != head.hash {
        ok := SwitchTo(head, b);
        if !ok {
          return;
        }
        Rewritten(canon, lookup, blocks, b);
      } else {
        Extended(canon, lookup, blocks, head, b);
      }
      WriteTxLookupEntries(b);
      Insert(b);
      ok := true;
    }

    /** The hash and number of the ancestor `ancestor` steps below a block, by way of the index once
        the walk gets to it; no hash if that takes too many steps or a block is missing. */
    method GetAncestor(hash: Hash, number: nat, ancestor: nat, maxNonCanonical: nat) returns (r: Found)
      ensures r == AncestorOf(blocks, canon, hash, number, ancestor, maxNonCanonical)
    {
      if ancestor > number {
        return Found(NO_HASH, 0, maxNonCanonical);
      }
      if ancestor == 1 {
        if Stored(blocks, hash, number) {
          return Found(blocks[hash].parent, number - 1, maxNonCanonical);
        }
        return Found(NO_HASH, 0, maxNonCanonical);
      }
      var h, n, steps, left := hash, number, ancestor, maxNonCanonical;
      while steps != 0
        invariant steps <= n
        invariant ByIndex(blocks, canon, h, n, steps, left) ==
          ByIndex(blocks, canon, hash, number, ancestor, maxNonCanonical)
        decreases steps
      {
        if Canonical(canon, n) == h {
          return Found(Canonical(canon, n - steps), n - steps, left);
        }
        if left == 0 {
          return Found(NO_HASH, 0, left);
        }
        left, steps := left - 1, steps - 1;
        if !Stored(blocks, h, n) {
          return Found(NO_HASH, 0, left);
        }
        h, n := blocks[h].parent, n - 1;
      }
      return Found(h, n, left);
    }

    method Gather(chain: seq<Block>) returns (txs: seq<TxHash>)
      ensures txs == TxsOf(chain)
    {
      txs := [];
      var i := 0;
      assert chain[..0] == [];
      while i < |chain|
        invariant i <= |chain| && txs == TxsOf(chain[..i])
      {
        assert chain[..i + 1][..i] == chain[..i];
        txs := txs + chain[i].txs;
        i := i + 1;
      }
      assert chain[..i] == chain;
    }
  }

  lemma FirstTxs(chain: seq<Block>)
    requires chain != []
    ensures forall tx :: tx in TxsOf(chain) <==> tx in chain[0].txs || tx in TxsOf(chain[1..])
  {
    forall tx ensures tx in TxsOf(chain) <==> tx in chain[0].txs || tx in TxsOf(chain[1..]) {
      TxsOfIn(chain, tx);
      TxsOfIn(chain[1..], tx);
      var rest := chain[1..];
      if tx in TxsOf(chain) {
        var i :| 0 <= i < |chain| && tx in chain[i].txs;
        if i > 0 { assert rest[i - 1] == chain[i]; }
      }
      if tx in TxsOf(rest) {
        var i :| 0 <= i < |rest| && tx in rest[i].txs;
        assert chain[i + 1] == rest[i];
      }
    }
  }

  lemma SamePurge(lookup: Lookup, d: seq<TxHash>, a: seq<TxHash>, d2: seq<TxHash>, a2: seq<TxHash>)
    requires forall tx :: tx in a <==> tx in a2
    requires d == d2
    ensures Purged(lookup, d, a) == Purged(lookup, d2, a2)
  {
  }

  lemma Switched(canon: Index, lookup: Lookup, blocks: Blocks, a: Block, b: Block, c: Block)
    requires Ancestor(blocks, a, c.number) == Some(c) && Ancestor(blocks, b, c.number) == Some(c)
    ensures var was, now := Way(blocks, a, c.number), Way(blocks, b, c.number);
            && (Follows(canon, blocks, a) ==> Follows(Indexed(canon, now), blocks, b))
            && (Sound(lookup, blocks, a) ==> Sound(Purged(WithBlocks(lookup, now), TxsOf(was), TxsOf(now)), blocks, b))
            && (Full(lookup, blocks, a) && Unrepeated(blocks, a, c) ==>
                  Full(Purged(WithBlocks(lookup, now), TxsOf(was), TxsOf(now)), blocks, b))
  {
    hide Follows, Sound, Full, Unrepeated, Indexed, WithBlocks, TxsOf, Purged;
    if Follows(canon, blocks, a) { FollowsNew(canon, blocks, a, b, c); }
    if Sound(lookup, blocks, a) { SoundNew(lookup, blocks, a, b, c); }
    if Full(lookup, blocks, a) && Unrepeated(blocks, a, c) { FullNew(lookup, blocks, a, b, c); }
  }

  /** Writing the head block again changes nothing that matters. */
  lemma Rewritten(canon: Index, lookup: Lookup, blocks: Blocks, b: Block)
    ensures Follows(canon, blocks, b) ==> Follows(canon[b.number := b.hash], blocks, b)
    ensures Sound(lookup, blocks, b) ==> Sound(WithTxs(lookup, b, |b.txs|), blocks, b)
    ensures Full(lookup, blocks, b) ==> Full(WithTxs(lookup, b, |b.txs|), blocks, b)
  {
    if Sound(lookup, blocks, b) {
      HeadEntries(lookup, blocks, b);
    }
    if Full(lookup, blocks, b) {
      forall tx | tx in lookup ensures tx in WithTxs(lookup, b, |b.txs|) {
        WithTxsIs(lookup, b, |b.txs|, tx);
      }
    }
  }

  lemma HeadEntries(lookup: Lookup, blocks: Blocks, b: Block)
    requires Sound(lookup, blocks, b)
    ensures Sound(WithTxs(lookup, b, |b.txs|), blocks, b)
  {
    var r := WithTxs(lookup, b, |b.txs|);
    assert b.txs[..|b.txs|] == b.txs;
    forall tx | tx in r ensures EntryOk(r[tx], tx, blocks, b) {
      WithTxsIs(lookup, b, |b.txs|, tx);
    }
  }

  /** A child of the head extends the chain. */
  lemma Extended(canon: Index, lookup: Lookup, blocks: Blocks, a: Block, b: Block)
    requires Linked(blocks) && Known(blocks, a) && Known(blocks, b) && b.parent == a.hash
    ensures Follows(canon, blocks, a) ==> Follows(canon[b.number := b.hash], blocks, b)
    ensures Sound(lookup, blocks, a) ==> Sound(WithTxs(lookup, b, |b.txs|), blocks, b)
    ensures Full(lookup, blocks, a) ==> Full(WithTxs(lookup, b, |b.txs|), blocks, b)
  {
    assert Parent(blocks, b) == Some(a);
    assert forall n :: 0 <= n <= a.number ==> Ancestor(blocks, b, n) == Ancestor(blocks, a, n);
    if Full(lookup, blocks, a) {
      ExtendedFull(lookup, blocks, a, b);
    }
    if Sound(lookup, blocks, a) {
      forall tx | tx in lookup ensures EntryOk(lookup[tx], tx, blocks, b) {
        assert EntryOk(lookup[tx], tx, blocks, a);
      }
      HeadEntries(lookup, blocks, b);
    }
  }

  lemma ExtendedFull(lookup: Lookup, blocks: Blocks, a: Block, b: Block)
    requires Full(lookup, blocks, a) && Parent(blocks, b) == Some(a)
    ensures Full(WithTxs(lookup, b, |b.txs|), blocks, b)
  {
    var r := WithTxs(lookup, b, |b.txs|);
    forall n, tx | 0 <= n <= b.number && Ancestor(blocks, b, n).Some? && tx in Ancestor(blocks, b, n).value.txs
      ensures tx in r
    {
      WithTxsIs(lookup, b, |b.txs|, tx);
      assert b.txs[..|b.txs|] == b.txs;
      if n <= a.number {
        assert Ancestor(blocks, a, n) == Ancestor(blocks, b, n);
      }
    }
  }

  // ----- Ancestors by way of the index

  /** A hash and its number, and how many more blocks off the index may be looked at. */
  datatype Found = Found(hash: Hash, number: nat, left: nat)

  function Canonical(canon: Index, n: nat): (h: Hash) {
    if n in canon then canon[n] else NO_HASH
  }

  predicate Stored(blocks: Blocks, h: Hash, n: nat) {
    h in blocks && blocks[h].number == n
  }

  function ByIndex(blocks: Blocks, canon: Index, h: Hash, n: nat, steps: nat, max: nat): (r: Found)
    requires steps <= n
    decreases steps
  {
    if steps == 0 then Found(h, n, max)
    else if Canonical(canon, n) == h then Found(Canonical(canon, n - steps), n - steps, max)
    else if max == 0 then Found(NO_HASH, 0, max)
    else if !Stored(blocks, h, n) then Found(NO_HASH, 0, max - 1)
    else ByIndex(blocks, canon, blocks[h].parent, n - 1, steps - 1, max - 1)
  }

  function AncestorOf(blocks: Blocks, canon: Index, h: Hash, n: nat, steps: nat, max: nat): (r: Found) {
    if steps > n then Found(NO_HASH, 0, max)
    else if steps == 1 then
      if Stored(blocks, h, n) then Found(blocks[h].parent, n - 1, max) else Found(NO_HASH, 0, max)
    else ByIndex(blocks, canon, h, n, steps, max)
  }

  /** Where the index follows the head, a canonical block not above it has canonical ancestors. */
  lemma CanonicalAncestors(blocks: Blocks, canon: Index, head: Block, b: Block, k: nat)
    requires Linked(blocks) && Known(blocks, head) && Known(blocks, b) && Follows(canon, blocks, head)
    requires b.number <= head.number && Canonical(canon, b.number) == b.hash && k <= b.number
    ensures Ancestor(blocks, b, k).Some? && Canonical(canon, k) == Ancestor(blocks, b, k).value.hash
  {
    KnownAncestor(blocks, head, b.number);
    assert Ancestor(blocks, head, b.number) == Some(b);
    AncestorTrans(blocks, head, b.number, k);
  }

  lemma {:induction false} KnownAncestor(blocks: Blocks, b: Block, n: nat)
    requires Linked(blocks) && Known(blocks, b) && Ancestor(blocks, b, n).Some?
    ensures Known(blocks, Ancestor(blocks, b, n).value)
    decreases b.number
  {
    if b.number > n {
      KnownAncestor(blocks, Parent(blocks, b).value, n);
    }
  }

  lemma {:induction false} ByIndexIsWalk(blocks: Blocks, canon: Index, head: Block, b: Block, steps: nat, max: nat)
    requires Linked(blocks) && Known(blocks, head) && Known(blocks, b) && Follows(canon, blocks, head)
    requires steps <= b.number <= head.number && Complete(blocks, b)
    ensures var r := ByIndex(blocks, canon, b.hash, b.number, steps, max);
            && (r.hash != NO_HASH ==> Ancestor(blocks, b, b.number - steps).Some? && r.number == b.number - steps
                                      && r.hash == Ancestor(blocks, b, b.number - steps).value.hash)
            && (max >= steps ==> r.hash != NO_HASH)
    decreases steps
  {
    if steps > 0 {
      if Canonical(canon, b.number) == b.hash {
        CanonicalAncestors(blocks, canon, head, b, b.number - steps);
        KnownAncestor(blocks, b, b.number - steps);
      } else if max > 0 {
        CompleteParent(blocks, b);
        ByIndexIsWalk(blocks, canon, head, Parent(blocks, b).value, steps - 1, max - 1);
      }
    }
  }

  /** Asking the index gives what walking to parents gives, for a block that is not above the head. */
  lemma AncestorByIndexIsWalk(blocks: Blocks, canon: Index, head: Block, b: Block, steps: nat, max: nat)
    requires Linked(blocks) && Known(blocks, head) && Known(blocks, b) && Follows(canon, blocks, head)
    requires b.number <= head.number && Complete(blocks, b)
    ensures var r := AncestorOf(blocks, canon, b.hash, b.number, steps, max);
            && (r.hash != NO_HASH ==>
                  && steps <= b.number && Ancestor(blocks, b, b.number - steps).Some?
                  && r.number == b.number - steps && r.hash == Ancestor(blocks, b, b.number - steps).value.hash)
            && (max >= steps && steps <= b.number ==> r.hash != NO_HASH)
  {
    if steps == 1 && b.number >= 1 {
      CompleteParent(blocks, b);
      KnownAncestor(blocks, b, b.number - 1);
    } else if steps <= b.number {
      ByIndexIsWalk(blocks, canon, head, b, steps, max);
    }
  }

  /** After a switch from `a` to `b`, which part at `c`, the index above `b` is left over from the old
      branch. For a block `x` of the old branch above `b` the answer is right exactly if the height
      asked for is not among those where the new branch replaced the old one. A parent is read from
      the block itself and is always right. */
  lemma StaleIndexIff(blocks: Blocks, canon: Index, a: Block, b: Block, c: Block, x: Block, k: nat, max: nat)
    requires Linked(blocks) && Known(blocks, a) && Known(blocks, b) && Follows(canon, blocks, a) &&
      Meet(blocks, a, b) == Some(c)
    requires Ancestor(blocks, a, x.number) == Some(x) && x.number > b.number && k + 1 != x.number && k <= x.number
    ensures Ancestor(blocks, x, k).Some?
    ensures AncestorOf(blocks, Indexed(canon, Way(blocks, b, c.number)), x.hash, x.number, x.number - k, max).hash ==
              Ancestor(blocks, x, k).value.hash <==>
            !(c.number < k <= b.number)
  {
    hide Way, Indexed, Ancestor;
    var r := Indexed(canon, Way(blocks, b, c.number));
    MeetIsHighest(blocks, a, b);
    AncestorTrans(blocks, a, x.number, k);
    IndexedIs(canon, blocks, b, c.number, k);
    IndexedIs(canon, blocks, b, c.number, x.number);
    assert Ancestor(blocks, a, k).Some?;
    assert Canonical(r, x.number) == x.hash;
    if c.number < k <= b.number {
      KnownAncestor(blocks, a, k);
      KnownAncestor(blocks, b, k);
      assert Ancestor(blocks, a, k) != Ancestor(blocks, b, k);
    }
  }

  /** The index names an ancestor of `x` above height `k`, or `x` itself. */
  ghost predicate Hit(blocks: Blocks, canon: Index, x: Block, k: nat) {
    exists n :: k < n <= x.number && HitAt(blocks, canon, x, n)
  }

  ghost predicate HitAt(blocks: Blocks, canon: Index, x: Block, n: nat) {
    Ancestor(blocks, x, n).Some? && Canonical(canon, n) == Ancestor(blocks, x, n).value.hash
  }

  /** The highest height from `k` on where the index names an ancestor of `x`, or `k` if there is none. */
  ghost predicate Highest(blocks: Blocks, canon: Index, x: Block, k: nat, n: nat) {
    && k <= n <= x.number
    && (n == k || HitAt(blocks, canon, x, n))
    && forall m :: n < m <= x.number ==> !HitAt(blocks, canon, x, m)
  }

  lemma {:induction false} HighestExists(blocks: Blocks, canon: Index, x: Block, k: nat, top: nat) returns (n: nat)
    requires k <= top <= x.number && forall m :: top < m <= x.number ==> !HitAt(blocks, canon, x, m)
    ensures Highest(blocks, canon, x, k, n) && (n > k <==> Hit(blocks, canon, x, k))
    decreases top
  {
    if top == k || HitAt(blocks, canon, x, top) {
      n := top;
    } else {
      n := HighestExists(blocks, canon, x, k, top - 1);
    }
  }

  lemma HighestParent(blocks: Blocks, canon: Index, x: Block, k: nat, n: nat)
    requires Highest(blocks, canon, x, k, n) && n < x.number && Parent(blocks, x).Some?
    ensures Canonical(canon, x.number) != x.hash
    ensures Highest(blocks, canon, Parent(blocks, x).value, k, n)
    ensures Ancestor(blocks, x, k) == Ancestor(blocks, Parent(blocks, x).value, k)
  {
    var p := Parent(blocks, x).value;
    assert !HitAt(blocks, canon, x, x.number);
    assert forall m :: 0 <= m <= p.number ==> HitAt(blocks, canon, x, m) == HitAt(blocks, canon, p, m);
  }

  /** What the walk with the shortcut gives and costs, over any index: one block off the index for each
      height down to the first that the index names, or to the one asked for. If that many may be looked
      at, the rest are left over, and the index decides as soon as it names an ancestor above the height
      asked for; if not, there is no answer and none is left. */
  lemma {:induction false} ByIndexCosts(blocks: Blocks, canon: Index, x: Block, k: nat, max: nat, n: nat)
    requires Linked(blocks) && Known(blocks, x) && Complete(blocks, x) && Highest(blocks, canon, x, k, n)
    ensures k <= n <= x.number && Ancestor(blocks, x, k).Some?
    ensures ByIndex(blocks, canon, x.hash, x.number, x.number - k, max) ==
            if max < x.number - n then Found(NO_HASH, 0, 0)
            else if n > k then Found(Canonical(canon, k), k, max - (x.number - n))
            else Found(Ancestor(blocks, x, k).value.hash, k, max - (x.number - n))
    decreases x.number
  {
    hide Highest, Complete;
    HighestBounds(blocks, canon, x, k, n);
    if x.number > n {
      CompleteParent(blocks, x);
      HighestParent(blocks, canon, x, k, n);
      if max > 0 {
        ByIndexCosts(blocks, canon, Parent(blocks, x).value, k, max - 1, n);
      }
    }
  }

  lemma HighestBounds(blocks: Blocks, canon: Index, x: Block, k: nat, n: nat)
    requires Highest(blocks, canon, x, k, n) && Complete(blocks, x)
    ensures k <= n <= x.number && Ancestor(blocks, x, k).Some?
    ensures k < n == x.number ==> Canonical(canon, x.number) == x.hash
  {
  }

  /** Over any index, if enough blocks off it may be looked at: the index decides as soon as it names
      an ancestor above the height asked for, and otherwise the walk to parents does. With fewer, there
      may be no answer. */
  lemma ByIndexIs(blocks: Blocks, canon: Index, x: Block, steps: nat, max: nat)
    requires Linked(blocks) && Known(blocks, x) && Complete(blocks, x) && steps <= x.number
    ensures var r, k := ByIndex(blocks, canon, x.hash, x.number, steps, max), x.number - steps;
            && Ancestor(blocks, x, k).Some?
            && (r.hash != NO_HASH || max >= steps ==>
                  && r.number == k
                  && r.hash == if Hit(blocks, canon, x, k) then Canonical(canon, k)
                               else Ancestor(blocks, x, k).value.hash)
  {
    hide Hit, ByIndex;
    var k := x.number - steps;
    var n := HighestExists(blocks, canon, x, k, x.number);
    ByIndexCosts(blocks, canon, x, k, max, n);
  }

  /** Blocks that share an ancestor share all those below it. */
  lemma SharedBelow(blocks: Blocks, a: Block, b: Block, m: nat, n: nat)
    requires n <= m && Ancestor(blocks, a, m).Some? && Ancestor(blocks, a, m) == Ancestor(blocks, b, m)
    ensures Ancestor(blocks, a, n) == Ancestor(blocks, b, n)
  {
    AncestorTrans(blocks, a, m, n);
    AncestorTrans(blocks, b, m, n);
  }

  /** Where the index after a switch from `a` to `b`, which part at `c`, names an ancestor of `x`. */
  lemma HitAfterSwitch(blocks: Blocks, canon: Index, a: Block, b: Block, c: Block, x: Block, n: nat)
    requires Linked(blocks) && Known(blocks, a) && Known(blocks, b) && Known(blocks, x) && Follows(canon, blocks, a)
    requires Ancestor(blocks, a, c.number) == Some(c) && Ancestor(blocks, b, c.number) == Some(c)
    requires n <= x.number && (n > a.number ==> !HitAt(blocks, canon, x, n))
    ensures HitAt(blocks, Indexed(canon, Way(blocks, b, c.number)), x, n) <==>
              && Ancestor(blocks, x, n).Some?
              && Ancestor(blocks, x, n) == Ancestor(blocks, if n <= b.number then b else a, n)
  {
    hide Way, Indexed, Ancestor;
    IndexedIs(canon, blocks, b, c.number, n);
    if Ancestor(blocks, x, n).Some? { KnownAncestor(blocks, x, n); }
    if Ancestor(blocks, a, n).Some? { KnownAncestor(blocks, a, n); }
    if Ancestor(blocks, b, n).Some? { KnownAncestor(blocks, b, n); }
    if n <= c.number { SharedBelow(blocks, a, b, c.number, n); }
  }

  /** An ancestor of `x` named by that index makes the index right below it, outside the heights where
      the new branch replaced the old one. */
  lemma HitBelow(blocks: Blocks, canon: Index, a: Block, b: Block, c: Block, x: Block, n: nat, k: nat)
    requires Linked(blocks) && Known(blocks, a) && Known(blocks, b) && Known(blocks, x) && Follows(canon, blocks, a)
    requires Ancestor(blocks, a, c.number) == Some(c) && Ancestor(blocks, b, c.number) == Some(c)
    requires k < n <= x.number && (n > a.number ==> !HitAt(blocks, canon, x, n))
    requires k > a.number ==> !HitAt(blocks, canon, x, k)
    requires HitAt(blocks, Indexed(canon, Way(blocks, b, c.number)), x, n)
    requires Ancestor(blocks, x, k).Some? && (n > b.number && k > c.number ==> k > b.number)
    ensures HitAt(blocks, Indexed(canon, Way(blocks, b, c.number)), x, k)
  {
    hide Way, Indexed, Ancestor, HitAt;
    HitAfterSwitch(blocks, canon, a, b, c, x, n);
    HitAfterSwitch(blocks, canon, a, b, c, x, k);
    SharedBelow(blocks, x, if n <= b.number then b else a, n, k);
    if k <= c.number { SharedBelow(blocks, a, b, c.number, k); }
  }

  /** After a switch from `a` to `b`, which part at `c`, for any block `x` above `b`, on whatever branch:
      the answer is right exactly if `x` does not have the old branch's block next above `b` as an ancestor,
      or the height asked for is not among those where the new branch replaced the old one. */
  lemma StaleIndexAnywhere(blocks: Blocks, canon: Index, a: Block, b: Block, c: Block, x: Block, k: nat, max: nat)
    requires Linked(blocks) && Known(blocks, a) && Known(blocks, b) && Follows(canon, blocks, a) &&
      Meet(blocks, a, b) == Some(c)
    requires Known(blocks, x) && Complete(blocks, x) && x.number > b.number && k <= x.number
    requires k + 1 != x.number && max >= x.number - k
    requires forall n :: a.number < n <= x.number ==> !HitAt(blocks, canon, x, n)
    ensures Ancestor(blocks, x, k).Some?
    ensures AncestorOf(blocks, Indexed(canon, Way(blocks, b, c.number)), x.hash, x.number, x.number - k, max).hash ==
              Ancestor(blocks, x, k).value.hash <==>
            !(c.number < k <= b.number && Ancestor(blocks, x, b.number + 1) == Ancestor(blocks, a, b.number + 1))
  {
    hide Way, Indexed, Meet;
    var r := Indexed(canon, Way(blocks, b, c.number));
    MeetIsHighest(blocks, a, b);
    ByIndexIs(blocks, r, x, x.number - k, max);
    HitAfterSwitch(blocks, canon, a, b, c, x, k);
    var stale := Ancestor(blocks, x, b.number + 1) == Ancestor(blocks, a, b.number + 1);
    assert Ancestor(blocks, x, b.number + 1).Some?;
    if c.number < k <= b.number && stale {
      HitAfterSwitch(blocks, canon, a, b, c, x, b.number + 1);
      assert HitAt(blocks, r, x, b.number + 1);
      SharedBelow(blocks, x, a, b.number + 1, k);
      assert !HitAt(blocks, r, x, k);
    } else if Hit(blocks, r, x, k) {
      var n :| k < n <= x.number && HitAt(blocks, r, x, n);
      HitAfterSwitch(blocks, canon, a, b, c, x, n);
      if n > b.number { SharedBelow(blocks, x, a, n, b.number + 1); }
      HitBelow(blocks, canon, a, b, c, x, n, k);
    }
  }

  /** The blocks of the example below. */
  const GENESIS := Block(1, 99, 0, [])
  const A1 := Block(10, 1, 1, [])
  const A2 := Block(20, 10, 2, [])
  const A3 := Block(30, 20, 3, [])
  const B1 := Block(40, 1, 1, [])
  const FORK := map[1 := GENESIS, 10 := A1, 20 := A2, 30 := A3, 40 := B1]

  lemma ForkShape()
    ensures Linked(FORK) && Follows(map[0 := 1, 1 := 10, 2 := 20, 3 := 30], FORK, A3)
    ensures Ancestor(FORK, A3, 1) == Some(A1) && Ancestor(FORK, B1, 0) == Some(GENESIS) &&
      Meet(FORK, A3, B1) == Some(GENESIS)
  {
    assert Parent(FORK, A3) == Some(A2) && Parent(FORK, A2) == Some(A1) && Parent(FORK, A1) == Some(GENESIS);
    assert Parent(FORK, B1) == Some(GENESIS);
    assert Ancestor(FORK, A1, 1) == Some(A1) && Ancestor(FORK, A2, 1) == Some(A1) && Ancestor(FORK, A3, 1) == Some(A1);
    assert Ancestor(FORK, A1, 0) == Some(GENESIS) && Ancestor(FORK, A2, 0) == Some(GENESIS);
    assert Ancestor(FORK, A3, 0) == Some(GENESIS);
    assert Ancestor(FORK, A2, 2) == Some(A2) && Ancestor(FORK, A3, 2) == Some(A2) && Ancestor(FORK, A3, 3) == Some(A3);
    assert Meet(FORK, A1, B1) == Some(GENESIS);
    assert Meet(FORK, A2, B1) == Some(GENESIS);
  }

  /** A chain of three blocks over the genesis block gives way to a single one. Asked for the ancestor
      of the old head two blocks down, the program then names the new head. */
  method StaleIndexMisleads() returns (chain: Chain, r: Found)
    ensures fresh(chain) && chain.Valid() && chain.head == B1 && Follows(chain.canon, FORK, B1)
    ensures r.hash == B1.hash && Ancestor(FORK, A3, 1) == Some(A1)
  {
    ForkShape();
    hide Ancestor, Follows, Meet, Linked;
    chain := new Chain(FORK, map[0 := 1, 1 := 10, 2 := 20, 3 := 30], map[], A3);
    var ok := chain.SwitchTo(A3, B1);
    r := chain.GetAncestor(30, 3, 2, 100);
  }
}
