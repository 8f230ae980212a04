/** The ethash proof of work (consensus/pow/algorithm.go, consensus/pow/pow.go), following Appendix J
    of the Ethereum Yellow Paper: evaluation from a small cache and from the full dataset. */
module Ethash {

  import opened Common

  type Word = bv32
  type Words = seq<Word>

  const HASH_WORDS: nat := 16
  const HASH_BYTES: nat := 64
  const MIX_BYTES: nat := 128
  const MIX_WORDS: nat := 32
  const DATASET_PARENTS: nat := 256
  const LOOP_ACCESSES: nat := 64

  /** The hash functions: 512 bits from 16 words, the seed of a header hash and nonce, and the final
      value of a seed and digest. */
  datatype Hashes = Hashes(keccak512: Words -> Words, seed: (Bytes, nat) -> Words, result: (Words, Words) -> nat)

  ghost predicate Sized(H: Hashes) {
    && (forall w :: |H.keccak512(w)| == HASH_WORDS)
    && (forall h, n :: |H.seed(h, n)| == HASH_WORDS)
  }

  // ----- Mixing

  function Fnv(a: Word, b: Word): (r: Word) {
    (a * 0x01000193) ^ b
  }

  /** The first word is scaled and the second is not: taking the second out leaves the product, and
      different data give different words. */
  lemma FnvIs(a: Word, b: Word, c: Word)
    ensures Fnv(a, b) ^ b == a * 0x01000193
    ensures Fnv(0, b) == b
    ensures Fnv(a, b) == Fnv(a, c) <==> b == c
  {
  }

  function ToWord(n: nat): (r: Word) {
    (n % 0x1_0000_0000) as bv32
  }

  /** One of `rows` rows. */
  function Pick(w: Word, rows: nat): (r: nat)
    requires rows > 0
    ensures r < rows
  {
    (w as int) % rows
  }

  /** All words of a mix with the data. */
  function FnvAll(mix: Words, data: Words): (r: Words)
    requires |mix| <= |data|
    ensures |r| == |mix|
    ensures forall i :: 0 <= i < |mix| ==> r[i] == Fnv(mix[i], data[i])
  {
    if mix == [] then [] else FnvAll(mix[..|mix| - 1], data) + [Fnv(mix[|mix| - 1], data[|mix| - 1])]
  }

  /** Mixes data into the buffer, in place. */
  method FnvHash(mix: array<Word>, data: Words)
    requires mix.Length <= |data|
    modifies mix
    ensures mix[..] == FnvAll(old(mix[..]), data)
  {
    ghost var was := mix[..];
    hide Fnv;
    var i := 0;
    while i < mix.Length
      invariant 0 <= i <= mix.Length
      invariant forall j :: 0 <= j < i ==> mix[j] == Fnv(was[j], data[j])
      invariant forall j :: i <= j < mix.Length ==> mix[j] == was[j]
    {
      mix[i] := Fnv(mix[i], data[i]);
      i := i + 1;
    }
  }

  // ----- Dataset items

  function RowCount(cache: Words): (r: nat) {
    |cache| / HASH_WORDS
  }

  function RowOf(data: Words, row: nat): (r: Words)
    requires (row + 1) * HASH_WORDS <= |data|
    ensures |r| == HASH_WORDS
  {
    data[row * HASH_WORDS..(row + 1) * HASH_WORDS]
  }

  /** The mix an item starts with: a row of the cache with the index mixed into its first word. */
  function Start(cache: Words, index: nat): (r: Words)
    requires RowCount(cache) > 0
    ensures |r| == HASH_WORDS
  {
    RowFits(cache, index % RowCount(cache));
    var row := RowOf(cache, index % RowCount(cache));
    row[0 := row[0] ^ ToWord(index)]
  }

  lemma RowFits(data: Words, row: nat)
    requires row < RowCount(data)
    ensures (row + 1) * HASH_WORDS <= |data|
  {
  }

  /** The row that is mixed in at step `i`. */
  function ParentRow(cache: Words, index: nat, mix: Words, i: nat): (r: nat)
    requires RowCount(cache) > 0 && |mix| == HASH_WORDS
    ensures r < RowCount(cache)
  {
    Pick(Fnv(ToWord(index) ^ ToWord(i), mix[i % HASH_WORDS]), RowCount(cache))
  }

  /** The mix after `n` rows have been mixed in. */
  function Mixed(cache: Words, index: nat, mix: Words, n: nat): (r: Words)
    requires RowCount(cache) > 0 && |mix| == HASH_WORDS
    ensures |r| == HASH_WORDS
  {
    if n == 0 then mix
    else
      var m := Mixed(cache, index, mix, n - 1);
      RowFits(cache, ParentRow(cache, index, m, n - 1));
      FnvAll(m, RowOf(cache, ParentRow(cache, index, m, n - 1)))
  }

  /** Item `index` of the dataset. */
  function Item(H: Hashes, cache: Words, index: nat): (r: Words)
    requires RowCount(cache) > 0
  {
    var mix := H.keccak512(Start(cache, index));
    if |mix| == HASH_WORDS then H.keccak512(Mixed(cache, index, mix, 256)) else []
  }

  /** Mixes rows of the cache into the buffer, in place. */
  method MixRows(cache: Words, index: nat, mix: array<Word>)
    requires RowCount(cache) > 0 && mix.Length == HASH_WORDS
    modifies mix
    ensures mix[..] == Mixed(cache, index, old(mix[..]), DATASET_PARENTS)
  {
    hide FnvAll, ParentRow, RowOf;
    ghost var first := mix[..];
    var i := 0;
    while i < DATASET_PARENTS
      invariant i <= DATASET_PARENTS && mix[..] == Mixed(cache, index, first, i)
    {
      var parent := ParentRow(cache, index, mix[..], i);
      RowFits(cache, parent);
      FnvHash(mix, RowOf(cache, parent));
      i := i + 1;
    }
  }

  method GenerateDatasetItem(H: Hashes, cache: Words, index: nat) returns (r: Words)
    requires RowCount(cache) > 0 && Sized(H)
    ensures r == Item(H, cache, index) && |r| == HASH_WORDS
  {
    hide Fnv, FnvAll, ToWord, Pick, Mixed;
    var rows := RowCount(cache);
    RowFits(cache, index % rows);
    var mix := RowOf(cache, index % rows);
    mix := mix[0 := mix[0] ^ ToWord(index)];
    assert mix == Start(cache, index);
    mix := H.keccak512(mix);
    var intMix := new Word[HASH_WORDS](i requires 0 <= i < HASH_WORDS => mix[i]);
    assert intMix[..] == mix;
    MixRows(cache, index, intMix);
    r := H.keccak512(intMix[..]);
  }

  // ----- The dataset

  /** Rows per worker. */
  function Batch(rows: nat, threads: nat): (r: nat)
    requires threads > 0
    ensures r * threads >= rows
  {
    var r := (rows + threads - 1) / threads;
    assert r * threads >= rows by { BatchCovers(rows, threads); }
    r
  }

  lemma BatchCovers(rows: nat, threads: nat)
    requires threads > 0
    ensures (rows + threads - 1) / threads * threads >= rows
  {
  }

  function First(rows: nat, threads: nat, id: nat): (r: nat)
    requires threads > 0
  {
    id * Batch(rows, threads)
  }

  function Limit(rows: nat, threads: nat, id: nat): (r: nat)
    requires threads > 0
  {
    var l := First(rows, threads, id) + Batch(rows, threads);
    if l > rows then rows else l
  }

  predicate InSegment(rows: nat, threads: nat, id: nat, row: nat)
    requires threads > 0
  {
    First(rows, threads, id) <= row < Limit(rows, threads, id)
  }

  /** The program computes with sizes in bytes; the number of rows per worker is the same. */
  lemma BatchInBytes(rows: nat, threads: nat)
    requires threads > 0
    ensures (rows * HASH_BYTES + HASH_BYTES * threads - 1) / (HASH_BYTES * threads) == Batch(rows, threads)
  {
    var b, t := Batch(rows, threads), threads;
    var n := rows * HASH_BYTES + HASH_BYTES * t - 1;
    var r := (rows + t - 1) % t;
    assert rows + t - 1 == b * t + r;
    assert n == (rows + t - 1) * HASH_BYTES + HASH_BYTES - 1;
    assert n == (HASH_BYTES * t) * b + (r * HASH_BYTES + HASH_BYTES - 1) by {
      assert (b * t + r) * HASH_BYTES == (HASH_BYTES * t) * b + r * HASH_BYTES;
    }
    assert r * HASH_BYTES + HASH_BYTES - 1 < HASH_BYTES * t by {
      assert (r + 1) * HASH_BYTES <= t * HASH_BYTES;
    }
    QuotientIs(n, HASH_BYTES * t, b, r * HASH_BYTES + HASH_BYTES - 1);
  }

  lemma QuotientIs(n: nat, d: nat, q: nat, r: nat)
    requires d > 0 && n == d * q + r && r < d
    ensures n / d == q
  {
    var k := n / d;
    assert n == d * k + n % d;
    if q > k {
      OneApart(d, k, q);
    } else if q < k {
      OneApart(d, q, k);
    }
  }

  lemma OneApart(d: nat, j: nat, k: nat)
    requires j < k
    ensures d * j + d <= d * k
  {
    AtLeastOnce(d, k - j);
    assert d * (k - j) == d * k - d * j;
  }

  lemma AtLeastOnce(d: nat, k: nat)
    requires k > 0
    ensures d * k >= d
  {
  }

  /** The worker that a row belongs to. */
  lemma SegmentExists(rows: nat, threads: nat, row: nat)
    requires threads > 0 && row < rows && Batch(rows, threads) > 0
    ensures var id := row / Batch(rows, threads); id < threads && InSegment(rows, threads, id, row)
  {
    var b := Batch(rows, threads);
    hide Batch;
    QuotientBelow(row, b, threads);
    assert row == b * (row / b) + row % b;
  }

  lemma QuotientBelow(row: nat, b: nat, threads: nat)
    requires b > 0 && row < b * threads
    ensures row / b < threads
  {
  }

  /** Every row is in the segment of exactly one worker. */
  lemma SegmentsPartition(rows: nat, threads: nat, row: nat)
    requires threads > 0 && row < rows
    ensures exists id :: 0 <= id < threads && InSegment(rows, threads, id, row)
    ensures forall i: nat, j: nat :: InSegment(rows, threads, i, row) && InSegment(rows, threads, j, row) ==> i == j
  {
    var b := Batch(rows, threads);
    SegmentExists(rows, threads, row);
    hide Batch;
    forall i: nat, j: nat | InSegment(rows, threads, i, row) && InSegment(rows, threads, j, row) ensures i == j {
      SegmentOf(row, b, i);
      SegmentOf(row, b, j);
    }
  }

  lemma SegmentOf(row: nat, b: nat, i: nat)
    requires b > 0 && i * b <= row < i * b + b
    ensures i == row / b
  {
    QuotientIs(row, b, i, row - i * b);
  }

  ghost predicate RowsFilled(H: Hashes, cache: Words, data: Words, lo: nat, hi: nat)
    requires RowCount(cache) > 0 && hi * HASH_WORDS <= |data|
  {
    forall r :: lo <= r < hi ==> RowOf(data, r) == Item(H, cache, r)
  }

  /** The words outside of some rows are as they were. */
  ghost predicate Elsewhere(was: Words, data: Words, lo: nat, hi: nat) {
    |data| == |was| && forall i :: 0 <= i < |was| && !(lo * HASH_WORDS <= i < hi * HASH_WORDS) ==> data[i] == was[i]
  }

  /** Writes one row of the dataset. */
  method WriteRow(dataset: array<Word>, row: nat, item: Words)
    requires |item| == HASH_WORDS && (row + 1) * HASH_WORDS <= dataset.Length
    modifies dataset
    ensures RowOf(dataset[..], row) == item
    ensures Elsewhere(old(dataset[..]), dataset[..], row, row + 1)
  {
    var base, i := row * HASH_WORDS, 0;
    while i < HASH_WORDS
      invariant 0 <= i <= HASH_WORDS
      invariant forall j :: 0 <= j < i ==> dataset[base + j] == item[j]
      invariant forall k :: 0 <= k < dataset.Length && !(base <= k < base + HASH_WORDS) ==>
        dataset[k] == old(dataset[k])
    {
      dataset[base + i] := item[i];
      i := i + 1;
    }
  }

  /** Rows that can be reached with a 32-bit offset in bytes. */
  const REACH: nat := 0x400_0000

  /** The row that the program writes for an index: the offset in bytes is a 32-bit number. */
  function RowWritten(index: nat): (r: nat) {
    index * HASH_BYTES % 0x1_0000_0000 / HASH_BYTES
  }

  /** Up to 2^32 bytes it is the right one, and not beyond. */
  lemma RowWrittenIsRight(index: nat)
    ensures RowWritten(index) == index % REACH
    ensures RowWritten(index) == index <==> index < REACH
  {
  }

  /** The last index in the range whose item is written to row `r`, or -1 if there is none. */
  function LastIn(lo: nat, hi: nat, r: nat): (i: int)
    ensures -1 <= i < hi
    ensures i >= 0 ==> lo <= i && RowWritten(i) == r
    ensures forall k: nat :: lo <= k < hi && RowWritten(k) == r ==> k <= i
  {
    if hi <= lo then -1 else if RowWritten(hi - 1) == r then hi - 1 else LastIn(lo, hi - 1, r)
  }

  /** The contents of row `r`: the item with index `i` if there is one, what was there otherwise. */
  ghost predicate Holds(H: Hashes, cache: Words, was: Words, data: Words, r: nat, i: int)
    requires RowCount(cache) > 0 && (r + 1) * HASH_WORDS <= |data| == |was|
  {
    RowOf(data, r) == if i >= 0 then Item(H, cache, i) else RowOf(was, r)
  }

  method FillRow(H: Hashes, cache: Words, dataset: array<Word>, rows: nat, index: nat)
    requires RowCount(cache) > 0 && Sized(H) && rows * HASH_WORDS == dataset.Length && index < rows
    modifies dataset
    ensures RowWritten(index) < rows && RowOf(dataset[..], RowWritten(index)) == Item(H, cache, index)
    ensures forall r :: 0 <= r < rows && r != RowWritten(index) ==> RowOf(dataset[..], r) == RowOf(old(dataset[..]), r)
  {
    hide Item, Elsewhere, RowWritten;
    ghost var was := dataset[..];
    var item := GenerateDatasetItem(H, cache, index);
    RowWrittenIsRight(index);
    var row := RowWritten(index);
    WriteRow(dataset, row, item);
    forall r | 0 <= r < rows && r != row ensures RowOf(dataset[..], r) == RowOf(was, r) {
    }
  }

  /** One worker goes through its segment: each row ends up with the last item written to it. */
  method FillSegment(H: Hashes, cache: Words, dataset: array<Word>, rows: nat, threads: nat, id: nat)
    requires RowCount(cache) > 0 && Sized(H) && threads > 0 && rows * HASH_WORDS == dataset.Length
    modifies dataset
    ensures forall r :: 0 <= r < rows ==>
      Holds(H, cache, old(dataset[..]), dataset[..], r, LastIn(First(rows, threads, id), Limit(rows, threads, id), r))
  {
    hide Item, RowWritten, First, RowOf;
    var first, limit := First(rows, threads, id), Limit(rows, threads, id);
    ghost var was := dataset[..];
    var index := first;
    while index < limit
      invariant first <= index && (index <= limit || index == first)
      invariant forall r :: 0 <= r < rows ==> Holds(H, cache, was, dataset[..], r, LastIn(first, index, r))
    {
      FillRow(H, cache, dataset, rows, index);
      index := index + 1;
    }
    assert forall r {:trigger LastIn(first, limit, r)} :: LastIn(first, limit, r) == LastIn(first, index, r);
  }

  /** The last index whose item is written to row `r` when the workers take turns. */
  function Latest(rows: nat, threads: nat, turns: seq<nat>, r: nat): (i: int)
    requires threads > 0
    ensures -1 <= i < rows
    ensures i >= 0 ==> RowWritten(i) == r
  {
    if turns == [] then -1
    else
      var id := turns[|turns| - 1];
      var i := LastIn(First(rows, threads, id), Limit(rows, threads, id), r);
      if i >= 0 then i else Latest(rows, threads, turns[..|turns| - 1], r)
  }

  /** If every worker has its turn, every index is written. */
  lemma {:induction false} LatestCovers(rows: nat, threads: nat, turns: seq<nat>, r: nat, k: nat, id: nat)
    requires threads > 0 && k < rows && RowWritten(k) == r && InSegment(rows, threads, id, k) && id in turns
    ensures Latest(rows, threads, turns, r) >= 0
  {
    hide RowWritten, First, Limit;
    var init := turns[..|turns| - 1];
    if turns[|turns| - 1] != id {
      assert id in init;
      LatestCovers(rows, threads, init, r, k, id);
    }
  }

  /** Up to 2^32 bytes each row holds its own item, whatever the order; rows beyond are never
      written; and of all items meant for rows that are the same 32-bit offset, one stays. */
  lemma LatestIs(rows: nat, threads: nat, turns: seq<nat>, r: nat)
    requires threads > 0 && r < rows && forall id :: 0 <= id < threads ==> id in turns
    ensures r < REACH <==> Latest(rows, threads, turns, r) >= 0
    ensures r < REACH ==> Latest(rows, threads, turns, r) % REACH == r
    ensures rows <= REACH ==> Latest(rows, threads, turns, r) == r
  {
    hide RowWritten, First, Limit;
    var i := Latest(rows, threads, turns, r);
    if i >= 0 {
      RowWrittenIsRight(i);
    }
    if r < REACH {
      RowWrittenIsRight(r);
      SegmentsPartition(rows, threads, r);
      var id :| 0 <= id < threads && InSegment(rows, threads, id, r);
      LatestCovers(rows, threads, turns, r, r, id);
    }
  }

  /** A single worker overwrites each low row with the items for the rows 2^26 further on. */
  lemma LowRowsAreOverwritten(rows: nat, r: nat)
    requires r < REACH && r + REACH < rows
    ensures Latest(rows, 1, [0], r) >= r + REACH
  {
    RowWrittenIsRight(r + REACH);
    assert RowWritten(r + REACH) == r;
    hide RowWritten;
    assert First(rows, 1, 0) == 0 && Limit(rows, 1, 0) == rows;
    assert LastIn(0, rows, r) >= r + REACH;
  }

  /** Fills the dataset from the cache. `turns` is the order in which the workers are scheduled, and
      there are at least 100 rows: progress is reported by a hundredth of them. Up to 2^32 bytes the
      dataset is right; beyond that the rows from 2^26 on are never written, and lower ones may hold
      the items of higher ones. */
  method GenerateDataset(H: Hashes, cache: Words, dataset: array<Word>, rows: nat, threads: nat, turns: seq<nat>)
    requires RowCount(cache) > 0 && Sized(H) && threads > 0 && rows * HASH_WORDS == dataset.Length
    requires 100 <= rows
    requires forall id :: 0 <= id < threads ==> id in turns
    modifies dataset
    ensures forall r :: 0 <= r < rows ==>
      Holds(H, cache, old(dataset[..]), dataset[..], r, Latest(rows, threads, turns, r))
    ensures forall r :: REACH <= r < rows ==> RowOf(dataset[..], r) == RowOf(old(dataset[..]), r)
    ensures rows <= REACH ==> RowsFilled(H, cache, dataset[..], 0, rows)
  {
    hide Item, First, Limit, RowOf;
    ghost var was := dataset[..];
    var k := 0;
    assert turns[..0] == [];
    while k < |turns|
      invariant k <= |turns|
      invariant forall r :: 0 <= r < rows ==> Holds(H, cache, was, dataset[..], r, Latest(rows, threads, turns[..k], r))
    {
      assert turns[..k + 1][..k] == turns[..k];
      FillSegment(H, cache, dataset, rows, threads, turns[k]);
      k := k + 1;
    }
    assert turns[..k] == turns;
    forall r | 0 <= r < rows
      ensures rows <= REACH ==> RowOf(dataset[..], r) == Item(H, cache, r)
      ensures r >= REACH ==> RowOf(dataset[..], r) == RowOf(was, r)
    {
      LatestIs(rows, threads, turns, r);
    }
  }

  // ----- Hashimoto

  /** A way to look up dataset items. */
  type Rows = nat -> Words

  /** Two items next to each other; indices are 32-bit numbers. */
  function Gather(lookup: Rows, parent: nat): (r: Words) {
    lookup(2 * parent % 0x1_0000_0000) + lookup((2 * parent + 1) % 0x1_0000_0000)
  }

  /** The number of pages in a dataset, a 32-bit number as well. */
  function Pages(size: nat): (r: nat) {
    size / MIX_BYTES % 0x1_0000_0000
  }

  /** Below 2^31 the two items are those the page names; from there on the 32-bit indices start over. */
  lemma GatherIs(lookup: Rows, parent: nat)
    requires parent < 4294967296
    ensures
      var first := if parent < 2147483648 then 2 * parent else 2 * parent - 4294967296;
      Gather(lookup, parent) == lookup(first) + lookup(first + 1)
  {
  }

  /** A dataset of less than 2^39 bytes has as many pages as it should; one larger by that has no more. */
  lemma PagesAre(size: nat)
    ensures size < 549755813888 ==> Pages(size) == size / 128
    ensures Pages(size + 549755813888) == Pages(size)
  {
    assert (size + 549755813888) / MIX_BYTES == size / MIX_BYTES + 4294967296;
  }

  /** The mix after `n` accesses to the dataset. */
  function Accessed(seed: Words, pages: nat, lookup: Rows, n: nat): (r: Words)
    requires pages > 0 && |seed| == HASH_WORDS
    ensures |r| == MIX_WORDS
  {
    if n == 0 then seed + seed
    else
      var mix := Accessed(seed, pages, lookup, n - 1);
      var data := Gather(lookup, AccessRow(seed, pages, mix, n - 1));
      if |data| == MIX_WORDS then FnvAll(mix, data) else mix
  }

  function AccessRow(seed: Words, pages: nat, mix: Words, i: nat): (r: nat)
    requires pages > 0 && |seed| == HASH_WORDS && |mix| == MIX_WORDS
    ensures r < pages
  {
    Pick(Fnv(ToWord(i) ^ seed[0], mix[i % MIX_WORDS]), pages)
  }

  function Fold(a: Word, b: Word, c: Word, d: Word): (r: Word) {
    Fnv(Fnv(Fnv(a, b), c), d)
  }

  /** The `i`-th group of four words, folded into one. */
  function FoldAt(mix: Words, i: nat): (r: Word)
    requires 4 * i + 3 < |mix|
  {
    Fold(mix[4 * i], mix[4 * i + 1], mix[4 * i + 2], mix[4 * i + 3])
  }

  function Compressed(mix: Words): (r: Words)
    requires |mix| % 4 == 0
    ensures |r| == |mix| / 4
    ensures forall i :: 0 <= i < |r| ==> r[i] == FoldAt(mix, i)
  {
    if mix == [] then [] else Compressed(mix[..|mix| - 4]) + [FoldAt(mix, |mix| / 4 - 1)]
  }

  /** Digest and result for a header hash and nonce. */
  function HashimotoOf(H: Hashes, hash: Bytes, nonce: nat, size: nat, lookup: Rows): (r: (Words, nat))
    requires Pages(size) > 0
  {
    var seed := H.seed(hash, nonce);
    if |seed| != HASH_WORDS then ([], 0)
    else
      var digest := Compressed(Accessed(seed, Pages(size), lookup, 64));
      (digest, H.result(seed, digest))
  }

  /** Lookups that agree on all items of the dataset give the same outcome. */
  lemma {:induction false} SameAccess(seed: Words, pages: nat, f: Rows, g: Rows, n: nat)
    requires pages > 0 && |seed| == HASH_WORDS && forall i :: 0 <= i < 2 * pages ==> f(i) == g(i)
    ensures Accessed(seed, pages, f, n) == Accessed(seed, pages, g, n)
  {
    hide AccessRow, FnvAll, Gather;
    if n > 0 {
      SameAccess(seed, pages, f, g, n - 1);
      SamePage(f, g, AccessRow(seed, pages, Accessed(seed, pages, f, n - 1), n - 1), pages);
    }
  }

  lemma SamePage(f: Rows, g: Rows, page: nat, pages: nat)
    requires page < pages && forall i :: 0 <= i < 2 * pages ==> f(i) == g(i)
    ensures Gather(f, page) == Gather(g, page)
  {
  }

  lemma GatheredSize(lookup: Rows, page: nat, pages: nat)
    requires page < pages && forall i :: 0 <= i < 2 * pages ==> |lookup(i)| == HASH_WORDS
    ensures |Gather(lookup, page)| == MIX_WORDS
  {
  }

  method Hashimoto(H: Hashes, hash: Bytes, nonce: nat, size: nat, lookup: Rows) returns (digest: Words, result: nat)
    requires Sized(H) && Pages(size) > 0
    requires forall i :: 0 <= i < 2 * Pages(size) ==> |lookup(i)| == HASH_WORDS
    ensures (digest, result) == HashimotoOf(H, hash, nonce, size, lookup)
  {
    hide Accessed, Compressed;
    var seed := H.seed(hash, nonce);
    var mix := new Word[MIX_WORDS](i requires 0 <= i < MIX_WORDS => seed[i % HASH_WORDS]);
    assert mix[..] == seed + seed;
    AccessAll(mix, seed, Pages(size), lookup);
    Compress(mix);
    digest := mix[..MIX_WORDS / 4];
    result := H.result(seed, digest);
  }

  /** Mixes dataset items into the buffer, in place. */
  method AccessAll(mix: array<Word>, seed: Words, pages: nat, lookup: Rows)
    requires pages > 0 && |seed| == HASH_WORDS && mix.Length == MIX_WORDS && mix[..] == seed + seed
    requires forall i :: 0 <= i < 2 * pages ==> |lookup(i)| == HASH_WORDS
    modifies mix
    ensures mix[..] == Accessed(seed, pages, lookup, LOOP_ACCESSES)
  {
    hide FnvAll, AccessRow;
    var i := 0;
    while i < LOOP_ACCESSES
      invariant i <= LOOP_ACCESSES && mix[..] == Accessed(seed, pages, lookup, i)
    {
      var parent := AccessRow(seed, pages, mix[..], i);
      GatheredSize(lookup, parent, pages);
      FnvHash(mix, Gather(lookup, parent));
      i := i + 1;
    }
  }

  /** Folds each four words into one, in place. */
  method Compress(mix: array<Word>)
    requires mix.Length == MIX_WORDS
    modifies mix
    ensures mix[..MIX_WORDS / 4] == Compressed(old(mix[..]))
  {
    hide Fold;
    ghost var was := mix[..];
    var i := 0;
    while i < MIX_WORDS / 4
      invariant i <= MIX_WORDS / 4
      invariant forall j :: 0 <= j < i ==> mix[j] == FoldAt(was, j)
      invariant forall j :: 4 * i <= j < MIX_WORDS ==> mix[j] == was[j]
    {
      mix[i] := Fold(mix[4 * i], mix[4 * i + 1], mix[4 * i + 2], mix[4 * i + 3]);
      assert mix[i] == FoldAt(was, i);
      i := i + 1;
    }
  }

  // ----- Light and full evaluation

  /** Items computed from the cache. */
  function FromCache(H: Hashes, cache: Words): (r: Rows)
    requires RowCount(cache) > 0
  {
    (i: nat) => Item(H, cache, i)
  }

  /** Items read from the dataset, at an offset in words that is a 32-bit number. */
  function FromDataset(data: Words): (r: Rows) {
    (i: nat) =>
      var at := i * HASH_WORDS % 0x1_0000_0000;
      if at + HASH_WORDS <= |data| then data[at..at + HASH_WORDS] else []
  }

  /** Up to 2^28 rows the right item is read; beyond that the offset starts over. */
  lemma RowRead(data: Words, i: nat)
    requires (i + 1) * HASH_WORDS <= |data|
    ensures FromDataset(data)(i) == RowOf(data, i % 0x1000_0000)
  {
    var at := i * HASH_WORDS % 0x1_0000_0000;
    assert at == (i % 0x1000_0000) * HASH_WORDS && at + HASH_WORDS <= |data|;
  }

  method HashimotoLight(H: Hashes, size: nat, cache: Words, hash: Bytes, nonce: nat) returns (digest: Words,
                                                                                              result: nat)
    requires Sized(H) && RowCount(cache) > 0 && Pages(size) > 0
    ensures (digest, result) == HashimotoOf(H, hash, nonce, size, FromCache(H, cache))
  {
    digest, result := Hashimoto(H, hash, nonce, size, FromCache(H, cache));
  }

  method HashimotoFull(H: Hashes, data: Words, hash: Bytes, nonce: nat) returns (digest: Words, result: nat)
    requires Sized(H) && Pages(|data| * 4) > 0
    ensures (digest, result) == HashimotoOf(H, hash, nonce, |data| * 4, FromDataset(data))
  {
    forall i | 0 <= i < 2 * Pages(|data| * 4) ensures |FromDataset(data)(i)| == HASH_WORDS {
      RowRead(data, i);
    }
    digest, result := Hashimoto(H, hash, nonce, |data| * 4, FromDataset(data));
  }

  lemma SameRow(H: Hashes, cache: Words, data: Words, rows: nat, i: nat)
    requires RowCount(cache) > 0 && |data| == rows * HASH_WORDS && i < rows <= DATASET_LIMIT / HASH_BYTES
    requires RowsFilled(H, cache, data, 0, rows)
    ensures FromDataset(data)(i) == FromCache(H, cache)(i)
  {
    hide Item, FromDataset, RowOf;
    RowRead(data, i);
    assert i % 0x1000_0000 == i;
  }

  /** The number of bytes up to which 32 bits are enough to find any row: 2^28 rows. */
  const DATASET_LIMIT: nat := 0x4_0000_0000

  lemma PagesThere(data: Words, rows: nat)
    requires |data| == rows * HASH_WORDS && 2 <= rows <= DATASET_LIMIT / HASH_BYTES
    ensures |data| * 4 == rows * HASH_BYTES && 0 < 2 * Pages(rows * HASH_BYTES) <= rows
  {
  }

  /** On a dataset filled from the cache, both evaluations agree for every header hash and nonce. */
  lemma LightIsFull(H: Hashes, cache: Words, data: Words, rows: nat, hash: Bytes, nonce: nat)
    requires Sized(H) && RowCount(cache) > 0 && |data| == rows * HASH_WORDS && 2 <= rows <= DATASET_LIMIT / HASH_BYTES
    requires RowsFilled(H, cache, data, 0, rows)
    ensures Pages(|data| * 4) > 0 && Pages(rows * HASH_BYTES) > 0
    ensures HashimotoOf(H, hash, nonce, |data| * 4, FromDataset(data)) ==
            HashimotoOf(H, hash, nonce, rows * HASH_BYTES, FromCache(H, cache))
  {
    PagesThere(data, rows);
    hide Accessed, Compressed, RowsFilled, Pages;
    var f, g, pages := FromDataset(data), FromCache(H, cache), Pages(rows * HASH_BYTES);
    forall i | 0 <= i < 2 * pages ensures f(i) == g(i) {
      SameRow(H, cache, data, rows, i);
    }
    SameAccess(H.seed(hash, nonce), pages, f, g, LOOP_ACCESSES);
  }

  // ----- Sealing

  const TWO_256: int := 0x1_0000000000000000_0000000000000000_0000000000000000_0000000000000000

  function TwoTo(n: nat): (r: nat) {
    if n == 0 then 1 else 2 * TwoTo(n - 1)
  }

  lemma {:induction false} TwoToSum(m: nat, n: nat)
    ensures TwoTo(m + n) == TwoTo(m) * TwoTo(n)
  {
    if m == 0 {
    } else {
      TwoToSum(m - 1, n);
      assert 2 * (TwoTo(m - 1) * TwoTo(n)) == (2 * TwoTo(m - 1)) * TwoTo(n);
    }
  }

  lemma TwoToOne()
    ensures TwoTo(1) == 2
  {
  }

  /** The numerator of the target is 2 to the power of 256. */
  lemma NumeratorIs()
    ensures TWO_256 == TwoTo(256)
  {
    hide TwoTo;
    TwoToOne();
    TwoToSum(1, 1);
    TwoToSum(2, 2);
    TwoToSum(4, 4);
    TwoToSum(8, 8);
    TwoToSum(16, 16);
    TwoToSum(32, 32);
    TwoToSum(64, 64);
    TwoToSum(128, 128);
  }

  /** What matters of a header: the hash without the seal, the difficulty, and the seal. */
  datatype Header = Header(hash: Bytes, difficulty: int, nonce: nat, mixDigest: Words)

  datatype SealError = InvalidDifficulty | InvalidMixDigest | InvalidPoW

  /** A result is at most the target exactly if its product with the difficulty is at most 2^256. */
  lemma TargetIs(result: nat, difficulty: int)
    requires difficulty > 0
    ensures result <= TWO_256 / difficulty <==> result * difficulty <= TWO_256
  {
    AtMostQuotient(TWO_256, difficulty, result);
  }

  lemma AtMostQuotient(n: nat, d: nat, x: nat)
    requires d > 0
    ensures x <= n / d <==> x * d <= n
  {
    var q := n / d;
    assert n == q * d + n % d;
    if x <= q {
      Monotonic(x, q, d);
    } else {
      Monotonic(q + 1, x, d);
      assert (q + 1) * d == q * d + d;
    }
  }

  lemma Monotonic(a: nat, b: nat, d: nat)
    requires a <= b
    ensures a * d <= b * d
  {
  }

  /** Verifies a seal, from the full dataset if there is one and from the cache otherwise. The seal is
      good exactly if the difficulty is positive, the mix digest is the one computed and the result is
      at most 2^256 divided by the difficulty; an error names the first of these that fails. */
  method VerifySeal(H: Hashes, header: Header, cache: Words, rows: nat, dataset: Option<Words>)
    returns (r: Option<SealError>)
    requires Sized(H) && RowCount(cache) > 0 && Pages(rows * HASH_BYTES) > 0
    requires dataset.Some? ==> rows <= DATASET_LIMIT / HASH_BYTES && |dataset.value| == rows * HASH_WORDS
    requires dataset.Some? ==> RowsFilled(H, cache, dataset.value, 0, rows)
    ensures
      var (digest, result) := HashimotoOf(H, header.hash, header.nonce, rows * HASH_BYTES, FromCache(H, cache));
      && (r == None <==>
            header.difficulty > 0 && header.mixDigest == digest && result * header.difficulty <= TWO_256)
      && (r == Some(InvalidDifficulty) <==> header.difficulty <= 0)
      && (r == Some(InvalidMixDigest) <==> header.difficulty > 0 && header.mixDigest != digest)
      && (r == Some(InvalidPoW) <==>
            header.difficulty > 0 && header.mixDigest == digest && result * header.difficulty > TWO_256)
  {
    hide HashimotoOf;
    if header.difficulty <= 0 {
      return Some(InvalidDifficulty);
    }
    var digest, result;
    if dataset.Some? {
      LightIsFull(H, cache, dataset.value, rows, header.hash, header.nonce);
      digest, result := HashimotoFull(H, dataset.value, header.hash, header.nonce);
    } else {
      digest, result := HashimotoLight(H, rows * HASH_BYTES, cache, header.hash, header.nonce);
    }
    TargetIs(result, header.difficulty);
    if header.mixDigest != digest {
      return Some(InvalidMixDigest);
    }
    if result > TWO_256 / header.difficulty {
      return Some(InvalidPoW);
    }
    return None;
  }

  /** The nonce that is tried after `i` others; nonces are 64-bit numbers. */
  function NonceAt(seed: nat, i: nat): (r: nat) {
    (seed + i) % 0x1_0000_0000_0000_0000
  }

  /** A nonce whose result meets the target of the block. */
  ghost predicate Good(H: Hashes, block: Header, data: Words, nonce: nat)
    requires Pages(|data| * 4) > 0 && block.difficulty != 0
  {
    HashimotoOf(H, block.hash, nonce, |data| * 4, FromDataset(data)).1 <= Target(block)
  }

  function Target(block: Header): (r: int)
    requires block.difficulty != 0
  {
    TWO_256 / block.difficulty
  }

  lemma NextNonce(seed: nat, i: nat)
    ensures NonceAt(seed, i + 1) == (NonceAt(seed, i) + 1) % 0x1_0000_0000_0000_0000
    ensures seed < 0x1_0000_0000_0000_0000 ==> NonceAt(seed, 0) == seed
  {
  }

  /** Tries nonces from a seed on until one is good or, after `attempts` of them, mining is aborted. The
      first good one is found, and none only if none of those tried is good. */
  method Mine(H: Hashes, block: Header, data: Words, seed: nat, attempts: nat) returns (found: Option<Header>)
    requires Sized(H) && Pages(|data| * 4) > 0 && block.difficulty != 0 && seed < 0x1_0000_0000_0000_0000
    ensures found.None? ==> forall i :: 0 <= i < attempts ==> !Good(H, block, data, NonceAt(seed, i))
    ensures found.Some? ==> exists k ::
      && 0 <= k < attempts && found.value.nonce == NonceAt(seed, k) && Good(H, block, data, NonceAt(seed, k))
      && forall i :: 0 <= i < k ==> !Good(H, block, data, NonceAt(seed, i))
    ensures found.Some? ==>
      var d := HashimotoOf(H, block.hash, found.value.nonce, |data| * 4, FromDataset(data));
      found.value == block.(nonce := found.value.nonce, mixDigest := d.0)
  {
    hide HashimotoOf, NonceAt, Target, FromDataset, Pages;
    var nonce, i := seed, 0;
    var target := Target(block);
    NextNonce(seed, 0);
    while i < attempts
      invariant i <= attempts && nonce == NonceAt(seed, i)
      invariant forall j :: 0 <= j < i ==> !Good(H, block, data, NonceAt(seed, j))
    {
      var digest, result := HashimotoFull(H, data, block.hash, nonce);
      if result <= target {
        assert Good(H, block, data, NonceAt(seed, i));
        return Some(block.(nonce := nonce, mixDigest := digest));
      }
      NextNonce(seed, i);
      nonce, i := (nonce + 1) % 0x1_0000_0000_0000_0000, i + 1;
    }
    return None;
  }

  lemma NegativeTarget(block: Header)
    requires -TWO_256 <= block.difficulty < 0
    ensures Target(block) < 0
  {
    var d := block.difficulty;
    assert TWO_256 == d * (TWO_256 / d) + TWO_256 % d && TWO_256 % d < -d;
  }

  /** Any seal found by mining passes verification if the difficulty is positive, and only then. With a
      negative one nothing is found unless it is below minus 2^256. */
  method MineThenVerify(H: Hashes, block: Header, cache: Words, data: Words, rows: nat, seed: nat, attempts: nat,
                        full: bool)
    returns (found: Option<Header>, r: Option<SealError>)
    requires Sized(H) && RowCount(cache) > 0 && 2 <= rows <= DATASET_LIMIT / HASH_BYTES && block.difficulty != 0
    requires |data| == rows * HASH_WORDS && RowsFilled(H, cache, data, 0, rows) && seed < 0x1_0000_0000_0000_0000
    ensures found.Some? ==> (r == None <==> block.difficulty > 0)
    ensures found.Some? ==> block.difficulty > 0 || block.difficulty < -TWO_256
    ensures found.None? ==> forall i :: 0 <= i < attempts ==> !Good(H, block, data, NonceAt(seed, i))
  {
    hide HashimotoOf, RowsFilled;
    found := Mine(H, block, data, seed, attempts);
    r := None;
    if found.Some? {
      assert Good(H, block, data, found.value.nonce);
      if -TWO_256 <= block.difficulty < 0 {
        NegativeTarget(block);
      }
      LightIsFull(H, cache, data, rows, block.hash, found.value.nonce);
      if block.difficulty > 0 {
        TargetIs(HashimotoOf(H, block.hash, found.value.nonce, |data| * 4, FromDataset(data)).1, block.difficulty);
      }
      r := VerifySeal(H, found.value, cache, rows, if full then Some(data) else None);
    }
  }

  /** From the cache to a verified seal: on a dataset of at most 2^32 bytes that the workers have
      filled in any order, every seal that is found passes, from the dataset and from the cache. */
  method SealAndVerify(H: Hashes, block: Header, cache: Words, rows: nat, threads: nat, turns: seq<nat>, seed: nat,
                       attempts: nat, full: bool)
    returns (found: Option<Header>, r: Option<SealError>)
    requires Sized(H) && RowCount(cache) > 0 && 100 <= rows <= REACH && block.difficulty > 0
    requires threads > 0 && (forall id :: 0 <= id < threads ==> id in turns) && seed < 0x1_0000_0000_0000_0000
    ensures found.Some? ==> r == None
  {
    hide RowsFilled, Holds;
    var dataset := new Word[rows * HASH_WORDS](i => 0);
    GenerateDataset(H, cache, dataset, rows, threads, turns);
    found, r := MineThenVerify(H, block, cache, dataset[..], rows, seed, attempts, full);
  }
}
