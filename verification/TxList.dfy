/** Nonce-sorted transaction maps and the lists made of them (core/tx_list.go). */
module TxList {

  import opened Common
  import opened TxSpec

  // ----- The nonce heap

  /** `h` holds the nonces in `keys`, each once, the lowest first. */
  ghost predicate Heap(h: seq<nat>, keys: set<nat>) {
    && (forall i, j :: 0 <= i < j < |h| ==> h[i] != h[j])
    && (forall k :: k in h <==> k in keys)
    && (forall i :: 0 <= i < |h| ==> h[0] <= h[i])
  }

  /** Makes a heap of distinct nonces: brings the lowest to the front. */
  method HeapInit(s: seq<nat>, ghost keys: set<nat>) returns (h: seq<nat>)
    requires forall i, j :: 0 <= i < j < |s| ==> s[i] != s[j]
    requires forall k :: k in s <==> k in keys
    ensures Heap(h, keys)
  {
    if s == [] {
      return s;
    }
    var low, i := 0, 1;
    while i < |s|
      invariant low < i <= |s|
      invariant forall j :: 0 <= j < i ==> s[low] <= s[j]
    {
      if s[i] < s[low] {
        low := i;
      }
      i := i + 1;
    }
    h := s[0 := s[low]][low := s[0]];
    forall k ensures k in h <==> k in s {
      if k in s {
        var j :| 0 <= j < |s| && s[j] == k;
        assert h[if j == 0 then low else if j == low then 0 else j] == k;
      }
    }
  }

  method HeapPush(h: seq<nat>, x: nat, ghost keys: set<nat>) returns (r: seq<nat>)
    requires Heap(h, keys) && x !in keys
    ensures Heap(r, keys + {x})
  {
    r := HeapInit(h + [x], keys + {x});
  }

  method HeapPop(h: seq<nat>, ghost keys: set<nat>) returns (x: nat, r: seq<nat>)
    requires Heap(h, keys) && h != []
    ensures x == h[0] && Heap(r, keys - {x})
  {
    x := h[0];
    assert h == [x] + h[1..];
    r := HeapInit(h[1..], keys - {x});
  }

  /** Removes the nonce at position `i`. */
  method HeapRemove(h: seq<nat>, i: nat, ghost keys: set<nat>) returns (r: seq<nat>)
    requires Heap(h, keys) && i < |h|
    ensures Heap(r, keys - {h[i]})
  {
    var s := h[..i] + h[i + 1..];
    forall k ensures k in s <==> k in h && k != h[i] {
      if k in h && k != h[i] {
        var j :| 0 <= j < |h| && h[j] == k;
        assert s[if j < i then j else j - 1] == k;
      }
    }
    r := HeapInit(s, keys - {h[i]});
  }

  ghost predicate Ascending(s: seq<nat>, keys: set<nat>) {
    && (forall i, j :: 0 <= i < j < |s| ==> s[i] < s[j])
    && (forall k :: k in s <==> k in keys)
  }

  /** Sorts distinct nonces. */
  method Sorted(h: seq<nat>, ghost keys: set<nat>) returns (s: seq<nat>)
    requires Heap(h, keys)
    ensures Ascending(s, keys)
  {
    s := [];
    var rest := h;
    ghost var left := keys;
    while rest != []
      invariant Heap(rest, left) && left <= keys
      invariant forall i, j :: 0 <= i < j < |s| ==> s[i] < s[j]
      invariant forall i, k :: 0 <= i < |s| && k in left ==> s[i] < k
      invariant forall k :: k in s <==> k in keys && k !in left
      decreases |left|
    {
      var x;
      ghost var before := left;
      x, rest := HeapPop(rest, left);
      left := left - {x};
      s := s + [x];
    }
  }

  // ----- The sorted map

  /** Transactions by nonce, with a heap of the nonces and at times a sorted listing. */
  class SortedMap {
    var items: Txs
    var index: seq<nat>
    var cache: Option<seq<Tx>>

    /** The heap holds exactly the nonces of the map, and a listing that is kept is right. */
    ghost predicate Valid()
      reads this
    {
      && Filed(items)
      && Heap(index, items.Keys)
      && (cache.Some? ==> Flat(cache.value, items))
    }

    constructor ()
      ensures Valid() && items == map[]
    {
      items, index, cache := map[], [], None;
    }

    /** Files a transaction under its nonce, in place of one that is there. */
    method Put(tx: Tx)
      requires Valid()
      modifies this
      ensures items == old(items)[tx.nonce := tx]
      ensures Valid()
    {
      if tx.nonce !in items {
        index := HeapPush(index, tx.nonce, items.Keys);
      }
      items, cache := items[tx.nonce := tx], None;
      assert items.Keys == old(items.Keys) + {tx.nonce};
    }

    /** Removes all transactions below a nonce and lists them in order. */
    method Forward(threshold: nat) returns (removed: seq<Tx>)
      requires Valid()
      modifies this
      ensures items == From(old(items), threshold)
      ensures Flat(removed, Below(old(items), threshold))
      ensures Valid()
    {
      hide Flat, Heap, From, Below, Filed;
      FiledFrom(items, threshold);
      removed := PopBelow(threshold);
      if cache.Some? {
        FlatSize(removed, Below(old(items), threshold));
        FlatSplit(cache.value, old(items), threshold);
        cache := Some(cache.value[|removed|..]);
      }
    }

    method PopBelow(threshold: nat) returns (removed: seq<Tx>)
      requires Filed(items) && Heap(index, items.Keys)
      modifies this`items, this`index
      ensures items == From(old(items), threshold)
      ensures Flat(removed, Below(old(items), threshold))
      ensures Heap(index, items.Keys)
    {
      hide Flat, Heap, From, Below, Filed;
      ghost var m, cut: nat := items, 0;
      removed := [];
      FlatNone(m);
      while |index| > 0 && index[0] < threshold
        invariant cut <= threshold
        invariant items == From(m, cut) && Heap(index, items.Keys)
        invariant Flat(removed, Below(m, cut))
        decreases |items|
      {
        var nonce := index[0];
        HeapLowest(index, items);
        CutStep(m, cut, nonce, removed);
        nonce, index := HeapPop(index, items.Keys);
        removed := removed + [items[nonce]];
        items := items - {nonce};
        cut := nonce + 1;
      }
      HeapBound(index, items, threshold);
      CutEnd(m, cut, threshold);
    }

    /** Removes the transactions that `p` picks. If there are any, heap and listing start anew. */
    method Filter(p: Tx -> bool) returns (removed: seq<Tx>)
      requires Valid()
      modifies this
      ensures items == Spared(old(items), p)
      ensures Lists(removed, Chosen(old(items), p))
      ensures Valid()
    {
      hide Heap, Flat;
      removed := Pick(items, p);
      ghost var m := items;
      items := Spared(items, p);
      if |removed| > 0 {
        index := Nonces(items);
        cache := None;
      } else {
        assert Chosen(m, p) == map[];
        assert forall k :: k in m ==> k !in Chosen(m, p);
        assert items == m;
      }
    }

    /** Keeps at most `threshold` transactions, those of the lowest nonces. */
    method Cap(threshold: nat) returns (drops: seq<Tx>)
      requires Valid()
      modifies this
      ensures items == Capped(old(items), threshold)
      ensures CutOff(drops, old(items), items)
      ensures Valid()
    {
      hide Flat, Heap, CutOff, Filed;
      if |items| <= threshold {
        CutOffNone(items);
        return [];
      }
      drops := CutDown(threshold);
      CappedFiled(old(items), threshold);
      if cache.Some? {
        FlatCapped(cache.value, old(items), threshold);
        CutOffSize(drops, old(items), items);
        cache := Some(cache.value[..|cache.value| - |drops|]);
      }
    }

    method CutDown(threshold: nat) returns (drops: seq<Tx>)
      requires Filed(items) && Heap(index, items.Keys) && |items| > threshold
      modifies this`items, this`index
      ensures items == Capped(old(items), threshold)
      ensures CutOff(drops, old(items), items)
      ensures Heap(index, items.Keys)
    {
      hide Heap, CutOff, Filed, Prefix, Ascending, Capped, Cutting;
      ghost var m := items;
      drops := [];
      var nonces := Sorted(index, items.Keys);
      CuttingStart(nonces, items, threshold);
      var size := |items|;
      while size > threshold
        invariant threshold <= size <= |nonces| && Cutting(drops, nonces, size, items, m, threshold)
      {
        CuttingStep(drops, nonces, size, items, m, threshold);
        var n := nonces[size - 1];
        drops := drops + [items[n]];
        items := items - {n};
        size := size - 1;
      }
      CuttingEnd(drops, nonces, items, m, threshold);
      index := MakeHeap(nonces, size, items, m);
    }

    /** Removes the transaction with the given nonce, if there is one. */
    method Remove(nonce: nat) returns (found: bool)
      requires Valid()
      modifies this
      ensures found <==> nonce in old(items)
      ensures items == old(items) - {nonce}
      ensures Valid()
    {
      hide Flat;
      found := nonce in items;
      if found {
        var i := 0;
        assert nonce in index;
        while index[i] != nonce
          invariant i < |index| && forall j :: 0 <= j < i ==> index[j] != nonce
          decreases |index| - i
        {
          i := i + 1;
        }
        hide Heap;
        index := HeapRemove(index, i, items.Keys);
        items, cache := items - {nonce}, None;
      }
    }

    /** Takes out the run of nonces that starts at the lowest one, if that is not above `start`. */
    method Ready(start: nat) returns (ready: seq<Tx>)
      requires Valid()
      modifies this
      ensures Flat(ready, Below(old(items), ReadyEnd(old(items), start)))
      ensures items == From(old(items), ReadyEnd(old(items), start))
      ensures Valid()
    {
      hide Flat, Heap, From, Below, ReadyEnd, RunOf;
      if |index| == 0 || index[0] > start {
        NotReady(index, items, start);
        FlatNone(items);
        return [];
      }
      HeapLowest(index, items);
      ghost var lo := index[0];
      ghost var end;
      ready, end := PopRun(start);
      FiledFrom(old(items), end);
      RunIsFlat(ready, old(items), lo, end);
      cache := None;
    }

    method PopRun(start: nat) returns (ready: seq<Tx>, ghost end: nat)
      requires Filed(items) && Heap(index, items.Keys) && |index| > 0 && index[0] <= start
      modifies this`items, this`index
      ensures end == ReadyEnd(old(items), start)
      ensures RunOf(ready, old(items), old(index[0]), end)
      ensures items == From(old(items), end) && Heap(index, items.Keys)
    {
      hide Flat, Heap, From, Below, ReadyEnd, Filed, RunOf;
      ghost var m, lo := items, index[0];
      HeapLowest(index, items);
      var next := index[0];
      ready := [];
      RunStart(m, lo);
      while |index| > 0 && index[0] == next
        invariant RunOf(ready, m, lo, next)
        invariant items == From(m, next) && Heap(index, items.Keys)
        decreases |items|
      {
        HeapLowest(index, items);
        RunStep(ready, m, lo, next);
        ready := ready + [items[next]];
        items := items - {next};
        var x;
        x, index := HeapPop(index, From(m, next).Keys);
        next := next + 1;
      }
      end := next;
      NextGone(index, m, next);
      RunStops(ready, m, lo, next, start);
    }

    /** The transactions in the order of nonces; the listing is kept for the next time. */
    method Flatten() returns (txs: seq<Tx>)
      requires Valid()
      modifies this`cache
      ensures Flat(txs, items) && forall s :: Flat(s, items) ==> s == txs
      ensures Valid()
    {
      hide Flat, Heap, Filed;
      if cache.None? {
        var nonces := Sorted(index, items.Keys);
        var listing := Listing(nonces, items);
        cache := Some(listing);
      }
      txs := cache.value;
      forall s | Flat(s, items) ensures s == txs {
        FlatUnique(s, txs, items);
      }
    }
  }

  method Listing(nonces: seq<nat>, m: Txs) returns (s: seq<Tx>)
    requires Ascending(nonces, m.Keys) && Filed(m)
    ensures Flat(s, m)
  {
    s := [];
    var i := 0;
    while i < |nonces|
      invariant i <= |nonces| == |s| + |nonces| - i
      invariant forall j :: 0 <= j < i ==> nonces[j] in m && s[j] == m[nonces[j]]
    {
      assert nonces[i] in nonces;
      s := s + [m[nonces[i]]];
      i := i + 1;
    }
    forall n | n in m ensures m[n] in s {
      assert n in nonces;
      var j :| 0 <= j < |nonces| && nonces[j] == n;
      assert s[j] == m[n];
    }
  }

  /** `items` is the part of `m` below position `size` of the sorted nonces. */
  ghost predicate Prefix(nonces: seq<nat>, size: nat, items: Txs, m: Txs) {
    && size <= |nonces|
    && (forall i, j :: 0 <= i < j < |nonces| ==> nonces[i] < nonces[j])
    && (forall k :: k in items <==> k in nonces[..size])
    && (forall k :: k in items ==> k in m && items[k] == m[k])
  }

  lemma PrefixHighest(nonces: seq<nat>, size: nat, items: Txs, m: Txs)
    requires Prefix(nonces, size, items, m) && size > 0
    ensures Highest(items, nonces[size - 1]) && nonces[size - 1] in m && items[nonces[size - 1]] == m[nonces[size - 1]]
    ensures Prefix(nonces, size - 1, items - {nonces[size - 1]}, m)
  {
    var n, all, less := nonces[size - 1], nonces[..size], nonces[..size - 1];
    assert all == less + [n];
    assert n in all;
    assert n !in less;
  }

  method MakeHeap(nonces: seq<nat>, size: nat, items: Txs, ghost m: Txs) returns (h: seq<nat>)
    requires Prefix(nonces, size, items, m)
    ensures Heap(h, items.Keys)
  {
    h := HeapInit(nonces[..size], items.Keys);
  }

  /** The state in the middle of dropping the highest nonces. */
  ghost predicate Cutting(drops: seq<Tx>, nonces: seq<nat>, size: nat, items: Txs, m: Txs, threshold: nat) {
    && size == |items| && Filed(m)
    && Capped(items, threshold) == Capped(m, threshold)
    && Prefix(nonces, size, items, m)
    && CutOff(drops, m, items)
  }

  lemma CuttingStart(nonces: seq<nat>, m: Txs, threshold: nat)
    requires Ascending(nonces, m.Keys) && Filed(m)
    ensures |nonces| == |m| && Cutting([], nonces, |m|, m, m, threshold)
  {
    SortedSize(nonces, m.Keys);
    CutOffNone(m);
  }

  lemma CuttingEnd(drops: seq<Tx>, nonces: seq<nat>, items: Txs, m: Txs, threshold: nat)
    requires Cutting(drops, nonces, threshold, items, m, threshold)
    ensures items == Capped(m, threshold) && CutOff(drops, m, items) && Prefix(nonces, threshold, items, m)
  {
  }

  lemma CuttingStep(drops: seq<Tx>, nonces: seq<nat>, size: nat, items: Txs, m: Txs, threshold: nat)
    requires Cutting(drops, nonces, size, items, m, threshold) && threshold < size <= |nonces|
    ensures var n := nonces[size - 1];
            n in items && Cutting(drops + [items[n]], nonces, size - 1, items - {n}, m, threshold)
  {
    PrefixHighest(nonces, size, items, m);
    hide Prefix, CutOff, Capped, Filed;
    CutOffStep(drops, m, items, nonces[size - 1], threshold);
  }

  lemma HeapLowest(h: seq<nat>, m: Txs)
    requires Heap(h, m.Keys) && h != []
    ensures Lowest(m, h[0])
  {
  }

  /** If the lowest nonce is not below `t`, none is. */
  lemma HeapBound(h: seq<nat>, m: Txs, t: nat)
    requires Heap(h, m.Keys) && (h == [] || h[0] >= t)
    ensures forall k :: k in m ==> k >= t
  {
  }

  /** Lists the transactions of `m` that `p` picks. */
  method Pick(m: Txs, p: Tx -> bool) returns (r: seq<Tx>)
    requires Filed(m)
    ensures Lists(r, Chosen(m, p))
  {
    hide Lists;
    r := [];
    var left := m.Keys;
    ghost var got: Txs := map[];
    assert Lists([], map[]) by { ListsNone(); }
    while left != {}
      invariant left <= m.Keys
      invariant forall k :: k in got ==> k in m && k !in left && p(m[k]) && got[k] == m[k]
      invariant forall k :: k in m && k !in left && p(m[k]) ==> k in got
      invariant Lists(r, got)
    {
      var k :| k in left;
      if p(m[k]) {
        ListsAppend(r, got, m[k]);
        r := r + [m[k]];
        got := got[k := m[k]];
      }
      left := left - {k};
    }
    assert got == Chosen(m, p);
  }

  lemma ListsNone()
    ensures Lists([], map[])
  {
  }

  /** A heap of the nonces of `m`. */
  method Nonces(m: Txs) returns (h: seq<nat>)
    ensures Heap(h, m.Keys)
  {
    var s: seq<nat> := [];
    var left := m.Keys;
    while left != {}
      invariant left <= m.Keys
      invariant forall i, j :: 0 <= i < j < |s| ==> s[i] != s[j]
      invariant forall k :: k in s <==> k in m && k !in left
    {
      var k :| k in left;
      s := s + [k];
      left := left - {k};
    }
    h := HeapInit(s, m.Keys);
  }

  lemma {:induction false} SortedSize(s: seq<nat>, keys: set<nat>)
    requires Ascending(s, keys)
    ensures |s| == |keys|
    decreases |s|
  {
    if s == [] {
      assert keys == {};
    } else {
      var init, last := s[..|s| - 1], s[|s| - 1];
      assert s == init + [last];
      assert last !in init;
      SortedSize(init, keys - {last});
    }
  }

  lemma NotReady(h: seq<nat>, m: Txs, start: nat)
    requires Heap(h, m.Keys) && (h == [] || h[0] > start)
    ensures ReadyEnd(m, start) == 0
  {
  }

  lemma RunStart(m: Txs, lo: nat)
    requires Lowest(m, lo)
    ensures RunOf([], m, lo, lo) && From(m, lo) == m
  {
  }

  lemma RunStep(s: seq<Tx>, m: Txs, lo: nat, n: nat)
    requires RunOf(s, m, lo, n) && Lowest(From(m, n), n)
    ensures n in From(m, n) && RunOf(s + [From(m, n)[n]], m, lo, n + 1)
    ensures From(m, n) - {n} == From(m, n + 1)
  {
  }

  lemma NextGone(h: seq<nat>, m: Txs, n: nat)
    requires Heap(h, From(m, n).Keys) && (h == [] || h[0] != n)
    ensures n !in m
  {
    assert n in m ==> n in From(m, n);
    assert h != [] ==> h[0] in h;
    assert n in m ==> n in h;
  }

  /** The lowest nonce in a listing. */
  method LowestIn(s: seq<Tx>, ghost m: Txs) returns (low: nat)
    requires Lists(s, m) && Filed(m) && s != []
    ensures Lowest(m, low)
  {
    low := s[0].nonce;
    var i := 1;
    while i < |s|
      invariant 1 <= i <= |s| && low in m
      invariant forall j :: 0 <= j < i ==> low <= s[j].nonce
    {
      if low > s[i].nonce {
        low := s[i].nonce;
      }
      i := i + 1;
    }
    forall k | k in m ensures low <= k {
      assert m[k] in s;
      var j :| 0 <= j < |s| && s[j] == m[k];
    }
  }

  // ----- The list of an account

  class List {
    const strict: bool
    const txs: SortedMap
    var costcap: int
    var gascap: nat

    ghost function Contents(): (l: View)
      reads this, txs
    {
      View(strict, txs.items, costcap, gascap)
    }

    ghost predicate Valid()
      reads this, txs
    {
      txs.Valid() && CapsOk(Contents())
    }

    constructor (s: bool)
      ensures Valid() && Contents() == NewList(s) && fresh(txs)
    {
      strict, costcap, gascap := s, 0, 0;
      txs := new SortedMap();
    }

    method Overlaps(tx: Tx) returns (r: bool)
      ensures r <==> tx.nonce in Contents().items
    {
      r := tx.nonce in txs.items;
    }

    /** Adds a transaction, unless one with the same nonce is not outbid. */
    method Add(tx: Tx, bump: nat) returns (inserted: bool, previous: Option<Tx>)
      requires Valid()
      modifies this, txs
      ensures inserted <==> old(Accepts(Contents(), tx, bump))
      ensures Contents() == if inserted then old(Added(Contents(), tx)) else old(Contents())
      ensures previous == if inserted &&
        tx.nonce in old(Contents().items) then Some(old(Contents().items[tx.nonce])) else None
      ensures Valid()
    {
      hide SortedMap.Valid;
      inserted, previous := true, None;
      if tx.nonce in txs.items {
        var other := txs.items[tx.nonce];
        var threshold := other.price * (100 + bump) / 100;
        if other.price >= tx.price || threshold > tx.price {
          return false, None;
        }
        previous := Some(other);
      }
      txs.Put(tx);
      if costcap < Cost(tx) {
        costcap := Cost(tx);
      }
      if gascap < tx.gas {
        gascap := tx.gas;
      }
    }

    method Forward(threshold: nat) returns (removed: seq<Tx>)
      requires Valid()
      modifies txs
      ensures Contents() == old(Contents()).(items := From(old(Contents()).items, threshold))
      ensures Flat(removed, Below(old(Contents()).items, threshold))
      ensures Valid()
    {
      hide SortedMap.Valid, Flat;
      removed := txs.Forward(threshold);
    }

    /** Removes what costs or uses too much, and in strict mode all that comes after it. */
    method Filter(costLimit: int, gasLimit: nat) returns (removed: seq<Tx>, invalids: seq<Tx>)
      requires Valid()
      modifies this, txs
      ensures Contents() == FilterList(old(Contents()), costLimit, gasLimit).list
      ensures Lists(removed, FilterList(old(Contents()), costLimit, gasLimit).removed)
      ensures Lists(invalids, FilterList(old(Contents()), costLimit, gasLimit).invalids)
      ensures Valid()
    {
      hide SortedMap.Valid, Lists, Affordable, Expensive, Chosen, Spared, Below, From;
      FilterCaps(Contents(), costLimit, gasLimit);
      ListsNone();
      removed, invalids := [], [];
      if !(costcap <= costLimit && gascap <= gasLimit) {
        var over := (tx: Tx) => Over(tx, costLimit, gasLimit);
        SplitOver(txs.items, costLimit, gasLimit, over);
        hide CapsOk;
        removed := txs.Filter(over);
        costcap, gascap := costLimit, gasLimit;
        ListsEmpty(removed, Expensive(old(txs.items), costLimit, gasLimit));
        if strict && |removed| > 0 {
          var lowest := LowestIn(removed, Expensive(old(txs.items), costLimit, gasLimit));
          invalids := DropAbove(lowest);
        }
      }
    }

    /** Takes out what comes after a nonce. */
    method DropAbove(lowest: nat) returns (invalids: seq<Tx>)
      requires txs.Valid() && Filed(txs.items)
      modifies txs
      ensures txs.Valid() && txs.items == Below(old(txs.items), lowest + 1)
      ensures Lists(invalids, From(old(txs.items), lowest + 1))
    {
      hide SortedMap.Valid, Lists;
      var above := (tx: Tx) => tx.nonce > lowest;
      SplitAbove(txs.items, lowest, above);
      invalids := txs.Filter(above);
    }

    method Cap(threshold: nat) returns (drops: seq<Tx>)
      requires Valid()
      modifies txs
      ensures Contents() == old(Contents()).(items := Capped(old(Contents()).items, threshold))
      ensures CutOff(drops, old(Contents()).items, Contents().items)
      ensures Valid()
    {
      hide SortedMap.Valid, CutOff, Capped;
      CappedKeepsLowest(txs.items, threshold);
      CappedFiled(txs.items, threshold);
      drops := txs.Cap(threshold);
    }

    /** Removes a transaction by its nonce, and in strict mode all that comes after it. */
    method Remove(nonce: nat) returns (found: bool, invalids: seq<Tx>)
      requires Valid()
      modifies txs
      ensures found <==> nonce in old(Contents()).items
      ensures Contents() == RemoveFrom(old(Contents()), nonce).0
      ensures Lists(invalids, RemoveFrom(old(Contents()), nonce).1)
      ensures Valid()
    {
      hide SortedMap.Valid, Lists;
      ListsNone();
      invalids := [];
      found := txs.Remove(nonce);
      if found && strict {
        var above := (tx: Tx) => tx.nonce > nonce;
        SplitAbove(txs.items, nonce, above);
        assert Below(old(txs.items) - {nonce}, nonce + 1) == Below(old(txs.items), nonce);
        invalids := txs.Filter(above);
      }
    }

    method Ready(start: nat) returns (ready: seq<Tx>)
      requires Valid()
      modifies txs
      ensures Contents() ==
        old(Contents()).(items := From(old(Contents()).items, ReadyEnd(old(Contents()).items, start)))
      ensures Flat(ready, Below(old(Contents()).items, ReadyEnd(old(Contents()).items, start)))
      ensures Valid()
    {
      hide SortedMap.Valid, Flat, ReadyEnd;
      ready := txs.Ready(start);
    }

    method Flatten() returns (r: seq<Tx>)
      requires Valid()
      modifies txs
      ensures Contents() == old(Contents()) && Flat(r, Contents().items)
      ensures Valid()
    {
      hide SortedMap.Valid, Flat;
      r := txs.Flatten();
    }
  }
}
