/** Transactions of one account by nonce, and what the list operations do to them. */
module TxSpec {

  type Address = nat

  /** A transaction. Two transactions with the same hash are the same value, so the value serves
      as the hash. */
  datatype Tx = Tx(id: nat, from: Address, nonce: nat, price: int, value: int, gas: nat, size: nat, intrinsic: nat)

  type Txs = map<nat, Tx>

  function Cost(tx: Tx): (r: int) {
    tx.value + tx.price * tx.gas
  }

  /** Each transaction is filed under its own nonce. */
  ghost predicate Filed(m: Txs) {
    forall n :: n in m ==> m[n].nonce == n
  }

  function Below(m: Txs, n: nat): (r: Txs) {
    map k | k in m && k < n :: m[k]
  }

  function From(m: Txs, n: nat): (r: Txs) {
    map k | k in m && k >= n :: m[k]
  }

  /** `n` is the lowest nonce of the list. */
  predicate Lowest(m: Txs, n: nat) {
    n in m && forall k :: k in m ==> n <= k
  }

  lemma {:induction false} HasLowest(m: Txs)
    requires m != map[]
    ensures exists n :: Lowest(m, n)
    decreases |m|
  {
    var k :| k in m;
    assert forall j :: j in m <==> j == k || j in m - {k};
    if m - {k} == map[] {
      assert Lowest(m, k);
    } else {
      HasLowest(m - {k});
      var n :| Lowest(m - {k}, n);
      assert Lowest(m, if k < n then k else n);
    }
  }

  function LowestOf(m: Txs): (n: nat)
    requires m != map[]
    ensures Lowest(m, n)
  {
    HasLowest(m);
    var n :| Lowest(m, n);
    n
  }

  // ----- Sorted listings

  /** `s` lists `m` in the order of nonces. */
  ghost predicate Flat(s: seq<Tx>, m: Txs) {
    && (forall i, j :: 0 <= i < j < |s| ==> s[i].nonce < s[j].nonce)
    && (forall i :: 0 <= i < |s| ==> s[i].nonce in m && m[s[i].nonce] == s[i])
    && (forall n :: n in m ==> m[n] in s)
  }

  lemma FlatEmpty(s: seq<Tx>, m: Txs)
    requires Flat(s, m)
    ensures s == [] <==> m == map[]
  {
    assert forall n :: n in m ==> m[n] in s;
    assert s == [] ==> m.Keys == {};
    assert s != [] ==> s[0].nonce in m;
  }

  lemma FlatInit(a: seq<Tx>, m: Txs)
    requires Flat(a, m) && Filed(m) && a != []
    ensures Flat(a[..|a| - 1], m - {a[|a| - 1].nonce}) && Filed(m - {a[|a| - 1].nonce})
  {
    var init, last := a[..|a| - 1], a[|a| - 1];
    forall n | n in m && n != last.nonce ensures m[n] in init {
      var i :| 0 <= i < |a| && a[i] == m[n];
      assert i < |a| - 1;
      assert init[i] == m[n];
    }
  }

  lemma {:induction false} FlatSize(s: seq<Tx>, m: Txs)
    requires Flat(s, m) && Filed(m)
    ensures |s| == |m|
    decreases |s|
  {
    FlatEmpty(s, m);
    if s != [] {
      FlatInit(s, m);
      FlatSize(s[..|s| - 1], m - {s[|s| - 1].nonce});
    }
  }

  lemma FlatAppend(s: seq<Tx>, m: Txs, tx: Tx)
    requires Flat(s, m) && Filed(m) && forall i :: 0 <= i < |s| ==> s[i].nonce < tx.nonce
    ensures Flat(s + [tx], m[tx.nonce := tx])
  {
    var t := s + [tx];
    assert t[|s|] == tx;
    forall n | n in m && n != tx.nonce ensures m[n] in t {
      var i :| 0 <= i < |s| && s[i] == m[n];
      assert t[i] == m[n];
    }
  }

  /** Where a listing passes the nonce `t`. */
  lemma {:induction false} FlatSplit(s: seq<Tx>, m: Txs, t: nat)
    requires Flat(s, m) && Filed(m)
    ensures |Below(m, t)| <= |s|
    ensures Flat(s[|Below(m, t)|..], From(m, t))
    ensures Flat(s[..|Below(m, t)|], Below(m, t))
  {
    var k := Passing(s, t);
    FlatBelow(s, m, t, k);
    FlatFrom(s, m, t, k);
    FiledFrom(m, t);
    hide Flat;
    FlatSize(s[..k], Below(m, t));
  }

  lemma FlatBelow(s: seq<Tx>, m: Txs, t: nat, k: nat)
    requires Flat(s, m) && Filed(m) && k <= |s| && forall i :: 0 <= i < |s| ==> (s[i].nonce < t <==> i < k)
    ensures Flat(s[..k], Below(m, t))
  {
    forall n | n in Below(m, t) ensures m[n] in s[..k] {
      var i :| 0 <= i < |s| && s[i] == m[n];
      assert s[..k][i] == m[n];
    }
  }

  lemma FlatFrom(s: seq<Tx>, m: Txs, t: nat, k: nat)
    requires Flat(s, m) && Filed(m) && k <= |s| && forall i :: 0 <= i < |s| ==> (s[i].nonce < t <==> i < k)
    ensures Flat(s[k..], From(m, t))
  {
    forall n | n in From(m, t) ensures m[n] in s[k..] {
      var i :| 0 <= i < |s| && s[i] == m[n];
      assert s[k..][i - k] == m[n];
    }
  }

  lemma {:induction false} Passing(s: seq<Tx>, t: nat) returns (k: nat)
    requires forall i, j :: 0 <= i < j < |s| ==> s[i].nonce < s[j].nonce
    ensures k <= |s|
    ensures forall i :: 0 <= i < |s| ==> (s[i].nonce < t <==> i < k)
  {
    k := 0;
    while k < |s| && s[k].nonce < t
      invariant k <= |s|
      invariant forall i :: 0 <= i < k ==> s[i].nonce < t
    {
      k := k + 1;
    }
  }

  lemma FiledFrom(m: Txs, t: nat)
    requires Filed(m)
    ensures Filed(From(m, t)) && Filed(Below(m, t))
  {
  }

  lemma FlatNone(m: Txs)
    ensures Flat([], Below(m, 0)) && From(m, 0) == m
  {
  }

  /** Moving the lowest transaction from the part above a cut to the part below. */
  lemma CutStep(m: Txs, cut: nat, n: nat, s: seq<Tx>)
    requires Filed(m) && Lowest(From(m, cut), n) && Flat(s, Below(m, cut))
    ensures n >= cut && n in m && n in From(m, cut) && From(m, cut)[n] == m[n]
    ensures From(m, n + 1) == From(m, cut) - {n}
    ensures Flat(s + [m[n]], Below(m, n + 1))
  {
    var up := From(m, cut);
    assert forall k :: k in m && cut <= k ==> k in up;
    FlatAppend(s, Below(m, cut), m[n]);
    assert Below(m, n + 1) == Below(m, cut)[n := m[n]];
    assert From(m, n + 1) == up - {n};
  }

  /** A cut may be moved up to the lowest nonce above it. */
  lemma CutEnd(m: Txs, cut: nat, t: nat)
    requires cut <= t && forall k :: k in From(m, cut) ==> k >= t
    ensures From(m, cut) == From(m, t) && Below(m, cut) == Below(m, t)
  {
    assert forall k :: k in m && cut <= k ==> k in From(m, cut);
  }

  // ----- Capping

  predicate Highest(m: Txs, n: nat) {
    n in m && forall k :: k in m ==> k <= n
  }

  lemma {:induction false} HasHighest(m: Txs)
    requires m != map[]
    ensures exists n :: Highest(m, n)
    decreases |m|
  {
    var k :| k in m;
    assert forall j :: j in m <==> j == k || j in m - {k};
    if m - {k} == map[] {
      assert Highest(m, k);
    } else {
      HasHighest(m - {k});
      var n :| Highest(m - {k}, n);
      assert Highest(m, if k > n then k else n);
    }
  }

  function HighestOf(m: Txs): (n: nat)
    requires m != map[]
    ensures Highest(m, n)
  {
    HasHighest(m);
    var n :| Highest(m, n);
    n
  }

  /** Dropping the transaction of highest nonce until at most `limit` are left. */
  function Capped(m: Txs, limit: nat): (r: Txs)
    decreases |m|
  {
    if |m| <= limit then m else Capped(m - {HighestOf(m)}, limit)
  }

  /** What is left are the lowest nonces, as many as allowed. */
  lemma {:induction false} CappedKeepsLowest(m: Txs, limit: nat)
    ensures |Capped(m, limit)| == if |m| <= limit then |m| else limit
    ensures forall n :: n in Capped(m, limit) ==> n in m && Capped(m, limit)[n] == m[n]
    ensures forall n, k :: n in Capped(m, limit) && k in m && k !in Capped(m, limit) ==> n < k
    decreases |m|
  {
    if |m| > limit {
      CappedKeepsLowest(m - {HighestOf(m)}, limit);
    }
  }

  /** Capping twice is capping to the lower limit. */
  lemma {:induction false} CappedTwice(m: Txs, j: nat, k: nat)
    requires k <= j
    ensures Capped(Capped(m, j), k) == Capped(m, k)
    decreases |m|
  {
    if |m| > j {
      CappedTwice(m - {HighestOf(m)}, j, k);
    }
  }

  /** One less than there are is all but the highest. */
  lemma CappedOne(m: Txs)
    requires m != map[]
    ensures |m - {HighestOf(m)}| == |m| - 1 && Capped(m, |m| - 1) == m - {HighestOf(m)}
  {
    var rest := m - {HighestOf(m)};
    assert m.Keys == rest.Keys + {HighestOf(m)};
    assert Capped(rest, |m| - 1) == rest;
  }

  lemma FlatHighest(s: seq<Tx>, m: Txs)
    requires Flat(s, m) && Filed(m) && m != map[]
    ensures |s| > 0 && Filed(m - {HighestOf(m)}) && s[|s| - 1] == m[HighestOf(m)]
    ensures Flat(s[..|s| - 1], m - {HighestOf(m)})
  {
    var n := HighestOf(m);
    assert s[|s| - 1].nonce == n;
    FlatInit(s, m);
  }

  /** There is only one listing by nonce. */
  lemma {:induction false} FlatUnique(a: seq<Tx>, b: seq<Tx>, m: Txs)
    requires Flat(a, m) && Flat(b, m) && Filed(m)
    ensures a == b
    decreases |a|
  {
    hide Flat, Filed;
    FlatEmpty(a, m);
    FlatEmpty(b, m);
    if a != [] {
      FlatHighest(a, m);
      FlatHighest(b, m);
      var x, y := a[..|a| - 1], b[..|b| - 1];
      FlatUnique(x, y, m - {HighestOf(m)});
      assert a == x + [a[|a| - 1]] && b == y + [b[|b| - 1]];
    }
  }

  /** Capping cuts a listing at the end. */
  lemma {:induction false} FlatCapped(s: seq<Tx>, m: Txs, limit: nat)
    requires Flat(s, m) && Filed(m)
    ensures |s| == |m| && |Capped(m, limit)| <= |m|
    ensures Flat(s[..|Capped(m, limit)|], Capped(m, limit))
    decreases |m|
  {
    hide Flat, Filed;
    FlatSize(s, m);
    CappedKeepsLowest(m, limit);
    if |m| > limit {
      FlatHighest(s, m);
      var t, rest := s[..|s| - 1], m - {HighestOf(m)};
      FlatCapped(t, rest, limit);
      CappedKeepsLowest(rest, limit);
      assert t[..limit] == s[..limit];
    } else {
      assert s[..|m|] == s;
    }
  }

  // ----- Runs of nonces

  /** The first nonce from `n` on that is missing. */
  function RunEnd(m: Txs, n: nat): (r: nat)
    decreases |m|
  {
    if n in m then RunEnd(m - {n}, n + 1) else n
  }

  lemma {:induction false} RunEndIs(m: Txs, n: nat)
    ensures RunEnd(m, n) >= n && RunEnd(m, n) !in m
    ensures forall k :: n <= k < RunEnd(m, n) ==> k in m
    decreases |m|
  {
    if n in m {
      var rest := m - {n};
      RunEndIs(rest, n + 1);
      var r := RunEnd(rest, n + 1);
      assert r in m ==> r in rest;
      forall k | n <= k < r ensures k in m {
        if k != n {
          assert k in rest;
        }
      }
    }
  }

  lemma RunEndUnique(m: Txs, n: nat, r: nat)
    requires r >= n && r !in m && forall k :: n <= k < r ==> k in m
    ensures RunEnd(m, n) == r
  {
  }

  // ----- Filtering

  function Chosen(m: Txs, p: Tx -> bool): (r: Txs) {
    map k | k in m && p(m[k]) :: m[k]
  }

  function Spared(m: Txs, p: Tx -> bool): (r: Txs) {
    map k | k in m && !p(m[k]) :: m[k]
  }

  /** `s` lists `m`, each transaction once, in any order. */
  ghost predicate Lists(s: seq<Tx>, m: Txs) {
    && (forall i, j :: 0 <= i < j < |s| ==> s[i].nonce != s[j].nonce)
    && (forall i :: 0 <= i < |s| ==> s[i].nonce in m && m[s[i].nonce] == s[i])
    && (forall n :: n in m ==> m[n] in s)
  }

  lemma ListsAppend(s: seq<Tx>, m: Txs, tx: Tx)
    requires Lists(s, m) && tx.nonce !in m
    ensures Lists(s + [tx], m[tx.nonce := tx])
  {
  }

  /** `drops` lists what `m` has beyond `rest`, highest nonce first, all above `rest`. */
  ghost predicate CutOff(drops: seq<Tx>, m: Txs, rest: Txs) {
    && |drops| + |rest| == |m|
    && (forall i :: 0 <= i < |drops| ==> drops[i].nonce in m && m[drops[i].nonce] == drops[i])
    && (forall i, j :: 0 <= i < j < |drops| ==> drops[i].nonce > drops[j].nonce)
    && (forall i, k :: 0 <= i < |drops| && k in rest ==> drops[i].nonce > k)
  }

  /** Cutting off one more transaction, the highest. */
  lemma CutOffStep(drops: seq<Tx>, m: Txs, rest: Txs, n: nat, limit: nat)
    requires CutOff(drops, m, rest) && Filed(m) && Highest(rest, n) && |rest| > limit
    requires n in m && rest[n] == m[n]
    ensures CutOff(drops + [rest[n]], m, rest - {n})
    ensures Capped(rest, limit) == Capped(rest - {n}, limit) && |rest - {n}| == |rest| - 1
  {
    var more := drops + [rest[n]];
    assert HighestOf(rest) == n;
    forall i, k | 0 <= i < |more| && k in rest - {n} ensures more[i].nonce > k {
      assert k in rest;
    }
  }

  lemma CutOffNone(m: Txs)
    ensures CutOff([], m, m)
  {
  }

  lemma CutOffSize(drops: seq<Tx>, m: Txs, rest: Txs)
    requires CutOff(drops, m, rest)
    ensures |drops| + |rest| == |m|
  {
  }

  lemma {:induction false} CappedFiled(m: Txs, limit: nat)
    requires Filed(m)
    ensures Filed(Capped(m, limit))
    decreases |m|
  {
    if |m| > limit {
      CappedFiled(m - {HighestOf(m)}, limit);
    }
  }

  // ----- Ready transactions

  /** End of the run of nonces that is ready for `start`: none if the lowest nonce is above it. */
  function ReadyEnd(m: Txs, start: nat): (r: nat) {
    if m == map[] || LowestOf(m) > start then 0 else RunEnd(m, LowestOf(m))
  }

  /** `s` lists the transactions with nonces from `lo` up to `end`, all of which `m` has. */
  ghost predicate RunOf(s: seq<Tx>, m: Txs, lo: nat, end: nat) {
    && lo <= end && |s| == end - lo
    && (forall k :: lo <= k < end ==> k in m)
    && (forall i :: 0 <= i < |s| ==> s[i] == m[lo + i])
  }

  /** The run ends where the next nonce is missing. */
  lemma RunStops(s: seq<Tx>, m: Txs, lo: nat, next: nat, start: nat)
    requires RunOf(s, m, lo, next) && Lowest(m, lo) && lo <= start && next !in m
    ensures ReadyEnd(m, start) == next
  {
    assert LowestOf(m) == lo;
    RunEndUnique(m, lo, next);
  }

  /** What is ready lies below what is not, so it is a listing of the lower part. */
  lemma RunIsFlat(s: seq<Tx>, m: Txs, lo: nat, end: nat)
    requires RunOf(s, m, lo, end) && Lowest(m, lo) && Filed(m)
    ensures Flat(s, Below(m, end))
  {
    forall n | n in Below(m, end) ensures m[n] in s {
      assert s[n - lo] == m[n];
    }
  }

  // ----- Lists with caps

  /** A list: whether it must stay free of gaps, its transactions, and bounds on what they cost
      and use. */
  datatype View = View(strict: bool, items: Txs, costcap: int, gascap: nat)

  ghost predicate CapsOk(l: View) {
    && Filed(l.items)
    && forall n :: n in l.items ==> Cost(l.items[n]) <= l.costcap && l.items[n].gas <= l.gascap
  }

  function NewList(strict: bool): (l: View) {
    View(strict, map[], 0, 0)
  }

  /** Whether `tx` pays enough more than `other` to take its place. */
  predicate Outbids(tx: Tx, other: Tx, bump: nat) {
    other.price < tx.price && other.price * (100 + bump) / 100 <= tx.price
  }

  /** Without division: dearer, and by the bump in percent up to rounding down. */
  lemma OutbidsIs(tx: Tx, other: Tx, bump: nat)
    ensures Outbids(tx, other, bump) <==>
      tx.price > other.price && 100 * (tx.price + 1) > (100 + bump) * other.price
  {
    var x, q := other.price * (100 + bump), other.price * (100 + bump) / 100;
    assert 100 * q <= x < 100 * (q + 1);
  }

  predicate Accepts(l: View, tx: Tx, bump: nat) {
    tx.nonce in l.items ==> Outbids(tx, l.items[tx.nonce], bump)
  }

  function Added(l: View, tx: Tx): (r: View) {
    l.(items := l.items[tx.nonce := tx],
       costcap := if l.costcap < Cost(tx) then Cost(tx) else l.costcap,
       gascap := if l.gascap < tx.gas then tx.gas else l.gascap)
  }

  predicate Over(tx: Tx, costLimit: int, gasLimit: nat) {
    Cost(tx) > costLimit || tx.gas > gasLimit
  }

  function Expensive(m: Txs, costLimit: int, gasLimit: nat): (r: Txs) {
    map k | k in m && Over(m[k], costLimit, gasLimit) :: m[k]
  }

  function Affordable(m: Txs, costLimit: int, gasLimit: nat): (r: Txs) {
    map k | k in m && !Over(m[k], costLimit, gasLimit) :: m[k]
  }

  lemma SplitOver(m: Txs, costLimit: int, gasLimit: nat, over: Tx -> bool)
    requires Filed(m) && forall tx :: over(tx) <==> Over(tx, costLimit, gasLimit)
    ensures Chosen(m, over) == Expensive(m, costLimit, gasLimit)
    ensures Spared(m, over) == Affordable(m, costLimit, gasLimit)
    ensures Filed(Expensive(m, costLimit, gasLimit)) && Filed(Affordable(m, costLimit, gasLimit))
  {
  }

  /** Outcome of filtering a list: what is left, what was too expensive, and what a strict list
      gave up with it. */
  datatype Filtered = Filtered(list: View, removed: Txs, invalids: Txs)

  function FilterList(l: View, costLimit: int, gasLimit: nat): (r: Filtered) {
    if l.costcap <= costLimit && l.gascap <= gasLimit then Filtered(l, map[], map[])
    else
      var removed, rest := Expensive(l.items, costLimit, gasLimit), Affordable(l.items, costLimit, gasLimit);
      var m := l.(costcap := costLimit, gascap := gasLimit);
      if l.strict && removed != map[] then
        var low := LowestOf(removed);
        Filtered(m.(items := Below(rest, low + 1)), removed, From(rest, low + 1))
      else Filtered(m.(items := rest), removed, map[])
  }

  /** The shortcut by the caps changes nothing: what goes is exactly what is too expensive, and
      in a strict list everything above the first such nonce. */
  lemma FilterIsExact(l: View, costLimit: int, gasLimit: nat)
    requires CapsOk(l)
    ensures var r := FilterList(l, costLimit, gasLimit);
            && CapsOk(r.list) && r.list.strict == l.strict
            && (forall n :: n in r.removed <==> n in l.items && Over(l.items[n], costLimit, gasLimit))
            && (forall n :: n in r.invalids <==>
                  n in l.items && n !in r.removed && l.strict && exists k :: k in r.removed && k < n)
            && (forall n :: n in r.list.items <==> n in l.items && n !in r.removed && n !in r.invalids)
            && (forall n :: n in r.removed ==> r.removed[n] == l.items[n])
            && (forall n :: n in r.invalids ==> r.invalids[n] == l.items[n])
            && (forall n :: n in r.list.items ==> r.list.items[n] == l.items[n])
  {
  }

  /** Nonce `n`, or an earlier one, cannot be paid for. */
  ghost predicate Blocked(m: Txs, n: nat, costLimit: int, gasLimit: nat) {
    exists k :: k in m && k <= n && Over(m[k], costLimit, gasLimit)
  }

  /** What can be paid for without relying on an earlier nonce that cannot. */
  ghost function Payable(m: Txs, costLimit: int, gasLimit: nat): (r: Txs) {
    map n | n in m && !Blocked(m, n, costLimit, gasLimit) :: m[n]
  }

  /** What can be paid for itself, but comes after a nonce that cannot. */
  ghost function Stranded(m: Txs, costLimit: int, gasLimit: nat): (r: Txs) {
    map n | n in m && !Over(m[n], costLimit, gasLimit) && Blocked(m, n, costLimit, gasLimit) :: m[n]
  }

  /** The caps of a list do not matter for what a filter does to it. */
  lemma FilterStrict(l: View, costLimit: int, gasLimit: nat)
    requires CapsOk(l) && l.strict
    ensures FilterList(l, costLimit, gasLimit).list.items == Payable(l.items, costLimit, gasLimit)
    ensures FilterList(l, costLimit, gasLimit).invalids == Stranded(l.items, costLimit, gasLimit)
  {
    hide FilterList, CapsOk, Over, Payable, Stranded;
    FilterIsExact(l, costLimit, gasLimit);
    var f := FilterList(l, costLimit, gasLimit);
    PayableIs(l.items, costLimit, gasLimit, f.removed, f.list.items, f.invalids);
  }

  lemma PayableIs(m: Txs, costLimit: int, gasLimit: nat, removed: Txs, kept: Txs, invalids: Txs)
    requires forall n :: n in removed <==> n in m && Over(m[n], costLimit, gasLimit)
    requires forall n :: n in invalids <==> n in m && n !in removed && exists k :: k in removed && k < n
    requires forall n :: n in kept <==> n in m && n !in removed && n !in invalids
    requires forall n :: n in kept ==> kept[n] == m[n]
    requires forall n :: n in invalids ==> invalids[n] == m[n]
    ensures kept == Payable(m, costLimit, gasLimit) && invalids == Stranded(m, costLimit, gasLimit)
  {
    forall n | n in m ensures n in removed || n in invalids <==> Blocked(m, n, costLimit, gasLimit) {
      BlockedBy(m, n, costLimit, gasLimit, removed);
    }
    hide Over, Blocked;
  }

  lemma BlockedBy(m: Txs, n: nat, costLimit: int, gasLimit: nat, removed: Txs)
    requires n in m && forall n :: n in removed <==> n in m && Over(m[n], costLimit, gasLimit)
    ensures Blocked(m, n, costLimit, gasLimit) <==> n in removed || exists k :: k in removed && k < n
  {
    hide Over;
    if Blocked(m, n, costLimit, gasLimit) {
      var k :| k in m && k <= n && Over(m[k], costLimit, gasLimit);
      assert k in removed;
    }
  }

  lemma FilterPlain(l: View, costLimit: int, gasLimit: nat)
    requires CapsOk(l) && !l.strict
    ensures FilterList(l, costLimit, gasLimit).list.items == Affordable(l.items, costLimit, gasLimit)
  {
    hide FilterList, Over;
    FilterIsExact(l, costLimit, gasLimit);
  }

  lemma FilterCaps(l: View, costLimit: int, gasLimit: nat)
    requires CapsOk(l)
    ensures CapsOk(FilterList(l, costLimit, gasLimit).list)
  {
  }

  /** Outcome of removing a nonce: what is left, and what a strict list gave up with it. */
  function RemoveFrom(l: View, nonce: nat): (r: (View, Txs)) {
    if nonce !in l.items then (l, map[])
    else if l.strict then (l.(items := Below(l.items, nonce)), From(l.items - {nonce}, nonce + 1))
    else (l.(items := l.items - {nonce}), map[])
  }

  lemma ListsEmpty(s: seq<Tx>, m: Txs)
    requires Lists(s, m)
    ensures s == [] <==> m == map[]
  {
    assert forall n :: n in m ==> m[n] in s;
    assert s == [] ==> m.Keys == {};
    assert s != [] ==> s[0].nonce in m;
  }

  lemma SplitAbove(m: Txs, low: nat, above: Tx -> bool)
    requires Filed(m) && forall tx :: above(tx) <==> tx.nonce > low
    ensures Chosen(m, above) == From(m, low + 1)
    ensures Spared(m, above) == Below(m, low + 1)
  {
  }

  /** The nonces that are ready. */
  lemma ReadyIs(m: Txs, start: nat)
    ensures var end := ReadyEnd(m, start);
            && (m == map[] || LowestOf(m) > start ==> Below(m, end) == map[] && From(m, end) == m)
            && (m != map[] && LowestOf(m) <= start ==>
                  && LowestOf(m) < end && end !in m
                  && forall n :: n in Below(m, end) <==> LowestOf(m) <= n < end)
  {
    if m != map[] {
      RunEndIs(m, LowestOf(m));
      assert LowestOf(m) in m;
    }
  }
}
