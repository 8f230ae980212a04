/** Where the transactions of the pool are, stated on values. */
module PoolSpec {

  import opened TxSpec

  type Lists = map<Address, View>

  /** The transactions of an account in one of the two groups of lists. */
  function At(l: Lists, a: Address): (r: Txs) {
    if a in l then l[a].items else map[]
  }

  ghost predicate Held(l: Lists, tx: Tx) {
    tx.from in l && tx.nonce in l[tx.from].items && l[tx.from].items[tx.nonce] == tx
  }

  /** The list of an account holds transactions of that account. */
  ghost predicate Own(v: View, a: Address, strict: bool) {
    v.strict == strict && CapsOk(v) && forall n :: n in v.items ==> v.items[n].from == a
  }

  ghost predicate Owned(l: Lists, strict: bool) {
    forall a :: a in l ==> Own(l[a], a, strict)
  }

  /** No account has a nonce in both groups. */
  ghost predicate Apart(p: Lists, q: Lists) {
    forall a, n :: a in p && a in q && n in p[a].items ==> n !in q[a].items
  }

  /** Transactions that are on their way from one list to another: each with an account and nonce
      of its own. */
  ghost predicate Loose(loose: set<Tx>, p: Lists, q: Lists) {
    && (forall t :: t in loose ==> t.nonce !in At(p, t.from) && t.nonce !in At(q, t.from))
    && (forall t, u :: t in loose && u in loose && t.from == u.from && t.nonce == u.nonce ==> t == u)
  }

  /** What the pool knows is what the lists hold, and what is on its way. */
  ghost predicate Exact(all: set<Tx>, p: Lists, q: Lists, loose: set<Tx>) {
    forall t :: t in all <==> Held(p, t) || Held(q, t) || t in loose
  }

  ghost predicate Partition(all: set<Tx>, p: Lists, q: Lists, loose: set<Tx>) {
    && Owned(p, true) && Owned(q, false)
    && Apart(p, q)
    && Loose(loose, p, q)
    && Exact(all, p, q, loose)
  }

  /** In a partition, each transaction is in one place only. */
  lemma InOnePlace(all: set<Tx>, p: Lists, q: Lists, loose: set<Tx>, t: Tx)
    requires Partition(all, p, q, loose)
    ensures !(Held(p, t) && Held(q, t)) && (t in loose ==> !Held(p, t) && !Held(q, t))
  {
  }

  // ----- Moves

  /** What a list of an account gives up when it becomes `v`. */
  ghost function Gone(was: Txs, v: Txs): (r: set<Tx>) {
    set n | n in was && n !in v :: was[n]
  }

  ghost predicate Within(v: Txs, was: Txs) {
    forall n :: n in v ==> n in was && v[n] == was[n]
  }

  /** `m` consists of `v` and `out`. */
  ghost predicate Parted(m: Txs, v: Txs, out: Txs) {
    && (forall n :: n in out <==> n in m && n !in v)
    && (forall n :: n in out ==> out[n] == m[n])
  }

  lemma OwnPart(was: View, a: Address, v: View, out: Txs, strict: bool)
    requires Own(was, a, strict) && v.strict == strict && CapsOk(v) && Within(v.items, was.items) &&
      Parted(was.items, v.items, out)
    ensures Own(v, a, strict) && Filed(out) && Gone(was.items, v.items) == out.Values
    ensures forall n :: n in out ==> out[n].from == a
  {
    forall t ensures t in Gone(was.items, v.items) <==> t in out.Values {
      if t in Gone(was.items, v.items) {
        var n :| n in was.items && n !in v.items && was.items[n] == t;
        assert out[n] in out.Values;
      }
      if t in out.Values {
        var n :| n in out && out[n] == t;
        assert n in was.items && n !in v.items && was.items[n] == t;
      }
    }
  }

  /** A pending list gives up transactions. */
  lemma PendingShrinks(all: set<Tx>, p: Lists, q: Lists, loose: set<Tx>, a: Address, v: View)
    requires Partition(all, p, q, loose) && a in p && Own(v, a, true) && Within(v.items, p[a].items)
    ensures Partition(all, p[a := v], q, loose + Gone(p[a].items, v.items))
  {
    var r, out := p[a := v], Gone(p[a].items, v.items);
    assert Owned(r, true);
    assert Apart(r, q);
    assert Loose(loose + out, r, q);
    forall t ensures t in all <==> Held(r, t) || Held(q, t) || t in loose + out {
      if t.from == a && t in out {
        assert Held(p, t);
      }
      if Held(p, t) && t.from == a && t.nonce !in v.items {
        assert p[a].items[t.nonce] in out;
      }
    }
  }

  /** A queued list gives up transactions. */
  lemma QueueShrinks(all: set<Tx>, p: Lists, q: Lists, loose: set<Tx>, a: Address, v: View)
    requires Partition(all, p, q, loose) && a in q && Own(v, a, false) && Within(v.items, q[a].items)
    ensures Partition(all, p, q[a := v], loose + Gone(q[a].items, v.items))
  {
    var r, out := q[a := v], Gone(q[a].items, v.items);
    assert Owned(r, false);
    assert Apart(p, r);
    assert Loose(loose + out, p, r);
    QueueShrinksExact(all, p, q, loose, a, v);
    hide Owned, Apart, Loose, Exact;
  }

  lemma QueueShrinksExact(all: set<Tx>, p: Lists, q: Lists, loose: set<Tx>, a: Address, v: View)
    requires Exact(all, p, q, loose) && Owned(q, false) && a in q && Own(v, a, false) && Within(v.items, q[a].items)
    ensures Exact(all, p, q[a := v], loose + Gone(q[a].items, v.items))
  {
    var r, out := q[a := v], Gone(q[a].items, v.items);
    forall t ensures t in all <==> Held(p, t) || Held(r, t) || t in loose + out {
      if t.from == a && t in out {
        assert Held(q, t);
      }
      if Held(q, t) && t.from == a && t.nonce !in v.items {
        assert q[a].items[t.nonce] in out;
      }
    }
  }

  /** Empty lists may be dropped. */
  lemma EmptyPendingGoes(all: set<Tx>, p: Lists, q: Lists, loose: set<Tx>, a: Address)
    requires Partition(all, p, q, loose) && a in p && p[a].items == map[]
    ensures Partition(all, p - {a}, q, loose)
  {
    var r := p - {a};
    assert forall t :: Held(r, t) <==> Held(p, t);
    assert forall b :: At(r, b) == At(p, b);
  }

  lemma EmptyQueueGoes(all: set<Tx>, p: Lists, q: Lists, loose: set<Tx>, a: Address)
    requires Partition(all, p, q, loose) && a in q && q[a].items == map[]
    ensures Partition(all, p, q - {a}, loose)
  {
    var r := q - {a};
    assert forall t :: Held(r, t) <==> Held(q, t);
    assert forall b :: At(r, b) == At(q, b);
  }

  /** Transactions on their way may be forgotten. */
  lemma LooseDropped(all: set<Tx>, p: Lists, q: Lists, loose: set<Tx>, gone: set<Tx>)
    requires Partition(all, p, q, loose) && gone <= loose
    ensures Partition(all - gone, p, q, loose - gone)
  {
  }

  /** A transaction on its way goes to the queue; there is always room for it. */
  lemma LooseQueued(all: set<Tx>, p: Lists, q: Lists, loose: set<Tx>, tx: Tx, v: View, bump: nat)
    requires Partition(all, p, q, loose) && tx in loose
    requires v == if tx.from in q then q[tx.from] else NewList(false)
    ensures tx.nonce !in v.items && Accepts(v, tx, bump) && tx in all
    ensures Partition(all, p, q[tx.from := Added(v, tx)], loose - {tx})
  {
    var r := q[tx.from := Added(v, tx)];
    assert tx.nonce !in At(q, tx.from);
    assert Owned(r, false);
    assert Apart(p, r);
    assert Loose(loose - {tx}, p, r);
    assert forall t :: Held(r, t) <==> Held(q, t) || t == tx;
  }

  /** A transaction on its way becomes pending; there is always room for it. */
  lemma LoosePromoted(all: set<Tx>, p: Lists, q: Lists, loose: set<Tx>, tx: Tx, v: View, bump: nat)
    requires Partition(all, p, q, loose) && tx in loose
    requires v == if tx.from in p then p[tx.from] else NewList(true)
    ensures tx.nonce !in v.items && Accepts(v, tx, bump) && tx in all
    ensures Partition(all, p[tx.from := Added(v, tx)], q, loose - {tx})
  {
    var r := p[tx.from := Added(v, tx)];
    assert tx.nonce !in At(p, tx.from);
    assert Owned(r, true);
    assert Apart(r, q);
    assert Loose(loose - {tx}, r, q);
    assert forall t :: Held(r, t) <==> Held(p, t) || t == tx;
  }

  /** A new transaction whose nonce is not taken is on its way. */
  lemma Arrives(all: set<Tx>, p: Lists, q: Lists, tx: Tx)
    requires Partition(all, p, q, {}) && tx.nonce !in At(p, tx.from) && tx.nonce !in At(q, tx.from)
    ensures tx !in all && Partition(all + {tx}, p, q, {tx})
  {
  }

  lemma AddedOver(v: View, tx: Tx)
    ensures Added(v.(items := v.items - {tx.nonce}), tx) == Added(v, tx)
  {
  }

  /** A new transaction takes a free place in the queue. */
  lemma ArriveQueued(all: set<Tx>, p: Lists, q: Lists, tx: Tx, v: View)
    requires Partition(all, p, q, {}) && tx.nonce !in At(p, tx.from) && tx.nonce !in v.items
    requires v == if tx.from in q then q[tx.from] else NewList(false)
    ensures Partition(all + {tx}, p, q[tx.from := Added(v, tx)], {})
  {
    hide Partition, Added;
    Arrives(all, p, q, tx);
    LooseQueued(all + {tx}, p, q, {tx}, tx, v, 0);
    assert {tx} - {tx} == {};
  }

  /** A new transaction takes the place of one in the queue. */
  lemma ReplaceQueued(all: set<Tx>, p: Lists, q: Lists, tx: Tx, v: View)
    requires Partition(all, p, q, {}) && tx.nonce !in At(p, tx.from)
    requires tx.from in q && v == q[tx.from] && tx.nonce in v.items
    ensures Partition(all - {v.items[tx.nonce]} + {tx}, p, q[tx.from := Added(v, tx)], {})
  {
    var w := v.(items := v.items - {tx.nonce});
    var was := v.items[tx.nonce];
    assert Own(v, tx.from, false);
    assert Gone(v.items, w.items) == {was};
    QueueShrinks(all, p, q, {}, tx.from, w);
    hide Partition, Added;
    assert {} + {was} == {was};
    LooseDropped(all, p, q[tx.from := w], {was}, {was});
    assert {was} - {was} == {};
    ArriveQueued(all - {was}, p, q[tx.from := w], tx, w);
    AddedOver(v, tx);
    assert q[tx.from := w][tx.from := Added(w, tx)] == q[tx.from := Added(v, tx)];
  }

  /** A new transaction takes a free place in a pending list. */
  lemma ArrivePending(all: set<Tx>, p: Lists, q: Lists, tx: Tx, v: View)
    requires Partition(all, p, q, {}) && tx.nonce !in At(q, tx.from) && tx.nonce !in v.items
    requires v == if tx.from in p then p[tx.from] else NewList(true)
    ensures Partition(all + {tx}, p[tx.from := Added(v, tx)], q, {})
  {
    hide Partition, Added;
    Arrives(all, p, q, tx);
    LoosePromoted(all + {tx}, p, q, {tx}, tx, v, 0);
    assert {tx} - {tx} == {};
  }

  /** A new transaction takes the place of a pending one. */
  lemma ReplacePending(all: set<Tx>, p: Lists, q: Lists, tx: Tx, v: View)
    requires Partition(all, p, q, {})
    requires tx.from in p && v == p[tx.from] && tx.nonce in v.items
    ensures v.items[tx.nonce] in all && tx.nonce !in At(q, tx.from)
    ensures Partition(all - {v.items[tx.nonce]} + {tx}, p[tx.from := Added(v, tx)], q, {})
  {
    var w := v.(items := v.items - {tx.nonce});
    var was := v.items[tx.nonce];
    assert Own(v, tx.from, true);
    assert Held(p, was);
    assert Gone(v.items, w.items) == {was};
    PendingShrinks(all, p, q, {}, tx.from, w);
    hide Partition, Added;
    assert {} + {was} == {was};
    LooseDropped(all, p[tx.from := w], q, {was}, {was});
    assert {was} - {was} == {};
    ArrivePending(all - {was}, p[tx.from := w], q, tx, w);
    AddedOver(v, tx);
    assert p[tx.from := w][tx.from := Added(w, tx)] == p[tx.from := Added(v, tx)];
  }

  lemma NotHeld(all: set<Tx>, p: Lists, q: Lists, tx: Tx)
    requires Partition(all, p, q, {}) && tx !in all
    ensures !Held(p, tx) && !Held(q, tx)
  {
  }

  /** A transaction leaves its pending list, and those after it are on their way. */
  lemma PendingRemoved(all: set<Tx>, p: Lists, q: Lists, tx: Tx)
    requires Partition(all, p, q, {}) && tx in all && tx.from in p && tx.nonce in p[tx.from].items
    ensures Held(p, tx) && !Held(q, tx)
    ensures var r := RemoveFrom(p[tx.from], tx.nonce);
            && Filed(r.1) && (forall n :: n in r.1 ==> r.1[n].from == tx.from)
            && r.0.items == Below(p[tx.from].items, tx.nonce)
            && Partition(all - {tx}, p[tx.from := r.0], q, r.1.Values)
  {
    var a, r := tx.from, RemoveFrom(p[tx.from], tx.nonce);
    assert Own(p[a], a, true);
    assert Held(p, tx);
    assert Own(r.0, a, true);
    var out := Gone(p[a].items, r.0.items);
    PendingShrinks(all, p, q, {}, a, r.0);
    RemoveGone(p[a], tx);
    hide Partition;
    assert {} + out == out;
    LooseDropped(all, p[a := r.0], q, out, {tx});
  }

  lemma RemoveGone(v: View, tx: Tx)
    requires v.strict && Filed(v.items) && tx.nonce in v.items && v.items[tx.nonce] == tx
    ensures var r := RemoveFrom(v, tx.nonce);
            Gone(v.items, r.0.items) - {tx} == r.1.Values && tx in Gone(v.items, r.0.items)
  {
    var r := RemoveFrom(v, tx.nonce);
    forall t ensures t in Gone(v.items, r.0.items) - {tx} <==> t in r.1.Values {
      if t in r.1.Values {
        assert t.nonce in r.1 && r.1[t.nonce] == t;
      }
      if t in Gone(v.items, r.0.items) - {tx} {
        assert t.nonce in r.1 && r.1[t.nonce] in r.1.Values;
      }
    }
  }

  lemma QueuedRemoved(all: set<Tx>, p: Lists, q: Lists, tx: Tx)
    requires Partition(all, p, q, {}) && tx in all && !(tx.from in p && tx.nonce in p[tx.from].items)
    ensures Held(q, tx) && !Held(p, tx)
    ensures RemoveFrom(q[tx.from], tx.nonce).0.items == q[tx.from].items - {tx.nonce}
    ensures Partition(all - {tx}, p, q[tx.from := RemoveFrom(q[tx.from], tx.nonce).0], {})
  {
    var a, v := tx.from, RemoveFrom(q[tx.from], tx.nonce).0;
    assert Held(q, tx) && Own(q[a], a, false);
    QueueShrinks(all, p, q, {}, a, v);
    assert Gone(q[a].items, v.items) == {tx};
    hide Partition;
    assert {} + {tx} == {tx};
    LooseDropped(all, p, q[a := v], {tx}, {tx});
    assert {tx} - {tx} == {};
  }

  // ----- Prices

  /** The order of the price heap: by price, and the higher nonce first. */
  predicate Cheaper(a: Tx, b: Tx) {
    a.price < b.price || (a.price == b.price && a.nonce > b.nonce)
  }

  // ----- Runs of nonces

  type Nonces = Address -> nat

  function Virtual(nonces: Nonces, virt: map<Address, nat>, a: Address): (r: nat) {
    if a in virt then virt[a] else nonces(a)
  }

  ghost predicate RunAt(p: Lists, nonces: Nonces, virt: map<Address, nat>, a: Address) {
    && nonces(a) <= Virtual(nonces, virt, a)
    && forall n :: n in At(p, a) <==> nonces(a) <= n < Virtual(nonces, virt, a)
  }

  ghost predicate Runs(p: Lists, nonces: Nonces, virt: map<Address, nat>) {
    forall a :: RunAt(p, nonces, virt, a)
  }

  /** Cutting a pending list at a nonce, and the virtual nonce with it. */
  lemma RunsCut(p: Lists, r: Lists, nonces: Nonces, virt: map<Address, nat>, a: Address, n: nat)
    requires n in At(p, a) && At(r, a) == Below(At(p, a), n)
    requires forall b :: b != a ==> At(r, b) == At(p, b)
    ensures Runs(p, nonces, virt) ==> Runs(r, nonces, if Virtual(nonces, virt, a) > n then virt[a := n] else virt)
  {
    var v := if Virtual(nonces, virt, a) > n then virt[a := n] else virt;
    if Runs(p, nonces, virt) {
      forall b ensures RunAt(r, nonces, v, b) {
        assert RunAt(p, nonces, virt, b);
      }
    }
  }

  /** The nonce at the virtual nonce becomes pending. */
  lemma RunsGrow(p: Lists, r: Lists, nonces: Nonces, virt: map<Address, nat>, a: Address, tx: Tx)
    requires Runs(p, nonces, virt) && tx.nonce == Virtual(nonces, virt, a)
    requires At(r, a) == At(p, a)[tx.nonce := tx] && forall b :: b != a ==> At(r, b) == At(p, b)
    ensures Runs(r, nonces, virt[a := tx.nonce + 1])
  {
    var v := virt[a := tx.nonce + 1];
    forall b ensures RunAt(r, nonces, v, b) {
      assert RunAt(p, nonces, virt, b);
    }
  }

  /** Where runs are contiguous, a queued nonce that is not stale is not below the virtual nonce. */
  lemma QueuedAboveVirtual(all: set<Tx>, p: Lists, q: Lists, loose: set<Tx>, nonces: Nonces, virt: map<Address, nat>,
                           a: Address, n: nat)
    requires Partition(all, p, q, loose) && Runs(p, nonces, virt) && n in At(q, a) && n >= nonces(a)
    ensures n >= Virtual(nonces, virt, a)
  {
    assert RunAt(p, nonces, virt, a);
    ApartAt(p, q, a, n);
  }

  lemma ApartAt(p: Lists, q: Lists, a: Address, n: nat)
    requires Apart(p, q) && n in At(q, a)
    ensures n !in At(p, a)
  {
  }

  // ----- Runs on their way to the pending list

  lemma RunMoves(ready: Txs, n: nat)
    requires Filed(ready) && n in ready
    ensures ready[n].nonce == n
    ensures From(ready, n).Values - {ready[n]} == From(ready, n + 1).Values && ready[n] in From(ready, n).Values
    ensures Below(ready, n + 1) == Below(ready, n)[n := ready[n]]
  {
    var up, rest := From(ready, n), From(ready, n + 1);
    forall t ensures t in up.Values - {ready[n]} <==> t in rest.Values {
      if t in up.Values - {ready[n]} {
        assert t.nonce in rest && rest[t.nonce] in rest.Values;
      }
      if t in rest.Values {
        assert t.nonce in up && up[t.nonce] in up.Values;
      }
    }
    assert up[n] in up.Values;
  }

  lemma RunEnds(ready: Txs, lo: nat, end: nat)
    requires lo <= end && forall n :: n in ready <==> lo <= n < end
    ensures From(ready, lo) == ready && Below(ready, lo) == map[]
    ensures From(ready, end) == map[] && Below(ready, end) == ready
  {
  }

  lemma PartCaps(v: View, items: Txs)
    requires CapsOk(v) && Within(items, v.items)
    ensures CapsOk(v.(items := items))
  {
  }

  lemma CutParts(m: Txs, n: nat)
    ensures Within(From(m, n), m) && Within(Below(m, n), m)
    ensures Parted(m, From(m, n), Below(m, n)) && Parted(m, Below(m, n), From(m, n))
  {
  }

  lemma NoValues(m: Txs)
    requires m == map[]
    ensures m.Values == {}
  {
  }

  /** A list that is not strict gives up what is too expensive, and nothing else. */
  lemma FilterParts(v: View, costLimit: int, gasLimit: nat)
    requires CapsOk(v) && !v.strict
    ensures var f := FilterList(v, costLimit, gasLimit);
            && CapsOk(f.list) && f.list.strict == v.strict && f.invalids == map[]
            && Within(f.list.items, v.items) && Parted(v.items, f.list.items, f.removed)
  {
    FilterIsExact(v, costLimit, gasLimit);
    var f := FilterList(v, costLimit, gasLimit);
    assert f.invalids.Keys == {};
  }

  function Without(m: Txs, v: Txs): (r: Txs) {
    map n | n in m && n !in v :: m[n]
  }

  lemma CapParts(m: Txs, limit: nat)
    ensures Within(Capped(m, limit), m) && Parted(m, Capped(m, limit), Without(m, Capped(m, limit)))
  {
  }

  // ----- What becomes of the lists of an account

  /** Queued transactions that are neither used up nor too expensive. */
  function LiveOf(q: Txs, nonce: nat, funds: int, gas: nat): (r: Txs) {
    Affordable(From(q, nonce), funds, gas)
  }

  /** The pending list after the run of live transactions from `start` has been promoted. */
  function Promoted(p: Txs, live: Txs, start: nat): (r: Txs) {
    p + Below(live, ReadyEnd(live, start))
  }

  /** What stays queued then, up to the limit if there is one. */
  function Waiting(live: Txs, start: nat, limited: bool, limit: nat): (r: Txs) {
    var rest := From(live, ReadyEnd(live, start));
    if limited then Capped(rest, limit) else rest
  }

  lemma NothingQueued(p: Txs, nonce: nat, funds: int, gas: nat, start: nat, limited: bool, limit: nat)
    ensures Promoted(p, LiveOf(map[], nonce, funds, gas), start) == p
    ensures Waiting(LiveOf(map[], nonce, funds, gas), start, limited, limit) == map[]
  {
    var live := LiveOf(map[], nonce, funds, gas);
    assert live == map[];
    assert Below(live, 0) == map[] && From(live, 0) == map[];
  }

  lemma WaitingIs(live: Txs, start: nat, limited: bool, limit: nat)
    ensures Waiting(live, start, limited, limit) ==
            if limited then Capped(From(live, ReadyEnd(live, start)), limit) else From(live, ReadyEnd(live, start))
  {
  }

  /** What decides about promotion besides the lists: state, virtual nonces, and the limit of accounts
      that are not local. */
  datatype Setting = Setting(nonces: Nonces, balances: Address -> int, gas: nat, virt: map<Address, nat>,
                             locals: set<Address>, limit: nat)

  ghost predicate Advanced(s: Setting, p0: Lists, q0: Lists, p: Lists, q: Lists, a: Address) {
    var live, start := LiveOf(At(q0, a), s.nonces(a), s.balances(a), s.gas), Virtual(s.nonces, s.virt, a);
    At(p, a) == Promoted(At(p0, a), live, start) && At(q, a) == Waiting(live, start, a !in s.locals, s.limit)
  }

  ghost predicate Resting(s: Setting, p0: Lists, q0: Lists, p: Lists, q: Lists, virt: map<Address, nat>, a: Address) {
    At(p, a) == At(p0, a) && At(q, a) == At(q0, a) && Virtual(s.nonces, virt, a) == Virtual(s.nonces, s.virt, a)
  }

  /** The given accounts have been dealt with, the others not. */
  ghost predicate PartlyAdvanced(s: Setting, p0: Lists, q0: Lists, p: Lists, q: Lists, virt: map<Address, nat>,
                                 done: set<Address>)
  {
    forall a :: if a in done then Advanced(s, p0, q0, p, q, a) else Resting(s, p0, q0, p, q, virt, a)
  }

  ghost predicate OthersRest(s: Setting, p0: Lists, q0: Lists, p: Lists, q: Lists, virt: map<Address, nat>,
                             done: set<Address>)
  {
    forall a :: a !in done ==> Resting(s, p0, q0, p, q, virt, a)
  }

  /** One account more. */
  lemma AdvancedMore(s: Setting, p0: Lists, q0: Lists, p1: Lists, q1: Lists, v1: map<Address, nat>, p2: Lists,
                     q2: Lists, v2: map<Address, nat>, done: set<Address>, a: Address)
    requires Advanced(s.(virt := v1), p1, q1, p2, q2, a) && OthersRest(s.(virt := v1), p1, q1, p2, q2, v2, {a})
    ensures OthersRest(s, p0, q0, p1, q1, v1, done) ==> OthersRest(s, p0, q0, p2, q2, v2, done + {a})
    ensures a !in done && PartlyAdvanced(s, p0, q0, p1, q1, v1, done) ==>
      PartlyAdvanced(s, p0, q0, p2, q2, v2, done + {a})
  {
    hide LiveOf, Promoted, Waiting, Virtual, At;
  }

  ghost function Members(s: seq<Address>): (r: set<Address>) {
    set a | a in s
  }

  lemma OneMore(s: seq<Address>, i: nat)
    requires i < |s|
    ensures Members(s[..i + 1]) == Members(s[..i]) + {s[i]} && s[..i + 1] == s[..i] + [s[i]]
    ensures NoRepeats(s) ==> s[i] !in Members(s[..i])
  {
    assert s[..i + 1] == s[..i] + [s[i]];
  }

  /** Once queued, a transaction with the next nonce is promoted. */
  lemma NextInLine(s: Setting, all: set<Tx>, p: Lists, q: Lists, ready: Lists, rest: Lists, tx: Tx)
    requires Partition(all, p, q, {}) && Runs(p, s.nonces, s.virt) && Held(q, tx)
    requires tx.nonce == Virtual(s.nonces, s.virt, tx.from) && tx.nonce >= s.nonces(tx.from)
    requires !Over(tx, s.balances(tx.from), s.gas) && Advanced(s, p, q, ready, rest, tx.from)
    ensures Held(ready, tx)
  {
    hide Partition, Runs, Promoted, LiveOf, Waiting;
    var a := tx.from;
    forall n | n in At(q, a) && n >= s.nonces(a) ensures n >= tx.nonce {
      QueuedAboveVirtual(all, p, q, {}, s.nonces, s.virt, a, n);
    }
    NextIsPromoted(At(p, a), At(q, a), s.nonces(a), s.balances(a), s.gas, tx);
  }

  lemma AdvancedAre(s: Setting, p0: Lists, q0: Lists, p: Lists, q: Lists, virt: map<Address, nat>,
                    accounts: seq<Address>)
    requires OthersRest(s, p0, q0, p, q, virt, Members(accounts))
    ensures forall a :: a !in accounts ==> At(p, a) == At(p0, a) && At(q, a) == At(q0, a) && Size(q, a) == Size(q0, a)
    ensures PartlyAdvanced(s, p0, q0, p, q, virt, Members(accounts)) ==>
      forall a :: a in accounts ==> Advanced(s, p0, q0, p, q, a)
  {
    hide Advanced;
    forall a | a !in accounts ensures At(p, a) == At(p0, a) && At(q, a) == At(q0, a) && Size(q, a) == Size(q0, a) {
      assert a !in Members(accounts);
      assert Resting(s, p0, q0, p, q, virt, a);
    }
  }

  lemma NoneAdvanced(s: Setting, p: Lists, q: Lists)
    ensures PartlyAdvanced(s, p, q, p, q, s.virt, {}) && OthersRest(s, p, q, p, q, s.virt, {})
  {
  }

  /** Pending transactions that are not used up and can be paid for, each without relying on one that
      cannot. */
  ghost function Kept(p: Txs, nonce: nat, funds: int, gas: nat): (r: Txs) {
    Payable(From(p, nonce), funds, gas)
  }

  /** What stays pending when the state changes: nothing if the next nonce is missing. */
  ghost function StillPending(p: Txs, nonce: nat, funds: int, gas: nat): (r: Txs) {
    if nonce in Kept(p, nonce, funds, gas) then Kept(p, nonce, funds, gas) else map[]
  }

  /** What goes back to the queue: what comes after an expensive one, and what a missing nonce holds up. */
  ghost function Demoted(p: Txs, nonce: nat, funds: int, gas: nat): (r: Txs) {
    Stranded(From(p, nonce), funds, gas) +
    if nonce in Kept(p, nonce, funds, gas) then map[] else Kept(p, nonce, funds, gas)
  }

  lemma KeptFrom(p: Txs, nonce: nat, funds: int, gas: nat)
    ensures forall n :: n in Payable(From(p, nonce), funds, gas) ==> n >= nonce
  {
    hide Blocked;
  }

  lemma DemotedIs(p: Txs, q: Txs, nonce: nat, funds: int, gas: nat)
    ensures
      var kept, stranded := Payable(From(p, nonce), funds, gas), Stranded(From(p, nonce), funds, gas);
      && StillPending(p, nonce, funds, gas) == (if nonce in kept then kept else map[])
      && q + Demoted(p, nonce, funds, gas) == q + stranded + if nonce in kept then map[] else kept
  {
    hide Payable, Stranded;
  }

  lemma NothingPending(nonce: nat, funds: int, gas: nat)
    ensures StillPending(map[], nonce, funds, gas) == map[] && Demoted(map[], nonce, funds, gas) == map[]
  {
    var p := From(map[], nonce);
    assert p == map[];
    assert Payable(p, funds, gas) == map[] && Stranded(p, funds, gas) == map[];
  }

  /** Lists have lost nothing but their highest nonces. */
  ghost predicate Cut(l: Lists, m: Lists) {
    forall a :: At(m, a) == Capped(At(l, a), |At(m, a)|)
  }

  lemma CutRefl(l: Lists)
    ensures Cut(l, l)
  {
  }

  lemma CutTrans(l: Lists, m: Lists, n: Lists)
    requires Cut(l, m) && Cut(m, n)
    ensures Cut(l, n)
  {
    forall a ensures At(n, a) == Capped(At(l, a), |At(n, a)|) {
      CappedKeepsLowest(At(m, a), |At(n, a)|);
      CappedTwice(At(l, a), |At(m, a)|, |At(n, a)|);
    }
  }

  lemma CutOne(l: Lists, m: Lists, a: Address)
    requires At(l, a) != map[] && At(m, a) == At(l, a) - {HighestOf(At(l, a))}
    requires forall b :: b != a ==> At(m, b) == At(l, b)
    ensures Cut(l, m)
  {
    CappedOne(At(l, a));
  }

  /** The last sign of life of an account. */
  function BeatOf(beats: map<Address, nat>, a: Address): (r: nat) {
    if a in beats then beats[a] else 0
  }

  /** Lists of the accounts in `left` have lost nothing, those of the others were taken from the latest
      sign of life on: whoever lost something, all heard of later have lost everything. */
  ghost predicate LatestFirst(q0: Lists, q: Lists, beats: map<Address, nat>, locals: set<Address>,
                              left: set<Address>) {
    && (forall a :: a in left ==> At(q, a) == At(q0, a))
    && (forall a, b :: a in q0 && a !in left && a !in locals && b in left ==> BeatOf(beats, b) <= BeatOf(beats, a))
    && (forall a, b :: Later(beats, locals, a, b) && At(q, a) != At(q0, a) ==> At(q, b) == map[])
  }

  predicate Later(beats: map<Address, nat>, locals: set<Address>, a: Address, b: Address) {
    a !in locals && b !in locals && BeatOf(beats, a) < BeatOf(beats, b)
  }

  lemma LatestNone(q: Lists, beats: map<Address, nat>, locals: set<Address>)
    ensures LatestFirst(q, q, beats, locals, set a | a in q && a !in locals)
    ensures forall a :: a !in locals && a !in q ==> At(q, a) == map[]
  {
  }

  lemma LatestMeans(q0: Lists, q: Lists, beats: map<Address, nat>, locals: set<Address>, left: set<Address>)
    requires LatestFirst(q0, q, beats, locals, left)
    ensures forall a, b :: Later(beats, locals, a, b) && At(q, a) != At(q0, a) ==> At(q, b) == map[]
  {
  }

  lemma LatestNext(q0: Lists, q: Lists, r: Lists, beats: map<Address, nat>, locals: set<Address>, left: set<Address>,
                   a: Address)
    requires LatestFirst(q0, q, beats, locals, left) && a in left && a !in locals
    requires forall b :: b in left ==> BeatOf(beats, b) <= BeatOf(beats, a)
    requires forall b :: b !in locals && b !in left ==> At(q, b) == map[]
    requires (forall b :: b != a ==> At(r, b) == At(q, b)) && Size(r, a) <= Size(q, a)
    ensures LatestFirst(q0, r, beats, locals, left - {a})
  {
    hide At, BeatOf;
  }

  // ----- Counting

  /** Number of transactions in a group of lists. */
  ghost function Count(l: Lists): (r: nat)
    decreases |l|
  {
    if l == map[] then 0 else
      var a :| a in l;
      |l[a].items| + Count(l - {a})
  }

  lemma CountPick(l: Lists) returns (b: Address)
    requires l != map[]
    ensures b in l && Count(l) == |l[b].items| + Count(l - {b})
  {
    b :| b in l && Count(l) == |l[b].items| + Count(l - {b});
  }

  lemma {:induction false} CountSplit(l: Lists, a: Address)
    requires a in l
    ensures Count(l) == |l[a].items| + Count(l - {a})
    decreases |l|
  {
    hide Count;
    var b := CountPick(l);
    if b != a {
      CountSplit(l - {b}, a);
      CountSplit(l - {a}, b);
      assert l - {b} - {a} == l - {a} - {b};
    }
  }

  function Size(l: Lists, a: Address): (r: nat) {
    |At(l, a)|
  }

  lemma SizeMinus(l: Lists, a: Address, b: Address)
    ensures Size(l - {a}, b) == if a == b then 0 else Size(l, b)
  {
  }

  lemma CountSplitAt(l: Lists, a: Address)
    ensures Count(l) == Size(l, a) + Count(l - {a})
  {
    if a in l {
      CountSplit(l, a);
    } else {
      assert l - {a} == l;
    }
  }

  /** The count depends on the sizes alone. */
  lemma {:induction false} CountSame(l: Lists, m: Lists)
    requires forall a :: Size(l, a) == Size(m, a)
    ensures Count(l) == Count(m)
    decreases |l|
  {
    hide Size;
    if l == map[] {
      CountNone(l, m);
    } else {
      var a :| a in l;
      CountSplitAt(l, a);
      CountSplitAt(m, a);
      forall b ensures Size(l - {a}, b) == Size(m - {a}, b) {
        SizeMinus(l, a, b);
        SizeMinus(m, a, b);
      }
      CountSame(l - {a}, m - {a});
    }
  }

  lemma {:induction false} CountNone(l: Lists, m: Lists)
    requires l == map[] && forall a :: Size(l, a) == Size(m, a)
    ensures Count(m) == 0
    decreases |m|
  {
    if m != map[] {
      var a :| a in m;
      CountSplitAt(m, a);
      assert Size(l, a) == 0;
      forall b ensures Size(l, b) == Size(m - {a}, b) {
        SizeMinus(m, a, b);
        assert Size(l, b) == 0;
      }
      CountNone(l, m - {a});
    }
  }

  /** Changing the list of one account changes the count by as much. */
  lemma CountChange(l: Lists, m: Lists, a: Address)
    requires forall b :: b != a ==> At(l, b) == At(m, b)
    ensures Count(l) + Size(m, a) == Count(m) + Size(l, a)
  {
    CountSplitAt(l, a);
    CountSplitAt(m, a);
    forall b ensures Size(l - {a}, b) == Size(m - {a}, b) {
      SizeMinus(l, a, b);
      SizeMinus(m, a, b);
      assert b != a ==> At(l, b) == At(m, b);
    }
    hide Size;
    CountSame(l - {a}, m - {a});
  }

  // ----- Penalties

  /** All given accounts have lists of the same length. */
  ghost predicate Level(p: Lists, who: seq<Address>, len: nat) {
    forall i :: 0 <= i < |who| ==> Size(p, who[i]) == len
  }

  ghost predicate NoRepeats(who: seq<Address>) {
    forall i, j :: 0 <= i < j < |who| ==> who[i] != who[j]
  }

  /** Other accounts than the given ones are as they were. */
  ghost predicate Untouched(p: Lists, r: Lists, who: seq<Address>) {
    && p.Keys == r.Keys
    && forall a :: a !in who ==> At(r, a) == At(p, a)
  }

  lemma UntouchedOthers(p: Lists, r: Lists, a: Address)
    requires Untouched(p, r, [a])
    ensures p.Keys == r.Keys && forall b :: b != a ==> At(r, b) == At(p, b)
  {
  }

  lemma UntouchedTrans(p: Lists, q: Lists, r: Lists, who: seq<Address>)
    requires Untouched(p, q, who) && Untouched(q, r, who)
    ensures Untouched(p, r, who)
  {
  }

  /** The highest nonce of an account goes. */
  lemma RunsDropLast(p: Lists, r: Lists, nonces: Nonces, virt: map<Address, nat>, a: Address)
    requires At(p, a) != map[] && At(r, a) == At(p, a) - {HighestOf(At(p, a))}
    requires forall b :: b != a ==> At(r, b) == At(p, b)
    ensures var n := HighestOf(At(p, a));
            Runs(p, nonces, virt) ==> Runs(r, nonces, if Virtual(nonces, virt, a) > n then virt[a := n] else virt)
  {
    var n := HighestOf(At(p, a));
    if Runs(p, nonces, virt) {
      assert RunAt(p, nonces, virt, a);
      assert Virtual(nonces, virt, a) - 1 in At(p, a);
      assert At(r, a) == Below(At(p, a), n);
      RunsCut(p, r, nonces, virt, a, n);
    }
  }

  lemma LastParts(m: Txs)
    requires m != map[]
    ensures var n := HighestOf(m);
            Within(m - {n}, m) && Parted(m, m - {n}, map[n := m[n]]) && |m - {n}| == |m| - 1 &&
              map[n := m[n]].Values == {m[n]}
  {
  }

  /** Nobody who is not local has more than `len`, and lists that have changed have just that. */
  ghost predicate Fair(p0: Lists, p: Lists, locals: set<Address>, len: nat) {
    && p.Keys == p0.Keys
    && (forall b :: b !in locals ==> Size(p, b) <= len)
    && (forall a :: At(p, a) == At(p0, a) || (Size(p, a) == len && a !in locals && len < Size(p0, a)))
  }

  /** No more has gone than had to: there is still too much, or with one more for each of those that have lost
      something there would be. */
  ghost predicate Frugal(p0: Lists, p: Lists, slots: nat) {
    Count(p) > slots || exists who :: NoRepeats(who) && Lost(p0, p, who) && Count(p) + |who| > slots
  }

  ghost predicate Lost(p0: Lists, p: Lists, who: seq<Address>) {
    forall i :: 0 <= i < |who| ==> Size(p, who[i]) < Size(p0, who[i])
  }

  lemma FrugalIs(p0: Lists, p: Lists, slots: nat, who: seq<Address>, count: nat)
    requires count == Count(p)
    requires count > slots || (NoRepeats(who) && Lost(p0, p, who) && count + |who| > slots)
    ensures Frugal(p0, p, slots)
  {
    hide Count, NoRepeats, Lost;
  }

  /** Who has been penalised so far and who may still be: nobody else has more than `slots`. */
  ghost predicate Suspects(p: Lists, locals: set<Address>, slots: nat, offenders: seq<Address>,
                           spammers: set<Address>) {
    && NoRepeats(offenders)
    && (forall i :: 0 <= i < |offenders| ==> offenders[i] in p && offenders[i] !in locals && offenders[i] !in spammers)
    && (forall a :: a in spammers ==> a in p && a !in locals && Size(p, a) > slots)
    && (forall a :: a !in locals && a !in offenders && a !in spammers ==> Size(p, a) <= slots)
  }

  /** A round of drops that all penalised accounts take part in. */
  lemma RoundIsFair(p0: Lists, p: Lists, r: Lists, locals: set<Address>, offenders: seq<Address>,
                    spammers: set<Address>, slots: nat, len: nat)
    requires Fair(p0, p, locals, len) && Suspects(p, locals, slots, offenders, spammers)
    requires Untouched(p, r, offenders) && Level(p, offenders, len) && len > slots && Level(r, offenders, len - 1)
    requires forall a :: a in spammers ==> Size(p, a) <= len - 1
    requires Untouched(p0, p, offenders)
    ensures Fair(p0, r, locals, len - 1) && Suspects(r, locals, slots, offenders, spammers)
    ensures Untouched(p0, r, offenders)
  {
    forall a ensures At(r, a) == At(p0, a) || (Size(r, a) == len - 1 && a !in locals && len - 1 < Size(p0, a)) {
      if a in offenders {
        var i :| 0 <= i < |offenders| && offenders[i] == a;
        assert Size(p, a) == len && Size(r, a) == len - 1;
        assert At(p, a) == At(p0, a) || len < Size(p0, a);
      } else {
        assert At(r, a) == At(p, a);
      }
    }
    forall b | b !in locals ensures Size(r, b) <= len - 1 {
      if b in offenders {
        var i :| 0 <= i < |offenders| && offenders[i] == b;
      } else {
        assert At(r, b) == At(p, b);
      }
    }
    assert forall a :: a !in offenders ==> Size(r, a) == Size(p, a);
  }

  /** The next suspect joins those penalised. */
  lemma SuspectJoins(p0: Lists, p: Lists, locals: set<Address>, slots: nat, offenders: seq<Address>,
                     spammers: set<Address>, o: Address)
    requires Suspects(p, locals, slots, offenders, spammers) && o in spammers && Untouched(p0, p, offenders)
    ensures Suspects(p, locals, slots, offenders + [o], spammers - {o})
    ensures Untouched(p0, p, offenders + [o])
  {
  }

  lemma FirstSuspect(p: Lists, locals: set<Address>, slots: nat, spammers: set<Address>, o: Address)
    requires Suspects(p, locals, slots, [], spammers) && o in spammers
    requires forall a :: a in spammers ==> Size(p, a) <= Size(p, o)
    ensures Fair(p, p, locals, Size(p, o))
  {
  }

  /** When all suspects are level with the allowance, nobody who is not local has more. */
  lemma AllWithinSlots(p: Lists, locals: set<Address>, slots: nat, offenders: seq<Address>, len: nat)
    requires Suspects(p, locals, slots, offenders, {}) && Level(p, offenders, len) && (offenders != [] ==> len <= slots)
    ensures forall a :: a !in locals ==> Size(p, a) <= slots
  {
  }

  lemma UntouchedRefl(p: Lists, who: seq<Address>)
    ensures Untouched(p, p, who)
  {
  }

  lemma SuspectsIn(p: Lists, locals: set<Address>, slots: nat, offenders: seq<Address>, spammers: set<Address>)
    requires Suspects(p, locals, slots, offenders, spammers)
    ensures NoRepeats(offenders) && forall i :: 0 <= i < |offenders| ==> offenders[i] in p
    ensures forall a :: a in spammers ==> a in p && a !in offenders && Size(p, a) > slots
  {
  }

  lemma OthersKeepSize(p: Lists, r: Lists, who: seq<Address>, others: set<Address>, most: nat)
    requires Untouched(p, r, who) && forall a :: a in others ==> a !in who && Size(p, a) <= most
    ensures forall a :: a in others ==> Size(r, a) <= most
  {
  }

  /** What a fair penalty means: local accounts and those within the allowance keep all, nobody
      falls below the allowance, and whoever lost something still has as much as any account that
      is not local. */
  lemma FairMeans(p0: Lists, p: Lists, locals: set<Address>, slots: nat, len: nat, a: Address, b: Address)
    requires Fair(p0, p, locals, len) && len >= slots
    ensures a in locals || Size(p0, a) <= slots ==> At(p, a) == At(p0, a)
    ensures Size(p0, a) >= slots ==> Size(p, a) >= slots
    ensures At(p, a) != At(p0, a) && b !in locals ==> Size(p, b) <= Size(p, a)
  {
  }

  lemma {:induction false} CountHas(l: Lists, a: Address)
    ensures Size(l, a) <= Count(l)
  {
    CountSplitAt(l, a);
  }

  lemma FairToBegin(p: Lists, locals: set<Address>, len: nat)
    requires len >= Count(p)
    ensures Fair(p, p, locals, len)
  {
    forall a ensures Size(p, a) <= len {
      CountHas(p, a);
    }
  }

  lemma SuspectsToBegin(p: Lists, locals: set<Address>, slots: nat, spammers: set<Address>)
    requires forall a :: a in spammers <==> a in p && a !in locals && |p[a].items| > slots
    ensures Suspects(p, locals, slots, [], spammers)
  {
  }

  lemma LevelMore(p: Lists, who: seq<Address>, o: Address, len: nat)
    requires Level(p, who, len) && Size(p, o) == len
    ensures Level(p, who + [o], len)
  {
  }

  // ----- Intervals of nonces

  ghost predicate Interval(m: Txs, s: nat, e: nat) {
    forall n :: n in m <==> s <= n < e
  }

  /** The nonces of a list are an interval. */
  ghost predicate Gapless(m: Txs) {
    exists s: nat, e: nat :: Interval(m, s, e)
  }

  lemma RunIsGapless(p: Lists, nonces: Nonces, virt: map<Address, nat>, a: Address)
    requires Runs(p, nonces, virt)
    ensures Gapless(At(p, a))
  {
    assert RunAt(p, nonces, virt, a);
    assert Interval(At(p, a), nonces(a), Virtual(nonces, virt, a));
  }

  lemma GaplessFrom(m: Txs, k: nat)
    requires Gapless(m)
    ensures Gapless(From(m, k))
  {
    var s: nat, e: nat :| Interval(m, s, e);
    assert Interval(From(m, k), if s < k then k else s, e);
  }

  lemma GaplessBelow(m: Txs, k: nat)
    requires Gapless(m)
    ensures Gapless(Below(m, k))
  {
    var s: nat, e: nat :| Interval(m, s, e);
    assert Interval(Below(m, k), s, if e < k then e else k);
  }

  lemma GaplessNone()
    ensures Gapless(map[])
  {
    assert Interval(map[], 0, 0);
  }

  /** A strict list without gaps has none after filtering. */
  lemma GaplessFiltered(v: View, costLimit: int, gasLimit: nat)
    requires CapsOk(v) && v.strict && Gapless(v.items)
    ensures Gapless(FilterList(v, costLimit, gasLimit).list.items)
  {
    FilterIsExact(v, costLimit, gasLimit);
    var f := FilterList(v, costLimit, gasLimit);
    if f.removed == map[] {
      assert f.list.items == v.items;
    } else {
      var low := LowestOf(f.removed);
      forall n | n in v.items && n > low && n !in f.removed ensures n in f.invalids {
        assert low in f.removed && low < n;
      }
      assert f.list.items == Below(v.items, low);
      GaplessBelow(v.items, low);
    }
  }

  lemma FilterStrictParts(v: View, costLimit: int, gasLimit: nat)
    requires CapsOk(v) && v.strict
    ensures var f := FilterList(v, costLimit, gasLimit);
            && CapsOk(f.list) && f.list.strict
            && Within(f.list.items, v.items) && Parted(v.items, f.list.items, f.removed + f.invalids)
            && f.removed.Keys !! f.invalids.Keys
  {
    FilterIsExact(v, costLimit, gasLimit);
  }

  lemma SplitValues(m: Txs, n: Txs)
    requires m.Keys !! n.Keys && Filed(m + n)
    ensures Filed(m) && Filed(n) && m.Values <= (m + n).Values && (m + n).Values - m.Values == n.Values
    ensures forall k :: k in n ==> (m + n)[k] == n[k]
  {
    var all := m + n;
    assert forall k :: k in m ==> all[k] == m[k];
    assert forall k :: k in n ==> all[k] == n[k];
    forall t ensures t in m.Values ==> t in all.Values {
      if t in m.Values { assert all[t.nonce] in all.Values; }
    }
    assert forall k :: k in m ==> m[k] in m.Values;
    assert forall k :: k in n ==> n[k] in n.Values;
    forall t ensures t in n.Values <==> t in all.Values && t !in m.Values {
      if t in n.Values { assert all[t.nonce] in all.Values; }
      if t in all.Values && t !in m.Values {
        var k :| k in all && all[k] == t;
      }
    }
  }

  lemma NoneOf(v: View)
    requires CapsOk(v)
    ensures CapsOk(v.(items := map[])) && Within(map[], v.items) && Parted(v.items, map[], v.items)
  {
  }

  ghost function Elements(s: seq<Tx>): (r: set<Tx>) {
    set t | t in s
  }

  /** No transaction comes twice. */
  ghost predicate Single(s: seq<Tx>) {
    forall t :: multiset(s)[t] <= 1
  }

  lemma {:induction false} ElementsSize(s: seq<Tx>)
    ensures |Elements(s)| <= |s|
    ensures Single(s) ==> |Elements(s)| == |s|
    ensures s != [] ==> |Elements(s)| > 0
  {
    if s != [] {
      var init, last := s[..|s| - 1], s[|s| - 1];
      assert s == init + [last];
      ElementsSize(init);
      assert Elements(s) == Elements(init) + {last};
      if Single(s) {
        assert forall t :: multiset(s)[t] == multiset(init)[t] + multiset{last}[t];
        assert multiset(init)[last] == 0;
      }
    }
  }

  lemma SubsetSize(a: set<Tx>, b: set<Tx>)
    requires a <= b
    ensures |b| == |a| + |b - a|
  {
    assert b == a + (b - a);
  }

  lemma {:induction false} ValuesSize(m: Txs)
    requires Filed(m)
    ensures |m.Values| == |m|
    decreases |m|
  {
    if m != map[] {
      var n :| n in m;
      var rest := m - {n};
      ValuesSize(rest);
      forall t | t in m.Values ensures t in rest.Values + {m[n]} {
        var k :| k in m && m[k] == t;
        assert k != n ==> rest[k] in rest.Values;
      }
      assert m.Values == rest.Values + {m[n]};
      assert m[n] !in rest.Values;
      assert m.Keys == rest.Keys + {n};
    }
  }

  lemma DroppedAre(whole: set<Tx>, rest: set<Tx>, drop: seq<Tx>)
    requires forall t :: t in rest <==> t in whole && t !in drop
    requires forall t :: t in drop ==> t in whole
    ensures whole - rest == Elements(drop)
  {
  }

  /** A group of lists holds no more transactions than there are. */
  lemma {:induction false} CountWithin(l: Lists, strict: bool, all: set<Tx>)
    requires Owned(l, strict) && forall t :: Held(l, t) ==> t in all
    ensures Count(l) <= |all|
    decreases |l|
  {
    if l == map[] {
      NoneCounted();
    } else {
      var a :| a in l;
      var m, rest := l[a].items, l - {a};
      assert Own(l[a], a, strict);
      ValuesSize(m);
      CountSplit(l, a);
      hide Count;
      forall t | t in m.Values ensures t in all {
        assert Held(l, t);
      }
      forall t | Held(rest, t) ensures t in all - m.Values {
        assert Held(l, t) && t.from != a;
      }
      CountWithin(rest, strict, all - m.Values);
      SubsetSize(m.Values, all);
    }
  }

  lemma NoneCounted()
    ensures Count(map[]) == 0
  {
  }

  /** A live transaction with the next nonce is promoted, if no queued nonce is lower. */
  lemma NextIsPromoted(p: Txs, q: Txs, nonce: nat, funds: int, gas: nat, tx: Tx)
    requires tx.nonce in q && q[tx.nonce] == tx && tx.nonce >= nonce && !Over(tx, funds, gas)
    requires forall n :: n in q && n >= nonce ==> n >= tx.nonce
    ensures
      var r := Promoted(p, LiveOf(q, nonce, funds, gas), tx.nonce);
      tx.nonce in r && r[tx.nonce] == tx
  {
    var live := LiveOf(q, nonce, funds, gas);
    assert tx.nonce in live && Lowest(live, tx.nonce);
    assert LowestOf(live) == tx.nonce;
    ReadyIs(live, tx.nonce);
  }

  /** Only nonces matter to runs. */
  lemma SameRuns(p: Lists, r: Lists, nonces: Nonces, virt: map<Address, nat>, a: Address)
    requires At(p, a).Keys == At(r, a).Keys && forall b :: b != a ==> At(r, b) == At(p, b)
    ensures Runs(p, nonces, virt) ==> Runs(r, nonces, virt)
  {
    if Runs(p, nonces, virt) {
      forall b ensures RunAt(r, nonces, virt, b) {
        assert RunAt(p, nonces, virt, b);
        assert At(r, b).Keys == At(p, b).Keys;
      }
    }
  }

  lemma AllGapless(p: Lists, nonces: Nonces, virt: map<Address, nat>)
    requires Runs(p, nonces, virt)
    ensures forall a :: Gapless(At(p, a))
  {
    forall a ensures Gapless(At(p, a)) {
      RunIsGapless(p, nonces, virt, a);
    }
  }

  lemma QueuedIsKnown(all: set<Tx>, p: Lists, q: Lists, tx: Tx)
    requires Partition(all, p, q, {}) && Held(q, tx)
    ensures tx in all
  {
  }
}
