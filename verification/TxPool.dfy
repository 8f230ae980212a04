/** The transaction pool (core/tx_pool.go) and its price heap (core/tx_list.go). */
module TxPool {

  import opened Common
  import opened TxSpec
  import opened PoolSpec
  import opened PoolSteps

  class Pool {
    const config: Config

    /** The state at the head of the chain, and the pool's own view of account nonces on top. */
    var nonces: Address -> nat
    var balances: Address -> int
    var maxGas: nat
    var virt: map<Address, nat>

    var locals: set<Address>
    var pending: Lists
    var queue: Lists
    var beats: map<Address, nat>
    var all: set<Tx>

    /** The price heap, which may hold transactions that have left the pool, and the number of
        departures since it was last built. */
    var heap: seq<Tx>
    var stales: int

    /** Every transaction of the pool is in the price heap, those in `but` excepted. */
    ghost predicate Covered(but: set<Tx>)
      reads this`all, this`heap
    {
      forall t :: t in all && t !in but ==> t in heap
    }

    ghost predicate Inside(loose: set<Tx>, but: set<Tx>)
      reads this`all, this`pending, this`queue, this`heap
    {
      Partition(all, pending, queue, loose) && Covered(but)
    }

    ghost predicate Valid()
      reads this`all, this`pending, this`queue, this`heap
    {
      Inside({}, {})
    }

    constructor (c: Config, state: Address -> nat, funds: Address -> int, gasLimit: nat, whitelisted: set<Address>)
      ensures Valid() && Contiguous() && Proper() && all == {} && locals == whitelisted && config == c
      ensures nonces == state && balances == funds && maxGas == gasLimit
    {
      config, nonces, balances, maxGas, virt := c, state, funds, gasLimit, map[];
      locals, pending, queue, beats, all := whitelisted, map[], map[], map[], {};
      heap, stales := [], 0;
    }

    /** Every transaction of the pool has passed the checks that do not depend on the state. */
    ghost predicate Proper()
      reads this`all, this`locals
    {
      AllSound(config, all, locals)
    }

    ghost function Snapshot(): (v: Stage)
      reads this`all, this`pending, this`queue, this`virt, this`locals
    {
      Stage(all, pending, queue, virt, locals)
    }

    function Conditions(): (r: Terms)
      reads this`nonces, this`balances, this`maxGas
    {
      Terms(nonces, balances, maxGas, config)
    }

    // ----- Virtual nonces

    function GetNonce(a: Address): (n: nat)
      reads this`nonces, this`virt
    {
      Virtual(nonces, virt, a)
    }

    /** The pending nonces of an account run from its nonce on chain to its virtual nonce. */
    ghost predicate Contiguous()
      reads this`pending, this`nonces, this`virt
    {
      Runs(pending, nonces, virt)
    }

    // ----- The price heap

    /** All of pending is within the global limit, or no account but local ones above its slots. */
    ghost predicate PendingWithinLimits()
      reads this`pending, this`locals
    {
      || Count(pending) <= config.globalSlots
      || forall a :: a !in locals ==> Size(pending, a) <= config.accountSlots
    }

    /** All of the queue is within the global limit, or only local accounts are left. */
    ghost predicate QueueWithinLimits()
      reads this`queue, this`locals
    {
      || Count(queue) <= config.globalQueue
      || forall a :: a !in locals ==> Size(queue, a) == 0
    }

    /** Position of a cheapest entry: of lowest price, and of highest nonce among those. */
    method Cheapest() returns (best: nat)
      requires heap != []
      ensures best < |heap| && forall t :: t in heap ==> !Cheaper(t, heap[best])
    {
      best := 0;
      var i := 1;
      while i < |heap|
        invariant best < i <= |heap|
        invariant forall j :: 0 <= j < i ==> !Cheaper(heap[j], heap[best])
      {
        if Cheaper(heap[i], heap[best]) {
          best := i;
        }
        i := i + 1;
      }
    }

    /** Takes an entry off the heap. */
    method Pop(i: nat) returns (tx: Tx)
      requires i < |heap|
      modifies this`heap
      ensures tx == old(heap)[i] && |heap| == |old(heap)| - 1
      ensures multiset(old(heap)) == multiset(heap) + multiset{tx}
      ensures forall t :: t in heap ==> t in old(heap)
      ensures forall t :: t in old(heap) ==> t in heap || t == tx
    {
      tx := heap[i];
      ghost var was := heap;
      heap := heap[..i] + heap[i + 1..];
      forall t | t in was ensures t in heap || t == tx {
        var j :| 0 <= j < |was| && was[j] == t;
        assert j != i ==> heap[if j < i then j else j - 1] == t;
      }
      assert was == was[..i] + [tx] + was[i + 1..];
    }

    method PutPrice(tx: Tx)
      modifies this`heap
      ensures heap == old(heap) + [tx]
    {
      heap := heap + [tx];
    }

    /** Counts a departure; when they are more than a quarter of the heap, it is built anew from what is in
        the pool. */
    method PriceRemoved(ghost but: set<Tx>)
      requires Covered(but)
      modifies this`heap, this`stales
      ensures old(stales) + 1 <= |old(heap)| / 4 ==> heap == old(heap) && stales == old(stales) + 1
      ensures old(stales) + 1 > |old(heap)| / 4 ==> multiset(heap) == multiset(all) && stales == 0
      ensures Covered(but)
    {
      stales := stales + 1;
      if stales > |heap| / 4 {
        stales := 0;
        heap := [];
        var left := all;
        while left != {}
          invariant left <= all && multiset(heap) + multiset(left) == multiset(all) && stales == 0
          invariant forall t :: t in all && t !in left ==> t in heap
        {
          var t :| t in left;
          assert multiset(left) == multiset(left - {t}) + multiset{t};
          heap := heap + [t];
          left := left - {t};
        }
      }
    }

    /** Whether a transaction that is not local pays no more than the cheapest one in the pool. */
    method IsUnderpriced(tx: Tx) returns (r: bool)
      requires Covered({})
      modifies this`heap, this`stales
      ensures r <==> tx.from !in locals && all != {} && forall t :: t in all ==> t.price >= tx.price
      ensures multiset(heap) <= multiset(old(heap)) && |heap| - stales == old(|heap| - stales)
      ensures Covered({})
    {
      if tx.from in locals {
        return false;
      }
      while heap != []
        invariant Covered({}) && multiset(heap) <= multiset(old(heap)) && |heap| - stales == old(|heap| - stales)
        decreases |heap|
      {
        var i := Cheapest();
        if heap[i] in all {
          return heap[i].price >= tx.price;
        }
        stales := stales - 1;
        var stale := Pop(i);
      }
      return false;
    }

    /** Takes up to `count` of the cheapest transactions that are not local off the heap. */
    method Discard(count: int) returns (drop: seq<Tx>)
      requires Covered({})
      modifies this`heap, this`stales
      ensures forall d :: d in drop ==> d in all && d.from !in locals
      ensures forall d, t :: d in drop && t in all && t.from !in locals && t !in drop ==> d.price <= t.price
      ensures |drop| <= (if count > 0 then count else 0)
      ensures |drop| < count ==> forall t :: t in all && t.from !in locals ==> t in drop
      ensures Single(old(heap)) ==> Single(drop)
      ensures |heap| + |drop| - stales == old(|heap| - stales)
      ensures Covered(Elements(drop))
    {
      drop := [];
      var save: seq<Tx> := [];
      var left := count;
      while heap != [] && left > 0
        invariant |drop| + left == count && (left >= 0 || drop == [])
        invariant forall d :: d in drop ==> d in all && d.from !in locals
        invariant forall s :: s in save ==> s.from in locals
        invariant forall d, t :: d in drop && t in heap ==> d.price <= t.price
        invariant forall t :: t in all ==> t in heap || t in save || t in drop
        invariant multiset(heap) + multiset(drop) <= multiset(old(heap))
        invariant |heap| + |save| + |drop| - stales == old(|heap| - stales)
        decreases |heap|
      {
        var i := Cheapest();
        var tx := Pop(i);
        if tx !in all {
          stales := stales - 1;
        } else if tx.from in locals {
          save := save + [tx];
        } else {
          drop := drop + [tx];
          left := left - 1;
        }
      }
      ghost var rest := heap;
      heap := heap + save;
      assert forall t :: t in all && t.from !in locals ==> t in rest || t in drop;
      assert forall t :: multiset(drop)[t] <= multiset(old(heap))[t];
    }

    // ----- Moving transactions

    /** Files a transaction in the queue, unless one with its nonce is not outbid. A transaction that
        comes from the pending list always finds room. */
    method EnqueueTx(tx: Tx, ghost loose: set<Tx>, ghost but: set<Tx>) returns (inserted: bool, replaced: bool)
      requires tx in loose || (loose == {} && tx !in all && tx !in but && tx.nonce !in At(pending, tx.from))
      requires Inside(loose, but)
      modifies this`queue, this`all, this`heap, this`stales
      ensures tx in loose ==> inserted && !replaced && all == old(all) && heap == old(heap)
      ensures replaced <==> inserted && tx.nonce in old(At(queue, tx.from))
      ensures inserted <==> tx.nonce in old(At(queue, tx.from)) ==>
        Outbids(tx, old(At(queue, tx.from))[tx.nonce], config.priceBump)
      ensures inserted ==>
        Held(queue, tx) && all - {tx} <= old(all) && At(queue, tx.from) == old(At(queue, tx.from))[tx.nonce := tx]
      ensures !inserted ==> all == old(all) && queue == old(queue)
      ensures forall a :: a != tx.from ==> At(queue, a) == old(At(queue, a))
      ensures Inside(loose - {tx}, but)
    {
      hide Partition;
      assert tx !in loose ==> loose - {tx} == {};
      var v := if tx.from in queue then queue[tx.from] else NewList(false);
      if tx in loose {
        LooseQueued(all, pending, queue, loose, tx, v, config.priceBump);
      }
      if !Accepts(v, tx, config.priceBump) {
        return false, false;
      }
      replaced := tx.nonce in v.items;
      if replaced {
        ReplaceQueued(all, pending, queue, tx, v);
      }
      ghost var was := queue;
      queue := queue[tx.from := Added(v, tx)];
      if replaced {
        all := all - {v.items[tx.nonce]};
        PriceRemoved(but);
      }
      if tx !in all {
        if !replaced {
          ArriveQueued(all, pending, was, tx, v);
        }
        all := all + {tx};
        PutPrice(tx);
      }
      inserted := true;
    }

    /** Returns transactions that a pending list gave up to the queue, in any order. */
    method EnqueueAll(txs: Txs, ghost a: Address, ghost but: set<Tx>)
      requires Filed(txs) && forall n :: n in txs ==> txs[n].from == a
      requires Inside(txs.Values, but)
      modifies this`queue, this`all, this`heap, this`stales
      ensures all == old(all) && heap == old(heap)
      ensures forall b :: b != a ==> At(queue, b) == old(At(queue, b))
      ensures At(queue, a) == old(At(queue, a)) + txs
      ensures Inside({}, but)
    {
      hide Inside;
      var left := txs.Keys;
      ghost var loose := txs.Values;
      while left != {}
        invariant left <= txs.Keys && loose == set n | n in left :: txs[n]
        invariant all == old(all) && heap == old(heap)
        invariant forall b :: b != a ==> At(queue, b) == old(At(queue, b))
        invariant At(queue, a) == old(At(queue, a)) + (txs - left)
        invariant Inside(loose, but)
      {
        var n :| n in left;
        var inserted, replaced := EnqueueTx(txs[n], loose, but);
        left := left - {n};
        loose := loose - {txs[n]};
      }
      assert loose == {};
    }

    /** Removes a transaction from the pool. If it was pending, those after it go back to the
        queue and the virtual nonce falls back to it. */
    method RemoveTx(tx: Tx, outofbound: bool, ghost but: set<Tx>)
      requires Inside({}, but)
      modifies this`pending, this`queue, this`beats, this`virt, this`all, this`heap, this`stales
      ensures all == old(all) - {tx}
      ensures forall a :: a != tx.from ==> At(pending, a) == old(At(pending, a)) && At(queue, a) == old(At(queue, a))
      ensures !Held(old(pending), tx) ==> pending == old(pending) && virt == old(virt) && beats == old(beats)
      ensures Held(old(pending), tx) ==> At(pending, tx.from) == Below(old(At(pending, tx.from)), tx.nonce)
      ensures Held(old(queue), tx) ==> At(queue, tx.from) == old(At(queue, tx.from)) - {tx.nonce}
      ensures !outofbound ==> heap == old(heap)
      ensures Inside({}, but - {tx})
      ensures old(Contiguous()) ==> Contiguous()
    {
      hide Partition;
      if tx !in all {
        NotHeld(all, pending, queue, tx);
      } else {
        all := all - {tx};
        if outofbound {
          PriceRemoved(but);
        }
        if tx.from in pending && tx.nonce in pending[tx.from].items {
          RemovePending(tx, old(all), but);
        } else {
          RemoveQueued(tx, old(all), but);
        }
      }
    }

    method RemovePending(tx: Tx, ghost was: set<Tx>, ghost but: set<Tx>)
      requires tx.from in pending && tx.nonce in pending[tx.from].items && tx in was && all == was - {tx}
      requires Partition(was, pending, queue, {}) && Covered(but)
      modifies this`pending, this`queue, this`beats, this`virt, this`all, this`heap, this`stales
      ensures all == old(all) && heap == old(heap)
      ensures Held(old(pending), tx) && !Held(old(queue), tx)
      ensures forall a :: a != tx.from ==> At(pending, a) == old(At(pending, a)) && At(queue, a) == old(At(queue, a))
      ensures At(pending, tx.from) == Below(old(At(pending, tx.from)), tx.nonce)
      ensures Inside({}, but)
      ensures old(Contiguous()) ==> Contiguous()
    {
      hide Partition, Runs;
      var a := tx.from;
      var r := RemoveFrom(pending[a], tx.nonce);
      PendingRemoved(was, pending, queue, tx);
      if r.0.items == map[] {
        EmptyPendingGoes(all, pending[a := r.0], queue, r.1.Values, a);
        assert pending[a := r.0] - {a} == pending - {a};
        pending, beats := pending - {a}, beats - {a};
      } else {
        pending := pending[a := r.0];
      }
      EnqueueAll(r.1, a, but);
      RunsCut(old(pending), pending, nonces, virt, a, tx.nonce);
      if GetNonce(a) > tx.nonce {
        virt := virt[a := tx.nonce];
      }
    }

    method RemoveQueued(tx: Tx, ghost was: set<Tx>, ghost but: set<Tx>)
      requires !(tx.from in pending && tx.nonce in pending[tx.from].items) && tx in was && all == was - {tx}
      requires Partition(was, pending, queue, {}) && Covered(but)
      modifies this`queue
      ensures Held(old(queue), tx) && !Held(pending, tx)
      ensures forall a :: a != tx.from ==> At(queue, a) == old(At(queue, a))
      ensures At(queue, tx.from) == old(At(queue, tx.from)) - {tx.nonce}
      ensures Inside({}, but)
    {
      hide Partition;
      var a := tx.from;
      QueuedRemoved(was, pending, queue, tx);
      if a in queue {
        var v := RemoveFrom(queue[a], tx.nonce).0;
        if v.items == map[] {
          EmptyQueueGoes(all, pending, queue[a := v], {}, a);
          assert queue[a := v] - {a} == queue - {a};
          queue := queue - {a};
        } else {
          queue := queue[a := v];
        }
      }
    }

    // ----- Promotion

    /** Makes a transaction pending, unless one with its nonce is not outbid, and moves the virtual
        nonce past it. A transaction that comes from the queue always finds room. */
    method PromoteTx(tx: Tx, now: nat, ghost loose: set<Tx>) returns (promoted: bool)
      requires tx in loose || (loose == {} && tx !in all && tx.nonce !in At(queue, tx.from))
      requires Inside(loose, {})
      modifies this`pending, this`beats, this`virt, this`all, this`heap, this`stales
      ensures tx in loose ==> promoted && all == old(all) && heap == old(heap)
      ensures promoted ==>
        At(pending, tx.from) == old(At(pending, tx.from))[tx.nonce := tx] && virt == old(virt)[tx.from := tx.nonce + 1]
      ensures !promoted ==> (forall a :: At(pending, a) == old(At(pending, a))) && virt == old(virt)
      ensures beats == if promoted then old(beats)[tx.from := now] else old(beats)
      ensures forall a :: a != tx.from ==> At(pending, a) == old(At(pending, a))
      ensures Inside(loose - {tx}, {})
    {
      hide Partition;
      assert tx !in loose ==> loose - {tx} == {};
      var a := tx.from;
      var v := if a in pending then pending[a] else NewList(true);
      if tx in loose {
        LoosePromoted(all, pending, queue, loose, tx, v, config.priceBump);
      }
      if !Accepts(v, tx, config.priceBump) {
        assert all - {tx} == all;
        all := all - {tx};
        PriceRemoved({});
        return false;
      }
      var overlaps := tx.nonce in v.items;
      if overlaps {
        ReplacePending(all, pending, queue, tx, v);
      }
      ghost var was := pending;
      pending := pending[a := Added(v, tx)];
      if overlaps {
        all := all - {v.items[tx.nonce]};
        PriceRemoved({});
      }
      if tx !in all {
        if !overlaps {
          ArrivePending(all, was, queue, tx, v);
        }
        all := all + {tx};
        PutPrice(tx);
      }
      beats := beats[a := now];
      virt := virt[a := tx.nonce + 1];
      promoted := true;
    }

    /** Forgets transactions that a list gave up, in any order. */
    method DropAll(txs: Txs, ghost loose: set<Tx>)
      requires Filed(txs) && txs.Values <= loose
      requires Inside(loose, {})
      modifies this`all, this`heap, this`stales
      ensures all == old(all) - txs.Values
      ensures Inside(loose - txs.Values, {})
    {
      hide Inside;
      var left := txs.Keys;
      ghost var gone: set<Tx> := {};
      assert loose - gone == loose && all - gone == all;
      while left != {}
        invariant left <= txs.Keys && gone == set n | n in txs && n !in left :: txs[n]
        invariant all == old(all) - gone
        invariant Inside(loose - gone, {})
      {
        var n :| n in left;
        assert txs[n] in txs.Values;
        assert txs[n] !in gone;
        Drop(txs[n], loose - gone);
        left := left - {n};
        gone := gone + {txs[n]};
        assert loose - gone == loose - (gone - {txs[n]}) - {txs[n]};
      }
      assert gone == txs.Values;
    }

    method Drop(tx: Tx, ghost loose: set<Tx>)
      requires tx in loose && Inside(loose, {})
      modifies this`all, this`heap, this`stales
      ensures all == old(all) - {tx}
      ensures Inside(loose - {tx}, {})
    {
      hide Partition;
      LooseDropped(all, pending, queue, loose, {tx});
      all := all - {tx};
      PriceRemoved({});
    }

    /** Replaces the queued list of an account by a part of it. */
    method ShrinkQueue(a: Address, v: View, ghost out: Txs)
      requires a in queue && v.strict == queue[a].strict && CapsOk(v)
      requires Within(v.items, queue[a].items) && Parted(queue[a].items, v.items, out)
      requires Valid()
      modifies this`queue
      ensures queue == old(queue)[a := v]
      ensures Filed(out) && (forall n :: n in out ==> out[n].from == a)
      ensures Inside(out.Values, {})
    {
      OwnPart(queue[a], a, v, out, false);
      QueueShrinks(all, pending, queue, {}, a, v);
      hide Partition, CapsOk;
      assert {} + Gone(queue[a].items, v.items) == out.Values;
      queue := queue[a := v];
    }

    /** An account that has got something pending shows a sign of life; nothing else changes about those. */
    ghost predicate Seen(a: Address, now: nat, p: Lists, b: map<Address, nat>)
      reads this`pending, this`beats
    {
      if At(pending, a) == At(p, a) then beats == b || beats == b[a := now] else beats == b[a := now]
    }

    /** Makes queued transactions pending that have become executable. */
    method PromoteReady(a: Address, now: nat)
      requires a in queue
      requires Valid()
      modifies this`pending, this`queue, this`beats, this`virt, this`all, this`heap, this`stales
      ensures a in queue && At(queue, a) == From(old(At(queue, a)), ReadyEnd(old(At(queue, a)), old(GetNonce(a))))
      ensures At(pending, a) == Promoted(old(At(pending, a)), old(At(queue, a)), old(GetNonce(a)))
      ensures forall b :: b != a ==> At(pending, b) == old(At(pending, b)) && At(queue, b) == old(At(queue, b))
      ensures forall b :: b != a ==> GetNonce(b) == old(GetNonce(b))
      ensures Seen(a, now, old(pending), old(beats))
      ensures all == old(all)
      ensures Valid()
      ensures old(Contiguous()) && (forall n :: n in old(At(queue, a)) ==> n >= nonces(a)) ==> Contiguous()
    {
      hide Partition, ReadyEnd, Runs, From, Below, CapsOk, Parted, Within;
      var items, start := queue[a].items, GetNonce(a);
      var end := ReadyEnd(items, start);
      ReadyIs(items, start);
      CutParts(items, end);
      QueueCaps(a);
      if items != map[] && Contiguous() && LowestOf(items) >= nonces(a) {
        QueuedAboveVirtual(all, pending, queue, {}, nonces, virt, a, LowestOf(items));
      }
      PartCaps(queue[a], From(items, end));
      ShrinkQueue(a, queue[a].(items := From(items, end)), Below(items, end));
      if items == map[] || LowestOf(items) > start {
        assert At(pending, a) + Below(items, end) == At(pending, a);
        NoValues(Below(items, end));
      } else {
        PromoteRun(a, Below(items, end), LowestOf(items), end, now);
      }
    }

    lemma QueueCaps(a: Address)
      requires Valid() && a in queue
      ensures CapsOk(queue[a]) && !queue[a].strict
    {
    }

    /** Makes a run of transactions pending that the queue gave up. */
    method PromoteRun(a: Address, ready: Txs, lo: nat, end: nat, now: nat)
      requires Filed(ready) && lo <= end && forall n :: n in ready <==> lo <= n < end
      requires forall n :: n in ready ==> ready[n].from == a
      requires Inside(ready.Values, {})
      modifies this`pending, this`beats, this`virt, this`all, this`heap, this`stales
      ensures At(pending, a) == old(At(pending, a)) + ready
      ensures forall b :: b != a ==> At(pending, b) == old(At(pending, b)) && GetNonce(b) == old(GetNonce(b))
      ensures if lo < end then beats == old(beats)[a := now] else beats == old(beats)
      ensures all == old(all)
      ensures Valid()
      ensures old(Contiguous()) && old(GetNonce(a)) == lo ==> Contiguous()
    {
      hide Inside, Runs, From, Below, At, Filed, Virtual;
      RunEnds(ready, lo, end);
      assert old(beats)[a := now][a := now] == old(beats)[a := now];
      var n := lo;
      while n < end
        invariant lo <= n <= end
        invariant At(pending, a) == old(At(pending, a)) + Below(ready, n)
        invariant if lo < n then beats == old(beats)[a := now] else beats == old(beats)
        invariant forall b :: b != a ==> At(pending, b) == old(At(pending, b)) && GetNonce(b) == old(GetNonce(b))
        invariant all == old(all)
        invariant Inside(From(ready, n).Values, {})
        invariant old(Contiguous()) && old(GetNonce(a)) == lo ==> Contiguous() && GetNonce(a) == n
      {
        RunMoves(ready, n);
        PromoteOne(a, ready, n, now);
        n := n + 1;
      }
      NoValues(From(ready, end));
    }

    /** Makes one transaction of such a run pending. */
    method PromoteOne(a: Address, ready: Txs, n: nat, now: nat)
      requires Filed(ready) && n in ready && ready[n].from == a
      requires Inside(From(ready, n).Values, {})
      modifies this`pending, this`beats, this`virt, this`all, this`heap, this`stales
      ensures At(pending, a) == old(At(pending, a))[n := ready[n]] && GetNonce(a) == n + 1
      ensures forall b :: b != a ==> At(pending, b) == old(At(pending, b)) && GetNonce(b) == old(GetNonce(b))
      ensures beats == old(beats)[a := now] && all == old(all)
      ensures Inside(From(ready, n + 1).Values, {})
      ensures old(Contiguous()) && old(GetNonce(a)) == n ==> Contiguous()
    {
      hide Inside, Runs, From, Below, At, Virtual;
      ghost var before, virts := pending, virt;
      RunMoves(ready, n);
      var promoted := PromoteTx(ready[n], now, From(ready, n).Values);
      NonceMoves(virts, a, n + 1);
      if old(Contiguous()) && old(GetNonce(a)) == n {
        RunsGrow(before, pending, nonces, virts, a, ready[n]);
      }
    }

    lemma NonceMoves(virts: map<Address, nat>, a: Address, n: nat)
      requires virt == virts[a := n]
      ensures GetNonce(a) == n
      ensures forall b :: b != a ==> Virtual(nonces, virt, b) == Virtual(nonces, virts, b)
    {
    }

    /** Brings the queue of one account up to date and promotes what is executable. */
    method PromoteAccount(a: Address, now: nat)
      requires Valid()
      modifies this`pending, this`queue, this`beats, this`virt, this`all, this`heap, this`stales
      ensures Advanced(old(Now()), old(pending), old(queue), pending, queue, a)
      ensures OthersRest(old(Now()), old(pending), old(queue), pending, queue, virt, {a})
      ensures forall b :: b != a ==> Size(queue, b) == old(Size(queue, b))
      ensures a !in locals ==> Size(queue, a) <= config.accountQueue
      ensures Seen(a, now, old(pending), old(beats))
      ensures all <= old(all)
      ensures Valid()
      ensures old(Contiguous()) ==> Contiguous()
    {
      hide Inside, Runs, LiveOf, Promoted, Waiting;
      if a in queue {
        RefreshQueue(a);
        PromoteReady(a, now);
        TrimQueue(a);
        WaitingIs(old(LiveQueue(a)), old(GetNonce(a)), a !in locals, config.accountQueue);
        forall b | b !in {a} ensures Resting(old(Now()), old(pending), old(queue), pending, queue, virt, b) {
          assert GetNonce(b) == old(GetNonce(b));
        }
      } else {
        NothingQueued(At(pending, a), nonces(a), balances(a), maxGas, GetNonce(a), a !in locals, config.accountQueue);
      }
    }

    /** Queued transactions of an account that are neither used up nor too expensive. */
    function LiveQueue(a: Address): (r: Txs)
      reads this`queue, this`nonces, this`balances, this`maxGas
    {
      LiveOf(At(queue, a), nonces(a), balances(a), maxGas)
    }

    /** Drops queued transactions that can never be executed, or not for now. */
    method RefreshQueue(a: Address)
      requires a in queue
      requires Valid()
      modifies this`queue, this`all, this`heap, this`stales
      ensures a in queue && At(queue, a) == old(LiveQueue(a))
      ensures forall n :: n in At(queue, a) ==> n >= nonces(a)
      ensures forall b :: b != a ==> At(queue, b) == old(At(queue, b))
      ensures all <= old(all)
      ensures Valid()
    {
      hide Inside;
      DropStale(a);
      DropExpensive(a);
    }

    /** Drops what is queued beyond the limit of an account that is not local, and empty lists. */
    method TrimQueue(a: Address)
      requires a in queue
      requires Valid()
      modifies this`queue, this`all, this`heap, this`stales
      ensures At(queue, a) == if a in locals then old(At(queue, a)) else Capped(old(At(queue, a)), config.accountQueue)
      ensures a !in locals ==> |At(queue, a)| <= config.accountQueue
      ensures forall b :: b != a ==> At(queue, b) == old(At(queue, b))
      ensures all <= old(all)
      ensures Valid()
    {
      hide Inside, Capped;
      if a !in locals {
        CapQueue(a, config.accountQueue);
      }
      if queue[a].items == map[] {
        DeleteQueue(a);
      }
    }

    /** Drops queued transactions whose nonce is used up. */
    method DropStale(a: Address)
      requires a in queue
      requires Valid()
      modifies this`queue, this`all, this`heap, this`stales
      ensures a in queue && At(queue, a) == From(old(At(queue, a)), nonces(a))
      ensures forall b :: b != a ==> At(queue, b) == old(At(queue, b))
      ensures all <= old(all)
      ensures Valid()
    {
      hide Partition, From, Below, CapsOk, Parted, Within;
      var v := queue[a];
      CutParts(v.items, nonces(a));
      QueueCaps(a);
      PartCaps(v, From(v.items, nonces(a)));
      ShrinkQueue(a, v.(items := From(v.items, nonces(a))), Below(v.items, nonces(a)));
      ghost var out := Below(v.items, nonces(a)).Values;
      DropAll(Below(v.items, nonces(a)), out);
      assert out - out == {};
    }

    /** Drops queued transactions that cost or use too much. */
    method DropExpensive(a: Address)
      requires a in queue
      requires Valid()
      modifies this`queue, this`all, this`heap, this`stales
      ensures a in queue && At(queue, a) == Affordable(old(At(queue, a)), balances(a), maxGas)
      ensures forall b :: b != a ==> At(queue, b) == old(At(queue, b))
      ensures all <= old(all)
      ensures Valid()
    {
      hide Partition, CapsOk, Parted, Within, FilterList;
      var v := queue[a];
      QueueCaps(a);
      FilterParts(v, balances(a), maxGas);
      FilterPlain(v, balances(a), maxGas);
      var f := FilterList(v, balances(a), maxGas);
      ShrinkQueue(a, f.list, f.removed);
      ghost var out := f.removed.Values;
      DropAll(f.removed, out);
      assert out - out == {};
    }

    /** Drops the highest queued nonces beyond a limit. */
    method CapQueue(a: Address, limit: nat)
      requires a in queue
      requires Valid()
      modifies this`queue, this`all, this`heap, this`stales
      ensures a in queue && At(queue, a) == Capped(old(At(queue, a)), limit)
      ensures |queue[a].items| <= limit
      ensures forall b :: b != a ==> At(queue, b) == old(At(queue, b))
      ensures all <= old(all)
      ensures Valid()
    {
      hide Partition, CapsOk, Parted, Within, Capped;
      var v := queue[a];
      QueueCaps(a);
      CapParts(v.items, limit);
      CappedKeepsLowest(v.items, limit);
      PartCaps(v, Capped(v.items, limit));
      var out := Without(v.items, Capped(v.items, limit));
      ShrinkQueue(a, v.(items := Capped(v.items, limit)), out);
      DropAll(out, out.Values);
      assert out.Values - out.Values == {};
    }

    method DeleteQueue(a: Address)
      requires a in queue && queue[a].items == map[]
      requires Valid()
      modifies this`queue
      ensures queue == old(queue) - {a}
      ensures Valid()
    {
      hide Partition;
      EmptyQueueGoes(all, pending, queue, {}, a);
      queue := queue - {a};
    }

    // ----- The limit on pending transactions

    /** Replaces the pending list of an account by a part of it. */
    method ShrinkPending(a: Address, v: View, ghost out: Txs)
      requires a in pending && v.strict == pending[a].strict && CapsOk(v)
      requires Within(v.items, pending[a].items) && Parted(pending[a].items, v.items, out)
      requires Valid()
      modifies this`pending
      ensures pending == old(pending)[a := v]
      ensures Filed(out) && (forall n :: n in out ==> out[n].from == a)
      ensures Inside(out.Values, {})
    {
      OwnPart(pending[a], a, v, out, true);
      PendingShrinks(all, pending, queue, {}, a, v);
      hide Partition, CapsOk;
      assert {} + Gone(pending[a].items, v.items) == out.Values;
      pending := pending[a := v];
    }

    lemma PendingCaps(a: Address)
      requires Valid() && a in pending
      ensures CapsOk(pending[a]) && pending[a].strict
    {
    }

    /** Drops the highest pending nonce of an account, and the virtual nonce with it. */
    method DropLast(a: Address)
      requires a in pending && pending[a].items != map[]
      requires Valid()
      modifies this`pending, this`virt, this`all, this`heap, this`stales
      ensures Untouched(old(pending), pending, [a]) && Size(pending, a) == old(Size(pending, a)) - 1
      ensures Cut(old(pending), pending)
      ensures Count(pending) == old(Count(pending)) - 1
      ensures all <= old(all)
      ensures Valid()
      ensures old(Contiguous()) ==> Contiguous()
    {
      hide Partition, Runs, CapsOk, Parted, Within, Count, Covered, Cut, HighestOf;
      var v := pending[a];
      var n := HighestOf(v.items);
      LastParts(v.items);
      PendingCaps(a);
      PartCaps(v, v.items - {n});
      ghost var out := map[n := v.items[n]];
      ShrinkPending(a, v.(items := v.items - {n}), out);
      CountChange(old(pending), pending, a);
      CutOne(old(pending), pending, a);
      RunsDropLast(old(pending), pending, nonces, virt, a);
      Drop(v.items[n], out.Values);
      assert out.Values - {v.items[n]} == {};
      if GetNonce(a) > n {
        virt := virt[a := n];
      }
    }

    /** Drops the highest pending nonce of each given account. */
    method DropRound(who: seq<Address>, ghost len: nat)
      requires NoRepeats(who) && (forall i :: 0 <= i < |who| ==> who[i] in pending)
      requires len > 0 && Level(pending, who, len)
      requires Valid()
      modifies this`pending, this`virt, this`all, this`heap, this`stales
      ensures Untouched(old(pending), pending, who) && Level(pending, who, len - 1)
      ensures Cut(old(pending), pending)
      ensures Count(pending) == old(Count(pending)) - |who|
      ensures all <= old(all)
      ensures Valid()
      ensures old(Contiguous()) ==> Contiguous()
    {
      hide Inside, Runs, Count, Cut;
      CutRefl(pending);
      var i := 0;
      while i < |who|
        invariant i <= |who|
        invariant Untouched(old(pending), pending, who) && Cut(old(pending), pending)
        invariant forall j :: 0 <= j < |who| ==> Size(pending, who[j]) == if j < i then len - 1 else len
        invariant Count(pending) == old(Count(pending)) - i
        invariant all <= old(all)
        invariant Valid()
        invariant old(Contiguous()) ==> Contiguous()
      {
        ghost var before := pending;
        DropLast(who[i]);
        CutTrans(old(pending), before, pending);
        i := i + 1;
      }
    }

    /** How far the penalties have got since the pending lists were `p0`. */
    ghost predicate Penalty(p0: Lists, who: seq<Address>, spammers: set<Address>, len: nat)
      reads this`pending, this`locals
    {
      && Fair(p0, pending, locals, len)
      && Suspects(pending, locals, config.accountSlots, who, spammers)
      && Untouched(p0, pending, who)
    }

    /** The penalised accounts are level at `len`, and no suspect has more than `threshold`. */
    ghost predicate Leveled(p0: Lists, who: seq<Address>, spammers: set<Address>, threshold: nat, len: nat)
      reads this`pending, this`locals
    {
      && Penalty(p0, who, spammers, len)
      && Level(pending, who, len)
      && (forall a :: a in spammers ==> Size(pending, a) <= threshold)
      && config.accountSlots <= threshold <= len
    }

    /** One round of drops. */
    method LowerOnce(who: seq<Address>, ghost p0: Lists, ghost spammers: set<Address>, ghost threshold: nat,
                     ghost len: nat)
      requires Leveled(p0, who, spammers, threshold, len) && len > threshold
      requires Valid()
      modifies this`pending, this`virt, this`all, this`heap, this`stales
      ensures Count(pending) == old(Count(pending)) - |who|
      ensures Leveled(p0, who, spammers, threshold, len - 1)
      ensures Untouched(old(pending), pending, who) && Cut(old(pending), pending)
      ensures all <= old(all)
      ensures Valid()
      ensures old(Contiguous()) ==> Contiguous()
    {
      hide Inside, Runs, Count, Fair, Suspects, Untouched, Level, Cut;
      ghost var before := pending;
      SuspectsIn(pending, locals, config.accountSlots, who, spammers);
      DropRound(who, len);
      OthersKeepSize(before, pending, who, spammers, threshold);
      RoundIsFair(p0, before, pending, locals, who, spammers, config.accountSlots, len);
    }

    lemma LastIsLevel(p0: Lists, who: seq<Address>, spammers: set<Address>, threshold: nat, len: nat)
      requires Leveled(p0, who, spammers, threshold, len) && who != []
      ensures who[|who| - 1] in pending && |pending[who[|who| - 1]].items| == len
    {
    }

    /** Drops rounds off the penalised accounts until they are down to `threshold`, or the pool is
        within its limit. */
    method LowerTo(who: seq<Address>, threshold: nat, count: nat, ghost p0: Lists, ghost spammers: set<Address>,
                   ghost len: nat)
      returns (left: nat, ghost low: nat)
      requires who != [] && count == Count(pending)
      requires Leveled(p0, who, spammers, threshold, len)
      requires Valid()
      modifies this`pending, this`virt, this`all, this`heap, this`stales
      ensures left == Count(pending) && threshold <= low <= len
      ensures left <= config.globalSlots || low == threshold
      ensures count > config.globalSlots ==> Frugal(p0, pending, config.globalSlots)
      ensures Leveled(p0, who, spammers, threshold, low)
      ensures Untouched(old(pending), pending, who) && Cut(old(pending), pending)
      ensures all <= old(all)
      ensures Valid()
      ensures old(Contiguous()) ==> Contiguous()
    {
      hide Inside, Runs, Count, Leveled, Untouched, Cut, Frugal, Fair, Level, Suspects, Lost, NoRepeats;
      LeveledMeans(p0, who, spammers, threshold, len);
      left, low := LowerRounds(who, threshold, count, p0, spammers, len);
      if count > config.globalSlots {
        if low < len {
          HaveLost(p0, old(pending), who, spammers, threshold, len, low);
        }
        FrugalIs(p0, pending, config.globalSlots, who, left);
      }
    }

    /** One round after the other, each of them only with too much pending. */
    method LowerRounds(who: seq<Address>, threshold: nat, count: nat, ghost p0: Lists, ghost spammers: set<Address>,
                       ghost len: nat)
      returns (left: nat, ghost low: nat)
      requires who != [] && count == Count(pending)
      requires Leveled(p0, who, spammers, threshold, len)
      requires Valid()
      modifies this`pending, this`virt, this`all, this`heap, this`stales
      ensures left == Count(pending) && threshold <= low <= len
      ensures left <= config.globalSlots || low == threshold
      ensures if low == len then left == count else left + |who| > config.globalSlots
      ensures Leveled(p0, who, spammers, threshold, low)
      ensures Untouched(old(pending), pending, who) && Cut(old(pending), pending)
      ensures all <= old(all)
      ensures Valid()
      ensures old(Contiguous()) ==> Contiguous()
    {
      hide Inside, Runs, Count, Leveled, Untouched, Cut;
      left, low := count, len;
      CutRefl(pending);
      UntouchedRefl(pending, who);
      LastIsLevel(p0, who, spammers, threshold, low);
      LevelBounds(p0, who, spammers, threshold, low);
      while left > config.globalSlots && |pending[who[|who| - 1]].items| > threshold
        invariant left == Count(pending) && threshold <= low <= len
        invariant if low == len then left == count else left + |who| > config.globalSlots
        invariant who[|who| - 1] in pending && |pending[who[|who| - 1]].items| == low
        invariant Leveled(p0, who, spammers, threshold, low)
        invariant Untouched(old(pending), pending, who) && Cut(old(pending), pending)
        invariant all <= old(all)
        invariant Valid()
        invariant old(Contiguous()) ==> Contiguous()
        decreases low
      {
        ghost var before := pending;
        LowerOnce(who, p0, spammers, threshold, low);
        UntouchedTrans(old(pending), before, pending, who);
        CutTrans(old(pending), before, pending);
        left, low := left - |who|, low - 1;
        LastIsLevel(p0, who, spammers, threshold, low);
      }
    }

    lemma HaveLost(p0: Lists, before: Lists, who: seq<Address>, spammers: set<Address>, threshold: nat, len: nat,
                   low: nat)
      requires Fair(p0, before, locals, len) && Level(before, who, len) && low < len
      requires Leveled(p0, who, spammers, threshold, low)
      ensures NoRepeats(who) && Lost(p0, pending, who)
    {
      forall i | 0 <= i < |who| ensures Size(pending, who[i]) < Size(p0, who[i]) {
        assert Size(before, who[i]) == len && Size(pending, who[i]) == low;
        assert At(before, who[i]) == At(p0, who[i]) || len < Size(p0, who[i]);
      }
    }

    lemma LevelBounds(p0: Lists, who: seq<Address>, spammers: set<Address>, threshold: nat, len: nat)
      requires Leveled(p0, who, spammers, threshold, len)
      ensures config.accountSlots <= threshold <= len
    {
    }

    /** Penalises the accounts with most pending transactions, evenly, until the pool is within its
        limit or they are down to the allowance. */
    method EqualizePending()
      requires Valid()
      modifies this`pending, this`virt, this`all, this`heap, this`stales
      ensures PendingWithinLimits()
      ensures exists len :: len >= config.accountSlots && Fair(old(pending), pending, locals, len)
      ensures Cut(old(pending), pending)
      ensures old(Count(pending)) <= config.globalSlots ==> pending == old(pending)
      ensures old(Count(pending)) > config.globalSlots ==> Frugal(old(pending), pending, config.globalSlots)
      ensures all <= old(all)
      ensures Valid()
      ensures old(Contiguous()) ==> Contiguous()
    {
      hide Inside, Runs, Count, Fair, Suspects, Leveled, Cut, Frugal;
      CutRefl(pending);
      var count := Total(pending);
      if count > config.globalSlots {
        var offenders;
        ghost var len;
        offenders, count, len := EqualizeOffenders(count);
        if count > config.globalSlots && offenders != [] {
          ghost var before := pending;
          count, len := LowerTo(offenders, config.accountSlots, count, old(pending), {}, len);
          CutTrans(old(pending), before, pending);
          LeveledMeans(old(pending), offenders, {}, config.accountSlots, len);
          if count > config.globalSlots {
            AllWithinSlots(pending, locals, config.accountSlots, offenders, len);
          }
        } else if count > config.globalSlots {
          AllWithinSlots(pending, locals, config.accountSlots, offenders, len);
        }
      } else {
        FairToBegin(pending, locals, count + config.accountSlots);
      }
    }

    lemma LeveledMeans(p0: Lists, who: seq<Address>, spammers: set<Address>, threshold: nat, len: nat)
      requires Leveled(p0, who, spammers, threshold, len)
      ensures Fair(p0, pending, locals, len) && Suspects(pending, locals, config.accountSlots, who, spammers)
      ensures Level(pending, who, len) && len >= threshold >= config.accountSlots
    {
    }

    /** Brings the accounts with most pending transactions down to the next one in turn. */
    method EqualizeOffenders(total: nat) returns (offenders: seq<Address>, count: nat, ghost len: nat)
      requires total == Count(pending) > config.globalSlots
      requires Valid()
      modifies this`pending, this`virt, this`all, this`heap, this`stales
      ensures count == Count(pending) && len >= config.accountSlots
      ensures Fair(old(pending), pending, locals, len) && Cut(old(pending), pending)
      ensures Frugal(old(pending), pending, config.globalSlots)
      ensures count > config.globalSlots && offenders == [] ==>
        Suspects(pending, locals, config.accountSlots, offenders, {}) && Level(pending, offenders, len)
      ensures count > config.globalSlots && offenders != [] ==>
        Leveled(old(pending), offenders, {}, config.accountSlots, len)
      ensures all <= old(all)
      ensures Valid()
      ensures old(Contiguous()) ==> Contiguous()
    {
      hide Inside, Runs, Count, Fair, Suspects, Leveled, Cut, Frugal;
      CutRefl(pending);
      FrugalIs(pending, pending, config.globalSlots, [], total);
      var spammers := set a | a in pending && a !in locals && |pending[a].items| > config.accountSlots;
      offenders, count, len := [], total, total + config.accountSlots;
      FairToBegin(pending, locals, len);
      SuspectsToBegin(pending, locals, config.accountSlots, spammers);
      while count > config.globalSlots && spammers != {}
        invariant count == Count(pending) && len >= config.accountSlots
        invariant Fair(old(pending), pending, locals, len) && Cut(old(pending), pending)
        invariant Frugal(old(pending), pending, config.globalSlots)
        invariant Suspects(pending, locals, config.accountSlots, offenders, spammers)
        invariant offenders == [] ==> pending == old(pending)
        invariant count > config.globalSlots && offenders != [] ==> Leveled(old(pending), offenders, spammers, len, len)
        invariant all <= old(all)
        invariant Valid()
        invariant old(Contiguous()) ==> Contiguous()
        decreases |spammers|
      {
        SuspectsIn(pending, locals, config.accountSlots, offenders, spammers);
        var o := PickMost(spammers);
        ghost var before := pending;
        count, len := Penalise(offenders, o, count, old(pending), spammers, len);
        CutTrans(old(pending), before, pending);
        offenders, spammers := offenders + [o], spammers - {o};
      }
      if count > config.globalSlots && offenders != [] {
        NoSuspectsLeft(old(pending), offenders, spammers, len);
      }
    }

    lemma NoSuspectsLeft(p0: Lists, who: seq<Address>, spammers: set<Address>, len: nat)
      requires Leveled(p0, who, spammers, len, len) && spammers == {}
      ensures Leveled(p0, who, {}, config.accountSlots, len)
    {
    }

    /** Number of transactions in a group of lists. */
    method Total(l: Lists) returns (n: nat)
      ensures n == Count(l)
    {
      n := 0;
      var left := l;
      while left != map[]
        invariant n + Count(left) == Count(l)
        decreases |left|
      {
        var a :| a in left;
        CountSplit(left, a);
        n := n + |left[a].items|;
        left := left - {a};
      }
    }

    /** A suspect with most pending transactions. */
    method PickMost(spammers: set<Address>) returns (o: Address)
      requires spammers != {} && forall a :: a in spammers ==> a in pending
      ensures o in spammers && forall a :: a in spammers ==> Size(pending, a) <= Size(pending, o)
    {
      o :| o in spammers;
      var left := spammers - {o};
      while left != {}
        invariant left <= spammers && o in spammers
        invariant forall a :: a in spammers && a !in left ==> Size(pending, a) <= Size(pending, o)
      {
        var a :| a in left;
        if |pending[a].items| > |pending[o].items| {
          o := a;
        }
        left := left - {a};
      }
    }

    /** The next suspect joins those penalised, who are brought down to its level first. */
    method Penalise(offenders: seq<Address>, o: Address, count: nat, ghost p0: Lists, ghost spammers: set<Address>,
                    ghost len: nat)
      returns (left: nat, ghost low: nat)
      requires o in spammers && forall a :: a in spammers ==> Size(pending, a) <= Size(pending, o)
      requires count == Count(pending) > config.globalSlots && len >= config.accountSlots
      requires Suspects(pending, locals, config.accountSlots, offenders, spammers)
      requires offenders == [] ==> pending == p0
      requires offenders != [] ==> Leveled(p0, offenders, spammers, len, len)
      requires Valid()
      modifies this`pending, this`virt, this`all, this`heap, this`stales
      ensures left == Count(pending) && low >= config.accountSlots
      ensures Fair(p0, pending, locals, low) && Cut(old(pending), pending)
      ensures Suspects(pending, locals, config.accountSlots, offenders + [o], spammers - {o})
      ensures left > config.globalSlots ==> Leveled(p0, offenders + [o], spammers - {o}, low, low)
      ensures Frugal(p0, pending, config.globalSlots)
      ensures all <= old(all)
      ensures Valid()
      ensures old(Contiguous()) ==> Contiguous()
    {
      hide Inside, Runs, Count, Fair, Suspects, Leveled, Cut, Frugal;
      CutRefl(pending);
      SuspectsIn(pending, locals, config.accountSlots, offenders, spammers);
      if offenders == [] {
        left, low := count, |pending[o].items|;
        FrugalIs(p0, pending, config.globalSlots, [], count);
        FirstSuspect(pending, locals, config.accountSlots, spammers, o);
        UntouchedRefl(pending, offenders);
        FirstLevel(o, spammers);
      } else {
        NextLevel(p0, offenders, spammers, o, len);
        left, low := LowerTo(offenders, |pending[o].items|, count, p0, spammers, len);
        Joined(p0, offenders, spammers, o, old(pending), low);
      }
    }

    lemma NextLevel(p0: Lists, offenders: seq<Address>, spammers: set<Address>, o: Address, len: nat)
      requires Leveled(p0, offenders, spammers, len, len)
      requires o in spammers && forall a :: a in spammers ==> Size(pending, a) <= Size(pending, o)
      ensures o in pending && Leveled(p0, offenders, spammers, |pending[o].items|, len)
    {
    }

    lemma FirstLevel(o: Address, spammers: set<Address>)
      requires Suspects(pending, locals, config.accountSlots, [], spammers)
      requires o in spammers && forall a :: a in spammers ==> Size(pending, a) <= Size(pending, o)
      ensures o in pending && [] + [o] == [o] && |pending[o].items| > config.accountSlots
      ensures Suspects(pending, locals, config.accountSlots, [o], spammers - {o})
      ensures Leveled(pending, [o], spammers - {o}, |pending[o].items|, |pending[o].items|)
    {
      SuspectsIn(pending, locals, config.accountSlots, [], spammers);
      FirstSuspect(pending, locals, config.accountSlots, spammers, o);
      UntouchedRefl(pending, []);
      SuspectJoins(pending, pending, locals, config.accountSlots, [], spammers, o);
      assert [] + [o] == [o];
      hide Fair, Suspects;
    }

    lemma Joined(p0: Lists, offenders: seq<Address>, spammers: set<Address>, o: Address, before: Lists, low: nat)
      requires o in spammers && Leveled(p0, offenders, spammers, Size(before, o), low)
      requires o !in offenders && Untouched(before, pending, offenders)
      ensures Fair(p0, pending, locals, low) && low >= config.accountSlots
      ensures Suspects(pending, locals, config.accountSlots, offenders + [o], spammers - {o})
      ensures low == Size(before, o) ==> Leveled(p0, offenders + [o], spammers - {o}, low, low)
    {
      SuspectJoins(p0, pending, locals, config.accountSlots, offenders, spammers, o);
      assert Size(pending, o) == Size(before, o) by {
        assert At(pending, o) == At(before, o);
      }
      hide Fair, Suspects, Untouched;
      if low == Size(before, o) {
        LevelMore(pending, offenders, o, low);
      }
    }

    // ----- The limit on queued transactions

    /** Removes queued transactions of an account from the highest nonce down, `count` of them. */
    method RemoveTail(a: Address, count: nat)
      requires count <= Size(queue, a)
      requires Valid()
      modifies this`pending, this`queue, this`beats, this`virt, this`all, this`heap, this`stales
      ensures Size(queue, a) == old(Size(queue, a)) - count && Count(queue) == old(Count(queue)) - count
      ensures forall b :: b != a ==> At(queue, b) == old(At(queue, b))
      ensures Cut(old(queue), queue)
      ensures pending == old(pending) && virt == old(virt) && beats == old(beats)
      ensures all <= old(all)
      ensures Valid()
    {
      hide Count, Inside, Cut;
      CutRefl(queue);
      var k := 0;
      while k < count
        invariant k <= count
        invariant Size(queue, a) == old(Size(queue, a)) - k && Count(queue) == old(Count(queue)) - k
        invariant forall b :: b != a ==> At(queue, b) == old(At(queue, b))
        invariant Cut(old(queue), queue)
        invariant pending == old(pending) && virt == old(virt) && beats == old(beats)
        invariant all <= old(all)
        invariant Valid()
      {
        ghost var before := queue;
        var items := queue[a].items;
        var n := HighestOf(items);
        QueuedTx(a, n);
        RemoveTx(items[n], true, {});
        CountChange(before, queue, a);
        CutOne(before, queue, a);
        CutTrans(old(queue), before, queue);
        assert {} - {items[n]} == {};
        k := k + 1;
      }
    }

    lemma QueuedTx(a: Address, n: nat)
      requires Valid() && a in queue && n in queue[a].items
      ensures var tx := queue[a].items[n];
              tx.from == a && tx.nonce == n && Held(queue, tx) && !Held(pending, tx) && tx in all
    {
    }

    function Beat(a: Address): (r: nat)
      reads this`beats
    {
      BeatOf(beats, a)
    }

    /** An account with the latest sign of life. */
    method PickLatest(accounts: set<Address>) returns (a: Address)
      requires accounts != {}
      ensures a in accounts && forall b :: b in accounts ==> Beat(b) <= Beat(a)
    {
      a :| a in accounts;
      var left := accounts - {a};
      while left != {}
        invariant left <= accounts && a in accounts
        invariant forall b :: b in accounts && b !in left ==> Beat(b) <= Beat(a)
      {
        var b :| b in left;
        if Beat(b) > Beat(a) {
          a := b;
        }
        left := left - {b};
      }
    }

    /** Drops queued transactions of accounts that are not local until the queue is within its
        limit or only local ones are left. Accounts with the latest sign of life lose first. */
    method TruncateQueue()
      requires Valid()
      modifies this`pending, this`queue, this`beats, this`virt, this`all, this`heap, this`stales
      ensures QueueWithinLimits()
      ensures Cut(old(queue), queue)
      ensures old(Count(queue)) <= config.globalQueue ==> queue == old(queue)
      ensures old(Count(queue)) > config.globalQueue ==> Count(queue) >= config.globalQueue
      ensures forall a :: Size(queue, a) <= old(Size(queue, a))
      ensures forall a :: a in locals ==> At(queue, a) == old(At(queue, a))
      ensures forall a, b :: Later(beats, locals, a, b) && At(queue, a) != old(At(queue, a)) ==> At(queue, b) == map[]
      ensures pending == old(pending) && virt == old(virt) && beats == old(beats)
      ensures all <= old(all)
      ensures Valid()
    {
      hide Count, Inside, Cut, LatestFirst, BeatOf, Later, At;
      CutRefl(queue);
      var queued := Total(queue);
      if queued > config.globalQueue {
        var accounts := set a | a in queue && a !in locals;
        var drop: nat := queued - config.globalQueue;
        LatestNone(queue, beats, locals);
        while drop > 0 && accounts != {}
          invariant Count(queue) == config.globalQueue + drop
          invariant accounts !! locals && Cut(old(queue), queue)
          invariant drop > 0 ==> forall a :: a !in locals && a !in accounts ==> At(queue, a) == map[]
          invariant LatestFirst(old(queue), queue, beats, locals, accounts)
          invariant forall a :: Size(queue, a) <= old(Size(queue, a))
          invariant forall a :: a in locals ==> At(queue, a) == old(At(queue, a))
          invariant pending == old(pending) && virt == old(virt) && beats == old(beats)
          invariant all <= old(all)
          invariant Valid()
          decreases |accounts|
        {
          var a, n := DropLatest(accounts, drop, old(queue));
          accounts, drop := accounts - {a}, drop - n;
        }
        LatestMeans(old(queue), queue, beats, locals, accounts);
      }
    }

    /** The account with the latest sign of life loses `drop` transactions, or all it has. */
    method DropLatest(accounts: set<Address>, drop: nat, ghost first: Lists) returns (a: Address, n: nat)
      requires accounts != {} && accounts !! locals && Cut(first, queue) && drop > 0
      requires LatestFirst(first, queue, beats, locals, accounts)
      requires forall b :: b !in locals && b !in accounts ==> At(queue, b) == map[]
      requires Valid()
      modifies this`pending, this`queue, this`beats, this`virt, this`all, this`heap, this`stales
      ensures a in accounts && n <= drop && Count(queue) == old(Count(queue)) - n
      ensures n < drop ==> At(queue, a) == map[]
      ensures forall b :: b != a ==> At(queue, b) == old(At(queue, b))
      ensures forall b :: Size(queue, b) <= old(Size(queue, b))
      ensures LatestFirst(first, queue, beats, locals, accounts - {a}) && Cut(first, queue)
      ensures pending == old(pending) && virt == old(virt) && beats == old(beats)
      ensures all <= old(all)
      ensures Valid()
    {
      hide Count, Inside, Cut, LatestFirst, BeatOf;
      a := PickLatest(accounts);
      var size := Size(queue, a);
      n := if size <= drop then size else drop;
      ghost var before := queue;
      RemoveTail(a, n);
      LatestNext(first, before, queue, beats, locals, accounts, a);
      CutTrans(first, before, queue);
    }

    /** Promotes what has become executable for the given accounts, and enforces the limits of the pool.
        `ready` and `rest` are the lists in between. A transaction leaves the pool only if it was queued
        for one of the accounts and is used up, too expensive or beyond the limit of its account, or if
        it is cut off the end of its list because one of the two global limits is exceeded. */
    method PromoteExecutables(accounts: seq<Address>, now: nat) returns (ghost ready: Lists, ghost rest: Lists)
      requires Valid()
      modifies this`pending, this`queue, this`beats, this`virt, this`all, this`heap, this`stales
      ensures NoRepeats(accounts) ==>
        forall a :: a in accounts ==> Advanced(old(Now()), old(pending), old(queue), ready, rest, a)
      ensures forall a :: a !in accounts ==> At(ready, a) == old(At(pending, a)) && At(rest, a) == old(At(queue, a))
      ensures NoRepeats(accounts) ==>
        Promotion(Conditions(), old(Snapshot()), Members(accounts), ready, rest, Snapshot())
      ensures Count(ready) <= |old(all)|
      ensures Trimmed(config, ready, rest, Snapshot())
      ensures PendingWithinLimits()
      ensures QueueWithinLimits()
      ensures forall a :: a in accounts && a !in locals ==> Size(queue, a) <= config.accountQueue
      ensures forall a :: a !in accounts ==> Size(queue, a) <= old(Size(queue, a))
      ensures all <= old(all)
      ensures Valid()
      ensures old(Contiguous()) ==> Contiguous()
    {
      hide Count, Inside, Runs, Trimmed, Advanced, PartlyAdvanced, OthersRest, At, Promotion, NoRepeats,
           PendingWithinLimits, QueueWithinLimits, Sorted, Size;
      PromoteAccounts(accounts, now);
      ready, rest := pending, queue;
      AdvancedAre(old(Now()), old(pending), old(queue), ready, rest, virt, accounts);
      PendingCount();
      SubsetSize(all, old(all));
      EnforceLimits();
      if NoRepeats(accounts) {
        InOrder();
        PromotionIs(Conditions(), old(Snapshot()), accounts, ready, rest, Snapshot());
      }
    }

    lemma InOrder()
      requires Valid()
      ensures Sorted(Snapshot())
    {
    }

    /** Cuts pending and queue where they are above the limits for all accounts together. */
    method EnforceLimits()
      requires Valid()
      modifies this`pending, this`queue, this`beats, this`virt, this`all, this`heap, this`stales
      ensures Trimmed(config, old(pending), old(queue), Snapshot())
      ensures PendingWithinLimits() && QueueWithinLimits()
      ensures forall a :: Size(queue, a) <= old(Size(queue, a))
      ensures all <= old(all)
      ensures Valid()
      ensures old(Contiguous()) ==> Contiguous()
    {
      hide Count, Inside, Runs, Fair, Cut, At, Size, Frugal;
      EqualizePending();
      ghost var len :| len >= config.accountSlots && Fair(old(pending), pending, locals, len);
      TruncateQueue();
      assert len >= config.accountSlots && Fair(old(pending), pending, locals, len);
    }

    /** Promotion for all accounts that have anything queued. */
    method PromoteAll(now: nat) returns (ghost ready: Lists, ghost rest: Lists)
      requires Valid()
      modifies this`pending, this`queue, this`beats, this`virt, this`all, this`heap, this`stales
      ensures Promotion(Conditions(), old(Snapshot()), old(queue.Keys), ready, rest, Snapshot())
      ensures PendingWithinLimits() && QueueWithinLimits()
      ensures forall a :: a !in locals ==> Size(queue, a) <= config.accountQueue
      ensures Valid()
      ensures old(Contiguous()) ==> Contiguous()
    {
      hide Inside, Runs, Count, Promotion, Trimmed, Advanced, NoRepeats;
      var accounts := Accounts(queue.Keys);
      assert Members(accounts) == queue.Keys;
      ready, rest := PromoteExecutables(accounts, now);
    }

    lemma PendingCount()
      requires Valid()
      ensures Count(pending) <= |all|
    {
      CountWithin(pending, true, all);
    }

    method PromoteAccounts(accounts: seq<Address>, now: nat)
      requires Valid()
      modifies this`pending, this`queue, this`beats, this`virt, this`all, this`heap, this`stales
      ensures OthersRest(old(Now()), old(pending), old(queue), pending, queue, virt, Members(accounts))
      ensures NoRepeats(accounts) ==>
        PartlyAdvanced(old(Now()), old(pending), old(queue), pending, queue, virt, Members(accounts))
      ensures forall a :: a in accounts && a !in locals ==> Size(queue, a) <= config.accountQueue
      ensures all <= old(all)
      ensures Valid()
      ensures old(Contiguous()) ==> Contiguous()
    {
      hide Inside, Runs, NoRepeats, Advanced, OthersRest, PartlyAdvanced, At, Size;
      ghost var setting, p0, q0 := Now(), pending, queue;
      NoneAdvanced(setting, pending, queue);
      var i := 0;
      assert Members(accounts[..0]) == {};
      while i < |accounts|
        invariant i <= |accounts|
        invariant OthersRest(setting, p0, q0, pending, queue, virt, Members(accounts[..i]))
        invariant NoRepeats(accounts) ==> PartlyAdvanced(setting, p0, q0, pending, queue, virt, Members(accounts[..i]))
        invariant forall a :: a in accounts[..i] && a !in locals ==> Size(queue, a) <= config.accountQueue
        invariant all <= old(all)
        invariant Valid()
        invariant old(Contiguous()) ==> Contiguous()
      {
        ghost var p1, q1, v1 := pending, queue, virt;
        OneMore(accounts, i);
        PromoteAccount(accounts[i], now);
        AdvancedMore(setting, p0, q0, p1, q1, v1, pending, queue, virt, Members(accounts[..i]), accounts[i]);
        i := i + 1;
      }
      assert accounts[..i] == accounts;
    }

    /** What promotion goes by. */
    ghost function Now(): (s: Setting)
      reads this`nonces, this`balances, this`maxGas, this`virt, this`locals
    {
      Setting(nonces, balances, maxGas, virt, locals, config.accountQueue)
    }

    // ----- Demotion

    /** Drops pending transactions whose nonce is used up. */
    method DemoteStale(a: Address)
      requires a in pending
      requires Valid()
      modifies this`pending, this`all, this`heap, this`stales
      ensures a in pending && At(pending, a) == From(old(At(pending, a)), nonces(a))
      ensures old(Gapless(At(pending, a))) ==> Gapless(At(pending, a))
      ensures Untouched(old(pending), pending, [a])
      ensures all <= old(all)
      ensures Valid()
    {
      hide Partition, From, Below, CapsOk, Parted, Within, Gapless;
      var v := pending[a];
      if Gapless(v.items) {
        GaplessFrom(v.items, nonces(a));
      }
      CutParts(v.items, nonces(a));
      PendingCaps(a);
      PartCaps(v, From(v.items, nonces(a)));
      ShrinkPending(a, v.(items := From(v.items, nonces(a))), Below(v.items, nonces(a)));
      ghost var out := Below(v.items, nonces(a)).Values;
      DropAll(Below(v.items, nonces(a)), out);
      assert out - out == {};
    }

    /** Drops pending transactions that cost or use too much, and queues those after them. */
    method DemoteExpensive(a: Address)
      requires a in pending
      requires Valid()
      modifies this`pending, this`queue, this`all, this`heap, this`stales
      ensures a in pending && At(pending, a) == Payable(old(At(pending, a)), balances(a), maxGas)
      ensures At(queue, a) == old(At(queue, a)) + Stranded(old(At(pending, a)), balances(a), maxGas)
      ensures forall b :: b != a ==> At(queue, b) == old(At(queue, b))
      ensures old(Gapless(At(pending, a))) ==> Gapless(At(pending, a))
      ensures Untouched(old(pending), pending, [a])
      ensures all <= old(all)
      ensures Valid()
    {
      hide Partition, CapsOk, Parted, Within, FilterList, Gapless;
      var v := pending[a];
      PendingCaps(a);
      if Gapless(v.items) {
        GaplessFiltered(v, balances(a), maxGas);
      }
      FilterStrictParts(v, balances(a), maxGas);
      FilterStrict(v, balances(a), maxGas);
      var f := FilterList(v, balances(a), maxGas);
      ShrinkPending(a, f.list, f.removed + f.invalids);
      SplitValues(f.removed, f.invalids);
      DropAll(f.removed, (f.removed + f.invalids).Values);
      EnqueueAll(f.invalids, a, {});
    }

    /** Queues all pending transactions of an account whose next nonce is missing. */
    method DemoteGapped(a: Address)
      requires a in pending
      requires Valid()
      modifies this`pending, this`queue, this`all, this`heap, this`stales
      ensures a in pending && At(pending, a) == if nonces(a) in old(At(pending, a)) then old(At(pending, a)) else map[]
      ensures At(queue, a) ==
        old(At(queue, a)) + if nonces(a) in old(At(pending, a)) then map[] else old(At(pending, a))
      ensures forall b :: b != a ==> At(queue, b) == old(At(queue, b))
      ensures old(Gapless(At(pending, a))) ==> Gapless(At(pending, a))
      ensures Untouched(old(pending), pending, [a])
      ensures all <= old(all)
      ensures Valid()
    {
      hide Partition, CapsOk, Parted, Within, Gapless;
      GaplessNone();
      var v := pending[a];
      if |v.items| > 0 && nonces(a) !in v.items {
        PendingCaps(a);
        NoneOf(v);
        ShrinkPending(a, v.(items := map[]), v.items);
        EnqueueAll(v.items, a, {});
      }
    }

    /** Brings the pending list of one account up to date with the chain. */
    method DemoteAccount(a: Address)
      requires a in pending
      requires Valid()
      modifies this`pending, this`queue, this`beats, this`all, this`heap, this`stales
      ensures At(pending, a) == old(LeftPending(a)) && At(queue, a) == old(LeftQueued(a))
      ensures forall b :: b != a ==> At(pending, b) == old(At(pending, b)) && (b in pending <==> b in old(pending))
      ensures forall b :: b != a ==> At(queue, b) == old(At(queue, b))
      ensures a in pending ==> Lowest(At(pending, a), nonces(a))
      ensures old(Gapless(At(pending, a))) ==> Gapless(At(pending, a))
      ensures all <= old(all)
      ensures Valid()
    {
      hide Inside, Gapless, Payable, Stranded, From, StillPending, Demoted, Untouched;
      GaplessNone();
      KeptFrom(At(pending, a), nonces(a), balances(a), maxGas);
      DemotedIs(At(pending, a), At(queue, a), nonces(a), balances(a), maxGas);
      DemoteStale(a);
      ghost var stale := pending;
      DemoteExpensive(a);
      ghost var payable := pending;
      UntouchedTrans(old(pending), stale, payable, [a]);
      DemoteGapped(a);
      UntouchedTrans(old(pending), payable, pending, [a]);
      UntouchedOthers(old(pending), pending, a);
      if pending[a].items == map[] {
        DeletePending(a);
      }
    }

    /** The lists of an account after demotion: what leaves the pool is used up or cannot be paid for. */
    ghost function LeftPending(a: Address): (r: Txs)
      reads this`pending, this`nonces, this`balances, this`maxGas
    {
      StillPending(At(pending, a), nonces(a), balances(a), maxGas)
    }

    ghost function LeftQueued(a: Address): (r: Txs)
      reads this`pending, this`queue, this`nonces, this`balances, this`maxGas
    {
      At(queue, a) + Demoted(At(pending, a), nonces(a), balances(a), maxGas)
    }

    lemma NotPending(a: Address)
      requires a !in pending
      ensures LeftPending(a) == At(pending, a) && LeftQueued(a) == At(queue, a)
    {
      hide StillPending, Demoted;
      NothingPending(nonces(a), balances(a), maxGas);
    }

    method DeletePending(a: Address)
      requires a in pending && pending[a].items == map[]
      requires Valid()
      modifies this`pending, this`beats
      ensures pending == old(pending) - {a}
      ensures Valid()
    {
      hide Partition;
      EmptyPendingGoes(all, pending, queue, {}, a);
      pending, beats := pending - {a}, beats - {a};
    }

    /** Pending lists that are left start at the nonce of their account. */
    ghost predicate Started()
      reads this`pending, this`nonces
    {
      forall a :: a in pending ==> Lowest(At(pending, a), nonces(a))
    }

    /** Brings all pending lists up to date with the chain. */
    method DemoteUnexecutables()
      requires Valid()
      modifies this`pending, this`queue, this`beats, this`all, this`heap, this`stales
      ensures forall a :: At(pending, a) == old(LeftPending(a)) && At(queue, a) == old(LeftQueued(a))
      ensures Started()
      ensures forall a :: old(Gapless(At(pending, a))) ==> Gapless(At(pending, a))
      ensures all <= old(all)
      ensures Valid()
    {
      hide Inside, Gapless, StillPending, Demoted, Lowest, At;
      forall a | a !in pending
        ensures LeftPending(a) == At(pending, a) && LeftQueued(a) == At(queue, a)
      {
        NotPending(a);
      }
      var left := pending.Keys;
      while left != {}
        invariant left <= pending.Keys && left <= old(pending.Keys)
        invariant forall a :: a in left ==> At(pending, a) == old(At(pending, a)) && At(queue, a) == old(At(queue, a))
        invariant forall a :: a !in left ==> At(pending, a) == old(LeftPending(a)) && At(queue, a) == old(LeftQueued(a))
        invariant forall a :: a in pending && a !in left ==> Lowest(At(pending, a), nonces(a))
        invariant forall a :: old(Gapless(At(pending, a))) ==> Gapless(At(pending, a))
        invariant all <= old(all)
        invariant Valid()
        decreases |left|
      {
        var a :| a in left;
        DemoteAccount(a);
        left := left - {a};
      }
    }

    /** Sets the virtual nonce of each account with pending transactions behind the last of them. */
    method SetVirtual()
      requires Started()
      modifies this`virt
      ensures forall a ::
        GetNonce(a) == if At(pending, a) == map[] then old(GetNonce(a)) else HighestOf(At(pending, a)) + 1
      ensures old(virt) == map[] && (forall a :: Gapless(At(pending, a))) ==> Contiguous()
    {
      var left := pending.Keys;
      while left != {}
        invariant left <= pending.Keys
        invariant forall a :: a !in pending ==> GetNonce(a) == old(GetNonce(a))
        invariant forall a :: a in pending && a !in left ==> a in virt && virt[a] == HighestOf(At(pending, a)) + 1
        invariant forall a :: a in virt ==> a in old(virt) || a in pending
      {
        var a :| a in left;
        virt := virt[a := HighestOf(pending[a].items) + 1];
        left := left - {a};
      }
      if old(virt) == map[] && (forall a :: Gapless(At(pending, a))) {
        forall a ensures RunAt(pending, nonces, virt, a) {
        }
      }
    }

    // ----- Adding transactions

    /** The checks of a transaction; an account may be local even if the transaction is not. */
    function Validate(tx: Tx, local: bool): (r: Option<Error>)
      reads this`maxGas, this`locals, this`nonces, this`balances
    {
      Checked(Conditions(), tx, local || tx.from in locals)
    }

    /** Makes room by removing the cheapest transactions that are not local. */
    method MakeRoom(count: int)
      requires Valid()
      modifies this`pending, this`queue, this`beats, this`virt, this`all, this`heap, this`stales
      ensures all <= old(all) && forall t :: t in old(all) && t.from in locals ==> t in all
      ensures forall t, u :: t in old(all) && t !in all && u in all && u.from !in locals ==> t.price <= u.price
      ensures |all| >= |old(all)| - (if count > 0 then count else 0)
      ensures count > 0 && (exists t :: t in old(all) && t.from !in locals) ==> |all| < |old(all)|
      ensures count > 0 && Single(old(heap)) ==>
        |all| == |old(all)| - count || forall t :: t in all ==> t.from in locals
      ensures Valid()
      ensures old(Contiguous()) ==> Contiguous()
    {
      hide Single, Elements, Runs;
      var drop := Discard(count);
      RemoveAll(drop);
      ElementsSize(drop);
      SubsetSize(all, old(all));
      DroppedAre(old(all), all, drop);
    }

    /** Removes transactions that are off the price heap already. */
    method RemoveAll(drop: seq<Tx>)
      requires Inside({}, Elements(drop))
      modifies this`pending, this`queue, this`beats, this`virt, this`all, this`heap, this`stales
      ensures forall t :: t in all <==> t in old(all) && t !in drop
      ensures Valid()
      ensures old(Contiguous()) ==> Contiguous()
    {
      hide Partition, Runs;
      var i := 0;
      assert drop[0..] == drop;
      while i < |drop|
        invariant i <= |drop|
        invariant forall t :: t in all <==> t in old(all) && t !in drop[..i]
        invariant Inside({}, Elements(drop[i..]))
        invariant old(Contiguous()) ==> Contiguous()
      {
        ghost var but := Elements(drop[i..]);
        RemoveTx(drop[i], false, but);
        assert drop[i..] == [drop[i]] + drop[i + 1..];
        assert drop[..i + 1] == drop[..i] + [drop[i]];
        i := i + 1;
      }
      assert drop[..i] == drop;
    }

    /** Adds a transaction that passes the checks: in place of a pending one that it outbids, or to
        the queue. When the pool is full, cheaper ones go first, or the new one if it is cheapest. */
    method Add(tx: Tx, local: bool) returns (replaced: bool, err: Option<Error>)
      requires Valid()
      modifies this`pending, this`queue, this`beats, this`virt, this`all, this`heap, this`stales, this`locals
      ensures Adds(Conditions(), old(Snapshot()), tx, local, replaced, err, Snapshot())
      ensures tx in old(all) <==> err == Some(Known)
      ensures tx !in old(all) && old(Validate(tx, local)).Some? ==> err == old(Validate(tx, local))
      ensures tx !in old(all) && old(Validate(tx, local)).None? ==>
        (err == Some(Underpriced) <==> old(TooCheap(config, Snapshot(), tx, local)))
      ensures err.Some? && err != Some(ReplaceUnderpriced) ==>
        all == old(all) && pending == old(pending) && queue == old(queue) && virt == old(virt)
      ensures err == None && Room(config, old(all)) && tx.nonce !in old(At(pending, tx.from)) ==>
        && pending == old(pending) && virt == old(virt)
        && At(queue, tx.from) == old(At(queue, tx.from))[tx.nonce := tx]
        && (replaced <==> tx.nonce in old(At(queue, tx.from)))
      ensures err == None ==> tx in all && old(Validate(tx, local)) == None
      ensures err == None ==> (replaced || Held(queue, tx))
      ensures all <= old(all) + {tx}
      ensures old(locals) <= locals <= old(locals) + (if local then {tx.from} else {})
      ensures Valid()
      ensures old(Contiguous()) ==> Contiguous()
    {
      hide Inside, Runs, Adds, Squeezed, Placed, Checked, TooCheap;
      ghost var v := Snapshot();
      if Due(Conditions(), v, tx, local).Some? {
        AddsRefused(Conditions(), v, tx, local);
      }
      if tx in all {
        return false, Some(Known);
      }
      CheckedIs(Conditions(), tx, local || tx.from in locals);
      var invalid := Validate(tx, local);
      if invalid.Some? {
        return false, invalid;
      }
      var cheap := Squeeze(tx, local);
      if cheap {
        return false, Some(Underpriced);
      }
      ghost var m := Snapshot();
      replaced, err := Admit(tx, local);
      AddsPlaced(Conditions(), v, m, tx, local, replaced, err, Snapshot());
    }

    /** When the pool is full, makes room for a transaction unless it is cheapest itself. */
    method Squeeze(tx: Tx, local: bool) returns (cheap: bool)
      requires Valid()
      modifies this`pending, this`queue, this`beats, this`virt, this`all, this`heap, this`stales
      ensures cheap <==> old(TooCheap(config, Snapshot(), tx, local))
      ensures cheap || Room(config, old(all)) ==> Snapshot() == old(Snapshot())
      ensures !cheap ==> Squeezed(config, old(Snapshot()), Snapshot())
      ensures !cheap && Single(old(heap)) ==> Room(config, all) || forall t :: t in all ==> t.from in locals
      ensures all <= old(all) && forall t :: t in old(all) && t.from in locals ==> t in all
      ensures forall t, u :: t in old(all) && t !in all && u in all && u.from !in locals ==> t.price <= u.price
      ensures Valid()
      ensures old(Contiguous()) ==> Contiguous()
    {
      hide Partition, Runs;
      cheap := false;
      if !Room(config, all) {
        if !local {
          cheap := IsUnderpriced(tx);
        }
        if !cheap {
          MakeRoom(|all| - (config.globalSlots + config.globalQueue - 1));
        }
      }
    }

    /** Files a transaction that passed the checks. */
    method Admit(tx: Tx, local: bool) returns (replaced: bool, err: Option<Error>)
      requires tx !in all
      requires Valid()
      modifies this`pending, this`queue, this`beats, this`virt, this`all, this`heap, this`stales, this`locals
      ensures Placed(config, old(Snapshot()), tx, local, replaced, err, Snapshot())
      ensures err == None || err == Some(ReplaceUnderpriced)
      ensures err == None ==> tx in all && (replaced || Held(queue, tx))
      ensures err == None && tx.nonce !in old(At(pending, tx.from)) ==>
        && pending == old(pending) && virt == old(virt)
        && At(queue, tx.from) == old(At(queue, tx.from))[tx.nonce := tx]
        && (replaced <==> tx.nonce in old(At(queue, tx.from)))
      ensures all <= old(all) + {tx}
      ensures old(locals) <= locals <= old(locals) + (if local then {tx.from} else {})
      ensures Valid()
      ensures old(Contiguous()) ==> Contiguous()
    {
      hide Partition, Runs, Placed, Filled, Outbids;
      ghost var v := Snapshot();
      if tx.from in pending && tx.nonce in pending[tx.from].items {
        replaced := ReplaceInPending(tx);
        err := if replaced then None else Some(ReplaceUnderpriced);
        if replaced {
          SlotFilled(v, tx, Snapshot());
        }
        PlacedPending(config, v, tx, local, replaced, Snapshot());
      } else {
        var inserted;
        inserted, replaced := EnqueueTx(tx, {}, {});
        assert {} - {tx} == {};
        if !inserted {
          PlacedQueue(config, v, tx, local, false, replaced, Snapshot());
          return false, Some(ReplaceUnderpriced);
        }
        QueuedIsKnown(all, pending, queue, tx);
        err := None;
        if local {
          locals := locals + {tx.from};
        }
        SlotFilled(v, tx, Snapshot());
        PlacedQueue(config, v, tx, local, true, replaced, Snapshot());
      }
    }

    /** Puts a transaction in the place of a pending one, if it outbids that. */
    method ReplaceInPending(tx: Tx) returns (inserted: bool)
      requires tx !in all && tx.from in pending && tx.nonce in pending[tx.from].items
      requires Valid()
      modifies this`pending, this`all, this`heap, this`stales
      ensures inserted <==> old(Accepts(pending[tx.from], tx, config.priceBump))
      ensures inserted ==> Held(pending, tx) && tx in all && all <= old(all) + {tx}
      ensures inserted ==> At(pending, tx.from) == old(At(pending, tx.from))[tx.nonce := tx]
      ensures forall a :: a != tx.from ==> At(pending, a) == old(At(pending, a))
      ensures !inserted ==> all == old(all) && pending == old(pending)
      ensures Valid()
      ensures old(Contiguous()) ==> Contiguous()
    {
      hide Partition;
      var v := pending[tx.from];
      ReplacePending(all, pending, queue, tx, v);
      inserted := Accepts(v, tx, config.priceBump);
      if inserted {
        var previous := v.items[tx.nonce];
        pending := pending[tx.from := Added(v, tx)];
        all := all - {previous};
        PriceRemoved({});
        all := all + {tx};
        PutPrice(tx);
        SameRuns(old(pending), pending, nonces, virt, tx.from);
      }
    }

    /** Adds a transaction and promotes what becomes executable with it. With room in the pool, a
        transaction with the next nonce is pending then. */
    method AddTx(tx: Tx, local: bool, now: nat)
      returns (err: Option<Error>, ghost log: Log, ghost ready: Lists, ghost rest: Lists)
      requires Valid()
      modifies this`pending, this`queue, this`beats, this`virt, this`all, this`heap, this`stales, this`locals
      ensures Batched(Conditions(), old(Snapshot()), [tx], local, [err], log, ready, rest, Snapshot())
      ensures all <= old(all) + {tx}
      ensures tx in old(all) <==> err == Some(Known)
      ensures tx !in old(all) && old(Validate(tx, local)).Some? ==> err == old(Validate(tx, local))
      ensures tx !in old(all) && old(Validate(tx, local)).None? ==>
        (err == Some(Underpriced) <==> old(TooCheap(config, Snapshot(), tx, local)))
      ensures err == None ==> tx in all || CutBack(config, ready, rest, Snapshot(), tx)
      ensures err == None && old(Contiguous()) && NextOf(old(Snapshot()), tx) && |old(all)| < config.globalSlots ==>
        Held(pending, tx)
      ensures old(Proper()) ==> Proper()
      ensures Valid()
      ensures old(Contiguous()) ==> Contiguous()
    {
      hide Inside, Runs, Count, Advanced, Trimmed, TooCheap, Validate, Adds, AllSound, Batched, Promotion, CutBack,
           Sorted, NextOf, Held, At, NoRepeats, Room, Accounted;
      InOrder();
      ghost var v := Snapshot();
      var replaced;
      replaced, err := Add(tx, local);
      ghost var m := Snapshot();
      log, ready, rest := Log([v, m], [replaced]), pending, queue;
      if err == None && !replaced {
        OneAccount(tx.from);
        ready, rest := PromoteExecutables([tx.from], now);
      }
      BatchOfOne(Conditions(), v, tx, local, replaced, err, m, ready, rest, Snapshot());
      OneOutcome(v, tx, local, err, log, ready, rest);
      BatchSound(Conditions(), v, [tx], local, [err], log, ready, rest, Snapshot());
    }

    lemma OneOutcome(v: Stage, tx: Tx, local: bool, err: Option<Error>, log: Log, ready: Lists, rest: Lists)
      requires Batched(Conditions(), v, [tx], local, [err], log, ready, rest, Snapshot()) && Sorted(v)
      ensures err == None ==> tx in all || CutBack(config, ready, rest, Snapshot(), tx)
      ensures err == None && Runs(v.pending, nonces, v.virt) && NextOf(v, tx) && |v.all| < config.globalSlots ==>
        Held(pending, tx)
    {
      hide Batched, Runs, NextOf, Held, Sorted, CutBack, Accounted;
      BatchOutcome(v, [tx], local, [err], log, ready, rest);
      assert LastInSlot([tx], [err], 0);
      assert [tx][0] == tx && [err][0] == err;
      if err == None {
        OneAccepted(Conditions(), tx, log, ready, rest, Snapshot());
      }
    }

    /** Adds transactions in turn and promotes what becomes executable with them. */
    method AddTxs(txs: seq<Tx>, local: bool, now: nat)
      returns (errs: seq<Option<Error>>, ghost log: Log, ghost ready: Lists, ghost rest: Lists)
      requires Valid()
      modifies this`pending, this`queue, this`beats, this`virt, this`all, this`heap, this`stales, this`locals
      ensures |errs| == |txs|
      ensures Batched(Conditions(), old(Snapshot()), txs, local, errs, log, ready, rest, Snapshot())
      ensures forall i :: 0 <= i < |txs| && errs[i] == None ==>
        |log.views| == |errs| + 1 && Accounted(Conditions(), txs, errs, log, ready, rest, Snapshot(), i + 1, txs[i])
      ensures old(Contiguous()) && |old(all)| + |txs| <= config.globalSlots ==>
        forall i :: 0 <= i < |txs| && errs[i] == None && NextOf(old(Snapshot()), txs[i]) && LastInSlot(txs, errs, i) ==>
          Held(pending, txs[i])
      ensures txs == [] ==> pending == old(pending) && queue == old(queue) && virt == old(virt)
      ensures old(Proper()) ==> Proper()
      ensures Valid()
      ensures old(Contiguous()) ==> Contiguous()
    {
      hide Inside, Runs, Count, Batched, Chain, Accounted, Held, Promotion, NoRepeats, Sorted, Trimmed, Advanced, Dirty,
           LastInSlot;
      InOrder();
      ghost var v := Snapshot();
      var dirty;
      errs, dirty, log := AddEach(txs, local);
      ready, rest := pending, queue;
      ghost var m := Snapshot();
      if dirty != [] {
        ready, rest := PromoteExecutables(dirty, now);
      }
      BatchIs(Conditions(), v, txs, local, errs, log, dirty, ready, rest, m, Snapshot());
      BatchOutcome(v, txs, local, errs, log, ready, rest);
      BatchSound(Conditions(), v, txs, local, errs, log, ready, rest, Snapshot());
    }

    /** What a batch means for those accepted. */
    lemma BatchOutcome(v: Stage, txs: seq<Tx>, local: bool, errs: seq<Option<Error>>, log: Log, ready: Lists,
        rest: Lists)
      requires |errs| == |txs| && Batched(Conditions(), v, txs, local, errs, log, ready, rest, Snapshot()) && Sorted(v)
      ensures |log.views| == |errs| + 1
      ensures forall i :: 0 <= i < |txs| && errs[i] == None ==>
        Accounted(Conditions(), txs, errs, log, ready, rest, Snapshot(), i + 1, txs[i])
      ensures Runs(v.pending, nonces, v.virt) && |v.all| + |txs| <= config.globalSlots ==>
        forall i :: 0 <= i < |txs| && errs[i] == None && NextOf(v, txs[i]) && LastInSlot(txs, errs, i) ==>
          Held(pending, txs[i])
    {
      hide Accounted, Runs, Held, StepOf, Promotion, Sorted;
      forall i | 0 <= i < |txs| && errs[i] == None
        ensures Accounted(Conditions(), txs, errs, log, ready, rest, Snapshot(), i + 1, txs[i])
      {
        BatchAccepts(Conditions(), v, txs, local, errs, log, ready, rest, Snapshot(), i);
      }
      if Runs(v.pending, nonces, v.virt) && |v.all| + |txs| <= config.globalSlots {
        forall i | 0 <= i < |txs| && errs[i] == None && NextOf(v, txs[i]) && LastInSlot(txs, errs, i)
          ensures Held(pending, txs[i])
        {
          NextIsFree(v, txs[i]);
          BatchPromotes(Conditions(), v, txs, local, errs, log, ready, rest, Snapshot(), i);
        }
      }
    }

    /** A transaction with the next nonce of its account, which is not queued. */
    ghost predicate NextOf(v: Stage, tx: Tx)
      reads this`nonces
    {
      tx.nonce == Virtual(nonces, v.virt, tx.from) && tx.nonce !in At(v.queue, tx.from)
    }

    lemma NextIsFree(v: Stage, tx: Tx)
      requires Runs(v.pending, nonces, v.virt) && NextOf(v, tx)
      ensures tx.nonce !in At(v.pending, tx.from)
    {
      assert RunAt(v.pending, nonces, v.virt, tx.from);
    }

    /** Adds transactions in turn, and notes the accounts that have something new in the queue. */
    method AddEach(txs: seq<Tx>, local: bool)
      returns (errs: seq<Option<Error>>, dirty: seq<Address>, ghost log: Log)
      requires Valid()
      modifies this`pending, this`queue, this`beats, this`virt, this`all, this`heap, this`stales, this`locals
      ensures |errs| == |txs| && Chain(Conditions(), old(Snapshot()), txs, local, errs, log) && Last(log) == Snapshot()
      ensures NoRepeats(dirty) && Members(dirty) == Dirty(txs, errs, log)
      ensures txs == [] ==> pending == old(pending) && queue == old(queue) && virt == old(virt) && dirty == []
      ensures Valid()
      ensures old(Contiguous()) ==> Contiguous()
    {
      hide Inside, Runs, Adds, Chain, Dirty, Members, NoRepeats, At, Room, TooCheap, Validate, Held;
      NoRepeatsNone();
      errs, dirty, log := [], [], Log([Snapshot()], []);
      ChainNone(Conditions(), Snapshot(), txs, local);
      DirtyNone(txs, log);
      var i := 0;
      while i < |txs|
        invariant i <= |txs| && |errs| == |log.replaced| == i
        invariant Chain(Conditions(), old(Snapshot()), txs, local, errs, log)
        invariant log.views != [] && Last(log) == Snapshot()
        invariant NoRepeats(dirty) && Members(dirty) == Dirty(txs, errs, log)
        invariant txs == [] ==> pending == old(pending) && queue == old(queue) && virt == old(virt) && dirty == []
        invariant Valid()
        invariant old(Contiguous()) ==> Contiguous()
      {
        var replaced, err := Add(txs[i], local);
        ChainMore(Conditions(), old(Snapshot()), txs, local, errs, log, replaced, err, Snapshot());
        DirtyMore(txs, errs, log, Snapshot(), replaced, err);
        MembersMore(dirty, txs[i].from);
        errs, log := errs + [err], Log(log.views + [Snapshot()], log.replaced + [replaced]);
        if err == None && !replaced && txs[i].from !in dirty {
          NoRepeatsMore(dirty, txs[i].from);
          dirty := dirty + [txs[i].from];
        }
        i := i + 1;
      }
    }

    /** An account has not been active for the lifetime of queued transactions. */
    predicate Expired(a: Address, now: nat)
      reads this`beats
    {
      now - Beat(a) > config.lifetime
    }

    /** Removes the queued transactions of accounts without a sign of life, unless they are local. */
    method Evict(now: nat)
      requires Valid()
      modifies this`pending, this`queue, this`beats, this`virt, this`all, this`heap, this`stales
      ensures forall a :: a !in locals && now - BeatOf(beats, a) > config.lifetime ==> At(queue, a) == map[]
      ensures forall a :: a in locals || now - BeatOf(beats, a) <= config.lifetime ==> At(queue, a) == old(At(queue, a))
      ensures pending == old(pending) && virt == old(virt) && beats == old(beats)
      ensures all <= old(all)
      ensures old(Proper()) ==> Proper()
      ensures Valid()
    {
      hide Inside, Count, Sound;
      var left := queue.Keys;
      while left != {}
        invariant forall a ::
          At(queue, a) == if a !in left && a !in locals && Expired(a, now) then map[] else old(At(queue, a))
        invariant pending == old(pending) && virt == old(virt) && beats == old(beats)
        invariant all <= old(all)
        invariant Valid()
      {
        var a :| a in left;
        if a !in locals && Expired(a, now) {
          RemoveTail(a, Size(queue, a));
        }
        left := left - {a};
      }
    }

    /** Moves the pool to a new head of the chain: takes over its state, adds transactions that the
        old chain had and the new one lacks, and sorts all transactions anew. */
    method Reset(state: Address -> nat, funds: Address -> int, gasLimit: nat, reinject: seq<Tx>, now: nat)
      returns (ghost l: Passage)
      requires Valid()
      modifies this
      ensures Resets(Conditions(), old(Snapshot()), reinject, l, Snapshot())
      ensures |l.errs| == |reinject| && |l.log.views| == |reinject| + 1
      ensures forall t :: t in old(all) && Fit(Conditions(), t) ==>
        Survives(Conditions(), reinject, l, Snapshot(), 0, t)
      ensures forall i ::
        0 <= i < |reinject| && Checked(Conditions(), reinject[i], reinject[i].from in old(locals)).None? ==>
        || TurnedAway(Conditions(), l.log.views[i], reinject[i], l.errs[i])
        || Survives(Conditions(), reinject, l, Snapshot(), i, reinject[i])
        || Survives(Conditions(), reinject, l, Snapshot(), i + 1, reinject[i])
      ensures reinject == [] ==> forall a ::
        && At(l.down.pending, a) == StillPending(old(At(pending, a)), state(a), funds(a), gasLimit)
        && At(l.down.queue, a) == old(At(queue, a)) + Demoted(old(At(pending, a)), state(a), funds(a), gasLimit)
      ensures PendingWithinLimits()
      ensures QueueWithinLimits()
      ensures forall a :: a !in locals ==> Size(queue, a) <= config.accountQueue
      ensures nonces == state && balances == funds && maxGas == gasLimit
      ensures old(Proper()) ==> Proper()
      ensures Valid()
      ensures old(Contiguous()) && reinject == [] ==> Contiguous()
    {
      hide Inside, Runs, Count, Resets, Survives, TurnedAway, Batched, Demotion, Promotion, Checked, Fit, Demoted,
           StillPending, Sorted, At, Size;
      InOrder();
      ghost var v := Snapshot();
      var errs, log, ready, rest, full := Adopt(state, funds, gasLimit, reinject, now);
      ghost var down := Snapshot();
      ghost var upReady, upRest := PromoteAll(now);
      l := Passage(errs, log, ready, rest, full, down, upReady, upRest);
      ResetOutcome(v, reinject, l);
      ResetSound(Conditions(), v, reinject, l, Snapshot());
    }

    /** What a new head means for the transactions there were and those brought back. */
    lemma ResetOutcome(v: Stage, back: seq<Tx>, l: Passage)
      requires Sorted(v)
      requires Batched(Conditions(), v.(virt := map[]), back, false, l.errs, l.log, l.ready, l.rest, l.full)
      requires Demotion(Conditions(), l.full, l.down)
      requires Promotion(Conditions(), l.down, l.down.queue.Keys, l.upReady, l.upRest, Snapshot())
      ensures Resets(Conditions(), v, back, l, Snapshot())
      ensures |l.errs| == |back| && |l.log.views| == |back| + 1
      ensures back == [] ==> l.full == v.(virt := map[])
      ensures forall t :: t in v.all && Fit(Conditions(), t) ==> Survives(Conditions(), back, l, Snapshot(), 0, t)
      ensures forall i :: 0 <= i < |back| && Checked(Conditions(), back[i], back[i].from in v.locals).None? ==>
        || TurnedAway(Conditions(), l.log.views[i], back[i], l.errs[i])
        || Survives(Conditions(), back, l, Snapshot(), i, back[i])
        || Survives(Conditions(), back, l, Snapshot(), i + 1, back[i])
    {
      hide Survives, TurnedAway, Batched, Demotion, Promotion, Checked, Fit, Sorted;
      VirtIsFree(v, map[]);
      BatchSorted(Conditions(), v.(virt := map[]), back, false, l.errs, l.log, l.ready, l.rest, l.full);
      if back == [] {
        ResetPlain(Conditions(), v, l, Snapshot());
      }
      forall t | t in v.all && Fit(Conditions(), t) ensures Survives(Conditions(), back, l, Snapshot(), 0, t) {
        ResetKeeps(Conditions(), v, back, l, Snapshot(), 0, t);
      }
      forall i | 0 <= i < |back| && Checked(Conditions(), back[i], back[i].from in v.locals).None?
        ensures || TurnedAway(Conditions(), l.log.views[i], back[i], l.errs[i])
                || Survives(Conditions(), back, l, Snapshot(), i, back[i])
                || Survives(Conditions(), back, l, Snapshot(), i + 1, back[i])
      {
        ResetBrings(Conditions(), v, back, l, Snapshot(), i);
      }
    }

    /** Takes over a new state and demotes what it makes unexecutable. */
    method Adopt(state: Address -> nat, funds: Address -> int, gasLimit: nat, reinject: seq<Tx>, now: nat)
      returns (ghost errs: seq<Option<Error>>, ghost log: Log, ghost ready: Lists, ghost rest: Lists, ghost full: Stage)
      requires Valid()
      modifies this
      ensures Batched(Conditions(), old(Snapshot()).(virt := map[]), reinject, false, errs, log, ready, rest, full)
      ensures Demotion(Conditions(), full, Snapshot())
      ensures nonces == state && balances == funds && maxGas == gasLimit
      ensures reinject == [] ==> forall a ::
        && At(pending, a) == StillPending(old(At(pending, a)), state(a), funds(a), gasLimit)
        && At(queue, a) == old(At(queue, a)) + Demoted(old(At(pending, a)), state(a), funds(a), gasLimit)
      ensures Valid()
      ensures old(Contiguous()) && reinject == [] ==> Contiguous()
    {
      hide Inside, Runs, Gapless, StillPending, Demoted, Batched, Accounted, Demotion, LastInSlot;
      if Contiguous() {
        AllGapless(pending, nonces, virt);
      }
      nonces, balances, maxGas, virt := state, funds, gasLimit, map[];
      errs, log, ready, rest := AddTxs(reinject, false, now);
      full := Snapshot();
      Settle();
    }

    /** Demotes what the state makes unexecutable, and sets virtual nonces accordingly. */
    method Settle()
      requires Valid()
      modifies this`pending, this`queue, this`beats, this`virt, this`all, this`heap, this`stales
      ensures Demotion(Conditions(), old(Snapshot()), Snapshot())
      ensures forall a ::
        && At(pending, a) == StillPending(old(At(pending, a)), nonces(a), balances(a), maxGas)
        && At(queue, a) == old(At(queue, a)) + Demoted(old(At(pending, a)), nonces(a), balances(a), maxGas)
      ensures Valid()
      ensures old(virt) == map[] && (forall a :: old(Gapless(At(pending, a)))) ==> Contiguous()
    {
      hide Inside, Runs, Gapless, StillPending, Demoted, At, HighestOf, Sorted;
      DemoteUnexecutables();
      SetVirtual();
      InOrder();
      forall a ensures Virtual(nonces, virt, a) == GetNonce(a) {
      }
    }

    /** The accounts in a set, in any order. */
    method Accounts(s: set<Address>) returns (r: seq<Address>)
      ensures NoRepeats(r) && forall a :: a in r <==> a in s
    {
      r := [];
      var left := s;
      while left != {}
        invariant left <= s && NoRepeats(r) && forall a :: a in r <==> a in s && a !in left
      {
        var a :| a in left;
        r := r + [a];
        left := left - {a};
      }
    }
  }

  // ----- Runs

  /** What may happen to the pool: transactions come in one by one or together, time passes, and the
      chain gets a new head. */
  datatype Event =
    | Submit(tx: Tx, local: bool)
    | SubmitAll(txs: seq<Tx>, local: bool)
    | Tick
    | NewHead(state: Address -> nat, funds: Address -> int, gasLimit: nat, reinject: seq<Tx>)

  /** The first `n` events bring no transactions back. */
  predicate NoneBack(events: seq<Event>, n: nat)
    requires n <= |events|
  {
    forall i :: 0 <= i < n && events[i].NewHead? ==> events[i].reinject == []
  }

  /** Whatever happens in whatever order, the lookup is the disjoint union of pending and queue, no
      transaction in it is oversized, of negative value, short of gas for its data or, unless its account
      is local, below the price limit; and while no head brings transactions back, pending nonces are
      without gaps from the state nonce up to the virtual one. */
  method Replay(pool: Pool, events: seq<Event>)
    requires pool.Valid()
    modifies pool
    ensures pool.Valid()
    ensures old(pool.Proper()) ==> pool.Proper()
    ensures old(pool.Contiguous()) && NoneBack(events, |events|) ==> pool.Contiguous()
  {
    hide Pool.Inside, Pool.Contiguous, Pool.Valid, Pool.Proper;
    var k := 0;
    while k < |events|
      invariant k <= |events| && pool.Valid() && (old(pool.Proper()) ==> pool.Proper())
      invariant old(pool.Contiguous()) && NoneBack(events, k) ==> pool.Contiguous()
    {
      match events[k] {
        case Submit(tx, local) => var err, log, ready, rest := pool.AddTx(tx, local, k);
        case SubmitAll(txs, local) => var errs, log, ready, rest := pool.AddTxs(txs, local, k);
        case Tick => Expire(pool, k);
        case NewHead(state, funds, gasLimit, reinject) => var l := pool.Reset(state, funds, gasLimit, reinject, k);
      }
      k := k + 1;
    }
  }

  /** Eviction of old queued transactions leaves pending ones alone. */
  method Expire(pool: Pool, now: nat)
    requires pool.Valid()
    modifies pool
    ensures pool.Valid() && (old(pool.Proper()) ==> pool.Proper())
    ensures old(pool.Contiguous()) ==> pool.Contiguous()
  {
    hide Pool.Inside, Runs;
    pool.Evict(now);
  }
}
