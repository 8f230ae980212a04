/** What the operations of the pool do to all of it, step by step, stated on values. */
module PoolSteps {

  import opened Common
  import opened TxSpec
  import opened PoolSpec

  datatype Config = Config(priceLimit: int, priceBump: nat, accountSlots: nat, globalSlots: nat,
                           accountQueue: nat, globalQueue: nat, lifetime: nat)

  datatype Error =
    | Known
    | Oversized
    | NegativeValue
    | GasLimit
    | Underpriced
    | NonceTooLow
    | InsufficientFunds
    | IntrinsicGas
    | ReplaceUnderpriced

  /** What transactions are judged by: the state at the head of the chain and the configuration. */
  datatype Terms = Terms(nonces: Nonces, balances: Address -> int, gas: nat, config: Config)

  /** The pool at one moment. */
  datatype Stage = Stage(all: set<Tx>, pending: Lists, queue: Lists, virt: map<Address, nat>, locals: set<Address>)

  ghost predicate Sorted(v: Stage) {
    Partition(v.all, v.pending, v.queue, {})
  }

  // ----- Checks

  /** The checks a transaction must pass before it gets into the pool. */
  function Checked(terms: Terms, tx: Tx, trusted: bool): (r: Option<Error>) {
    if tx.size > 32 * 1024 then Some(Oversized)
    else if tx.value < 0 then Some(NegativeValue)
    else if terms.gas < tx.gas then Some(GasLimit)
    else if !trusted && terms.config.priceLimit > tx.price then Some(Underpriced)
    else if terms.nonces(tx.from) > tx.nonce then Some(NonceTooLow)
    else if terms.balances(tx.from) < Cost(tx) then Some(InsufficientFunds)
    else if tx.gas < tx.intrinsic then Some(IntrinsicGas)
    else None
  }

  /** What holds of a transaction whatever the state: size, value, gas for its data, and a price above
      the limit unless it is trusted. */
  predicate Sound(config: Config, tx: Tx, trusted: bool) {
    tx.size <= 32768 && tx.value >= 0 && tx.intrinsic <= tx.gas && (trusted || config.priceLimit <= tx.price)
  }

  /** What a state must grant it: a nonce not used up, the gas, and the money. */
  predicate Fit(terms: Terms, tx: Tx) {
    terms.nonces(tx.from) <= tx.nonce && tx.gas <= terms.gas &&
    tx.value + tx.price * tx.gas <= terms.balances(tx.from)
  }

  /** The checks pass exactly for transactions that are sound and fit; what is reported is the first
      that fails, in this order. */
  lemma CheckedIs(terms: Terms, tx: Tx, trusted: bool)
    ensures Checked(terms, tx, trusted) == None <==> Sound(terms.config, tx, trusted) && Fit(terms, tx)
    ensures Checked(terms, tx, trusted) == Some(Oversized) <==> tx.size > 32768
    ensures Checked(terms, tx, trusted) == Some(NegativeValue) <==> tx.size <= 32768 && tx.value < 0
    ensures Checked(terms, tx, trusted) == Some(GasLimit) <==>
      tx.size <= 32768 && tx.value >= 0 && tx.gas > terms.gas
    ensures Checked(terms, tx, trusted) == Some(Underpriced) <==>
      tx.size <= 32768 && tx.value >= 0 && tx.gas <= terms.gas && !trusted && tx.price < terms.config.priceLimit
    ensures Checked(terms, tx, trusted) == Some(NonceTooLow) <==>
      && tx.size <= 32768 && tx.value >= 0 && tx.gas <= terms.gas
      && (trusted || tx.price >= terms.config.priceLimit) && tx.nonce < terms.nonces(tx.from)
    ensures Checked(terms, tx, trusted) == Some(InsufficientFunds) <==>
      && tx.size <= 32768 && tx.value >= 0 && tx.gas <= terms.gas
      && (trusted || tx.price >= terms.config.priceLimit) && tx.nonce >= terms.nonces(tx.from)
      && terms.balances(tx.from) < tx.value + tx.price * tx.gas
    ensures Checked(terms, tx, trusted) == Some(IntrinsicGas) <==>
      && tx.size <= 32768 && tx.value >= 0 && (trusted || tx.price >= terms.config.priceLimit)
      && Fit(terms, tx) && tx.gas < tx.intrinsic
    ensures Checked(terms, tx, trusted) != Some(Known) && Checked(terms, tx, trusted) != Some(ReplaceUnderpriced)
  {
  }

  // ----- Adding one transaction

  predicate Room(config: Config, all: set<Tx>) {
    |all| < config.globalSlots + config.globalQueue
  }

  /** The pool is full, and the transaction is not local and pays no more than any in the pool. */
  ghost predicate TooCheap(config: Config, v: Stage, tx: Tx, local: bool) {
    && !Room(config, v.all)
    && !local && tx.from !in v.locals
    && v.all != {} && forall t :: t in v.all ==> t.price >= tx.price
  }

  /** The refusal that a transaction meets at once, if any. */
  ghost function Due(terms: Terms, v: Stage, tx: Tx, local: bool): (err: Option<Error>) {
    if tx in v.all then Some(Known)
    else if Checked(terms, tx, local || tx.from in v.locals).Some? then Checked(terms, tx, local || tx.from in v.locals)
    else if TooCheap(terms.config, v, tx, local) then Some(Underpriced)
    else None
  }

  /** Two transactions that cannot both be in the pool. */
  predicate SameSlot(t: Tx, u: Tx) {
    t.from == u.from && t.nonce == u.nonce
  }

  /** Room is made if there is none: what goes is not local and no dearer than what stays. */
  ghost predicate Squeezed(config: Config, v: Stage, w: Stage) {
    && (Room(config, v.all) ==> w == v)
    && w.locals == v.locals && w.all <= v.all && Sorted(w)
    && (!Room(config, v.all) ==> |w.all| + 1 >= config.globalSlots + config.globalQueue)
    && forall t :: t in v.all && t !in w.all ==> t.from !in v.locals && NoDearer(t, w.all, v.locals)
  }

  ghost predicate NoDearer(t: Tx, all: set<Tx>, locals: set<Address>) {
    forall u :: u in all && u.from !in locals ==> t.price <= u.price
  }

  /** The transaction takes its place, unless that is held by one that it does not outbid. */
  ghost predicate Placed(config: Config, v: Stage, tx: Tx, local: bool, replaced: bool, err: Option<Error>, w: Stage) {
    && (err == None || err == Some(ReplaceUnderpriced))
    && (err == None <==> forall t :: t in v.all && SameSlot(t, tx) ==> Outbids(tx, t, config.priceBump))
    && (replaced <==> err == None && exists t :: t in v.all && SameSlot(t, tx))
    && (err != None ==> w == v)
    && (err == None ==> Filled(v, tx, w) && Sorted(w))
    && w.locals ==
       v.locals + if local && err == None && tx.nonce !in At(v.pending, tx.from) then {tx.from} else {}
  }

  /** The lists with a transaction in its place: pending if its nonce is pending, queued otherwise. */
  ghost predicate Filled(v: Stage, tx: Tx, w: Stage) {
    && (forall t :: t in w.all <==> t == tx || (t in v.all && !SameSlot(t, tx)))
    && w.virt == v.virt
    && (if tx.nonce in At(v.pending, tx.from) then
          && At(w.pending, tx.from) == At(v.pending, tx.from)[tx.nonce := tx]
          && At(w.queue, tx.from) == At(v.queue, tx.from)
        else
          && At(w.pending, tx.from) == At(v.pending, tx.from)
          && At(w.queue, tx.from) == At(v.queue, tx.from)[tx.nonce := tx])
    && forall a :: a != tx.from ==> At(w.pending, a) == At(v.pending, a) && At(w.queue, a) == At(v.queue, a)
  }

  /** A slot is held by one transaction at most: the one in the list of its account. */
  lemma SlotHeld(v: Stage, tx: Tx)
    requires Sorted(v)
    ensures forall t :: t in v.all && SameSlot(t, tx) <==>
      || (tx.nonce in At(v.pending, tx.from) && t == At(v.pending, tx.from)[tx.nonce])
      || (tx.nonce in At(v.queue, tx.from) && t == At(v.queue, tx.from)[tx.nonce])
  {
    forall t | t in v.all && SameSlot(t, tx)
      ensures || (tx.nonce in At(v.pending, tx.from) && t == At(v.pending, tx.from)[tx.nonce])
              || (tx.nonce in At(v.queue, tx.from) && t == At(v.queue, tx.from)[tx.nonce])
    {
      assert Held(v.pending, t) || Held(v.queue, t);
    }
    if tx.nonce in At(v.pending, tx.from) {
      OwnSlot(v.pending, true, tx);
    }
    if tx.nonce in At(v.queue, tx.from) {
      OwnSlot(v.queue, false, tx);
    }
  }

  lemma OwnSlot(l: Lists, strict: bool, tx: Tx)
    requires Owned(l, strict) && tx.nonce in At(l, tx.from)
    ensures Held(l, At(l, tx.from)[tx.nonce]) && SameSlot(At(l, tx.from)[tx.nonce], tx)
  {
    assert Own(l[tx.from], tx.from, strict);
  }

  /** Two orderly pools that differ in one place differ in one transaction. */
  lemma SlotFilled(v: Stage, tx: Tx, w: Stage)
    requires Sorted(v) && Sorted(w) && w.virt == v.virt
    requires
      if tx.nonce in At(v.pending, tx.from) then
        At(w.pending, tx.from) == At(v.pending, tx.from)[tx.nonce := tx] && At(w.queue, tx.from) == At(v.queue, tx.from)
      else
        At(w.pending, tx.from) == At(v.pending, tx.from) && At(w.queue, tx.from) == At(v.queue, tx.from)[tx.nonce := tx]
    requires forall a :: a != tx.from ==> At(w.pending, a) == At(v.pending, a) && At(w.queue, a) == At(v.queue, a)
    ensures Filled(v, tx, w)
  {
    hide Sorted;
    if tx.nonce in At(v.pending, tx.from) {
      NotTwice(v, tx);
    }
    forall t ensures t in w.all <==> t == tx || (t in v.all && !SameSlot(t, tx)) {
      HeldAt(v, t);
      HeldAt(w, t);
    }
  }

  lemma HeldAt(v: Stage, t: Tx)
    requires Sorted(v)
    ensures t in v.all <==>
      || (t.nonce in At(v.pending, t.from) && At(v.pending, t.from)[t.nonce] == t)
      || (t.nonce in At(v.queue, t.from) && At(v.queue, t.from)[t.nonce] == t)
  {
    assert t in v.all <==> Held(v.pending, t) || Held(v.queue, t);
  }

  /** A transaction meets a pending one in its place. */
  lemma PlacedPending(config: Config, v: Stage, tx: Tx, local: bool, inserted: bool, w: Stage)
    requires Sorted(v) && tx.nonce in At(v.pending, tx.from)
    requires inserted <==> Outbids(tx, At(v.pending, tx.from)[tx.nonce], config.priceBump)
    requires !inserted ==> w == v
    requires inserted ==> Filled(v, tx, w) && Sorted(w) && w.locals == v.locals
    ensures Placed(config, v, tx, local, inserted, if inserted then None else Some(ReplaceUnderpriced), w)
  {
    SlotHeld(v, tx);
    NotTwice(v, tx);
    hide Sorted, Outbids, Filled;
    assert At(v.pending, tx.from)[tx.nonce] in v.all;
  }

  lemma NotTwice(v: Stage, tx: Tx)
    requires Sorted(v) && tx.nonce in At(v.pending, tx.from)
    ensures tx.nonce !in At(v.queue, tx.from)
  {
  }

  /** A transaction meets a queued one in its place, or nobody. */
  lemma PlacedQueue(config: Config, v: Stage, tx: Tx, local: bool, inserted: bool, replaced: bool, w: Stage)
    requires Sorted(v) && tx.nonce !in At(v.pending, tx.from)
    requires inserted <==> (tx.nonce in At(v.queue, tx.from) ==>
                              Outbids(tx, At(v.queue, tx.from)[tx.nonce], config.priceBump))
    requires replaced <==> inserted && tx.nonce in At(v.queue, tx.from)
    requires !inserted ==> w == v
    requires inserted ==> Filled(v, tx, w) && Sorted(w) && w.locals == v.locals + if local then {tx.from} else {}
    ensures Placed(config, v, tx, local, replaced, if inserted then None else Some(ReplaceUnderpriced), w)
  {
    SlotHeld(v, tx);
    hide Sorted, Outbids, Filled;
    if tx.nonce in At(v.queue, tx.from) {
      assert At(v.queue, tx.from)[tx.nonce] in v.all;
    }
  }

  lemma AddsRefused(terms: Terms, v: Stage, tx: Tx, local: bool)
    requires Due(terms, v, tx, local).Some?
    ensures Adds(terms, v, tx, local, false, Due(terms, v, tx, local), v)
  {
  }

  lemma AddsPlaced(terms: Terms, v: Stage, m: Stage, tx: Tx, local: bool, replaced: bool, err: Option<Error>, w: Stage)
    requires Due(terms, v, tx, local).None?
    requires Squeezed(terms.config, v, m) && Placed(terms.config, m, tx, local, replaced, err, w)
    ensures Adds(terms, v, tx, local, replaced, err, w)
  {
  }

  /** What adding a transaction comes to. */
  ghost predicate Adds(terms: Terms, v: Stage, tx: Tx, local: bool, replaced: bool, err: Option<Error>, w: Stage) {
    if Due(terms, v, tx, local).Some? then err == Due(terms, v, tx, local) && !replaced && w == v
    else exists m :: Squeezed(terms.config, v, m) && Placed(terms.config, m, tx, local, replaced, err, w)
  }

  /** A transaction has lost its place to one that outbids it, or to cheapness when there was no room. */
  ghost predicate Ousted(config: Config, v: Stage, tx: Tx, err: Option<Error>, w: Stage, t: Tx) {
    && t in v.all && t !in w.all
    && (|| Replaces(config, tx, err, t)
        || (!Room(config, v.all) && t.from !in v.locals && NoDearer(t, w.all - {tx}, v.locals)))
  }

  predicate Replaces(config: Config, tx: Tx, err: Option<Error>, t: Tx) {
    err == None && SameSlot(t, tx) && Outbids(tx, t, config.priceBump)
  }

  /** Whoever is gone after an addition was ousted. */
  lemma AddsKeeps(terms: Terms, v: Stage, tx: Tx, local: bool, replaced: bool, err: Option<Error>, w: Stage, t: Tx)
    requires Adds(terms, v, tx, local, replaced, err, w) && t in v.all
    ensures t in w.all || Ousted(terms.config, v, tx, err, w, t)
  {
    hide Sorted, Checked, Outbids, At;
    if Due(terms, v, tx, local).None? && t !in w.all {
      var m :| Squeezed(terms.config, v, m) && Placed(terms.config, m, tx, local, replaced, err, w);
      if t !in m.all {
        assert NoDearer(t, m.all, v.locals);
        assert forall u :: u in w.all - {tx} ==> u in m.all;
      }
    }
  }

  /** Whoever is accepted is there, and nobody else has come in. */
  lemma AddsAccepts(terms: Terms, v: Stage, tx: Tx, local: bool, replaced: bool, err: Option<Error>, w: Stage)
    requires Adds(terms, v, tx, local, replaced, err, w)
    ensures w.all <= v.all + {tx} && v.locals <= w.locals
    ensures err == None ==> tx in w.all && Checked(terms, tx, local || tx.from in v.locals).None?
    ensures err != None ==> tx !in w.all - v.all
  {
    if Due(terms, v, tx, local).None? {
      var m :| Squeezed(terms.config, v, m) && Placed(terms.config, m, tx, local, replaced, err, w);
    }
  }

  ghost predicate AllSound(config: Config, all: set<Tx>, locals: set<Address>) {
    forall t :: t in all ==> Sound(config, t, t.from in locals)
  }

  /** A pool of sound transactions stays one: what is accepted is sound itself, or dearer than a sound one. */
  lemma AddsSound(terms: Terms, v: Stage, tx: Tx, local: bool, replaced: bool, err: Option<Error>, w: Stage)
    requires Adds(terms, v, tx, local, replaced, err, w)
    ensures AllSound(terms.config, v.all, v.locals) ==> AllSound(terms.config, w.all, w.locals)
  {
    AddsAccepts(terms, v, tx, local, replaced, err, w);
    if AllSound(terms.config, v.all, v.locals) && err == None {
      CheckedIs(terms, tx, local || tx.from in v.locals);
      if tx.from !in w.locals {
        AddsDearer(terms, v, tx, local, replaced, err, w);
      }
    }
  }

  /** A transaction that comes in without making its account a local one is not trusted, or takes the
      place of one that it outbids. */
  lemma AddsDearer(terms: Terms, v: Stage, tx: Tx, local: bool, replaced: bool, err: Option<Error>, w: Stage)
    requires Adds(terms, v, tx, local, replaced, err, w) && err == None && tx.from !in w.locals
    ensures !local || exists t :: t in v.all && SameSlot(t, tx) && t.price < tx.price
  {
    hide Checked, Filled;
    if local && Due(terms, v, tx, local).None? {
      var m :| Squeezed(terms.config, v, m) && Placed(terms.config, m, tx, local, replaced, err, w);
      SlotHeld(m, tx);
      hide Sorted;
      var t := At(m.pending, tx.from)[tx.nonce];
      assert t in m.all && SameSlot(t, tx) && Outbids(tx, t, terms.config.priceBump);
    }
  }

  // ----- Adding several

  /** The moments between additions, from the first on, and what was said to each. */
  datatype Log = Log(views: seq<Stage>, replaced: seq<bool>)

  ghost predicate Chain(terms: Terms, v: Stage, txs: seq<Tx>, local: bool, errs: seq<Option<Error>>, log: Log) {
    && |errs| == |log.replaced| <= |txs| && |log.views| == |errs| + 1 && log.views[0] == v
    && forall i :: 0 <= i < |errs| ==> StepOf(terms, txs, local, errs, log, i)
  }

  ghost predicate StepOf(terms: Terms, txs: seq<Tx>, local: bool, errs: seq<Option<Error>>, log: Log, i: nat)
    requires i < |errs| <= |txs| && |errs| == |log.replaced| && |log.views| == |errs| + 1
  {
    Adds(terms, log.views[i], txs[i], local, log.replaced[i], errs[i], log.views[i + 1])
  }

  ghost function Last(log: Log): (r: Stage)
    requires log.views != []
  {
    log.views[|log.views| - 1]
  }

  lemma ChainNone(terms: Terms, v: Stage, txs: seq<Tx>, local: bool)
    ensures Chain(terms, v, txs, local, [], Log([v], [])) && Last(Log([v], [])) == v
  {
  }

  lemma ChainMore(terms: Terms, v: Stage, txs: seq<Tx>, local: bool, errs: seq<Option<Error>>, log: Log,
                  replaced: bool, err: Option<Error>, w: Stage)
    requires Chain(terms, v, txs, local, errs, log) && |errs| < |txs|
    requires Adds(terms, Last(log), txs[|errs|], local, replaced, err, w)
    ensures
      var more := Log(log.views + [w], log.replaced + [replaced]);
      Chain(terms, v, txs, local, errs + [err], more) && Last(more) == w
  {
    hide Adds;
    var more, all := Log(log.views + [w], log.replaced + [replaced]), errs + [err];
    forall i | 0 <= i < |all| ensures StepOf(terms, txs, local, all, more, i) {
      if i < |errs| {
        assert StepOf(terms, txs, local, errs, log, i);
        assert more.views[i] == log.views[i] && more.views[i + 1] == log.views[i + 1];
      } else {
        assert more.views[i] == Last(log) && more.views[i + 1] == w;
      }
    }
  }

  /** A transaction was ousted by one of those added from position `i` on. */
  ghost predicate OustedFrom(terms: Terms, txs: seq<Tx>, errs: seq<Option<Error>>, log: Log, i: nat, t: Tx)
    requires |errs| <= |txs| && |log.views| == |errs| + 1
  {
    exists k :: i <= k < |errs| && Ousted(terms.config, log.views[k], txs[k], errs[k], log.views[k + 1], t)
  }

  /** What is in the pool at one moment is there in the end, or was ousted. */
  lemma {:induction false} ChainKeeps(terms: Terms, v: Stage, txs: seq<Tx>, local: bool, errs: seq<Option<Error>>,
                                      log: Log, i: nat, t: Tx)
    requires Chain(terms, v, txs, local, errs, log) && i <= |errs| && t in log.views[i].all
    ensures t in Last(log).all || OustedFrom(terms, txs, errs, log, i, t)
    decreases |errs| - i
  {
    hide Adds, Ousted;
    if i < |errs| {
      assert StepOf(terms, txs, local, errs, log, i);
      AddsKeeps(terms, log.views[i], txs[i], local, log.replaced[i], errs[i], log.views[i + 1], t);
      if t in log.views[i + 1].all {
        ChainKeeps(terms, v, txs, local, errs, log, i + 1, t);
      }
    }
  }

  /** The accounts that have something new in the queue. */
  ghost function Dirty(txs: seq<Tx>, errs: seq<Option<Error>>, log: Log): (r: set<Address>)
    requires |errs| == |log.replaced| <= |txs|
  {
    set i | 0 <= i < |errs| && errs[i] == None && !log.replaced[i] :: txs[i].from
  }

  lemma DirtyNone(txs: seq<Tx>, log: Log)
    requires log.replaced == []
    ensures Dirty(txs, [], log) == {} == Members([])
  {
  }

  lemma DirtyMore(txs: seq<Tx>, errs: seq<Option<Error>>, log: Log, w: Stage, replaced: bool, err: Option<Error>)
    requires |errs| == |log.replaced| < |txs|
    ensures
      var more := Log(log.views + [w], log.replaced + [replaced]);
      Dirty(txs, errs + [err], more) ==
      Dirty(txs, errs, log) + if err == None && !replaced then {txs[|errs|].from} else {}
  {
    var more, all := Log(log.views + [w], log.replaced + [replaced]), errs + [err];
    assert forall i :: 0 <= i < |errs| ==> all[i] == errs[i] && more.replaced[i] == log.replaced[i];
    assert all[|errs|] == err && more.replaced[|errs|] == replaced;
  }

  lemma NoRepeatsNone()
    ensures NoRepeats([])
  {
  }

  lemma NoRepeatsMore(s: seq<Address>, a: Address)
    requires NoRepeats(s) && a !in s
    ensures NoRepeats(s + [a])
  {
  }

  lemma MembersMore(s: seq<Address>, a: Address)
    ensures Members(s + [a]) == Members(s) + {a} && (a in s <==> a in Members(s))
  {
  }

  // ----- Promotion

  function SettingOf(terms: Terms, v: Stage): (s: Setting) {
    Setting(terms.nonces, terms.balances, terms.gas, v.virt, v.locals, terms.config.accountQueue)
  }

  /** The lists after the limits for all accounts together have been enforced on `ready` and `rest`: only
      highest nonces go, of accounts that are not local, and only as far as a limit asks for it. */
  ghost predicate Trimmed(config: Config, ready: Lists, rest: Lists, w: Stage) {
    && Cut(ready, w.pending) && Cut(rest, w.queue)
    && (exists len :: len >= config.accountSlots && Fair(ready, w.pending, w.locals, len))
    && (Count(ready) <= config.globalSlots ==> w.pending == ready)
    && (Count(ready) > config.globalSlots ==> Frugal(ready, w.pending, config.globalSlots))
    && (forall a :: a in w.locals ==> At(w.queue, a) == At(rest, a))
    && (Count(rest) <= config.globalQueue ==> w.queue == rest)
    && (Count(rest) > config.globalQueue ==> Count(w.queue) >= config.globalQueue)
  }

  /** Promotion for some accounts: their lists become `ready` and `rest`, and then the limits are enforced. */
  ghost predicate Promotion(terms: Terms, v: Stage, accounts: set<Address>, ready: Lists, rest: Lists, w: Stage) {
    && (forall a :: a in accounts ==> Advanced(SettingOf(terms, v), v.pending, v.queue, ready, rest, a))
    && (forall a :: a !in accounts ==> At(ready, a) == At(v.pending, a) && At(rest, a) == At(v.queue, a))
    && Trimmed(terms.config, ready, rest, w)
    && w.locals == v.locals && w.all <= v.all && Sorted(w)
    && Count(ready) <= |v.all|
  }

  lemma PromotionIs(terms: Terms, v: Stage, accounts: seq<Address>, ready: Lists, rest: Lists, w: Stage)
    requires forall a :: a in accounts ==> Advanced(SettingOf(terms, v), v.pending, v.queue, ready, rest, a)
    requires forall a :: a !in accounts ==> At(ready, a) == At(v.pending, a) && At(rest, a) == At(v.queue, a)
    requires Trimmed(terms.config, ready, rest, w)
    requires w.locals == v.locals && w.all <= v.all && Sorted(w) && Count(ready) <= |v.all|
    ensures Promotion(terms, v, Members(accounts), ready, rest, w)
  {
    hide Advanced, Trimmed, Sorted, Count;
    assert forall a :: a in Members(accounts) <==> a in accounts;
  }

  ghost predicate Has(m: Txs, t: Tx) {
    t.nonce in m && m[t.nonce] == t
  }

  /** A list ends below the nonce of a transaction. */
  ghost predicate EndsBelow(m: Txs, t: Tx) {
    forall n :: n in m ==> n < t.nonce
  }

  lemma CapKeeps(m: Txs, limit: nat, t: Tx)
    requires Has(m, t)
    ensures Has(Capped(m, limit), t) || (|Capped(m, limit)| == limit && EndsBelow(Capped(m, limit), t))
  {
    CappedKeepsLowest(m, limit);
  }

  /** A limit has cut a transaction off the end of its list: the number of queued transactions of its
      account, that of all pending or of all queued ones. Local accounts are spared. */
  ghost predicate CutBack(config: Config, ready: Lists, rest: Lists, w: Stage, t: Tx) {
    t.from !in w.locals &&
    (OffAccount(config, rest, t) || OffPending(config, ready, w, t) || OffQueue(config, rest, w, t))
  }

  ghost predicate OffAccount(config: Config, rest: Lists, t: Tx) {
    Size(rest, t.from) == config.accountQueue && EndsBelow(At(rest, t.from), t)
  }

  ghost predicate OffPending(config: Config, ready: Lists, w: Stage, t: Tx) {
    && Count(ready) > config.globalSlots && Size(ready, t.from) > config.accountSlots
    && Has(At(ready, t.from), t) && EndsBelow(At(w.pending, t.from), t)
  }

  ghost predicate OffQueue(config: Config, rest: Lists, w: Stage, t: Tx) {
    Count(rest) > config.globalQueue && Has(At(rest, t.from), t) && EndsBelow(At(w.queue, t.from), t)
  }

  lemma StaysPending(p: Txs, live: Txs, start: nat, t: Tx)
    requires Has(p, t) && t.nonce !in live
    ensures Has(Promoted(p, live, start), t)
  {
    hide ReadyEnd;
  }

  lemma StaysLive(p: Txs, live: Txs, start: nat, limited: bool, limit: nat, t: Tx)
    requires Has(live, t)
    ensures
      var w := Waiting(live, start, limited, limit);
      Has(Promoted(p, live, start), t) || Has(w, t) || (limited && |w| == limit && EndsBelow(w, t))
  {
    hide ReadyEnd, Capped;
    var end := ReadyEnd(live, start);
    if t.nonce >= end {
      assert Has(From(live, end), t);
      CapKeeps(From(live, end), limit, t);
    }
  }

  lemma FitIsLive(q: Txs, terms: Terms, t: Tx)
    requires Fit(terms, t)
    ensures
      var live := LiveOf(q, terms.nonces(t.from), terms.balances(t.from), terms.gas);
      (Has(q, t) ==> Has(live, t)) && (t.nonce !in q ==> t.nonce !in live)
  {
  }

  /** Where a fit transaction goes when the lists of its account are brought up to date. */
  lemma AdvancedKeeps(terms: Terms, v: Stage, ready: Lists, rest: Lists, t: Tx)
    requires Sorted(v) && t in v.all && Fit(terms, t)
    requires Advanced(SettingOf(terms, v), v.pending, v.queue, ready, rest, t.from)
    ensures || Has(At(ready, t.from), t) || Has(At(rest, t.from), t)
            || (t.from !in v.locals && OffAccount(terms.config, rest, t))
  {
    HeldAt(v, t);
    var a := t.from;
    var p, q := At(v.pending, a), At(v.queue, a);
    if Has(p, t) {
      NotTwice(v, t);
    }
    hide Sorted, LiveOf, Promoted, Waiting, EndsBelow;
    var live, start := LiveOf(q, terms.nonces(a), terms.balances(a), terms.gas), Virtual(terms.nonces, v.virt, a);
    FitIsLive(q, terms, t);
    if Has(p, t) {
      StaysPending(p, live, start, t);
    } else {
      StaysLive(p, live, start, a !in v.locals, terms.config.accountQueue, t);
    }
  }

  lemma TrimmedKeeps(config: Config, ready: Lists, rest: Lists, w: Stage, t: Tx)
    requires Trimmed(config, ready, rest, w) && Sorted(w) && (Has(At(ready, t.from), t) || Has(At(rest, t.from), t))
    ensures t in w.all || CutBack(config, ready, rest, w, t)
  {
    HeldAt(w, t);
    var a := t.from;
    if Has(At(ready, a), t) {
      CapKeeps(At(ready, a), |At(w.pending, a)|, t);
      var len :| len >= config.accountSlots && Fair(ready, w.pending, w.locals, len);
    } else {
      CapKeeps(At(rest, a), |At(w.queue, a)|, t);
    }
  }

  /** Of the transactions that fit, promotion loses only those that a limit cuts off. */
  lemma PromotionKeeps(terms: Terms, v: Stage, accounts: set<Address>, ready: Lists, rest: Lists, w: Stage, t: Tx)
    requires Promotion(terms, v, accounts, ready, rest, w) && Sorted(v) && t in v.all && Fit(terms, t)
    ensures t in w.all || CutBack(terms.config, ready, rest, w, t)
  {
    hide Trimmed, Sorted, Advanced;
    if t.from in accounts {
      AdvancedKeeps(terms, v, ready, rest, t);
    } else {
      HeldAt(v, t);
    }
    if Has(At(ready, t.from), t) || Has(At(rest, t.from), t) {
      TrimmedKeeps(terms.config, ready, rest, w, t);
    }
  }

  // ----- A batch of transactions

  /** What adding several transactions comes to: each in turn, and then promotion for the accounts that
      have something new. */
  ghost predicate Batched(terms: Terms, v: Stage, txs: seq<Tx>, local: bool, errs: seq<Option<Error>>, log: Log,
                          ready: Lists, rest: Lists, w: Stage) {
    && |errs| == |txs| && Chain(terms, v, txs, local, errs, log)
    && if Dirty(txs, errs, log) == {} then w == Last(log)
       else Promotion(terms, Last(log), Dirty(txs, errs, log), ready, rest, w)
  }

  lemma BatchIs(terms: Terms, v: Stage, txs: seq<Tx>, local: bool, errs: seq<Option<Error>>, log: Log,
                dirty: seq<Address>, ready: Lists, rest: Lists, m: Stage, w: Stage)
    requires |errs| == |txs| && Chain(terms, v, txs, local, errs, log) && m == Last(log)
    requires Members(dirty) == Dirty(txs, errs, log)
    requires if dirty == [] then w == m else Promotion(terms, m, Members(dirty), ready, rest, w)
    ensures Batched(terms, v, txs, local, errs, log, ready, rest, w)
  {
    hide StepOf, Promotion;
    assert dirty != [] ==> dirty[0] in Members(dirty);
  }

  lemma OneAccount(a: Address)
    ensures NoRepeats([a]) && Members([a]) == {a}
  {
  }

  /** Adding one transaction is adding a batch of one. */
  lemma BatchOfOne(terms: Terms, v: Stage, tx: Tx, local: bool, replaced: bool, err: Option<Error>, m: Stage,
                   ready: Lists, rest: Lists, w: Stage)
    requires Adds(terms, v, tx, local, replaced, err, m)
    requires if err == None && !replaced then Promotion(terms, m, {tx.from}, ready, rest, w) else w == m
    ensures Batched(terms, v, [tx], local, [err], Log([v, m], [replaced]), ready, rest, w)
  {
    hide Adds, Promotion;
    var log := Log([v, m], [replaced]);
    assert StepOf(terms, [tx], local, [err], log, 0);
    assert Dirty([tx], [err], log) == if err == None && !replaced then {tx.from} else {} by {
      DirtyNone([tx], Log([v], []));
      DirtyMore([tx], [], Log([v], []), m, replaced, err);
      assert [] + [err] == [err] && [v] + [m] == [v, m] && [] + [replaced] == [replaced];
    }
  }

  /** Nobody comes later in a batch of one. */
  lemma OneAccepted(terms: Terms, tx: Tx, log: Log, ready: Lists, rest: Lists, w: Stage)
    requires |log.views| == 2 && Accounted(terms, [tx], [None], log, ready, rest, w, 1, tx)
    ensures tx in w.all || CutBack(terms.config, ready, rest, w, tx)
  {
    hide CutBack;
  }

  /** What becomes of a transaction that was in the pool at some moment: it is there in the end, or was
      ousted later, or a limit has cut it off. */
  ghost predicate Accounted(terms: Terms, txs: seq<Tx>, errs: seq<Option<Error>>, log: Log, ready: Lists, rest: Lists,
                            w: Stage, i: nat, t: Tx)
    requires |errs| <= |txs| && |log.views| == |errs| + 1
  {
    t in w.all || OustedFrom(terms, txs, errs, log, i, t) || CutBack(terms.config, ready, rest, w, t)
  }

  lemma {:induction false} ChainSorted(terms: Terms, v: Stage, txs: seq<Tx>, local: bool, errs: seq<Option<Error>>,
                                       log: Log, i: nat)
    requires Chain(terms, v, txs, local, errs, log) && i <= |errs| && Sorted(v)
    ensures Sorted(log.views[i])
  {
    hide Sorted, Filled, Due;
    if i > 0 {
      ChainSorted(terms, v, txs, local, errs, log, i - 1);
      assert StepOf(terms, txs, local, errs, log, i - 1);
    }
  }

  /** Nothing that fits gets lost for another reason. */
  lemma BatchKeeps(terms: Terms, v: Stage, txs: seq<Tx>, local: bool, errs: seq<Option<Error>>, log: Log, ready: Lists,
                   rest: Lists, w: Stage, i: nat, t: Tx)
    requires Batched(terms, v, txs, local, errs, log, ready, rest, w) && Sorted(v) && i <= |errs|
    requires t in log.views[i].all && Fit(terms, t)
    ensures Accounted(terms, txs, errs, log, ready, rest, w, i, t)
  {
    hide StepOf, OustedFrom, CutBack, Promotion, Sorted, Fit;
    ChainKeeps(terms, v, txs, local, errs, log, i, t);
    ChainSorted(terms, v, txs, local, errs, log, |errs|);
    if t in Last(log).all && Dirty(txs, errs, log) != {} {
      PromotionKeeps(terms, Last(log), Dirty(txs, errs, log), ready, rest, w, t);
    }
  }

  /** Whatever is accepted is accounted for. */
  lemma BatchAccepts(terms: Terms, v: Stage, txs: seq<Tx>, local: bool, errs: seq<Option<Error>>, log: Log,
                     ready: Lists, rest: Lists, w: Stage, i: nat)
    requires Batched(terms, v, txs, local, errs, log, ready, rest, w) && Sorted(v) && i < |errs| && errs[i] == None
    ensures Accounted(terms, txs, errs, log, ready, rest, w, i + 1, txs[i])
  {
    hide Adds, Accounted, Promotion, Sorted, Checked;
    assert StepOf(terms, txs, local, errs, log, i);
    AddsAccepts(terms, log.views[i], txs[i], local, log.replaced[i], errs[i], log.views[i + 1]);
    CheckedIs(terms, txs[i], local || txs[i].from in log.views[i].locals);
    BatchKeeps(terms, v, txs, local, errs, log, ready, rest, w, i + 1, txs[i]);
  }

  lemma {:induction false} ChainSound(terms: Terms, v: Stage, txs: seq<Tx>, local: bool, errs: seq<Option<Error>>,
                                      log: Log, i: nat)
    requires Chain(terms, v, txs, local, errs, log) && i <= |errs| && AllSound(terms.config, v.all, v.locals)
    ensures AllSound(terms.config, log.views[i].all, log.views[i].locals)
  {
    hide Adds, AllSound;
    if i > 0 {
      ChainSound(terms, v, txs, local, errs, log, i - 1);
      assert StepOf(terms, txs, local, errs, log, i - 1);
      AddsSound(terms, log.views[i - 1], txs[i - 1], local, log.replaced[i - 1], errs[i - 1], log.views[i]);
    }
  }

  lemma BatchSound(terms: Terms, v: Stage, txs: seq<Tx>, local: bool, errs: seq<Option<Error>>, log: Log, ready: Lists,
                   rest: Lists, w: Stage)
    requires Batched(terms, v, txs, local, errs, log, ready, rest, w)
    ensures AllSound(terms.config, v.all, v.locals) ==> AllSound(terms.config, w.all, w.locals)
  {
    hide StepOf, Sound, Trimmed, Advanced;
    if AllSound(terms.config, v.all, v.locals) {
      ChainSound(terms, v, txs, local, errs, log, |errs|);
    }
  }

  // ----- Below the limits

  /** With room, additions move no nonces in or out of pending. */
  ghost predicate Steady(v: Stage, w: Stage, n: nat) {
    |w.all| <= |v.all| + n && w.virt == v.virt && forall a :: At(w.pending, a).Keys == At(v.pending, a).Keys
  }

  /** With room, a transaction is placed as things are. */
  lemma AddsWithRoom(terms: Terms, v: Stage, tx: Tx, local: bool, replaced: bool, err: Option<Error>, w: Stage)
    requires Adds(terms, v, tx, local, replaced, err, w) && Room(terms.config, v.all)
    ensures err != None ==> w == v
    ensures err == None ==> Filled(v, tx, w) && (replaced <==> exists t :: t in v.all && SameSlot(t, tx))
  {
    hide Sorted, Filled, Outbids, Due, At;
    if Due(terms, v, tx, local).None? {
      var m :| Squeezed(terms.config, v, m) && Placed(terms.config, m, tx, local, replaced, err, w);
      assert m == v;
    }
  }

  lemma AddsSteady(terms: Terms, v: Stage, tx: Tx, local: bool, replaced: bool, err: Option<Error>, w: Stage)
    requires Adds(terms, v, tx, local, replaced, err, w) && Room(terms.config, v.all)
    ensures Steady(v, w, 1)
  {
    hide Adds, Room, Checked;
    AddsAccepts(terms, v, tx, local, replaced, err, w);
    SubsetSize(w.all, v.all + {tx});
    AddsWithRoom(terms, v, tx, local, replaced, err, w);
  }

  /** With room, a queued transaction keeps its place unless another one takes it, and one that is
      accepted and not pending is queued. */
  lemma AddsSlot(terms: Terms, v: Stage, tx: Tx, local: bool, replaced: bool, err: Option<Error>, w: Stage, t: Tx)
    requires Adds(terms, v, tx, local, replaced, err, w) && Room(terms.config, v.all) && Sorted(v)
    requires t.nonce !in At(v.pending, t.from)
    ensures Has(At(v.queue, t.from), t) && !(err == None && SameSlot(tx, t)) ==> Has(At(w.queue, t.from), t)
    ensures t == tx && err == None ==> Has(At(w.queue, t.from), t)
    ensures t.nonce in At(w.queue, t.from) && t.nonce !in At(v.queue, t.from) ==>
      err == None && !replaced && tx.from == t.from
  {
    hide Sorted, Adds, Room;
    SlotHeld(v, t);
    AddsWithRoom(terms, v, tx, local, replaced, err, w);
  }

  ghost predicate Spacious(terms: Terms, v: Stage, n: nat) {
    |v.all| + n <= terms.config.globalSlots
  }

  lemma {:induction false} ChainSteady(terms: Terms, v: Stage, txs: seq<Tx>, local: bool, errs: seq<Option<Error>>,
                                       log: Log, i: nat)
    requires Chain(terms, v, txs, local, errs, log) && i <= |errs| && Spacious(terms, v, |txs|)
    ensures Steady(v, log.views[i], i)
  {
    hide Adds, At;
    if i > 0 {
      ChainSteady(terms, v, txs, local, errs, log, i - 1);
      assert StepOf(terms, txs, local, errs, log, i - 1);
      AddsSteady(terms, log.views[i - 1], txs[i - 1], local, log.replaced[i - 1], errs[i - 1], log.views[i]);
    }
  }

  /** Nobody takes the place of the transaction at position `i` after it. */
  ghost predicate LastInSlot(txs: seq<Tx>, errs: seq<Option<Error>>, i: nat)
    requires i < |errs| <= |txs|
  {
    forall k :: i < k < |errs| && errs[k] == None ==> !SameSlot(txs[k], txs[i])
  }

  lemma {:induction false} ChainSlot(terms: Terms, v: Stage, txs: seq<Tx>, local: bool, errs: seq<Option<Error>>,
                                     log: Log, i: nat, j: nat)
    requires Chain(terms, v, txs, local, errs, log) && i < j <= |errs| && Spacious(terms, v, |txs|) && Sorted(v)
    requires errs[i] == None && LastInSlot(txs, errs, i) && txs[i].nonce !in At(v.pending, txs[i].from)
    ensures Has(At(log.views[j].queue, txs[i].from), txs[i])
    decreases j
  {
    hide Adds, At, Sorted;
    ChainSteady(terms, v, txs, local, errs, log, j - 1);
    ChainSorted(terms, v, txs, local, errs, log, j - 1);
    assert StepOf(terms, txs, local, errs, log, j - 1);
    AddsSlot(terms, log.views[j - 1], txs[j - 1], local, log.replaced[j - 1], errs[j - 1], log.views[j], txs[i]);
    if j - 1 > i {
      ChainSlot(terms, v, txs, local, errs, log, i, j - 1);
    }
  }

  /** A place in the queue that was free and is taken makes its account one with something new. */
  lemma {:induction false} ChainDirty(terms: Terms, v: Stage, txs: seq<Tx>, local: bool, errs: seq<Option<Error>>,
                                      log: Log, t: Tx, j: nat)
    requires Chain(terms, v, txs, local, errs, log) && j <= |errs| && Spacious(terms, v, |txs|) && Sorted(v)
    requires t.nonce !in At(v.pending, t.from) && t.nonce !in At(v.queue, t.from)
    requires t.nonce in At(log.views[j].queue, t.from)
    ensures t.from in Dirty(txs, errs, log)
    decreases j
  {
    hide Adds, At, Sorted;
    assert j > 0;
    ChainSteady(terms, v, txs, local, errs, log, j - 1);
    ChainSorted(terms, v, txs, local, errs, log, j - 1);
    assert StepOf(terms, txs, local, errs, log, j - 1);
    AddsSlot(terms, log.views[j - 1], txs[j - 1], local, log.replaced[j - 1], errs[j - 1], log.views[j], t);
    if t.nonce in At(log.views[j - 1].queue, t.from) {
      ChainDirty(terms, v, txs, local, errs, log, t, j - 1);
    }
  }

  lemma SameKeysRuns(p: Lists, r: Lists, nonces: Nonces, virt: map<Address, nat>)
    requires Runs(p, nonces, virt) && forall a :: At(r, a).Keys == At(p, a).Keys
    ensures Runs(r, nonces, virt)
  {
    forall a ensures RunAt(r, nonces, virt, a) {
      assert RunAt(p, nonces, virt, a);
      assert At(r, a).Keys == At(p, a).Keys;
    }
  }

  /** Below the limits, an accepted transaction with the next nonce of its account is pending. */
  lemma BatchPromotes(terms: Terms, v: Stage, txs: seq<Tx>, local: bool, errs: seq<Option<Error>>, log: Log,
                      ready: Lists, rest: Lists, w: Stage, i: nat)
    requires Batched(terms, v, txs, local, errs, log, ready, rest, w) && Sorted(v) && i < |errs| && errs[i] == None
    requires Spacious(terms, v, |txs|) && Runs(v.pending, terms.nonces, v.virt) && LastInSlot(txs, errs, i)
    requires txs[i].nonce == Virtual(terms.nonces, v.virt, txs[i].from)
    requires txs[i].nonce !in At(v.pending, txs[i].from) && txs[i].nonce !in At(v.queue, txs[i].from)
    ensures Held(w.pending, txs[i])
  {
    hide Adds, Sorted, Runs, Advanced, Trimmed, Checked;
    var tx, n := txs[i], |errs|;
    ChainSlot(terms, v, txs, local, errs, log, i, n);
    ChainDirty(terms, v, txs, local, errs, log, tx, n);
    ChainSteady(terms, v, txs, local, errs, log, n);
    ChainSorted(terms, v, txs, local, errs, log, n);
    assert StepOf(terms, txs, local, errs, log, i);
    AddsAccepts(terms, log.views[i], tx, local, log.replaced[i], errs[i], log.views[i + 1]);
    CheckedIs(terms, tx, local || tx.from in log.views[i].locals);
    SameKeysRuns(v.pending, Last(log).pending, terms.nonces, v.virt);
    PromotedNext(terms, Last(log), Dirty(txs, errs, log), ready, rest, w, tx);
  }

  lemma PromotedNext(terms: Terms, v: Stage, accounts: set<Address>, ready: Lists, rest: Lists, w: Stage, tx: Tx)
    requires Promotion(terms, v, accounts, ready, rest, w) && Sorted(v) && tx.from in accounts
    requires |v.all| <= terms.config.globalSlots && Runs(v.pending, terms.nonces, v.virt)
    requires Has(At(v.queue, tx.from), tx) && Fit(terms, tx) && tx.nonce == Virtual(terms.nonces, v.virt, tx.from)
    ensures Held(w.pending, tx)
  {
    hide Partition, Runs, Advanced, Count, Cut, Fair;
    NextInLine(SettingOf(terms, v), v.all, v.pending, v.queue, ready, rest, tx);
  }

  // ----- A new head of the chain

  /** Demotion after the state has changed: what it does to the lists and the virtual nonces of all
      accounts. */
  ghost predicate Demotion(terms: Terms, v: Stage, w: Stage) {
    && (forall a ::
          At(w.pending, a) == StillPending(At(v.pending, a), terms.nonces(a), terms.balances(a), terms.gas))
    && (forall a :: At(w.queue, a) ==
          At(v.queue, a) + PoolSpec.Demoted(At(v.pending, a), terms.nonces(a), terms.balances(a), terms.gas))
    && (forall a :: Virtual(terms.nonces, w.virt, a) ==
          if At(w.pending, a) == map[] then Virtual(terms.nonces, v.virt, a) else HighestOf(At(w.pending, a)) + 1)
    && w.locals == v.locals && w.all <= v.all && Sorted(w)
  }

  lemma DemotedKeeps(p: Txs, q: Txs, terms: Terms, t: Tx)
    requires Fit(terms, t) && ((Has(p, t) && t.nonce !in q) || (Has(q, t) && t.nonce !in p))
    ensures
      var a := t.from;
      || Has(StillPending(p, terms.nonces(a), terms.balances(a), terms.gas), t)
      || Has(q + PoolSpec.Demoted(p, terms.nonces(a), terms.balances(a), terms.gas), t)
  {
    hide Blocked;
  }

  /** Whatever fits the new state is still there. */
  lemma DemotionKeeps(terms: Terms, v: Stage, w: Stage, t: Tx)
    requires Demotion(terms, v, w) && Sorted(v) && t in v.all && Fit(terms, t)
    ensures t in w.all
  {
    HeldAt(v, t);
    HeldAt(w, t);
    if Has(At(v.pending, t.from), t) {
      NotTwice(v, t);
    } else {
      NotBoth(v, t);
    }
    hide Sorted, StillPending, PoolSpec.Demoted;
    DemotedKeeps(At(v.pending, t.from), At(v.queue, t.from), terms, t);
  }

  lemma NotBoth(v: Stage, t: Tx)
    requires Sorted(v) && t.nonce in At(v.queue, t.from)
    ensures t.nonce !in At(v.pending, t.from)
  {
  }

  /** The stages of the pool's way to a new head: after what was brought back has been added, and after
      demotion; and what was said and promoted on the way. */
  datatype Passage = Passage(errs: seq<Option<Error>>, log: Log, ready: Lists, rest: Lists, full: Stage,
                             down: Stage, upReady: Lists, upRest: Lists)

  /** What a new head comes to: virtual nonces start over, transactions are brought back, and the lists are
      demoted and promoted as the new state has it. */
  ghost predicate Resets(terms: Terms, v: Stage, back: seq<Tx>, l: Passage, w: Stage) {
    && Batched(terms, v.(virt := map[]), back, false, l.errs, l.log, l.ready, l.rest, l.full)
    && Demotion(terms, l.full, l.down)
    && Promotion(terms, l.down, l.down.queue.Keys, l.upReady, l.upRest, w)
  }

  /** A transaction that was in the pool when the `i`-th one was brought back is there in the end, or
      ousted, or cut off by a limit. */
  ghost predicate Survives(terms: Terms, back: seq<Tx>, l: Passage, w: Stage, i: nat, t: Tx)
    requires |l.errs| <= |back| && |l.log.views| == |l.errs| + 1
  {
    || t in w.all || OustedFrom(terms, back, l.errs, l.log, i, t)
    || CutBack(terms.config, l.ready, l.rest, l.full, t) || CutBack(terms.config, l.upReady, l.upRest, w, t)
  }

  lemma BatchSorted(terms: Terms, v: Stage, txs: seq<Tx>, local: bool, errs: seq<Option<Error>>, log: Log, ready: Lists,
                    rest: Lists, w: Stage)
    requires Batched(terms, v, txs, local, errs, log, ready, rest, w) && Sorted(v)
    ensures Sorted(w) && |errs| == |txs| && |log.views| == |errs| + 1 && log.views[0] == v
  {
    hide StepOf, Sorted, Trimmed;
    ChainSorted(terms, v, txs, local, errs, log, |errs|);
  }

  /** Whatever was in the pool and fits the new state survives. */
  lemma ResetKeeps(terms: Terms, v: Stage, back: seq<Tx>, l: Passage, w: Stage, i: nat, t: Tx)
    requires Resets(terms, v, back, l, w) && Sorted(v) && i <= |l.errs| < |l.log.views|
    requires t in l.log.views[i].all && Fit(terms, t)
    ensures |l.errs| == |back| && |l.log.views| == |l.errs| + 1 && Survives(terms, back, l, w, i, t)
  {
    hide Batched, Demotion, Promotion, CutBack, OustedFrom, Fit;
    var start := v.(virt := map[]);
    VirtIsFree(v, map[]);
    BatchSorted(terms, start, back, false, l.errs, l.log, l.ready, l.rest, l.full);
    BatchKeeps(terms, start, back, false, l.errs, l.log, l.ready, l.rest, l.full, i, t);
    if t in l.full.all {
      DemotionKeeps(terms, l.full, l.down, t);
      DemotionSorted(terms, l.full, l.down);
      PromotionKeeps(terms, l.down, l.down.queue.Keys, l.upReady, l.upRest, w, t);
    }
  }

  lemma VirtIsFree(v: Stage, virt: map<Address, nat>)
    ensures Sorted(v) <==> Sorted(v.(virt := virt))
  {
  }

  lemma DemotionSorted(terms: Terms, v: Stage, w: Stage)
    requires Demotion(terms, v, w)
    ensures Sorted(w)
  {
  }

  /** A transaction was not let back in: cheapest in a full pool, or not outbidding the one in its place. */
  ghost predicate TurnedAway(terms: Terms, v: Stage, tx: Tx, err: Option<Error>) {
    || (err == Some(Underpriced) && TooCheap(terms.config, v, tx, false))
    || (err == Some(ReplaceUnderpriced) &&
        exists t :: t in v.all && SameSlot(t, tx) && !Outbids(tx, t, terms.config.priceBump))
  }

  lemma AddsBack(terms: Terms, v: Stage, tx: Tx, replaced: bool, err: Option<Error>, w: Stage)
    requires Adds(terms, v, tx, false, replaced, err, w) && Checked(terms, tx, tx.from in v.locals).None?
    ensures tx in v.all || tx in w.all || TurnedAway(terms, v, tx, err)
  {
    if Due(terms, v, tx, false).None? {
      hide Sorted, Checked, Outbids, At, Filled;
      AddsAccepts(terms, v, tx, false, replaced, err, w);
      var m :| Squeezed(terms.config, v, m) && Placed(terms.config, m, tx, false, replaced, err, w);
      if err != None {
        var t :| t in m.all && SameSlot(t, tx) && !Outbids(tx, t, terms.config.priceBump);
        assert t in v.all;
      }
    }
  }

  lemma AddsLocals(terms: Terms, v: Stage, tx: Tx, replaced: bool, err: Option<Error>, w: Stage)
    requires Adds(terms, v, tx, false, replaced, err, w)
    ensures w.locals == v.locals
  {
    hide Sorted, Filled, Outbids;
  }

  lemma {:induction false} ChainLocals(terms: Terms, v: Stage, txs: seq<Tx>, errs: seq<Option<Error>>, log: Log, i: nat)
    requires Chain(terms, v, txs, false, errs, log) && i <= |errs|
    ensures log.views[i].locals == v.locals
  {
    hide Adds;
    if i > 0 {
      ChainLocals(terms, v, txs, errs, log, i - 1);
      assert StepOf(terms, txs, false, errs, log, i - 1);
      AddsLocals(terms, log.views[i - 1], txs[i - 1], log.replaced[i - 1], errs[i - 1], log.views[i]);
    }
  }

  /** Whatever is brought back and valid in the new state survives, unless it was turned away. */
  lemma ResetBrings(terms: Terms, v: Stage, back: seq<Tx>, l: Passage, w: Stage, i: nat)
    requires Resets(terms, v, back, l, w) && Sorted(v) && i < |back|
    requires Checked(terms, back[i], back[i].from in v.locals).None?
    ensures |l.errs| == |back| && |l.log.views| == |l.errs| + 1
    ensures TurnedAway(terms, l.log.views[i], back[i], l.errs[i]) || Survives(terms, back, l, w, i, back[i]) ||
            Survives(terms, back, l, w, i + 1, back[i])
  {
    hide Demotion, Promotion, Adds, TurnedAway, Survives, Checked, Fit, Sorted;
    var start := v.(virt := map[]);
    ChainLocals(terms, start, back, l.errs, l.log, i);
    assert StepOf(terms, back, false, l.errs, l.log, i);
    AddsBack(terms, l.log.views[i], back[i], l.log.replaced[i], l.errs[i], l.log.views[i + 1]);
    CheckedIs(terms, back[i], back[i].from in v.locals);
    if back[i] in l.log.views[i].all {
      ResetKeeps(terms, v, back, l, w, i, back[i]);
    } else if back[i] in l.log.views[i + 1].all {
      ResetKeeps(terms, v, back, l, w, i + 1, back[i]);
    }
  }

  lemma ResetSound(terms: Terms, v: Stage, back: seq<Tx>, l: Passage, w: Stage)
    requires Resets(terms, v, back, l, w)
    ensures AllSound(terms.config, v.all, v.locals) ==> AllSound(terms.config, w.all, w.locals)
  {
    hide Batched, Sound, Trimmed, Advanced, StillPending, PoolSpec.Demoted;
    BatchSound(terms, v.(virt := map[]), back, false, l.errs, l.log, l.ready, l.rest, l.full);
  }

  /** With nothing to bring back, the lists are demoted as they are. */
  lemma ResetPlain(terms: Terms, v: Stage, l: Passage, w: Stage)
    requires Resets(terms, v, [], l, w)
    ensures l.full == v.(virt := map[])
  {
    hide StepOf, Promotion, Demotion;
    assert Dirty([], l.errs, l.log) == {};
  }
}
