/** Dependencies of the trie download scheduler, stated on values. */
module SyncSpec {

  import opened Common

  /** A hash is only ever compared and used as a key. Zero stands for no parent. */
  type Hash = nat

  const NONE: Hash := 0

  /** A pending request; the requests waiting for it are given by their hashes. */
  datatype Request = Request(data: Option<Bytes>, raw: bool, parents: seq<Hash>, depth: int, deps: nat)

  type Requests = map<Hash, Request>

  type Links = set<(Hash, Hash)>

  /** A hash that a node refers to, and how much deeper it lies. */
  datatype Kid = Kid(hash: Hash, step: nat)

  /** Node decoding: the hashes among the children, or an error. */
  type Decoder = Bytes -> Option<seq<Kid>>

  // ----- Counting who waits for what

  /** Number of pending requests that `p` waits for, with multiplicity. */
  ghost function Waits(requests: Requests, p: Hash): (r: nat)
    decreases |requests|
  {
    if requests == map[] then 0 else
      var k :| k in requests;
      multiset(requests[k].parents)[p] + Waits(requests - {k}, p)
  }

  lemma {:induction false} WaitsSplit(requests: Requests, k: Hash, p: Hash)
    requires k in requests
    ensures Waits(requests, p) == multiset(requests[k].parents)[p] + Waits(requests - {k}, p)
    decreases |requests|
  {
    var q :| q in requests && Waits(requests, p) == multiset(requests[q].parents)[p] + Waits(requests - {q}, p);
    if q != k {
      WaitsSplit(requests - {q}, k, p);
      WaitsSplit(requests - {k}, q, p);
      assert requests - {q} - {k} == requests - {k} - {q};
    }
  }

  lemma {:induction false} WaitsSame(a: Requests, b: Requests, p: Hash)
    requires a.Keys == b.Keys && forall k :: k in a ==> multiset(a[k].parents)[p] == multiset(b[k].parents)[p]
    ensures Waits(a, p) == Waits(b, p)
    decreases |a|
  {
    if a == map[] {
      assert b == map[];
    } else {
      var k :| k in a;
      WaitsSplit(a, k, p);
      WaitsSplit(b, k, p);
      WaitsSame(a - {k}, b - {k}, p);
    }
  }

  lemma WaitsUpdate(requests: Requests, k: Hash, r: Request, p: Hash)
    requires k in requests
    ensures Waits(requests[k := r], p) + multiset(requests[k].parents)[p] == Waits(requests, p) + multiset(r.parents)[p]
  {
    WaitsSplit(requests, k, p);
    WaitsSplit(requests[k := r], k, p);
    assert requests[k := r] - {k} == requests - {k};
  }

  lemma WaitsAdd(requests: Requests, k: Hash, r: Request, p: Hash)
    requires k !in requests
    ensures Waits(requests[k := r], p) == Waits(requests, p) + multiset(r.parents)[p]
  {
    WaitsSplit(requests[k := r], k, p);
    assert requests[k := r] - {k} == requests;
  }

  lemma {:induction false} WaitsZero(requests: Requests, p: Hash)
    requires forall k :: k in requests ==> p !in requests[k].parents
    ensures Waits(requests, p) == 0
    decreases |requests|
  {
    if requests != map[] {
      var k :| k in requests;
      WaitsSplit(requests, k, p);
      WaitsZero(requests - {k}, p);
    }
  }

  // ----- The invariant

  /** Dependency counts are exact, up to notifications that are owed. */
  ghost predicate Counted(requests: Requests, owed: multiset<Hash>) {
    forall p :: p in requests ==> requests[p].deps == Waits(requests, p) + owed[p]
  }

  /** Whoever waits, or is owed a notification, is pending. */
  ghost predicate Rooted(requests: Requests, owed: multiset<Hash>) {
    && (forall k, p :: k in requests && p in requests[k].parents ==> p in requests)
    && (forall p :: p in owed ==> p in requests)
  }

  /** Requests have their data once they wait for anything. */
  ghost predicate Ready(requests: Requests) {
    forall p :: p in requests && requests[p].deps > 0 ==> requests[p].data.Some?
  }

  /** A dependency is stored, or pending with the dependent among those that wait for it. */
  ghost predicate Tied(links: Links, requests: Requests, store: set<Hash>) {
    forall p, c :: (p, c) in links ==> c in store || (c in requests && p in requests[c].parents)
  }

  /** The children of a node are among its dependencies, unless the node was not looked into. */
  ghost predicate Scanned(h: Hash, data: Bytes, links: Links, unscanned: set<Hash>, decode: Decoder) {
    h !in unscanned && decode(data).Some? ==>
      forall i :: 0 <= i < |decode(data).value| ==> (h, decode(data).value[i].hash) in links
  }

  ghost predicate AllScanned(requests: Requests, links: Links, unscanned: set<Hash>, decode: Decoder) {
    forall h :: h in requests && requests[h].data.Some? ==> Scanned(h, requests[h].data.value, links, unscanned, decode)
  }

  ghost predicate StoreScanned(store: map<Hash, Bytes>, links: Links, unscanned: set<Hash>, decode: Decoder) {
    forall h :: h in store ==> Scanned(h, store[h], links, unscanned, decode)
  }

  /** Every prefix of the completion order is closed over the database. */
  ghost predicate Ordered(order: seq<Hash>, links: Links, db: set<Hash>) {
    forall i, c :: 0 <= i < |order| && (order[i], c) in links ==> c in db || c in order[..i]
  }

  ghost predicate Queued(queue: seq<(Hash, int)>, h: Hash) {
    exists i :: 0 <= i < |queue| && queue[i].0 == h
  }

  ghost predicate Scheduled(requests: Requests, owed: multiset<Hash>, links: Links, store: set<Hash>,
                            unscanned: set<Hash>, decode: Decoder) {
    && Counted(requests, owed)
    && Rooted(requests, owed)
    && Ready(requests)
    && Tied(links, requests, store)
    && AllScanned(requests, links, unscanned, decode)
  }

  /** What the database holds and is no longer in the works has its dependencies there. */
  ghost predicate DbClosed(db: set<Hash>, requests: set<Hash>, batch: set<Hash>, links: Links) {
    forall p, c :: (p, c) in links && p in db && p !in requests && p !in batch ==> c in db
  }

  // ----- Completing a request

  /** A request that waits for nothing has all its dependencies stored. */
  lemma NobodyBelow(requests: Requests, h: Hash, owed: multiset<Hash>, links: Links, store: set<Hash>)
    requires Counted(requests, owed) && Tied(links, requests, store) && h in requests && requests[h].deps == 0
    ensures forall k :: k in requests ==> h !in requests[k].parents
    ensures h !in owed
    ensures forall c :: (h, c) in links ==> c in store
  {
    forall k | k in requests ensures h !in requests[k].parents {
      WaitsSplit(requests, k, h);
      assert multiset(requests[k].parents)[h] == 0;
    }
  }

  lemma CompletedCounted(requests: Requests, h: Hash, owed: multiset<Hash>)
    requires Counted(requests, owed) && h in requests
    ensures Counted(requests - {h}, owed + multiset(requests[h].parents))
  {
    var rest := requests - {h};
    forall p | p in rest ensures rest[p].deps == Waits(rest, p) + (owed + multiset(requests[h].parents))[p] {
      WaitsSplit(requests, h, p);
    }
  }

  lemma CompletedRooted(requests: Requests, h: Hash, owed: multiset<Hash>)
    requires Rooted(requests, owed) && h in requests && h !in owed
    requires forall k :: k in requests ==> h !in requests[k].parents
    ensures Rooted(requests - {h}, owed + multiset(requests[h].parents))
  {
  }

  /** A request that waits for nothing moves to the store; those that wait for it are owed a
      notification. */
  lemma Completed(requests: Requests, h: Hash, owed: multiset<Hash>, links: Links, store: set<Hash>,
                  unscanned: set<Hash>, decode: Decoder)
    requires Scheduled(requests, owed, links, store, unscanned, decode) && h in requests && requests[h].deps == 0
    ensures Scheduled(requests - {h}, owed + multiset(requests[h].parents), links, store + {h}, unscanned, decode)
    ensures forall c :: (h, c) in links ==> c in store
    ensures requests[h].data.Some? ==> Scanned(h, requests[h].data.value, links, unscanned, decode)
  {
    NobodyBelow(requests, h, owed, links, store);
    CompletedCounted(requests, h, owed);
    CompletedRooted(requests, h, owed);
    assert Tied(links, requests - {h}, store + {h});
    hide Counted, Rooted, Tied;
    assert AllScanned(requests - {h}, links, unscanned, decode);
  }

  function Notify(r: Request): (q: Request) {
    r.(deps := if r.deps > 0 then r.deps - 1 else 0)
  }

  /** Requests that differ in dependency counts at most. */
  ghost predicate SameButDeps(a: Requests, b: Requests) {
    && a.Keys == b.Keys
    && forall k :: k in a ==> b[k] == a[k].(deps := b[k].deps)
  }

  lemma DepsChanged(a: Requests, b: Requests, owed: multiset<Hash>, due: multiset<Hash>, links: Links,
                    store: set<Hash>, unscanned: set<Hash>, decode: Decoder)
    requires Scheduled(a, owed, links, store, unscanned, decode) && SameButDeps(a, b)
    requires forall p :: p in a ==> b[p].deps + owed[p] == a[p].deps + due[p]
    requires forall p :: p in due ==> p in a
    requires forall p :: p in a && b[p].deps > 0 ==> a[p].data.Some?
    ensures Scheduled(b, due, links, store, unscanned, decode)
  {
    forall p | p in b ensures Waits(b, p) == Waits(a, p) {
      WaitsSame(b, a, p);
    }
    assert Counted(b, due);
    assert Tied(links, b, store);
    hide Counted, Tied;
    assert AllScanned(b, links, unscanned, decode);
  }

  lemma Notified(requests: Requests, p: Hash, owed: multiset<Hash>, links: Links, store: set<Hash>,
                 unscanned: set<Hash>, decode: Decoder)
    requires Scheduled(requests, owed + multiset{p}, links, store, unscanned, decode)
    ensures p in requests && requests[p].deps > 0 && requests[p].data.Some?
    ensures Scheduled(requests[p := Notify(requests[p])], owed, links, store, unscanned, decode)
  {
    assert p in owed + multiset{p};
    assert requests[p].deps > 0;
    DepsChanged(requests, requests[p := Notify(requests[p])], owed + multiset{p}, owed, links, store, unscanned,
                decode);
  }

  /** `n` more dependencies are announced for `p`. */
  lemma Announced(requests: Requests, p: Hash, n: nat, owed: multiset<Hash>, links: Links, store: set<Hash>,
                  unscanned: set<Hash>, decode: Decoder)
    requires Scheduled(requests, owed, links, store, unscanned, decode)
    requires p in requests && requests[p].data.Some?
    ensures
      var after := requests[p := requests[p].(deps := requests[p].deps + n)];
      Scheduled(after, owed + Copies(p, n), links, store, unscanned, decode)
  {
    var after := requests[p := requests[p].(deps := requests[p].deps + n)];
    assert forall q :: q in owed + Copies(p, n) ==> q in owed || q == p;
    hide Counted, Tied, AllScanned;
    DepsChanged(requests, after, owed, owed + Copies(p, n), links, store, unscanned, decode);
  }

  ghost function Copies(p: Hash, n: nat): (r: multiset<Hash>)
    ensures r[p] == n && forall q :: q != p ==> r[q] == 0
  {
    multiset{}[p := n]
  }

  // ----- Scheduling a request

  /** The requests after one for `c` has been scheduled on behalf of `ps`. */
  function WithRequest(requests: Requests, c: Hash, raw: bool, depth: int, ps: seq<Hash>): (r: Requests) {
    if c in requests then requests[c := requests[c].(parents := requests[c].parents + ps)]
    else requests[c := Request(None, raw, ps, depth, 0)]
  }

  /** The requests once the data of `h` are there. */
  function Filled(requests: Requests, h: Hash, data: Bytes): (r: Requests)
    requires h in requests
  {
    requests[h := requests[h].(data := Some(data))]
  }

  /** The requests after one for `c` has been scheduled for `parent`, if there is one. */
  function Enlisted(requests: Requests, c: Hash, raw: bool, depth: int, parent: Hash): (r: Requests)
    requires parent != NONE ==> parent in requests
  {
    if parent == NONE then WithRequest(requests, c, raw, depth, [])
    else WithRequest(requests[parent := requests[parent].(deps := requests[parent].deps + 1)], c, raw, depth, [parent])
  }

  lemma RequestedCounted(requests: Requests, c: Hash, raw: bool, depth: int, ps: seq<Hash>, owed: multiset<Hash>)
    requires Counted(requests, owed + multiset(ps)) && Rooted(requests, owed + multiset(ps))
    ensures Counted(WithRequest(requests, c, raw, depth, ps), owed)
  {
    var after := WithRequest(requests, c, raw, depth, ps);
    forall p | p in after ensures after[p].deps == Waits(after, p) + owed[p] {
      if c in requests {
        WaitsUpdate(requests, c, after[c], p);
        assert multiset(after[c].parents) == multiset(requests[c].parents) + multiset(ps);
      } else {
        WaitsAdd(requests, c, after[c], p);
        if p == c {
          assert c !in owed + multiset(ps);
          WaitsZero(requests, c);
        }
      }
    }
  }

  lemma RequestedRooted(requests: Requests, c: Hash, raw: bool, depth: int, ps: seq<Hash>, owed: multiset<Hash>)
    requires Rooted(requests, owed + multiset(ps))
    ensures Rooted(WithRequest(requests, c, raw, depth, ps), owed)
  {
  }

  lemma RequestedTied(requests: Requests, c: Hash, raw: bool, depth: int, ps: seq<Hash>, links: Links, p: Hash,
                      store: set<Hash>)
    requires Tied(links, requests, store)
    requires ps == [] || ps == [p]
    ensures Tied(if ps == [] then links else links + {(p, c)}, WithRequest(requests, c, raw, depth, ps), store)
  {
  }

  /** Scheduling a request for `c` ties those waiting to it. */
  lemma Requested(requests: Requests, c: Hash, raw: bool, depth: int, ps: seq<Hash>, p: Hash, owed: multiset<Hash>,
                  links: Links,
                  store: set<Hash>, unscanned: set<Hash>, decode: Decoder)
    requires Scheduled(requests, owed + multiset(ps), links, store, unscanned, decode)
    requires ps == [] || ps == [p]
    ensures
      var after, tied := WithRequest(requests, c, raw, depth, ps), if ps == [] then links else links + {(p, c)};
      Scheduled(after, owed, tied, store, unscanned, decode)
  {
    hide Counted, Rooted, Tied, AllScanned;
    RequestedCounted(requests, c, raw, depth, ps, owed);
    RequestedRooted(requests, c, raw, depth, ps, owed);
    RequestedTied(requests, c, raw, depth, ps, links, p, store);
    RequestedScanned(requests, c, raw, depth, ps, links, if ps == [] then links else links + {(p, c)}, unscanned,
                     decode);
  }

  lemma RequestedScanned(requests: Requests, c: Hash, raw: bool, depth: int, ps: seq<Hash>, links: Links, more: Links,
                         unscanned: set<Hash>, decode: Decoder)
    requires AllScanned(requests, links, unscanned, decode) && links <= more
    ensures AllScanned(WithRequest(requests, c, raw, depth, ps), more, unscanned, decode)
  {
  }

  // ----- Stored data

  lemma OrderedMore(order: seq<Hash>, links: Links, db: set<Hash>, h: Hash)
    requires Ordered(order, links, db)
    requires forall c :: (h, c) in links ==> c in db || c in order
    ensures Ordered(order + [h], links, db)
  {
    var more := order + [h];
    forall i, c | 0 <= i < |more| && (more[i], c) in links ensures c in db || c in more[..i] {
      if i < |order| {
        assert more[i] == order[i] && more[..i] == order[..i];
      } else {
        assert more[..i] == order;
      }
    }
  }

  /** What completing requests may do to those that stay: a request that waits for nothing any more
      does not stay. */
  ghost predicate Drained(before: Requests, after: Requests) {
    && after.Keys <= before.Keys
    && (forall k :: k in after ==> after[k] == before[k].(deps := after[k].deps))
    && (forall k :: k in after && before[k].deps > 0 ==> after[k].deps > 0)
  }

  /** Those among `ps` that are pending wait for something. */
  ghost predicate StillWaiting(requests: Requests, ps: seq<Hash>) {
    forall i :: 0 <= i < |ps| && ps[i] in requests ==> requests[ps[i]].deps > 0
  }

  lemma NoneWaiting(requests: Requests, ps: seq<Hash>)
    ensures StillWaiting(requests, ps[..0])
  {
  }

  lemma WaitingMore(before: Requests, after: Requests, ps: seq<Hash>, i: nat)
    requires i < |ps| && StillWaiting(before, ps[..i]) && Drained(before, after)
    requires ps[i] in after ==> after[ps[i]].deps > 0
    ensures StillWaiting(after, ps[..i + 1])
  {
    forall j | 0 <= j <= i && ps[j] in after ensures after[ps[j]].deps > 0 {
      if j < i {
        assert ps[..i][j] == ps[j];
      }
    }
  }

  lemma DrainedTold(before: Requests, p: Hash, after: Requests)
    requires p in before && Drained(before[p := Notify(before[p])], after)
    requires p in after ==> Notify(before[p]).deps > 0
    ensures Drained(before, after)
    ensures p in after ==> after[p].deps > 0
  {
  }

  lemma DrainedTrans(a: Requests, b: Requests, c: Requests)
    requires Drained(a, b) && Drained(b, c)
    ensures Drained(a, c)
  {
  }

  lemma DrainedRefl(a: Requests)
    ensures Drained(a, a)
  {
  }

  lemma DrainedKeys(a: Requests, b: Requests)
    requires Drained(a, b)
    ensures b.Keys <= a.Keys
  {
  }

  lemma {:induction false} DrainedSize(a: Requests, b: Requests)
    requires Drained(a, b)
    ensures |b| <= |a|
    decreases |b|
  {
    if b != map[] {
      var k :| k in b;
      DrainedSize(a - {k}, b - {k});
    }
  }

  /** What scheduling may do: nothing pending gets lost or changes but for those who wait, and what is
      new has no data. */
  ghost predicate Extended(before: Requests, after: Requests) {
    && before.Keys <= after.Keys
    && (forall k :: k in before ==>
          after[k].data == before[k].data && after[k].raw == before[k].raw && after[k].deps >= before[k].deps)
    && (forall k :: k in after && k !in before ==> after[k].data.None?)
  }

  /** What completing requests may do to the memory batch: it keeps what it has, and gains exactly the
      requests that go, with their data. */
  ghost predicate Moved(before: Requests, held: map<Hash, Bytes>, after: Requests, batch: map<Hash, Bytes>) {
    && (forall k :: k in held ==> k in batch && batch[k] == held[k])
    && (forall k :: k in batch && k !in held ==> k in before && k !in after && before[k].data == Some(batch[k]))
    && (forall k :: k in before && k !in after ==> k in batch && before[k].data == Some(batch[k]))
  }

  lemma MovedTrans(a: Requests, x: map<Hash, Bytes>, b: Requests, y: map<Hash, Bytes>, c: Requests, z: map<Hash, Bytes>)
    requires Moved(a, x, b, y) && Moved(b, y, c, z) && Drained(a, b) && Drained(b, c)
    ensures Moved(a, x, c, z)
  {
  }

  lemma MovedNone(a: Requests, x: map<Hash, Bytes>)
    ensures Moved(a, x, a, x)
  {
  }

  lemma MovedTold(a: Requests, p: Hash, x: map<Hash, Bytes>, b: Requests, y: map<Hash, Bytes>)
    requires p in a && Moved(a[p := Notify(a[p])], x, b, y)
    ensures Moved(a, x, b, y)
  {
  }

  /** The data delivered for `k` are in the memory batch, or kept with a request that waits for others. */
  ghost predicate Settled(requests: Requests, batch: map<Hash, Bytes>, k: Hash, data: Bytes) {
    || (k in batch && batch[k] == data)
    || (k in requests && requests[k].data == Some(data) && requests[k].deps > 0)
  }

  ghost predicate StaySettled(before: Requests, held: map<Hash, Bytes>, after: Requests, batch: map<Hash, Bytes>) {
    forall k, data :: Settled(before, held, k, data) ==> Settled(after, batch, k, data)
  }

  lemma ExtendedSettled(before: Requests, after: Requests, batch: map<Hash, Bytes>)
    requires Extended(before, after)
    ensures StaySettled(before, batch, after, batch)
  {
  }

  lemma MovedSettled(before: Requests, held: map<Hash, Bytes>, after: Requests, batch: map<Hash, Bytes>)
    requires Drained(before, after) && Moved(before, held, after, batch)
    ensures StaySettled(before, held, after, batch)
  {
  }

  lemma FilledSettled(requests: Requests, h: Hash, data: Bytes, batch: map<Hash, Bytes>)
    requires h in requests && requests[h].data.None?
    ensures StaySettled(requests, batch, Filled(requests, h, data), batch)
  {
  }

  /** What accepting `data` for `h` may do to the requests: the data are set, or the request is gone;
      others keep their data or go, and go only with data; and what is new has none and is named. */
  ghost predicate Stepped(before: Requests, h: Hash, data: Bytes, named: set<Hash>, after: Requests) {
    && h in before && (h in after ==> after[h].data == Some(data) && after[h].raw == before[h].raw)
    && (forall k :: k in before && k in after && k != h ==>
          after[k].data == before[k].data && after[k].raw == before[k].raw)
    && (forall k :: k in before && k !in after && k != h ==> before[k].data.Some?)
    && (forall k :: k in after && k !in before ==> after[k].data.None? && k in named)
  }

  lemma SteppedExtended(before: Requests, h: Hash, data: Bytes, named: set<Hash>, after: Requests)
    requires h in before && Extended(Filled(before, h, data), after) && after.Keys <= before.Keys + named
    ensures Stepped(before, h, data, named, after)
  {
  }

  lemma SteppedMoved(before: Requests, h: Hash, data: Bytes, named: set<Hash>, mid: Requests, held: map<Hash, Bytes>,
                     after: Requests, batch: map<Hash, Bytes>)
    requires Stepped(before, h, data, named, mid) && Drained(mid, after) && Moved(mid, held, after, batch)
    ensures Stepped(before, h, data, named, after)
  {
  }

  /** A batch that keeps what it has. */
  ghost predicate Larger(held: map<Hash, Bytes>, batch: map<Hash, Bytes>) {
    forall k :: k in held ==> k in batch && batch[k] == held[k]
  }

  lemma LargerRefl(a: map<Hash, Bytes>)
    ensures Larger(a, a)
  {
  }

  lemma SettledRefl(requests: Requests, batch: map<Hash, Bytes>)
    ensures StaySettled(requests, batch, requests, batch)
  {
  }

  lemma InBatchSettled(requests: Requests, batch: map<Hash, Bytes>, h: Hash, data: Bytes)
    requires h in batch && batch[h] == data
    ensures Settled(requests, batch, h, data)
  {
  }

  lemma SteppedMore(before: Requests, h: Hash, data: Bytes, named: set<Hash>, after: Requests, more: set<Hash>)
    requires Stepped(before, h, data, named, after) && named <= more
    ensures Stepped(before, h, data, more, after)
  {
  }

  lemma LargerTrans(a: map<Hash, Bytes>, b: map<Hash, Bytes>, c: map<Hash, Bytes>)
    requires Larger(a, b) && Larger(b, c)
    ensures Larger(a, c)
    ensures a != b || b != c ==> a != c
  {
    if a == c {
      assert forall k :: k in b <==> k in a;
      assert a == b;
    }
  }

  /** A request that goes takes its data to the batch, which only grows. */
  lemma MovedMeans(before: Requests, held: map<Hash, Bytes>, after: Requests, batch: map<Hash, Bytes>, h: Hash)
    requires Moved(before, held, after, batch)
    ensures Larger(held, batch)
    ensures h in before && h !in after ==> h in batch && before[h].data == Some(batch[h])
  {
  }

  lemma SettledTrans(a: Requests, x: map<Hash, Bytes>, b: Requests, y: map<Hash, Bytes>, c: Requests,
                     z: map<Hash, Bytes>)
    requires StaySettled(a, x, b, y) && StaySettled(b, y, c, z)
    ensures StaySettled(a, x, c, z)
  {
  }

  lemma RequestExtends(requests: Requests, c: Hash, raw: bool, depth: int, ps: seq<Hash>)
    ensures Extended(requests, WithRequest(requests, c, raw, depth, ps))
    ensures c in WithRequest(requests, c, raw, depth, ps)
    ensures c !in requests ==> var r := WithRequest(requests, c, raw, depth, ps)[c]; r.raw == raw && r.data.None?
    ensures WithRequest(requests, c, raw, depth, ps).Keys == requests.Keys + {c}
  {
  }

  lemma AnnouncedExtends(requests: Requests, h: Hash, n: nat)
    requires h in requests
    ensures Extended(requests, requests[h := requests[h].(deps := requests[h].deps + n)])
  {
  }

  lemma ExtendedTrans(a: Requests, b: Requests, c: Requests)
    requires Extended(a, b) && Extended(b, c)
    ensures Extended(a, c)
  {
  }

  /** A dependency that is stored already. */
  lemma LinkStored(requests: Requests, p: Hash, c: Hash, owed: multiset<Hash>, links: Links, store: set<Hash>,
                   unscanned: set<Hash>, decode: Decoder)
    requires Scheduled(requests, owed, links, store, unscanned, decode) && c in store
    ensures Scheduled(requests, owed, links + {(p, c)}, store, unscanned, decode)
  {
  }

  /** The memory batch holds the completed nodes in order, and stored nodes have dependencies
      that are stored or still pending. */
  ghost predicate Kept(database: map<Hash, Bytes>, batch: map<Hash, Bytes>, order: seq<Hash>, pending: set<Hash>,
                       links: Links,
                       unscanned: set<Hash>, decode: Decoder)
  {
    && pending !! batch.Keys
    && (forall h :: h in batch <==> h in order)
    && (forall i, j :: 0 <= i < j < |order| ==> order[i] != order[j])
    && Ordered(order, links, database.Keys)
    && DbClosed(database.Keys, pending, batch.Keys, links)
    && StoreScanned(batch, links, unscanned, decode)
    && StoreScanned(database, links, unscanned, decode)
  }

  lemma KeptLink(database: map<Hash, Bytes>, batch: map<Hash, Bytes>, order: seq<Hash>, pending: set<Hash>,
                 links: Links,
                 unscanned: set<Hash>, decode: Decoder, p: Hash, c: Hash)
    requires Kept(database, batch, order, pending, links, unscanned, decode) && p in pending
    ensures Kept(database, batch, order, pending, links + {(p, c)}, unscanned, decode)
  {
    assert p !in order;
    hide Ordered, StoreScanned;
  }

  lemma KeptPending(database: map<Hash, Bytes>, batch: map<Hash, Bytes>, order: seq<Hash>, pending: set<Hash>,
                    links: Links,
                    unscanned: set<Hash>, decode: Decoder, c: Hash)
    requires Kept(database, batch, order, pending, links, unscanned, decode) && c !in batch
    ensures Kept(database, batch, order, pending + {c}, links, unscanned, decode)
  {
  }

  /** A node whose dependencies are stored joins the batch. */
  lemma KeptDone(database: map<Hash, Bytes>, batch: map<Hash, Bytes>, order: seq<Hash>, pending: set<Hash>,
                 links: Links,
                 unscanned: set<Hash>, decode: Decoder, h: Hash, data: Bytes)
    requires Kept(database, batch, order, pending, links, unscanned, decode) && h in pending
    requires forall c :: (h, c) in links ==> c in database.Keys + batch.Keys
    requires Scanned(h, data, links, unscanned, decode)
    ensures Kept(database, batch[h := data], order + [h], pending - {h}, links, unscanned, decode)
  {
    OrderedMore(order, links, database.Keys, h);
    hide Ordered, Scanned;
    assert h !in order;
  }

  ghost predicate Pursued(requests: Requests, queue: seq<(Hash, int)>, asked: set<Hash>, roots: set<Hash>,
                          store: set<Hash>) {
    && (forall h :: h in roots ==> h in store || h in requests)
    && (forall h :: h in requests && requests[h].data.None? ==> h in asked || Queued(queue, h))
  }

  /** What is not looked into, now or once it is delivered, is excused. */
  ghost predicate Excused(requests: Requests, unscanned: set<Hash>, excuses: set<Hash>) {
    && unscanned <= excuses
    && forall h :: h in requests && requests[h].raw ==> h in excuses
  }

  lemma WaiterIsPending(requests: Requests, ps: seq<Hash>, p: Hash, owed: multiset<Hash>, links: Links,
                        store: set<Hash>, unscanned: set<Hash>, decode: Decoder)
    requires Scheduled(requests, owed + multiset(ps), links, store, unscanned, decode) && ps == [p]
    ensures p in requests
  {
  }

  lemma QueuedMore(queue: seq<(Hash, int)>, e: (Hash, int))
    ensures Queued(queue + [e], e.0)
    ensures forall h :: Queued(queue, h) ==> Queued(queue + [e], h)
  {
    assert (queue + [e])[|queue|].0 == e.0;
    forall h | Queued(queue, h) ensures Queued(queue + [e], h) {
      var i :| 0 <= i < |queue| && queue[i].0 == h;
      assert (queue + [e])[i].0 == h;
    }
  }

  /** A new request is queued. */
  lemma PursuedRequest(requests: Requests, queue: seq<(Hash, int)>, asked: set<Hash>, roots: set<Hash>,
                       store: set<Hash>,
                       c: Hash, raw: bool, depth: int, ps: seq<Hash>)
    requires Pursued(requests, queue, asked, roots, store)
    ensures
      var after := WithRequest(requests, c, raw, depth, ps);
      var line := if c in requests then queue else queue + [(c, depth)];
      Pursued(after, line, asked, roots, store)
  {
    QueuedMore(queue, (c, depth));
    hide Queued;
  }

  lemma ExtendedRefl(a: Requests)
    ensures Extended(a, a)
  {
  }

  // ----- Looking into a node

  /** The children that are not stored yet, in order. */
  function Unknown(kids: seq<Kid>, store: set<Hash>): (r: seq<Kid>) {
    if kids == [] then [] else
      var init, last := kids[..|kids| - 1], kids[|kids| - 1];
      if last.hash in store then Unknown(init, store) else Unknown(init, store) + [last]
  }

  lemma {:induction false} UnknownSplit(kids: seq<Kid>, store: set<Hash>, kid: Kid)
    ensures kid in Unknown(kids, store) <==> kid in kids && kid.hash !in store
  {
    if kids != [] {
      var init, last := kids[..|kids| - 1], kids[|kids| - 1];
      UnknownSplit(init, store, kid);
      assert kids == init + [last];
    }
  }

  /** The data of a request arrive; the node has not been looked into. */
  lemma DataArrived(requests: Requests, h: Hash, data: Bytes, owed: multiset<Hash>, links: Links, store: set<Hash>,
                    unscanned: set<Hash>, decode: Decoder)
    requires Scheduled(requests, owed, links, store, unscanned, decode) && h in requests && requests[h].data.None?
    ensures requests[h].deps == 0
    ensures Scheduled(requests[h := requests[h].(data := Some(data))], owed, links, store, unscanned + {h}, decode)
  {
    var after := requests[h := requests[h].(data := Some(data))];
    forall p | p in after ensures Waits(after, p) == Waits(requests, p) {
      WaitsSame(after, requests, p);
    }
    assert Tied(links, after, store);
    hide Tied, Waits;
    forall k | k in after && after[k].data.Some?
      ensures Scanned(k, after[k].data.value, links, unscanned + {h}, decode)
    {
      if k != h {
        assert Scanned(k, requests[k].data.value, links, unscanned, decode);
      }
    }
  }

  /** All children of `h` are on record. */
  lemma ScanDone(requests: Requests, h: Hash, owed: multiset<Hash>, links: Links, store: set<Hash>,
                 unscanned: set<Hash>, decode: Decoder)
    requires Scheduled(requests, owed, links, store, unscanned + {h}, decode) && h in requests && requests[h].data.Some?
    requires Scanned(h, requests[h].data.value, links, unscanned, decode)
    ensures Scheduled(requests, owed, links, store, unscanned + {}, decode)
  {
  }

  lemma KeptLess(database: map<Hash, Bytes>, batch: map<Hash, Bytes>, order: seq<Hash>, pending: set<Hash>,
                 links: Links,
                 unscanned: set<Hash>, decode: Decoder, h: Hash)
    requires Kept(database, batch, order, pending, links, unscanned, decode)
    ensures Kept(database, batch, order, pending, links, unscanned + {h}, decode)
  {
  }

  lemma LastCopy(p: Hash, n: nat)
    requires n > 0
    ensures Copies(p, n) == Copies(p, n - 1) + multiset([p])
  {
  }

  lemma ExtendedAt(a: Requests, b: Requests, h: Hash)
    requires Extended(a, b) && h in a
    ensures h in b && b[h].data == a[h].data && b[h].deps >= a[h].deps
  {
  }

  lemma AllKids(kids: seq<Kid>, store: set<Hash>, missing: seq<Kid>)
    requires missing == Unknown(kids, store)
    ensures forall i :: 0 <= i < |missing| ==> missing[i].hash !in store && missing[i] in kids
    ensures forall i :: 0 <= i < |kids| && kids[i].hash !in store ==>
      exists j :: 0 <= j < |missing| && missing[j] == kids[i]
  {
    forall i | 0 <= i < |missing| ensures missing[i].hash !in store && missing[i] in kids {
      UnknownSplit(kids, store, missing[i]);
    }
    forall i | 0 <= i < |kids| && kids[i].hash !in store
      ensures exists j :: 0 <= j < |missing| && missing[j] == kids[i]
    {
      UnknownSplit(kids, store, kids[i]);
      assert kids[i] in missing;
    }
  }

  // ----- Writing the batch to the database

  lemma KeptWritten(database: map<Hash, Bytes>, batch: map<Hash, Bytes>, order: seq<Hash>, pending: set<Hash>,
                    links: Links,
                    unscanned: set<Hash>, decode: Decoder, h: Hash)
    requires Kept(database, batch, order, pending, links, unscanned, decode) && h in batch
    ensures Kept(database[h := batch[h]], batch, order, pending, links, unscanned, decode)
  {
  }

  /** Once all of the batch is in the database, the database is closed without it. */
  lemma KeptFlushed(database: map<Hash, Bytes>, batch: map<Hash, Bytes>, order: seq<Hash>, pending: set<Hash>,
                    links: Links,
                    unscanned: set<Hash>, decode: Decoder)
    requires Kept(database, batch, order, pending, links, unscanned, decode) && batch.Keys <= database.Keys
    ensures Kept(database, map[], [], pending, links, unscanned, decode)
  {
    hide Scanned;
    forall p, c | (p, c) in links && p in database && p !in pending ensures c in database {
      if p in batch {
        assert p in order;
        var i :| 0 <= i < |order| && order[i] == p;
        OrderedAt(order, links, database.Keys, i, c);
      }
    }
  }

  lemma OrderedAt(order: seq<Hash>, links: Links, db: set<Hash>, i: nat, c: Hash)
    requires Ordered(order, links, db) && i < |order| && (order[i], c) in links
    ensures c in db || c in order[..i]
  {
  }

  // ----- Consequences

  /** A path from node to node, as the contents that hash to them say. */
  ghost predicate Path(path: seq<Hash>, content: Hash -> Bytes, decode: Decoder) {
    && path != []
    && forall i :: 0 <= i < |path| - 1 ==> KidOf(content(path[i]), path[i + 1], decode)
  }

  ghost predicate KidOf(data: Bytes, c: Hash, decode: Decoder) {
    decode(data).Some? && exists i :: 0 <= i < |decode(data).value| && decode(data).value[i].hash == c
  }

  /** With nothing pending, the children of a stored node that was looked into are stored. */
  lemma KidStored(h: Hash, c: Hash, database: map<Hash, Bytes>, batch: map<Hash, Bytes>, order: seq<Hash>, links: Links,
                  unscanned: set<Hash>, decode: Decoder, content: Hash -> Bytes)
    requires Kept(database, batch, order, {}, links, unscanned, decode) &&
      Tied(links, map[], database.Keys + batch.Keys)
    requires h in database || h in batch
    requires (h in database ==> database[h] == content(h)) && (h in batch ==> batch[h] == content(h))
    requires KidOf(content(h), c, decode) && h !in unscanned
    ensures c in database || c in batch
  {
    hide Ordered, DbClosed;
    assert Scanned(h, content(h), links, unscanned, decode);
    assert (h, c) in links;
  }

  lemma {:induction false} PathStored(path: seq<Hash>, database: map<Hash, Bytes>, batch: map<Hash, Bytes>,
                                      order: seq<Hash>, links: Links,
                                      unscanned: set<Hash>, decode: Decoder, content: Hash -> Bytes)
    requires Kept(database, batch, order, {}, links, unscanned, decode) &&
      Tied(links, map[], database.Keys + batch.Keys)
    requires forall h :: h in database ==> database[h] == content(h)
    requires forall h :: h in batch ==> batch[h] == content(h)
    requires Path(path, content, decode) && (path[0] in database || path[0] in batch)
    requires forall i :: 0 <= i < |path| - 1 ==> path[i] !in unscanned
    ensures path[|path| - 1] in database || path[|path| - 1] in batch
  {
    if |path| > 1 {
      var n := |path| - 2;
      var init := path[..n + 1];
      hide Kept, Tied, KidOf;
      assert Path(init, content, decode);
      PathStored(init, database, batch, order, links, unscanned, decode, content);
      assert KidOf(content(path[n]), path[n + 1], decode);
      KidStored(path[n], path[n + 1], database, batch, order, links, unscanned, decode, content);
    }
  }

  lemma ExtendedKeys(a: Requests, b: Requests)
    requires Extended(a, b)
    ensures a.Keys <= b.Keys
  {
  }

  /** A database that has got entries of the batch, and kept all else. */
  ghost predicate Mixed(before: map<Hash, Bytes>, batch: map<Hash, Bytes>, after: map<Hash, Bytes>) {
    && (forall h :: h in before ==> h in after)
    && (forall h :: h in after ==> (h in before && after[h] == before[h]) || (h in batch && after[h] == batch[h]))
  }

  ghost predicate WrittenOut(database: map<Hash, Bytes>, batch: map<Hash, Bytes>, order: seq<Hash>, n: nat) {
    forall i :: 0 <= i < n <= |order| ==>
      order[i] in database && order[i] in batch && database[order[i]] == batch[order[i]]
  }

  lemma NoneWritten(database: map<Hash, Bytes>, batch: map<Hash, Bytes>, order: seq<Hash>)
    ensures Mixed(database, batch, database) && WrittenOut(database, batch, order, 0)
  {
  }

  lemma WrittenMore(first: map<Hash, Bytes>, database: map<Hash, Bytes>, batch: map<Hash, Bytes>, order: seq<Hash>,
        n: nat)
    requires Mixed(first, batch, database) && WrittenOut(database, batch, order, n) && n < |order| && order[n] in batch
    ensures
      var more := database[order[n] := batch[order[n]]];
      Mixed(first, batch, more) && WrittenOut(more, batch, order, n + 1)
  {
  }

  lemma WrittenIn(database: map<Hash, Bytes>, batch: map<Hash, Bytes>, order: seq<Hash>, n: nat)
    requires WrittenOut(database, batch, order, n) && n <= |order|
    ensures forall i :: 0 <= i < n ==> order[i] in database
  {
  }

  lemma AllWritten(database: map<Hash, Bytes>, batch: map<Hash, Bytes>, order: seq<Hash>)
    requires WrittenOut(database, batch, order, |order|) && forall h :: h in batch ==> h in order
    ensures forall h :: h in batch ==> h in database && database[h] == batch[h]
  {
  }

  lemma AllInOrder(database: map<Hash, Bytes>, batch: map<Hash, Bytes>, order: seq<Hash>, pending: set<Hash>,
                   links: Links, unscanned: set<Hash>, decode: Decoder)
    requires Kept(database, batch, order, pending, links, unscanned, decode)
    ensures forall h :: h in batch ==> h in order
  {
  }

  lemma InBatch(database: map<Hash, Bytes>, batch: map<Hash, Bytes>, order: seq<Hash>, pending: set<Hash>, links: Links,
                unscanned: set<Hash>, decode: Decoder, i: nat)
    requires Kept(database, batch, order, pending, links, unscanned, decode) && i < |order|
    ensures order[i] in batch
  {
  }

  lemma WrittenClosed(database: map<Hash, Bytes>, batch: map<Hash, Bytes>, order: seq<Hash>, pending: set<Hash>,
                      links: Links,
                      unscanned: set<Hash>, decode: Decoder, n: nat)
    requires Kept(database, batch, order, pending, links, unscanned, decode) && n <= |order|
    requires forall i :: 0 <= i < n ==> order[i] in database
    ensures forall i, c :: 0 <= i < n && (order[i], c) in links ==> c in database
    ensures n == |order| ==> batch.Keys <= database.Keys
  {
  }

  // ----- The queue

  function Dropped(queue: seq<(Hash, int)>, i: nat): (r: seq<(Hash, int)>)
    requires i < |queue|
  {
    queue[..i] + queue[i + 1..]
  }

  lemma DroppedParts(queue: seq<(Hash, int)>, i: nat)
    requires i < |queue|
    ensures multiset(queue) == multiset(Dropped(queue, i)) + multiset{queue[i]}
    ensures forall x :: x in Dropped(queue, i) ==> x in queue
  {
    assert queue == queue[..i] + [queue[i]] + queue[i + 1..];
  }

  /** Of the entries of a queue, those taken are the deepest, deepest first, and the others are left. */
  ghost predicate DeepestFirst(queue: seq<(Hash, int)>, taken: seq<(Hash, int)>, left: seq<(Hash, int)>) {
    && multiset(queue) == multiset(left) + multiset(taken)
    && (forall i, j :: 0 <= i < j < |taken| ==> taken[i].1 >= taken[j].1)
    && (forall i, x :: 0 <= i < |taken| && x in left ==> x.1 <= taken[i].1)
  }

  lemma NoneTaken(queue: seq<(Hash, int)>)
    ensures DeepestFirst(queue, [], queue)
  {
  }

  lemma TakenMore(queue: seq<(Hash, int)>, taken: seq<(Hash, int)>, before: seq<(Hash, int)>, e: (Hash, int),
                  left: seq<(Hash, int)>)
    requires DeepestFirst(queue, taken, before)
    requires multiset(before) == multiset(left) + multiset{e} && forall x :: x in left ==> x.1 <= e.1
    ensures DeepestFirst(queue, taken + [e], left)
  {
    assert e in multiset(before);
    forall x | x in left ensures x in before {
      assert x in multiset(left);
      assert x in multiset(before);
    }
  }

  lemma QueuedElse(queue: seq<(Hash, int)>, i: nat, h: Hash)
    requires i < |queue| && Queued(queue, h) && h != queue[i].0
    ensures Queued(Dropped(queue, i), h)
  {
    var j :| 0 <= j < |queue| && queue[j].0 == h;
    var rest := Dropped(queue, i);
    assert rest[if j < i then j else j - 1].0 == h;
  }

  /** Taking a hash off the queue and asking for it loses nothing. */
  lemma PursuedPopped(requests: Requests, queue: seq<(Hash, int)>, asked: set<Hash>, roots: set<Hash>,
                      store: set<Hash>, i: nat)
    requires Pursued(requests, queue, asked, roots, store) && i < |queue|
    ensures Pursued(requests, Dropped(queue, i), asked + {queue[i].0}, roots, store)
  {
    forall h | h in requests && requests[h].data.None?
      ensures h in asked + {queue[i].0} || Queued(Dropped(queue, i), h)
    {
      if h !in asked && h != queue[i].0 {
        QueuedElse(queue, i, h);
      }
    }
  }

  /** A scheduler with nothing to do over a closed database. */
  lemma Initially(db: map<Hash, Bytes>, links: Links, unscanned: set<Hash>, decode: Decoder)
    requires StoreScanned(db, links, unscanned, decode) && forall p, c :: (p, c) in links ==> c in db
    ensures Scheduled(map[], multiset{}, links, db.Keys, unscanned, decode)
    ensures Kept(db, map[], [], {}, links, unscanned, decode)
    ensures Pursued(map[], [], {}, {}, db.Keys)
  {
  }
}
