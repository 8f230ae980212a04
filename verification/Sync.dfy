/** The scheduler that downloads a trie node by node (trie/sync.go). */
module Sync {

  import opened Common
  import opened SyncSpec

  datatype Error = NotRequested | AlreadyProcessed | BadNode | CallbackFailed

  /** What a leaf callback registers for the node whose leaf it is given. */
  datatype Sub = Sub(hash: Hash, raw: bool, depth: int)

  /** A delivered node, with what its leaf callback, if it has one, does: the entries it registers
      and whether it then fails. */
  datatype Delivery = Delivery(hash: Hash, data: Bytes, subs: seq<Sub>, fails: bool)

  class Scheduler {
    const decode: Decoder

    /** The root of the empty trie and the hash of empty code, which are never requested. */
    const emptyRoot: Hash
    const emptyState: Hash

    var database: map<Hash, Bytes>
    var batch: map<Hash, Bytes>
    var order: seq<Hash>
    var requests: Requests
    var queue: seq<(Hash, int)>

    /** Dependencies recorded so far, and the hashes accepted without a look at their children:
        raw entries, and nodes whose leaf callback failed. */
    ghost var links: Links
    ghost var unscanned: set<Hash>

    /** Roots asked for from outside, and hashes handed out by `Missing`. */
    ghost var roots: set<Hash>
    ghost var asked: set<Hash>

    /** Entries of the database that were taken as they are before this scheduler started. */
    ghost const skipped: set<Hash>

    /** Hashes first asked for as raw entries, and deliveries whose leaf callback failed. */
    ghost var excused: set<Hash>

    ghost function Stored(): (r: set<Hash>)
      reads this`database, this`batch
    {
      database.Keys + batch.Keys
    }

    /** Hashes that are stored or asked for. */
    ghost function Touched(): (r: set<Hash>)
      reads this`database, this`batch, this`requests
    {
      requests.Keys + Stored()
    }

    /** The state when `owed` notifications are outstanding, and the nodes in `recent` have not been
        looked into yet. */
    ghost predicate Inside(owed: multiset<Hash>, recent: set<Hash>)
      reads this
    {
      && Scheduled(requests, owed, links, Stored(), unscanned + recent, decode)
      && Kept(database, batch, order, requests.Keys, links, unscanned, decode)
      && Pursued(requests, queue, asked, roots, Stored())
      && Excused(requests, unscanned, skipped + excused)
    }

    ghost predicate Valid()
      reads this
    {
      Inside(multiset{}, {})
    }

    /** A scheduler for the trie at `root` over a database that is closed. */
    constructor (root: Hash, db: map<Hash, Bytes>, decoder: Decoder, noTrie: Hash, noCode: Hash,
                 ghost known: Links, ghost taken: set<Hash>)
      requires StoreScanned(db, known, taken, decoder)
      requires forall p, c :: (p, c) in known ==> c in db
      ensures Valid() && database == db && batch == map[] && decode == decoder && emptyRoot == noTrie &&
        emptyState == noCode
      ensures roots == if root == noTrie then {} else {root}
      ensures Touched() == if root == noTrie then db.Keys else db.Keys + {root}
      ensures skipped == taken && excused == {}
      ensures root == noTrie ==> requests == map[]
    {
      database, batch, order, requests, queue := db, map[], [], map[], [];
      decode, emptyRoot, emptyState := decoder, noTrie, noCode;
      links, unscanned, roots, asked := known, taken, {}, {};
      skipped, excused := taken, {};
      new;
      hide Scheduled, Kept, Pursued, StoreScanned;
      Initially(db, known, taken, decoder);
      assert unscanned + {} == unscanned && Stored() == db.Keys && requests.Keys == {};
      AddSubTrie(root, 0, NONE, {});
    }

    // ----- Completion

    /** Moves a request that waits for nothing to the memory batch. */
    method Finish(h: Hash, ghost owed: multiset<Hash>)
      requires h in requests && requests[h].deps == 0 && requests[h].data.Some?
      requires Inside(owed, {})
      modifies this`requests, this`batch, this`order
      ensures requests == old(requests) - {h}
      ensures batch == old(batch)[h := old(requests)[h].data.value]
      ensures Touched() == old(Touched()) && old(Stored()) <= Stored()
      ensures Inside(owed + multiset(old(requests)[h].parents), {})
    {
      hide Scheduled, Kept, Scanned;
      assert unscanned + {} == unscanned;
      Completed(requests, h, owed, links, Stored(), unscanned + {}, decode);
      KeptDone(database, batch, order, requests.Keys, links, unscanned, decode, h, requests[h].data.value);
      assert (requests - {h}).Keys == requests.Keys - {h};
      batch := batch[h := requests[h].data.value];
      order := order + [h];
      requests := requests - {h};
      assert Stored() == old(Stored()) + {h};
    }

    lemma PendingIsNew(h: Hash, owed: multiset<Hash>, recent: set<Hash>)
      requires Inside(owed, recent) && h in requests
      ensures h !in batch
    {
    }

    /** Stores a request that waits for nothing, and then every request that waited for it alone. */
    method Complete(h: Hash, ghost owed: multiset<Hash>)
      requires h in requests && requests[h].deps == 0 && requests[h].data.Some?
      requires Inside(owed, {})
      modifies this`requests, this`batch, this`order
      ensures h !in requests && Drained(old(requests), requests)
      ensures StillWaiting(requests, old(requests)[h].parents)
      ensures Moved(old(requests), old(batch), requests, batch)
      ensures old(Stored()) <= Stored() && h in Stored()
      ensures Touched() == old(Touched())
      ensures Inside(owed, {})
      decreases |requests|, 0
    {
      hide Inside, Touched, StillWaiting;
      PendingIsNew(h, owed, {});
      var ps := requests[h].parents;
      Finish(h, owed);
      ghost var mid, held := requests, batch;
      assert Moved(old(requests), old(batch), mid, held);
      NotifyAll(ps, owed);
      DrainedTrans(old(requests), mid, requests);
      MovedTrans(old(requests), old(batch), mid, held, requests, batch);
      DrainedKeys(mid, requests);
    }

    /** Tells requests that one of those they wait for is done. */
    method NotifyAll(ps: seq<Hash>, ghost owed: multiset<Hash>)
      requires Inside(owed + multiset(ps), {})
      modifies this`requests, this`batch, this`order
      ensures Drained(old(requests), requests) && StillWaiting(requests, ps)
      ensures Moved(old(requests), old(batch), requests, batch)
      ensures old(Stored()) <= Stored() && Touched() == old(Touched())
      ensures Inside(owed, {})
      decreases |requests|, 2
    {
      hide Inside, Drained, Touched, Stored, StillWaiting, Moved;
      DrainedRefl(requests);
      MovedNone(requests, batch);
      NoneWaiting(requests, ps);
      assert ps[0..] == ps;
      var i := 0;
      while i < |ps|
        invariant i <= |ps|
        invariant Drained(old(requests), requests) && |requests| <= old(|requests|)
        invariant StillWaiting(requests, ps[..i]) && Moved(old(requests), old(batch), requests, batch)
        invariant old(Stored()) <= Stored() && Touched() == old(Touched())
        invariant Inside(owed + multiset(ps[i..]), {})
      {
        ghost var rest := owed + multiset(ps[i + 1..]);
        assert ps[i..] == [ps[i]] + ps[i + 1..];
        assert owed + multiset(ps[i..]) == rest + multiset{ps[i]};
        ghost var before, held := requests, batch;
        NotifyOne(ps[i], rest);
        MovedTrans(old(requests), old(batch), before, held, requests, batch);
        DrainedTrans(old(requests), before, requests);
        WaitingMore(before, requests, ps, i);
        i := i + 1;
      }
      assert ps[i..] == [] && ps[..i] == ps;
      assert owed + multiset(ps[i..]) == owed;
    }

    /** Tells one request, and stores it if it waits for nothing else. */
    method NotifyOne(p: Hash, ghost owed: multiset<Hash>)
      requires Inside(owed + multiset{p}, {})
      modifies this`requests, this`batch, this`order
      ensures Drained(old(requests), requests) && |requests| <= |old(requests)|
      ensures p in requests ==> requests[p].deps > 0
      ensures Moved(old(requests), old(batch), requests, batch)
      ensures old(Stored()) <= Stored() && Touched() == old(Touched())
      ensures Inside(owed, {})
      decreases |requests|, 1
    {
      hide Inside, Drained, Touched, Stored, StillWaiting, Moved;
      Tell(p, owed);
      DrainedRefl(requests);
      MovedNone(requests, batch);
      if requests[p].deps == 0 {
        ghost var mid := requests;
        Complete(p, owed);
        DrainedSize(mid, requests);
      }
      DrainedTold(old(requests), p, requests);
      MovedTold(old(requests), p, old(batch), requests, batch);
    }

    /** One dependency fewer for `p`. */
    method Tell(p: Hash, ghost owed: multiset<Hash>)
      requires Inside(owed + multiset{p}, {})
      modifies this`requests
      ensures p in old(requests) && requests == old(requests)[p := Notify(old(requests)[p])]
      ensures requests[p].data.Some? && |requests| == old(|requests|)
      ensures Touched() == old(Touched())
      ensures Inside(owed, {})
    {
      hide Scheduled, Kept;
      Notified(requests, p, owed, links, Stored(), unscanned + {}, decode);
      requests := requests[p := Notify(requests[p])];
      assert requests.Keys == old(requests.Keys);
    }

    // ----- Scheduling

    /** Queues a request for `c`, or adds those waiting to the request there is. */
    method Schedule(c: Hash, raw: bool, depth: int, ps: seq<Hash>, ghost p: Hash, ghost owed: multiset<Hash>,
                    ghost recent: set<Hash>)
      requires c !in batch && (ps == [] || ps == [p])
      requires raw && c !in requests ==> c in skipped + excused
      requires Inside(owed + multiset(ps), recent)
      modifies this`requests, this`queue, this`links
      ensures requests == WithRequest(old(requests), c, raw, depth, ps)
      ensures links == if ps == [] then old(links) else old(links) + {(p, c)}
      ensures Inside(owed, recent)
    {
      hide Scheduled, Kept, Pursued;
      PursuedRequest(requests, queue, asked, roots, Stored(), c, raw, depth, ps);
      Requested(requests, c, raw, depth, ps, p, owed, links, Stored(), unscanned + recent, decode);
      RequestExtends(requests, c, raw, depth, ps);
      KeptPending(database, batch, order, requests.Keys, links, unscanned, decode, c);
      if ps != [] {
        WaiterIsPending(requests, ps, p, owed, links, Stored(), unscanned + recent, decode);
        KeptLink(database, batch, order, requests.Keys + {c}, links, unscanned, decode, p, c);
        links := links + {(p, c)};
      }
      if c in requests {
        requests := requests[c := requests[c].(parents := requests[c].parents + ps)];
      } else {
        queue := queue + [(c, depth)];
        requests := requests[c := Request(None, raw, ps, depth, 0)];
      }
    }

    /** Announces `n` more dependencies of `p`. */
    method Announce(p: Hash, n: nat, ghost recent: set<Hash>)
      requires p in requests && requests[p].data.Some?
      requires Inside(multiset{}, recent)
      modifies this`requests
      ensures p in requests && requests == old(requests)[p := old(requests)[p].(deps := old(requests)[p].deps + n)]
      ensures Inside(Copies(p, n), recent)
    {
      hide Scheduled, Kept;
      Announced(requests, p, n, multiset{}, links, Stored(), unscanned + recent, decode);
      requests := requests[p := requests[p].(deps := requests[p].deps + n)];
      assert multiset{} + Copies(p, n) == Copies(p, n);
      assert requests.Keys == old(requests.Keys);
    }

    /** Records a dependency that is stored already. */
    ghost method Link(p: Hash, c: Hash, owed: multiset<Hash>, recent: set<Hash>)
      requires p in requests && c in Stored()
      requires Inside(owed, recent)
      modifies this`links
      ensures links == old(links) + {(p, c)}
      ensures Inside(owed, recent)
    {
      hide Scheduled, Kept;
      LinkStored(requests, p, c, owed, links, Stored(), unscanned + recent, decode);
      KeptLink(database, batch, order, requests.Keys, links, unscanned, decode, p, c);
      links := links + {(p, c)};
    }

    /** Requests `c`, for `parent` if there is one. */
    method Enlist(c: Hash, raw: bool, depth: int, parent: Hash, ghost recent: set<Hash>)
      requires c !in batch
      requires raw && c !in requests ==> c in skipped + excused
      requires parent != NONE ==> parent in requests && requests[parent].data.Some?
      requires Inside(multiset{}, recent)
      modifies this`requests, this`queue, this`links
      ensures requests == Enlisted(old(requests), c, raw, depth, parent)
      ensures c in requests && Extended(old(requests), requests) && Touched() == old(Touched()) + {c}
      ensures requests.Keys == old(requests.Keys) + {c}
      ensures links == if parent == NONE then old(links) else old(links) + {(parent, c)}
      ensures c !in old(requests) ==> requests[c].raw == raw && requests[c].data.None?
      ensures Inside(multiset{}, recent)
    {
      hide Inside, Extended, WithRequest;
      if parent != NONE {
        Announce(parent, 1, recent);
        assert multiset{} + multiset([parent]) == Copies(parent, 1);
        ghost var mid := requests;
        RequestExtends(mid, c, raw, depth, [parent]);
        Schedule(c, raw, depth, [parent], parent, multiset{}, recent);
        ExtendedTrans(old(requests), mid, requests);
      } else {
        ghost var none: seq<Hash> := [];
        assert multiset{} + multiset(none) == multiset{};
        RequestExtends(requests, c, raw, depth, []);
        Schedule(c, raw, depth, [], NONE, multiset{}, recent);
      }
    }

    /** A node that is in memory, or in the database and can be decoded. */
    predicate TrieKnown(h: Hash)
      reads this`database, this`batch
    {
      h in batch || (h in database && decode(database[h]).Some?)
    }

    /** Registers a trie for download, on behalf of a pending parent if one is given. A parent must
        have its data, as it has while its leaf callback runs. */
    method AddSubTrie(root: Hash, depth: int, parent: Hash, ghost recent: set<Hash>)
      requires parent != NONE ==> parent in requests && requests[parent].data.Some?
      requires Inside(multiset{}, recent)
      modifies this`requests, this`queue, this`links, this`roots
      ensures requests == if root == emptyRoot || TrieKnown(root) then old(requests)
                          else Enlisted(old(requests), root, false, depth, parent)
      ensures Extended(old(requests), requests) && old(links) <= links && Touched() <= old(Touched()) + {root}
      ensures requests.Keys <= old(requests.Keys) + {root}
      ensures parent == NONE ==> roots == if root == emptyRoot then old(roots) else old(roots) + {root}
      ensures root == emptyRoot || root in batch ==> requests == old(requests)
      ensures root != emptyRoot ==> root in Touched()
      ensures root != emptyRoot && root !in old(Touched()) ==>
        root in requests && !requests[root].raw && requests[root].data.None?
      ensures parent != NONE && root != emptyRoot ==> (parent, root) in links
      ensures old(roots) <= roots
      ensures Inside(multiset{}, recent)
    {
      hide Inside, Extended;
      ExtendedRefl(requests);
      if root == emptyRoot {
        return;
      }
      if TrieKnown(root) {
        if parent != NONE {
          Link(parent, root, multiset{}, recent);
        }
      } else {
        Enlist(root, false, depth, parent, recent);
      }
      if parent == NONE {
        Root(root, recent);
      }
    }

    /** Registers an entry that is not a trie node, on behalf of a pending parent if one is given. */
    method AddRawEntry(hash: Hash, depth: int, parent: Hash, ghost recent: set<Hash>)
      requires parent != NONE ==> parent in requests && requests[parent].data.Some?
      requires Inside(multiset{}, recent)
      modifies this`requests, this`queue, this`links, this`roots, this`excused
      ensures requests == if hash == emptyState || hash in Stored() then old(requests)
                          else Enlisted(old(requests), hash, true, depth, parent)
      ensures Extended(old(requests), requests) && old(links) <= links && Touched() <= old(Touched()) + {hash}
      ensures excused == old(excused) + if hash == emptyState || hash in old(Touched()) then {} else {hash}
      ensures requests.Keys <= old(requests.Keys) + {hash}
      ensures parent == NONE && hash != emptyState ==> roots == old(roots) + {hash}
      ensures parent != NONE && hash != emptyState ==> (parent, hash) in links
      ensures hash !in old(Touched()) && hash != emptyState ==>
        hash in requests && requests[hash].raw && requests[hash].data.None?
      ensures old(roots) <= roots
      ensures Inside(multiset{}, recent)
    {
      hide Inside, Extended;
      ExtendedRefl(requests);
      if hash == emptyState {
        return;
      }
      if hash in batch || hash in database {
        if parent != NONE {
          Link(parent, hash, multiset{}, recent);
        }
      } else {
        if hash !in requests {
          Excuse(hash, recent);
        }
        Enlist(hash, true, depth, parent, recent);
      }
      if parent == NONE {
        Root(hash, recent);
      }
    }

    /** Notes that nobody will look into `hash`. */
    ghost method Excuse(hash: Hash, recent: set<Hash>)
      requires Inside(multiset{}, recent)
      modifies this`excused
      ensures excused == old(excused) + {hash}
      ensures Inside(multiset{}, recent)
    {
      hide Scheduled, Kept, Pursued;
      excused := excused + {hash};
    }

    lemma RawIsExcused(h: Hash)
      requires Valid() && h in requests && requests[h].raw
      ensures h in skipped + excused
    {
    }

    ghost method Root(root: Hash, recent: set<Hash>)
      requires root in Stored() || root in requests
      requires Inside(multiset{}, recent)
      modifies this`roots
      ensures roots == old(roots) + {root}
      ensures Inside(multiset{}, recent)
    {
      hide Scheduled, Kept;
      roots := roots + {root};
    }

    // ----- Handing out hashes

    predicate Deepest(q: seq<(Hash, int)>, i: nat)
      requires i < |q|
    {
      forall j :: 0 <= j < |q| ==> q[j].1 <= q[i].1
    }

    /** Takes a hash of greatest depth off the queue. */
    method Pop() returns (h: Hash, ghost e: (Hash, int))
      requires queue != []
      requires Valid()
      modifies this`queue, this`asked
      ensures e.0 == h && multiset(old(queue)) == multiset(queue) + multiset{e}
      ensures forall x :: x in queue ==> x.1 <= e.1
      ensures exists i ::
                && 0 <= i < |old(queue)| && h == old(queue)[i].0
                && queue == Dropped(old(queue), i) && Deepest(old(queue), i)
      ensures asked == old(asked) + {h}
      ensures Valid()
    {
      hide Scheduled, Kept, Pursued, Excused;
      var best, i := 0, 1;
      while i < |queue|
        invariant best < i <= |queue|
        invariant forall j :: 0 <= j < i ==> queue[j].1 <= queue[best].1
      {
        if queue[i].1 > queue[best].1 {
          best := i;
        }
        i := i + 1;
      }
      PursuedPopped(requests, queue, asked, roots, Stored(), best);
      DroppedParts(queue, best);
      h, e := queue[best].0, queue[best];
      queue, asked := Dropped(queue, best), asked + {h};
    }

    /** Hands out up to `max` hashes to fetch, or all of them if `max` is zero: the deepest of the queue,
        deepest first. */
    method Missing(max: nat) returns (r: seq<Hash>, ghost taken: seq<(Hash, int)>)
      requires Valid()
      modifies this`queue, this`asked
      ensures max > 0 ==> |r| <= max
      ensures queue == [] || (max > 0 && |r| == max)
      ensures |queue| + |r| == |old(queue)|
      ensures DeepestFirst(old(queue), taken, queue)
      ensures |taken| == |r| && forall i :: 0 <= i < |r| ==> r[i] == taken[i].0
      ensures asked == old(asked) + set h | h in r
      ensures Valid()
    {
      hide Valid, DeepestFirst;
      NoneTaken(queue);
      r, taken := [], [];
      while queue != [] && (max == 0 || |r| < max)
        invariant max > 0 ==> |r| <= max
        invariant |queue| + |r| == |old(queue)|
        invariant DeepestFirst(old(queue), taken, queue)
        invariant |taken| == |r| && forall i :: 0 <= i < |r| ==> r[i] == taken[i].0
        invariant asked == old(asked) + set h | h in r
        invariant Valid()
        decreases |queue|
      {
        ghost var before := queue;
        var h;
        ghost var e;
        h, e := Pop();
        TakenMore(old(queue), taken, before, e, queue);
        r, taken := r + [h], taken + [e];
      }
    }

    // ----- Processing deliveries

    method SetData(h: Hash, data: Bytes)
      requires h in requests && requests[h].data.None?
      requires Valid()
      modifies this`requests
      ensures h in requests && requests == old(requests)[h := old(requests)[h].(data := Some(data))]
      ensures requests[h].deps == 0
      ensures Inside(multiset{}, {h})
    {
      hide Scheduled, Kept;
      assert unscanned + {} == unscanned;
      DataArrived(requests, h, data, multiset{}, links, Stored(), unscanned, decode);
      requests := requests[h := requests[h].(data := Some(data))];
      assert requests.Keys == old(requests.Keys);
    }

    /** Gives up on looking into `h`. */
    ghost method Skip(h: Hash)
      requires h in skipped + excused
      requires Inside(multiset{}, {h})
      modifies this`unscanned
      ensures unscanned == old(unscanned) + {h}
      ensures Valid()
    {
      hide Scheduled, Kept;
      KeptLess(database, batch, order, requests.Keys, links, unscanned, decode, h);
      unscanned := unscanned + {h};
      assert unscanned + {} == old(unscanned) + {h};
    }

    ghost function SubHashes(subs: seq<Sub>): (r: set<Hash>) {
      set i | 0 <= i < |subs| :: subs[i].hash
    }

    /** The entries among them that are registered as raw. */
    ghost function RawHashes(subs: seq<Sub>): (r: set<Hash>) {
      set i | 0 <= i < |subs| && subs[i].raw :: subs[i].hash
    }

    ghost function KidHashes(kids: seq<Kid>): (r: set<Hash>) {
      set i | 0 <= i < |kids| :: kids[i].hash
    }

    /** Hashes that a delivery may cause to be asked for. */
    ghost function Named(item: Delivery): (r: set<Hash>) {
      SubHashes(item.subs) + if decode(item.data).Some? then KidHashes(decode(item.data).value) else {}
    }

    predicate Empty(sub: Sub) {
      sub.hash == if sub.raw then emptyState else emptyRoot
    }

    /** The requests after a leaf callback has registered one entry below `h`. */
    ghost function Entered(requests: Requests, h: Hash, sub: Sub): (r: Requests)
      requires h in requests
      reads this`database, this`batch
      ensures h in r
    {
      if Empty(sub) || (if sub.raw then sub.hash in Stored() else TrieKnown(sub.hash)) then requests
      else Enlisted(requests, sub.hash, sub.raw, sub.depth, h)
    }

    /** The requests after a leaf callback has registered `subs` below `h`. */
    ghost function Registered(requests: Requests, h: Hash, subs: seq<Sub>): (r: Requests)
      requires h in requests
      reads this`database, this`batch
      ensures h in r
    {
      if subs == [] then requests
      else Entered(Registered(requests, h, subs[..|subs| - 1]), h, subs[|subs| - 1])
    }

    /** The leaf callback registers one entry below `h`. */
    method Register(h: Hash, sub: Sub)
      requires h in requests && requests[h].data.Some?
      requires Inside(multiset{}, {h})
      modifies this`requests, this`queue, this`links, this`roots, this`excused
      ensures requests == Entered(old(requests), h, sub)
      ensures Extended(old(requests), requests) && old(links) <= links && old(roots) <= roots
      ensures old(excused) <= excused <= old(excused) + if sub.raw then {sub.hash} else {}
      ensures requests.Keys <= old(requests.Keys) + {sub.hash}
      ensures Touched() <= old(Touched()) + {sub.hash}
      ensures !Empty(sub) && h != NONE ==> (h, sub.hash) in links
      ensures Inside(multiset{}, {h})
    {
      hide Inside, Extended, Enlisted;
      if sub.raw {
        AddRawEntry(sub.hash, sub.depth, h, {h});
      } else {
        AddSubTrie(sub.hash, sub.depth, h, {h});
      }
    }

    /** The leaf callback registers entries below `h`. */
    method RunCallback(h: Hash, subs: seq<Sub>)
      requires h in requests && requests[h].data.Some?
      requires Inside(multiset{}, {h})
      modifies this`requests, this`queue, this`links, this`roots, this`excused
      ensures requests == Registered(old(requests), h, subs)
      ensures Extended(old(requests), requests) && old(links) <= links && old(roots) <= roots
      ensures old(excused) <= excused <= old(excused) + RawHashes(subs)
      ensures requests.Keys <= old(requests.Keys) + SubHashes(subs)
      ensures subs == [] ==> requests == old(requests)
      ensures Touched() <= old(Touched()) + SubHashes(subs)
      ensures forall i :: 0 <= i < |subs| && !Empty(subs[i]) && h != NONE ==> (h, subs[i].hash) in links
      ensures Inside(multiset{}, {h})
    {
      hide Inside, Extended, Entered, Empty, Stored;
      ExtendedRefl(requests);
      var i := 0;
      while i < |subs|
        invariant i <= |subs|
        invariant requests == Registered(old(requests), h, subs[..i])
        invariant Extended(old(requests), requests) && old(links) <= links && old(roots) <= roots
        invariant old(excused) <= excused <= old(excused) + RawHashes(subs)
        invariant requests.Keys <= old(requests.Keys) + SubHashes(subs)
        invariant i == 0 ==> requests == old(requests)
        invariant Touched() <= old(Touched()) + SubHashes(subs)
        invariant forall j :: 0 <= j < i && !Empty(subs[j]) && h != NONE ==> (h, subs[j].hash) in links
        invariant Inside(multiset{}, {h})
      {
        ghost var before := requests;
        ExtendedAt(old(requests), requests, h);
        Register(h, subs[i]);
        ExtendedTrans(old(requests), before, requests);
        assert subs[..i + 1][..i] == subs[..i];
        i := i + 1;
      }
      assert subs[..i] == subs;
    }

    /** The children that are stored neither in memory nor in the database. */
    method Children(kids: seq<Kid>) returns (r: seq<Kid>)
      ensures r == Unknown(kids, Stored())
    {
      r := [];
      var i := 0;
      assert kids[..0] == [];
      while i < |kids|
        invariant i <= |kids|
        invariant r == Unknown(kids[..i], Stored())
      {
        assert kids[..i + 1][..i] == kids[..i];
        if kids[i].hash !in batch && kids[i].hash !in database {
          r := r + [kids[i]];
        }
        i := i + 1;
      }
      assert kids[..i] == kids;
    }

    /** Records the children of `h` that are stored. */
    ghost method LinkKnown(h: Hash, kids: seq<Kid>)
      requires h in requests
      requires Inside(multiset{}, {h})
      modifies this`links
      ensures old(links) <= links
      ensures forall i :: 0 <= i < |kids| && kids[i].hash in Stored() ==> (h, kids[i].hash) in links
      ensures Inside(multiset{}, {h})
    {
      hide Inside;
      var i := 0;
      while i < |kids|
        invariant i <= |kids|
        invariant old(links) <= links
        invariant forall j :: 0 <= j < i && kids[j].hash in Stored() ==> (h, kids[j].hash) in links
        invariant Inside(multiset{}, {h})
      {
        if kids[i].hash in Stored() {
          Link(h, kids[i].hash, multiset{}, {h});
        }
        i := i + 1;
      }
    }

    /** Schedules requests for missing children, which have been announced. */
    method ScheduleAll(h: Hash, depth: int, missing: seq<Kid>)
      requires forall i :: 0 <= i < |missing| ==> missing[i].hash !in batch
      requires Inside(Copies(h, |missing|), {h})
      modifies this`requests, this`queue, this`links
      ensures Extended(old(requests), requests) && old(links) <= links
      ensures Touched() <= old(Touched()) + KidHashes(missing)
      ensures requests.Keys == old(requests.Keys) + KidHashes(missing)
      ensures forall i :: 0 <= i < |missing| ==> (h, missing[i].hash) in links
      ensures Inside(multiset{}, {h})
    {
      hide Inside, Extended, WithRequest, Copies;
      ExtendedRefl(requests);
      var i := 0;
      while i < |missing|
        invariant i <= |missing|
        invariant Extended(old(requests), requests) && old(links) <= links
        invariant old(requests.Keys) <= requests.Keys <= old(requests.Keys) + KidHashes(missing)
        invariant forall j :: 0 <= j < i ==> missing[j].hash in requests
        invariant forall j :: 0 <= j < i ==> (h, missing[j].hash) in links
        invariant Inside(Copies(h, |missing| - i), {h})
      {
        ghost var before := requests;
        LastCopy(h, |missing| - i);
        RequestExtends(requests, missing[i].hash, false, depth + missing[i].step, [h]);
        Schedule(missing[i].hash, false, depth + missing[i].step, [h], h, Copies(h, |missing| - i - 1), {h});
        ExtendedTrans(old(requests), before, requests);
        i := i + 1;
      }
    }

    /** Looks into node `h`, whose data have arrived: requests what is missing, or stores the node. */
    method Expand(h: Hash, kids: seq<Kid>) returns (committed: bool)
      requires h in requests && requests[h].data.Some? && decode(requests[h].data.value) == Some(kids)
      requires Inside(multiset{}, {h})
      modifies this`requests, this`queue, this`links, this`batch, this`order
      ensures old(Stored()) <= Stored() && old(links) <= links
      ensures committed ==> h in Stored() && requests.Keys <= old(requests.Keys) - {h}
      ensures committed ==> Drained(old(requests), requests) && StillWaiting(requests, old(requests)[h].parents)
      ensures committed ==> Moved(old(requests), old(batch), requests, batch)
      ensures !committed ==>
        batch == old(batch) && Extended(old(requests), requests) && h in requests && requests[h].deps > 0
      ensures KidHashes(kids) <= Touched() && requests.Keys <= old(requests.Keys) + KidHashes(kids)
      ensures KidHashes(kids) <= old(Stored()) && old(requests[h].deps) == 0 ==> committed
      ensures old(Touched()) <= Touched() <= old(Touched()) + KidHashes(kids)
      ensures Valid()
    {
      hide Inside, Extended, Drained, Unknown, StillWaiting, Moved;
      ghost var before := requests;
      var missing := Children(kids);
      LinkKnown(h, kids);
      ghost var store := Stored();
      AllKids(kids, store, missing);
      assert forall i :: 0 <= i < |missing| ==> missing[i].hash in KidHashes(kids);
      assert |missing| > 0 ==> missing[0].hash in KidHashes(kids);
      if |missing| == 0 && requests[h].deps == 0 {
        Scan(h, kids);
        Complete(h, multiset{});
        DrainedKeys(before, requests);
        committed := true;
      } else {
        var depth := requests[h].depth;
        Announce(h, |missing|, {h});
        ghost var mid := requests;
        AnnouncedExtends(before, h, |missing|);
        ScheduleAll(h, depth, missing);
        ExtendedTrans(before, mid, requests);
        ExtendedAt(mid, requests, h);
        ExtendedKeys(mid, requests);
        Scan(h, kids);
        committed := false;
      }
    }

    /** All children of `h` are on record. */
    ghost method Scan(h: Hash, kids: seq<Kid>)
      requires h in requests && requests[h].data.Some? && decode(requests[h].data.value) == Some(kids)
      requires forall i :: 0 <= i < |kids| ==> (h, kids[i].hash) in links
      requires Inside(multiset{}, {h})
      ensures Valid()
    {
      hide Scheduled, Kept;
      ScanDone(requests, h, multiset{}, links, Stored(), unscanned, decode);
    }

    /** Stores a raw entry as it is. */
    method AcceptRaw(h: Hash, data: Bytes)
      requires h in requests && requests[h].raw && requests[h].data.None?
      requires Valid()
      modifies this`requests, this`batch, this`order, this`unscanned
      ensures old(Stored()) <= Stored() && h in Stored() && Touched() == old(Touched())
      ensures requests.Keys <= old(requests.Keys) - {h}
      ensures Drained(Filled(old(requests), h, data), requests) && StillWaiting(requests, old(requests)[h].parents)
      ensures h in batch && batch[h] == data && Larger(old(batch), batch)
      ensures Stepped(old(requests), h, data, {}, requests)
      ensures StaySettled(old(requests), old(batch), requests, batch)
      ensures Valid()
    {
      hide Inside, Drained, StillWaiting, Moved, StaySettled, Stepped, Larger;
      RawIsExcused(h);
      SetData(h, data);
      ghost var mid := requests;
      ExtendedRefl(mid);
      SteppedExtended(old(requests), h, data, {}, mid);
      FilledSettled(old(requests), h, data, batch);
      Skip(h);
      Complete(h, multiset{});
      DrainedKeys(mid, requests);
      MovedMeans(mid, old(batch), requests, batch, h);
      MovedSettled(mid, old(batch), requests, batch);
      SettledTrans(old(requests), old(batch), mid, old(batch), requests, batch);
      SteppedMoved(old(requests), h, data, {}, mid, old(batch), requests, batch);
    }

    /** What becomes of a delivery that meets the given requests. */
    function Outcome(met: Requests, item: Delivery): (err: Option<Error>) {
      if item.hash !in met then Some(NotRequested)
      else if met[item.hash].data.Some? then Some(AlreadyProcessed)
      else if met[item.hash].raw then None
      else if decode(item.data).None? then Some(BadNode)
      else if item.fails then Some(CallbackFailed)
      else None
    }

    /** Each outcome, exactly: the first of the checks that fails, and none for a raw entry or a node that
        decodes and whose callback does not fail. */
    lemma OutcomeIs(met: Requests, item: Delivery)
      ensures Outcome(met, item) == Some(NotRequested) <==> item.hash !in met
      ensures Outcome(met, item) == Some(AlreadyProcessed) <==> item.hash in met && met[item.hash].data.Some?
      ensures Outcome(met, item) == Some(BadNode) <==>
        item.hash in met && met[item.hash].data.None? && !met[item.hash].raw && decode(item.data).None?
      ensures Outcome(met, item) == Some(CallbackFailed) <==>
        && item.hash in met && met[item.hash].data.None? && !met[item.hash].raw
        && decode(item.data).Some? && item.fails
      ensures Outcome(met, item) == None <==>
        && item.hash in met && met[item.hash].data.None?
        && (met[item.hash].raw || (decode(item.data).Some? && !item.fails))
    {
    }

    /** The requests that a delivery meets and those it leaves. */
    ghost predicate Judged(met: Requests, item: Delivery, left: Requests) {
      match Outcome(met, item)
      case Some(NotRequested) => left == met
      case Some(AlreadyProcessed) => left == met
      case Some(BadNode) => left == met
      case _ => Stepped(met, item.hash, item.data, Named(item), left)
    }

    /** The children of a delivered node, unless it was asked for as a raw entry, are stored or asked for. */
    ghost predicate KidsAsked(met: Requests, item: Delivery)
      reads this`database, this`batch, this`requests
    {
      item.hash in met && !met[item.hash].raw && decode(item.data).Some? ==>
        KidHashes(decode(item.data).value) <= Touched()
    }

    /** Accepts one delivered node. */
    method ProcessOne(item: Delivery) returns (committed: bool, err: Option<Error>)
      requires Valid()
      modifies this
      ensures database == old(database) && old(Stored()) <= Stored() && old(roots) <= roots && old(links) <= links
      ensures err == Outcome(old(requests), item)
      ensures err == Some(NotRequested) || err == Some(AlreadyProcessed) || err == Some(BadNode) ==>
        requests == old(requests) && batch == old(batch)
      ensures committed ==> err == None && item.hash in Stored()
      ensures err == Some(CallbackFailed) ==>
        && batch == old(batch)
        && requests == Registered(Filled(old(requests), item.hash, item.data), item.hash, item.subs)
        && item.hash in excused
        && Touched() <= old(Touched()) + SubHashes(item.subs)
      ensures committed && item.subs == [] ==>
        && Drained(Filled(old(requests), item.hash, item.data), requests)
        && StillWaiting(requests, old(requests)[item.hash].parents)
      ensures err == None ==> Settled(requests, batch, item.hash, item.data) && KidsAsked(old(requests), item)
      ensures Larger(old(batch), batch)
      ensures if committed then item.hash in batch && item.hash !in old(batch) else batch == old(batch)
      ensures Judged(old(requests), item, requests)
      ensures StaySettled(old(requests), old(batch), requests, batch)
      ensures old(Touched()) <= Touched() <= old(Touched()) + Named(item)
      ensures item.hash in old(requests) && old(requests)[item.hash].raw && old(requests)[item.hash].data.None? ==>
        committed && Touched() == old(Touched())
      ensures old(excused) <= excused
      ensures excused <= old(excused) + RawHashes(item.subs) + if err == Some(CallbackFailed) then {item.hash} else {}
      ensures committed ==> requests.Keys <= old(requests.Keys) + SubHashes(item.subs) - {item.hash}
      ensures err == None && item.subs == [] && Named(item) <= old(Stored()) ==> committed
      ensures Valid()
    {
      hide Inside, Extended, Drained, StillWaiting, Registered, Stepped, Larger, StaySettled, Settled;
      committed := false;
      var h := item.hash;
      LargerRefl(batch);
      SettledRefl(requests, batch);
      if h in requests {
        PendingIsNew(h, multiset{}, {});
      }
      if h !in requests {
        err := Some(NotRequested);
      } else if requests[h].data.Some? {
        err := Some(AlreadyProcessed);
      } else if requests[h].raw {
        AcceptRaw(h, item.data);
        SteppedMore(old(requests), h, item.data, {}, requests, Named(item));
        InBatchSettled(requests, batch, h, item.data);
        committed, err := true, None;
      } else if decode(item.data).None? {
        err := Some(BadNode);
      } else {
        committed := AcceptNode(item);
        err := if item.fails then Some(CallbackFailed) else None;
      }
    }

    /** Runs the leaf callback of a node and, unless that fails, looks into the node. */
    method AcceptNode(item: Delivery) returns (committed: bool)
      requires item.hash in requests && requests[item.hash].data.None? && decode(item.data).Some?
      requires Valid()
      modifies this`requests, this`queue, this`links, this`roots, this`excused, this`unscanned, this`batch, this`order
      ensures old(Stored()) <= Stored() && old(roots) <= roots && old(links) <= links
      ensures committed ==> item.hash in Stored() && !item.fails
      ensures item.fails ==>
        && batch == old(batch)
        && requests == Registered(Filled(old(requests), item.hash, item.data), item.hash, item.subs)
        && item.hash in excused
        && Touched() <= old(Touched()) + SubHashes(item.subs)
      ensures committed && item.subs == [] ==>
        && Drained(Filled(old(requests), item.hash, item.data), requests)
        && StillWaiting(requests, old(requests)[item.hash].parents)
      ensures !item.fails ==>
        && Settled(requests, batch, item.hash, item.data)
        && KidHashes(decode(item.data).value) <= Touched()
      ensures Larger(old(batch), batch)
      ensures if committed then item.hash in batch && batch[item.hash] == item.data else batch == old(batch)
      ensures Stepped(old(requests), item.hash, item.data, Named(item), requests)
      ensures StaySettled(old(requests), old(batch), requests, batch)
      ensures old(Touched()) <= Touched() <= old(Touched()) + Named(item)
      ensures old(excused) <= excused
      ensures excused <= old(excused) + RawHashes(item.subs) + if item.fails then {item.hash} else {}
      ensures committed ==> requests.Keys <= old(requests.Keys) + SubHashes(item.subs) - {item.hash}
      ensures !item.fails && item.subs == [] && Named(item) <= old(Stored()) ==> committed
      ensures Valid()
    {
      hide Inside, Extended, Drained, StillWaiting, Registered, RawHashes, Moved, StaySettled, Stepped, Larger, Settled;
      var h := item.hash;
      Fill(item);
      ghost var called, held := requests, batch;
      if item.fails {
        Excuse(h, {h});
        Skip(h);
        committed := false;
        SteppedExtended(old(requests), h, item.data, Named(item), requests);
        LargerRefl(held);
      } else {
        committed := Expand(h, decode(item.data).value);
        Expanded(old(requests), item, called, held, committed);
      }
    }

    /** Sets the data of a node and runs its leaf callback. */
    method Fill(item: Delivery)
      requires item.hash in requests && requests[item.hash].data.None?
      requires Valid()
      modifies this`requests, this`queue, this`links, this`roots, this`excused
      ensures requests == Registered(Filled(old(requests), item.hash, item.data), item.hash, item.subs)
      ensures item.subs == [] ==> requests == Filled(old(requests), item.hash, item.data)
      ensures item.hash in requests && requests[item.hash].data == Some(item.data)
      ensures Extended(Filled(old(requests), item.hash, item.data), requests)
      ensures StaySettled(old(requests), old(batch), requests, batch)
      ensures item.subs == [] ==>
        requests[item.hash].deps == 0 && requests[item.hash].parents == old(requests)[item.hash].parents
      ensures old(roots) <= roots && old(links) <= links
      ensures old(excused) <= excused <= old(excused) + RawHashes(item.subs)
      ensures old(requests.Keys) <= requests.Keys <= old(requests.Keys) + SubHashes(item.subs)
      ensures Touched() <= old(Touched()) + SubHashes(item.subs)
      ensures Inside(multiset{}, {item.hash})
    {
      hide Inside, Extended, Drained, Registered, RawHashes, StaySettled, SubHashes;
      var h := item.hash;
      SetData(h, item.data);
      ghost var mid := requests;
      FilledSettled(old(requests), h, item.data, batch);
      RunCallback(h, item.subs);
      ExtendedAt(mid, requests, h);
      ExtendedKeys(mid, requests);
      ExtendedSettled(mid, requests, batch);
      SettledTrans(old(requests), batch, mid, batch, requests, batch);
    }

    /** What looking into a node adds up to. */
    lemma Expanded(before: Requests, item: Delivery, called: Requests, held: map<Hash, Bytes>, committed: bool)
      requires item.hash in before && Extended(Filled(before, item.hash, item.data), called)
      requires called.Keys <= before.Keys + SubHashes(item.subs) && decode(item.data).Some?
      requires StaySettled(before, held, called, held)
      requires committed ==> item.hash !in requests && Drained(called, requests) && Moved(called, held, requests, batch)
      requires !committed ==>
        && batch == held && Extended(called, requests) && item.hash in requests && requests[item.hash].deps > 0
        && requests.Keys <= called.Keys + KidHashes(decode(item.data).value)
      ensures Settled(requests, batch, item.hash, item.data) && Larger(held, batch)
      ensures committed ==> item.hash in batch && batch[item.hash] == item.data
      ensures Stepped(before, item.hash, item.data, Named(item), requests)
      ensures StaySettled(before, held, requests, batch)
    {
      hide Extended, Drained, Moved, StaySettled, Stepped, Larger;
      var h := item.hash;
      var mid := Filled(before, h, item.data);
      ExtendedAt(mid, called, h);
      if committed {
        SteppedExtended(before, h, item.data, Named(item), called);
        SteppedMoved(before, h, item.data, Named(item), called, held, requests, batch);
        MovedMeans(called, held, requests, batch, h);
        MovedSettled(called, held, requests, batch);
      } else {
        ExtendedAt(called, requests, h);
        ExtendedTrans(mid, called, requests);
        SteppedExtended(before, h, item.data, Named(item), requests);
        ExtendedSettled(called, requests, batch);
        LargerRefl(held);
      }
      SettledTrans(before, held, called, held, requests, batch);
    }

    /** All entries that the leaf callbacks register as raw. */
    ghost function AllRaw(results: seq<Delivery>): (r: set<Hash>) {
      if results == [] then {} else AllRaw(results[..|results| - 1]) + RawHashes(results[|results| - 1].subs)
    }

    lemma {:induction false} RawAmong(results: seq<Delivery>, i: nat)
      requires i < |results|
      ensures RawHashes(results[i].subs) <= AllRaw(results)
    {
      if i < |results| - 1 {
        RawAmong(results[..|results| - 1], i);
      }
    }

    /** The requests that each delivery meets, from the first ones to the last ones left. */
    ghost predicate Trace(results: seq<Delivery>, met: seq<Requests>, first: Requests, last: Requests) {
      && 0 < |met| <= |results| + 1 && met[0] == first && met[|met| - 1] == last
      && forall i :: 0 <= i < |met| - 1 ==> Judged(met[i], results[i], met[i + 1])
    }

    lemma TraceMore(results: seq<Delivery>, met: seq<Requests>, first: Requests, last: Requests, next: Requests)
      requires Trace(results, met, first, last) && |met| <= |results| && Judged(last, results[|met| - 1], next)
      ensures Trace(results, met + [next], first, next)
    {
      hide Judged;
      var more := met + [next];
      forall i | 0 <= i < |more| - 1 ensures Judged(more[i], results[i], more[i + 1]) {
        if i < |met| - 1 {
          assert more[i] == met[i] && more[i + 1] == met[i + 1];
        }
      }
    }

    /** The first `n` deliveries are accepted: nothing speaks against any of them in the state it meets, its
        data are in the batch or kept with a request that waits, and its children are stored or asked for. */
    ghost predicate Accepted(results: seq<Delivery>, met: seq<Requests>, n: nat, now: Requests, held: map<Hash, Bytes>,
                             touched: set<Hash>)
      requires n <= |results| && n <= |met|
    {
      forall i :: 0 <= i < n ==> AcceptedAt(results[i], met[i], now, held, touched)
    }

    ghost predicate AcceptedAt(item: Delivery, met: Requests, now: Requests, held: map<Hash, Bytes>,
                               touched: set<Hash>) {
      && Outcome(met, item) == None && Settled(now, held, item.hash, item.data)
      && (!met[item.hash].raw ==> KidHashes(decode(item.data).value) <= touched)
    }

    lemma AcceptedMore(results: seq<Delivery>, met: seq<Requests>, n: nat, now: Requests, held: map<Hash, Bytes>,
                       touched: set<Hash>, next: Requests, batch: map<Hash, Bytes>, more: set<Hash>)
      requires n < |results| && n < |met| && Accepted(results, met, n, now, held, touched)
      requires StaySettled(now, held, next, batch) && touched <= more
      ensures Accepted(results, met + [next], n, next, batch, more)
      ensures AcceptedAt(results[n], met[n], next, batch, more) ==>
        Accepted(results, met + [next], n + 1, next, batch, more)
    {
      forall i | 0 <= i < n ensures AcceptedAt(results[i], (met + [next])[i], next, batch, more) {
        assert AcceptedAt(results[i], met[i], now, held, touched);
      }
    }

    /** Accepts deliveries in turn up to the first one that cannot be, whose position is returned with
        what is wrong about it. `met` are the requests that each delivery meets. */
    method Process(results: seq<Delivery>)
      returns (committed: bool, index: nat, err: Option<Error>, ghost met: seq<Requests>)
      requires Valid()
      modifies this
      ensures database == old(database) && old(Stored()) <= Stored() && old(roots) <= roots && old(links) <= links
      ensures old(Touched()) <= Touched()
      ensures Trace(results, met, old(requests), requests)
      ensures err.None? ==>
        index == 0 && |met| == |results| + 1 && Accepted(results, met, |results|, requests, batch, Touched())
      ensures err.Some? ==>
        && index < |results| && |met| == index + 2 && err == Outcome(met[index], results[index])
        && Accepted(results, met, index, requests, batch, Touched())
      ensures Larger(old(batch), batch) && (committed <==> batch != old(batch))
      ensures old(excused) <= excused
      ensures excused <=
        old(excused) + AllRaw(results) + if err == Some(CallbackFailed) then {results[index].hash} else {}
      ensures err.None? ==> forall i :: 0 <= i < |results| ==> results[i].hash in Touched()
      ensures Valid()
    {
      hide Inside, Trace, Accepted, Judged, StaySettled, Larger, Named, Settled, Stepped;
      committed, met := false, [requests];
      LargerRefl(batch);
      TraceOne(results, requests);
      NoneAccepted(results, met, requests, batch, Touched());
      var i := 0;
      while i < |results|
        invariant i <= |results| && |met| == i + 1
        invariant database == old(database) && old(Stored()) <= Stored() && old(roots) <= roots && old(links) <= links
        invariant old(Touched()) <= Touched()
        invariant Trace(results, met, old(requests), requests)
        invariant Accepted(results, met, i, requests, batch, Touched())
        invariant Larger(old(batch), batch) && (committed <==> batch != old(batch))
        invariant old(excused) <= excused <= old(excused) + AllRaw(results)
        invariant forall j :: 0 <= j < i ==> results[j].hash in Touched()
        invariant Valid()
      {
        ghost var before, held, touched := requests, batch, Touched();
        LastMet(results, met, old(requests), requests);
        var done;
        done, err := ProcessOne(results[i]);
        RawAmong(results, i);
        TraceMore(results, met, old(requests), before, requests);
        AcceptedMore(results, met, i, before, held, touched, requests, batch, Touched());
        LargerTrans(old(batch), held, batch);
        met, committed := met + [requests], committed || done;
        if err.Some? {
          return committed, i, err, met;
        }
        i := i + 1;
      }
      return committed, 0, None, met;
    }

    lemma TraceOne(results: seq<Delivery>, first: Requests)
      ensures Trace(results, [first], first, first)
    {
    }

    lemma NoneAccepted(results: seq<Delivery>, met: seq<Requests>, now: Requests, held: map<Hash, Bytes>,
                       touched: set<Hash>)
      ensures Accepted(results, met, 0, now, held, touched)
    {
    }

    lemma LastMet(results: seq<Delivery>, met: seq<Requests>, first: Requests, last: Requests)
      requires Trace(results, met, first, last)
      ensures |met| > 0 && met[|met| - 1] == last
    {
    }

    /** Writes completed nodes to the database in order of completion. A write may fail; then the
        number of nodes written is returned, and those have their dependencies in the database. */
    method Commit(works: bool) returns (written: nat, ok: bool)
      requires Valid()
      modifies this`database, this`batch, this`order
      ensures written <= |old(order)| && Stored() == old(Stored())
      ensures forall i :: 0 <= i < written ==> old(order)[i] in database
      ensures forall i, c :: 0 <= i < written && (old(order)[i], c) in links ==> c in database
      ensures works ==> ok
      ensures ok ==> written == |old(order)| && batch == map[] && order == []
      ensures Mixed(old(database), old(batch), database)
      ensures ok ==> forall h :: h in old(batch) ==> h in database && database[h] == old(batch)[h]
      ensures !ok ==> batch == old(batch) && order == old(order)
      ensures Valid()
    {
      hide Scheduled, Kept, Pursued, Mixed, WrittenOut;
      NoneWritten(database, batch, order);
      ok, written := true, 0;
      while written < |order| && ok
        invariant written <= |order|
        invariant batch == old(batch) && order == old(order) && Stored() == old(Stored())
        invariant Mixed(old(database), batch, database) && WrittenOut(database, batch, order, written) && (works ==> ok)
        invariant Kept(database, batch, order, requests.Keys, links, unscanned, decode)
        decreases |order| - written, ok
      {
        ok := *;
        ok := ok || works;
        if ok {
          InBatch(database, batch, order, requests.Keys, links, unscanned, decode, written);
          KeptWritten(database, batch, order, requests.Keys, links, unscanned, decode, order[written]);
          WrittenMore(old(database), database, batch, order, written);
          database := database[order[written] := batch[order[written]]];
          written := written + 1;
        }
      }
      WrittenIn(database, batch, order, written);
      WrittenClosed(database, batch, order, requests.Keys, links, unscanned, decode, written);
      if ok {
        AllInOrder(database, batch, order, requests.Keys, links, unscanned, decode);
        AllWritten(database, batch, order);
        KeptFlushed(database, batch, order, requests.Keys, links, unscanned, decode);
        assert Stored() == database.Keys;
        batch, order := map[], [];
        assert Stored() == database.Keys;
      }
    }

    // ----- Consequences

    /** The dependency count of a request is the number of places it takes in the lists of those
        that wait for pending requests. */
    lemma DepsAreExact(p: Hash)
      requires Valid() && p in requests
      ensures requests[p].deps == Waits(requests, p)
    {
    }

    /** Each prefix of the completion order makes the database closed. */
    lemma PrefixIsClosed(n: nat, i: nat, c: Hash)
      requires Valid() && i < n <= |order| && order[i] !in unscanned && order[i] in batch
      requires KidOf(batch[order[i]], c, decode)
      ensures c in database || c in order[..n]
    {
      assert Scanned(order[i], batch[order[i]], links, unscanned, decode);
      assert (order[i], c) in links;
      OrderedAt(order, links, database.Keys, i, c);
    }

    /** With nothing pending, every node of every trie asked for is there, provided that no inner node
        on the way to it was first asked for as a raw entry, had its leaf callback fail, or was taken
        as it is before the scheduler started. */
    lemma NothingPendingNothingMissing(path: seq<Hash>, contents: Hash -> Bytes)
      requires Valid() && requests == map[]
      requires forall h :: h in database ==> database[h] == contents(h)
      requires forall h :: h in batch ==> batch[h] == contents(h)
      requires Path(path, contents, decode) && path[0] in roots
      requires forall i :: 0 <= i < |path| - 1 ==> path[i] !in skipped + excused
      ensures path[|path| - 1] in Stored()
    {
      hide Kept, Counted, Rooted, Ready, AllScanned;
      assert requests.Keys == {};
      PathStored(path, database, batch, order, links, unscanned, decode, contents);
    }

    /** A stored node with a child missing was excused. */
    lemma MissingChildIsExcused(h: Hash, c: Hash, contents: Hash -> Bytes)
      requires Valid() && requests == map[]
      requires h in Stored() && (h in database ==> database[h] == contents(h)) &&
        (h in batch ==> batch[h] == contents(h))
      requires KidOf(contents(h), c, decode) && c !in Stored()
      ensures h in skipped + excused
    {
      hide Kept, Counted, Rooted, Ready, AllScanned, KidOf;
      assert requests.Keys == {};
      if h !in skipped + excused {
        KidStored(h, c, database, batch, order, links, unscanned, decode, contents);
      }
    }
  }

  // ----- What may go wrong

  /** A node that is first asked for as a raw entry is stored without a look at its children, and
      asking for it as a trie afterwards does not help: whatever child the scheduler has not met
      stays missing with nothing pending. */
  method RawRequestHidesChild(s: Scheduler, h: Hash, data: Bytes, ghost c: Hash)
    requires s.Valid() && s.requests == map[]
    requires h !in s.Touched() && h != s.emptyState && h != s.emptyRoot
    requires KidOf(data, c, s.decode) && c != h && c !in s.Touched()
    modifies s
    ensures s.Valid() && s.requests == map[]
    ensures h in s.roots && h in s.Stored() && c !in s.Touched()
    ensures s.Stored() == old(s.Stored()) + {h} && s.excused == old(s.excused) + {h}
    ensures old(s.roots) <= s.roots
  {
    hide Scheduler.Inside, Scheduler.Named, KidOf, Extended;
    s.AddRawEntry(h, 0, NONE, {});
    var done, err := s.ProcessOne(Delivery(h, data, [], false));
    s.AddSubTrie(h, 0, NONE, {});
  }

  /** What is pending after the leaf callback of `h` has registered the sub-trie `sub` and failed. */
  function AfterFailure(h: Hash, data: Bytes, sub: Hash): (r: Requests) {
    map[h := Request(Some(data), false, [], 0, 1), sub := Request(None, false, [h], 0, 0)]
  }

  /** Asks an idle scheduler for a trie it has not met. */
  method AskFor(s: Scheduler, h: Hash)
    requires s.Valid() && s.requests == map[]
    requires h !in s.Touched() && h != s.emptyRoot
    modifies s
    ensures s.Valid() && s.requests == map[h := Request(None, false, [], 0, 0)] && h in s.roots
    ensures s.database == old(s.database) && s.batch == old(s.batch) && s.Touched() <= old(s.Touched()) + {h}
  {
    hide Scheduler.Inside, Extended, Scheduler.Named;
    s.AddSubTrie(h, 0, NONE, {});
  }

  /** The requests once one sub-trie that was not met is registered below the only node there is. */
  lemma AfterRegistering(s: Scheduler, h: Hash, data: Bytes, sub: Hash)
    requires h != NONE && sub != h && sub != s.emptyRoot && !s.TrieKnown(sub)
    ensures s.Registered(map[h := Request(Some(data), false, [], 0, 0)], h, [Sub(sub, false, 0)])
         == AfterFailure(h, data, sub)
  {
    var filled := map[h := Request(Some(data), false, [], 0, 0)];
    var subs := [Sub(sub, false, 0)];
    assert subs[..0] == [];
    assert s.Registered(filled, h, subs) == s.Entered(s.Registered(filled, h, []), h, subs[0]);
  }

  /** A leaf callback that registers a sub-trie and then fails leaves its node waiting for the
      sub-trie, and not looked into. */
  method FailCallback(s: Scheduler, h: Hash, data: Bytes, sub: Hash)
    requires s.Valid() && s.requests == map[]
    requires h !in s.Touched() && h != s.emptyRoot && h != NONE
    requires sub !in s.Touched() && sub != s.emptyRoot && sub != h
    requires s.decode(data).Some?
    modifies s
    ensures s.Valid() && s.requests == AfterFailure(h, data, sub)
    ensures s.Stored() == old(s.Stored()) && h in s.roots && h in s.excused
  {
    hide Scheduler.Inside, Extended, Drained, StillWaiting, Scheduler.Named, Settled, StaySettled, Stepped, Larger,
         Scheduler.Judged, Scheduler.KidsAsked;
    AskFor(s, h);
    AfterRegistering(s, h, data, sub);
    assert Filled(s.requests, h, data) == map[h := Request(Some(data), false, [], 0, 0)];
    var done, err := s.ProcessOne(Delivery(h, data, [Sub(sub, false, 0)], true));
  }

  /** A node that waits for one leaf is stored with it. */
  method DeliverLast(s: Scheduler, h: Hash, data: Bytes, sub: Hash, leaf: Bytes)
    requires s.Valid() && h != sub && s.requests == AfterFailure(h, data, sub)
    requires s.decode(leaf) == Some([])
    modifies s
    ensures s.Valid() && s.requests == map[]
    ensures s.Touched() == old(s.Touched()) && old(s.roots) <= s.roots && old(s.excused) <= s.excused
  {
    hide Scheduler.Inside, Extended, Scheduler.Registered;
    var item := Delivery(sub, leaf, [], false);
    assert s.Named(item) == {};
    assert s.requests[sub].parents[0] == h;
    var done, err := s.ProcessOne(item);
    if h in s.requests {
      s.DepsAreExact(h);
      WaitsZero(s.requests, h);
      assert false;
    }
    assert s.requests.Keys == {};
  }

  /** Once the sub-trie of a failed leaf callback is there, the node is stored, and whatever child the
      scheduler has not met stays missing with nothing pending. */
  method FailedCallbackHidesChild(s: Scheduler, h: Hash, data: Bytes, sub: Hash, leaf: Bytes, ghost c: Hash)
    requires s.Valid() && s.requests == map[]
    requires h !in s.Touched() && h != s.emptyRoot && h != NONE
    requires sub !in s.Touched() && sub != s.emptyRoot && sub != h
    requires s.decode(leaf) == Some([])
    requires KidOf(data, c, s.decode) && c != h && c != sub && c !in s.Touched()
    modifies s
    ensures s.Valid() && s.requests == map[]
    ensures h in s.roots && h in s.excused && c !in s.Touched()
    ensures s.Stored() == old(s.Stored()) + {h, sub}
  {
    hide Scheduler.Inside;
    FailCallback(s, h, data, sub);
    DeliverLast(s, h, data, sub, leaf);
  }

  /** A trie whose root has all its children stored is complete once the root arrives. */
  method FetchAbove(s: Scheduler, h: Hash, data: Bytes)
    requires s.Valid() && s.requests == map[]
    requires h !in s.Touched() && h != s.emptyRoot
    requires s.decode(data).Some? && s.Named(Delivery(h, data, [], false)) <= s.Stored()
    modifies s
    ensures s.Valid() && s.requests == map[]
    ensures h in s.roots && s.Stored() == old(s.Stored()) + {h} && s.excused == old(s.excused)
    ensures old(s.roots) <= s.roots
  {
    hide Scheduler.Inside, Scheduler.Named, Extended;
    s.AddSubTrie(h, 0, NONE, {});
    var item := Delivery(h, data, [], false);
    assert s.SubHashes(item.subs) == {};
    var done, err := s.ProcessOne(item);
    assert s.requests.Keys == {};
  }
}
