/** One-to-many event delivery (event/feed.go) as a machine whose steps may come in any order. */
module Feed {

  datatype Channel = Channel(id: int)

  // ----- Lists of cases

  function Deleted(s: seq<Channel>, i: nat): (r: seq<Channel>)
    requires i < |s|
  {
    s[..i] + s[i + 1..]
  }

  /** Swaps the case at `i` with the last active one. */
  function Swapped(s: seq<Channel>, i: nat, last: nat): (r: seq<Channel>)
    requires i <= last < |s|
  {
    s[i := s[last]][last := s[i]]
  }

  lemma DeletedBag(s: seq<Channel>, i: nat)
    requires i < |s|
    ensures multiset(s) == multiset(Deleted(s, i)) + multiset{s[i]}
  {
    assert s == s[..i] + [s[i]] + s[i + 1..];
  }

  /** Deactivation takes the case out of the active part and into the other. */
  lemma SwappedBag(s: seq<Channel>, i: nat, last: nat)
    requires i <= last < |s|
    ensures multiset(s[..last + 1]) == multiset(Swapped(s, i, last)[..last]) + multiset{s[i]}
    ensures multiset(Swapped(s, i, last)[last..]) == multiset(s[last + 1..]) + multiset{s[i]}
  {
    SwappedFront(s, i, last);
    var r := Swapped(s, i, last);
    assert r[last..] == [s[i]] + s[last + 1..];
  }

  lemma SwappedFront(s: seq<Channel>, i: nat, last: nat)
    requires i <= last < |s|
    ensures multiset(s[..last + 1]) == multiset(Swapped(s, i, last)[..last]) + multiset{s[i]}
  {
    var r, t := Swapped(s, i, last), s[..last + 1];
    if i == last {
      assert t == s[..last] + [s[last]] && r[..last] == s[..last];
    } else {
      var a, b := s[..i], s[i + 1..last];
      assert t == (a + [s[i]] + b) + [s[last]];
      assert r[..last] == a + [s[last]] + b;
    }
  }

  /** Deleting a case leaves the part it is not in alone. */
  lemma DeletedParts(s: seq<Channel>, i: nat, n: nat)
    requires i < |s| && n <= |s|
    ensures i < n ==> Deleted(s, i)[..n - 1] == Deleted(s[..n], i) && Deleted(s, i)[n - 1..] == s[n..]
    ensures i >= n ==> Deleted(s, i)[..n] == s[..n] && Deleted(s, i)[n..] == Deleted(s[n..], i - n)
  {
  }

  // ----- The books

  /** One entry fewer. */
  function Less(m: multiset<Channel>, ch: Channel): (r: multiset<Channel>) {
    if ch in m then m[ch := m[ch] - 1] else m
  }

  /** Each subscription is in one of the lists. Whoever waits for removal is in `cases`. */
  ghost predicate Listed(subs: multiset<Channel>, inbox: seq<Channel>, cases: seq<Channel>,
                         waiting: multiset<Channel>) {
    && (forall ch :: subs[ch] == multiset(inbox)[ch] + multiset(cases)[ch])
    && (forall ch :: waiting[ch] <= multiset(cases)[ch])
  }

  /** Who was there when the running `Send` took the lock is still to be served, has been served,
      or was removed before that; who has been served is in the inactive part, or was removed
      after that. */
  ghost predicate Accounted(cases: seq<Channel>, active: nat, nsent: nat, start: multiset<Channel>,
                            served: multiset<Channel>,
                            missed: multiset<Channel>, left: multiset<Channel>)
  {
    && active <= |cases|
    && (forall ch :: start[ch] == multiset(cases[..active])[ch] + served[ch] + missed[ch])
    && (forall ch :: served[ch] == multiset(cases[active..])[ch] + left[ch])
    && nsent == |served|
  }

  lemma ListedWithout(subs: multiset<Channel>, inbox: seq<Channel>, cases: seq<Channel>, waiting: multiset<Channel>,
                      i: nat)
    requires Listed(subs, inbox, cases, waiting) && i < |cases| && cases[i] in waiting
    ensures Listed(Less(subs, cases[i]), inbox, Deleted(cases, i), Less(waiting, cases[i]))
  {
    DeletedBag(cases, i);
    hide Deleted;
    var x, r := cases[i], Deleted(cases, i);
    assert forall c :: multiset(cases)[c] == multiset(r)[c] + multiset{x}[c];
  }

  lemma ListedMoved(subs: multiset<Channel>, inbox: seq<Channel>, cases: seq<Channel>, waiting: multiset<Channel>)
    requires Listed(subs, inbox, cases, waiting)
    ensures Listed(subs, [], cases + inbox, waiting) && multiset(cases + inbox) == subs
  {
  }

  lemma ListedSwapped(subs: multiset<Channel>, inbox: seq<Channel>, cases: seq<Channel>, waiting: multiset<Channel>,
                      i: nat, last: nat)
    requires Listed(subs, inbox, cases, waiting) && i <= last < |cases|
    ensures multiset(Swapped(cases, i, last)) == multiset(cases)
    ensures Listed(subs, inbox, Swapped(cases, i, last), waiting)
  {
  }

  lemma Served(cases: seq<Channel>, active: nat, nsent: nat, start: multiset<Channel>, served: multiset<Channel>,
               missed: multiset<Channel>, left: multiset<Channel>, i: nat)
    requires Accounted(cases, active, nsent, start, served, missed, left) && i < active
    ensures Accounted(Swapped(cases, i, active - 1), active - 1, nsent + 1, start, served + multiset{cases[i]},
                      missed, left)
  {
    SwappedBag(cases, i, active - 1);
    hide Swapped;
  }

  /** A case that was still active goes. */
  lemma Missed(cases: seq<Channel>, active: nat, nsent: nat, start: multiset<Channel>, served: multiset<Channel>,
               missed: multiset<Channel>, left: multiset<Channel>, i: nat)
    requires Accounted(cases, active, nsent, start, served, missed, left) && i < active
    ensures Accounted(Deleted(cases, i), active - 1, nsent, start, served, missed + multiset{cases[i]}, left)
  {
    DeletedParts(cases, i, active);
    DeletedBag(cases[..active], i);
    hide Deleted;
  }

  /** A case that was served goes. */
  lemma Departed(cases: seq<Channel>, active: nat, nsent: nat, start: multiset<Channel>, served: multiset<Channel>,
                 missed: multiset<Channel>, left: multiset<Channel>, i: nat)
    requires Accounted(cases, active, nsent, start, served, missed, left) && active <= i < |cases|
    ensures Accounted(Deleted(cases, i), active, nsent, start, served, missed, left + multiset{cases[i]})
  {
    DeletedParts(cases, i, active);
    DeletedBag(cases[active..], i - active);
    hide Deleted;
  }

  lemma Begun(cases: seq<Channel>)
    ensures Accounted(cases, |cases|, 0, multiset(cases), multiset{}, multiset{}, multiset{})
  {
    assert cases[..|cases|] == cases && cases[|cases|..] == [];
  }

  lemma Done(cases: seq<Channel>, nsent: nat, start: multiset<Channel>, served: multiset<Channel>,
             missed: multiset<Channel>, left: multiset<Channel>)
    requires Accounted(cases, 0, nsent, start, served, missed, left)
    ensures nsent == |served|
    ensures forall ch :: start[ch] == served[ch] + missed[ch]
    ensures forall ch :: start[ch] == multiset(cases)[ch] + missed[ch] + left[ch]
  {
  }

  // ----- The feed

  class Broadcast {
    var inbox: seq<Channel>
    var sendCases: seq<Channel>

    /** Whether a `Send` holds the lock, how many cases it still has to serve, how many it has
        served, and which channels wait for removal. */
    var sending: bool
    var active: nat
    var nsent: nat
    var waiting: multiset<Channel>

    /** Subscriptions, one entry each; those a running `Send` started with and has served; and
        those removed while it ran, before or after they were served. */
    ghost var subs: multiset<Channel>
    ghost var start: multiset<Channel>
    ghost var served: multiset<Channel>
    ghost var missed: multiset<Channel>
    ghost var left: multiset<Channel>

    ghost predicate Valid()
      reads this
    {
      && Listed(subs, inbox, sendCases, waiting)
      && (sending ==> Accounted(sendCases, active, nsent, start, served, missed, left))
    }

    constructor ()
      ensures Valid() && subs == multiset{} && !sending
    {
      inbox, sendCases, sending, active, nsent, waiting := [], [], false, 0, 0, multiset{};
      subs, start, served, missed, left := multiset{}, multiset{}, multiset{}, multiset{}, multiset{};
    }

    /** Position of the first case for a channel, or -1. */
    static method Find(cases: seq<Channel>, ch: Channel) returns (i: int)
      ensures i == -1 <==> ch !in cases
      ensures i != -1 ==> 0 <= i < |cases| && cases[i] == ch && forall j :: 0 <= j < i ==> cases[j] != ch
    {
      i := 0;
      while i < |cases|
        invariant 0 <= i <= |cases| && forall j :: 0 <= j < i ==> cases[j] != ch
      {
        if cases[i] == ch {
          return;
        }
        i := i + 1;
      }
      i := -1;
    }

    /** New channels wait in the inbox for the next `Send`. */
    method Subscribe(ch: Channel)
      requires Valid()
      modifies this`inbox, this`subs
      ensures subs == old(subs) + multiset{ch} && inbox == old(inbox) + [ch]
      ensures Valid()
    {
      hide Accounted;
      inbox, subs := inbox + [ch], subs + multiset{ch};
    }

    /** First half of a removal: off the inbox, or else in line for removal from `sendCases`. Each
        subscription is removed once. */
    method Unsubscribe(ch: Channel)
      requires Leaves(ch)
      requires Valid()
      modifies this`inbox, this`waiting, this`subs
      ensures ch in old(inbox) ==> subs == Less(old(subs), ch) && waiting == old(waiting)
      ensures ch !in old(inbox) ==> subs == old(subs) && waiting == old(waiting) + multiset{ch}
      ensures Valid()
    {
      hide Accounted, Deleted;
      var index := Find(inbox, ch);
      if index != -1 {
        DeletedBag(inbox, index);
        inbox, subs := Deleted(inbox, index), Less(subs, ch);
      } else {
        assert multiset(inbox)[ch] == 0;
        waiting := waiting + multiset{ch};
      }
    }

    /** Whether a channel has a subscription whose removal has not begun. */
    predicate Leaves(ch: Channel)
      reads this`inbox, this`sendCases, this`waiting
    {
      multiset(inbox)[ch] + multiset(sendCases)[ch] > waiting[ch]
    }

    lemma WaitingIsListed(ch: Channel)
      requires Valid() && ch in waiting
      ensures ch in sendCases && ch in subs
    {
    }

    /** Second half of a removal while no `Send` runs. The channel is always found. */
    method RemoveIdle(ch: Channel)
      requires !sending && ch in waiting
      requires Valid()
      modifies this`sendCases, this`waiting, this`subs
      ensures subs == Less(old(subs), ch) && waiting == Less(old(waiting), ch)
      ensures Valid()
    {
      hide Listed, Accounted, Deleted, Less;
      WaitingIsListed(ch);
      var index := Find(sendCases, ch);
      ListedWithout(subs, inbox, sendCases, waiting, index);
      sendCases, waiting, subs := Deleted(sendCases, index), Less(waiting, ch), Less(subs, ch);
    }

    /** The cases with the inbox appended: all of them are to be served. */
    method Merged() returns (cases: seq<Channel>)
      requires Valid()
      ensures Listed(subs, [], cases, waiting)
      ensures Accounted(cases, |cases|, 0, subs, multiset{}, multiset{}, multiset{})
    {
      hide Listed, Accounted;
      ListedMoved(subs, inbox, sendCases, waiting);
      cases := sendCases + inbox;
      Begun(cases);
    }

    /** A `Send` takes the lock and turns to all subscriptions there are. */
    method BeginSend()
      requires !sending
      requires Valid()
      modifies this`inbox, this`sendCases, this`sending, this`active, this`nsent, this`start, this`served, this`missed,
               this`left
      ensures sending && inbox == []
      ensures start == subs && served == multiset{} && missed == multiset{} && left == multiset{}
      ensures Valid()
    {
      hide Listed, Accounted;
      var cases := Merged();
      sendCases, inbox := cases, [];
      sending, active, nsent := true, |cases|, 0;
      start, served, missed, left := subs, multiset{}, multiset{}, multiset{};
    }

    /** The value goes out to the case at `i`, which is no longer active then. */
    method Deliver(i: nat)
      requires sending && i < active <= |sendCases|
      requires Valid()
      modifies this`sendCases, this`active, this`nsent, this`served
      ensures active == old(active) - 1 && nsent == old(nsent) + 1
      ensures served == old(served) + multiset{old(sendCases)[i]}
      ensures multiset(sendCases) == multiset(old(sendCases)) && active <= |sendCases|
      ensures Valid()
    {
      hide Listed, Accounted, Swapped;
      var last := active - 1;
      Served(sendCases, active, nsent, start, served, missed, left, i);
      ListedSwapped(subs, inbox, sendCases, waiting, i, last);
      served := served + multiset{sendCases[i]};
      sendCases := Swapped(sendCases, i, last);
      active, nsent := last, nsent + 1;
      Room();
    }

    lemma Room()
      requires Valid() && sending
      ensures active <= |sendCases|
    {
    }

    /** The fast path: offers the value to each active case without waiting; any of them may take it. */
    method TrySendAll()
      requires sending
      requires Valid()
      modifies this`sendCases, this`active, this`nsent, this`served
      ensures active <= old(active) && nsent + active == old(nsent + active)
      ensures Valid()
    {
      hide Listed, Accounted;
      Room();
      var i := 0;
      while i < active
        invariant active <= old(active) && nsent + active == old(nsent + active) && active <= |sendCases|
        invariant Valid()
        decreases active - i
      {
        var taken := *;
        if taken {
          Deliver(i);
        } else {
          i := i + 1;
        }
      }
    }

    /** Second half of a removal while a `Send` runs. The channel is always found. */
    method RemoveDuring(ch: Channel)
      requires sending && active > 0 && ch in waiting
      requires Valid()
      modifies this`sendCases, this`active, this`waiting, this`subs, this`missed, this`left
      ensures subs == Less(old(subs), ch) && waiting == Less(old(waiting), ch)
      ensures if active < old(active) then missed == old(missed) + multiset{ch} && left == old(left)
              else missed == old(missed) && left == old(left) + multiset{ch}
      ensures Valid()
    {
      hide Listed, Accounted, Deleted, Less;
      WaitingIsListed(ch);
      Room();
      var index := Find(sendCases, ch);
      ListedWithout(subs, inbox, sendCases, waiting, index);
      if index < active {
        DropActive(index);
      } else {
        DropServed(index);
      }
    }

    /** Deletes a case that was still to be served. */
    method DropActive(index: nat)
      requires sending && index < active <= |sendCases|
      requires Accounted(sendCases, active, nsent, start, served, missed, left)
      requires Listed(Less(subs, sendCases[index]), inbox, Deleted(sendCases, index), Less(waiting, sendCases[index]))
      modifies this`sendCases, this`active, this`waiting, this`subs, this`missed
      ensures active == old(active) - 1 && missed == old(missed) + multiset{old(sendCases)[index]}
      ensures subs == Less(old(subs), old(sendCases)[index]) && waiting == Less(old(waiting), old(sendCases)[index])
      ensures Valid()
    {
      hide Listed, Accounted, Deleted, Less;
      var ch := sendCases[index];
      Missed(sendCases, active, nsent, start, served, missed, left, index);
      active, missed := active - 1, missed + multiset{ch};
      sendCases, waiting, subs := Deleted(sendCases, index), Less(waiting, ch), Less(subs, ch);
    }

    /** Deletes a case that was served. */
    method DropServed(index: nat)
      requires sending && active <= index < |sendCases|
      requires Accounted(sendCases, active, nsent, start, served, missed, left)
      requires Listed(Less(subs, sendCases[index]), inbox, Deleted(sendCases, index), Less(waiting, sendCases[index]))
      modifies this`sendCases, this`waiting, this`subs, this`left
      ensures left == old(left) + multiset{old(sendCases)[index]}
      ensures subs == Less(old(subs), old(sendCases)[index]) && waiting == Less(old(waiting), old(sendCases)[index])
      ensures Valid()
    {
      hide Listed, Accounted, Deleted, Less;
      var ch := sendCases[index];
      Departed(sendCases, active, nsent, start, served, missed, left, index);
      left := left + multiset{ch};
      sendCases, waiting, subs := Deleted(sendCases, index), Less(waiting, ch), Less(subs, ch);
    }

    /** A `Send` with nobody left to serve gives back the lock. Everyone it started with was served
        once, except those removed first; what is left are those not removed. */
    method EndSend() returns (n: nat)
      requires sending && active == 0
      requires Valid()
      modifies this`sending
      ensures n == |served|
      ensures forall ch :: start[ch] == served[ch] + missed[ch]
      ensures forall ch :: start[ch] == multiset(sendCases)[ch] + missed[ch] + left[ch]
      ensures !sending && Valid()
    {
      hide Listed, Accounted;
      Done(sendCases, nsent, start, served, missed, left);
      sending := false;
      n := nsent;
    }
  }

  // ----- Runs

  /** What may happen next: subscriptions come and go, and a `Send` makes progress. */
  datatype Event =
    | Join(ch: Channel)
    | Quit(ch: Channel)
    | Remove(ch: Channel)
    | Begin
    | Offer
    | Select(i: nat)
    | End

  /** A `Send` from the event that began it to the one that ended it: whom it started with, whom it
      served, who was removed while it ran before and after that, and the number it returned. */
  datatype Round = Round(begun: nat, ended: nat, start: multiset<Channel>, served: multiset<Channel>,
                         missed: multiset<Channel>, left: multiset<Channel>, count: nat)

  /** Removals of a channel that took place among the events in a range. */
  ghost function Removals(events: seq<Event>, took: seq<bool>, lo: nat, hi: nat, ch: Channel): (n: nat)
    requires hi <= |events| && hi <= |took|
  {
    if hi <= lo then 0
    else Removals(events, took, lo, hi - 1, ch) + if took[hi - 1] && events[hi - 1] == Remove(ch) then 1 else 0
  }

  lemma {:induction false} RemovalsMore(events: seq<Event>, took: seq<bool>, t: bool, lo: nat, hi: nat, ch: Channel)
    requires hi <= |events| && hi <= |took|
    ensures Removals(events, took + [t], lo, hi, ch) == Removals(events, took, lo, hi, ch)
  {
    if hi > lo {
      RemovalsMore(events, took, t, lo, hi - 1, ch);
    }
  }

  /** Those removed since a `Send` began, before or after they were served. */
  ghost predicate Tallied(missed: multiset<Channel>, left: multiset<Channel>, events: seq<Event>, took: seq<bool>,
                          begun: nat, k: nat) {
    && begun < k <= |events| && k <= |took| && events[begun] == Begin
    && forall ch :: missed[ch] + left[ch] == Removals(events, took, begun, k, ch)
  }

  lemma TalliedFirst(events: seq<Event>, took: seq<bool>, k: nat)
    requires k < |events| && k < |took| && events[k] == Begin
    ensures Tallied(multiset{}, multiset{}, events, took, k, k + 1)
  {
    var none: multiset<Channel> := multiset{};
    forall ch ensures none[ch] + none[ch] == Removals(events, took, k, k + 1, ch) {
      assert Removals(events, took, k, k, ch) == 0;
    }
  }

  lemma TalliedMore(missed: multiset<Channel>, left: multiset<Channel>, events: seq<Event>, took: seq<bool>, t: bool,
                    begun: nat, k: nat)
    requires Tallied(missed, left, events, took, begun, k)
    ensures Tallied(missed, left, events, took + [t], begun, k)
  {
    forall ch ensures Removals(events, took + [t], begun, k, ch) == Removals(events, took, begun, k, ch) {
      RemovalsMore(events, took, t, begun, k, ch);
    }
  }

  lemma TalliedNext(missed: multiset<Channel>, left: multiset<Channel>, missedNow: multiset<Channel>,
                    leftNow: multiset<Channel>, events: seq<Event>, took: seq<bool>, begun: nat, k: nat)
    requires Tallied(missed, left, events, took, begun, k) && k < |events| && k < |took|
    requires forall ch ::
      missedNow[ch] + leftNow[ch] == missed[ch] + left[ch] + if took[k] && events[k] == Remove(ch) then 1 else 0
    ensures Tallied(missedNow, leftNow, events, took, begun, k + 1)
  {
  }

  /** Everyone that `Send` started with was served once for each subscription, except for those
      removed first. Those removed first, or after they were served, are exactly the removals that
      took place while it ran. */
  ghost predicate Exact(events: seq<Event>, took: seq<bool>, r: Round) {
    && r.begun < r.ended < |events| && r.ended <= |took| && events[r.begun] == Begin && events[r.ended] == End
    && r.count == |r.served|
    && (forall ch :: r.start[ch] == r.served[ch] + r.missed[ch])
    && (forall ch :: r.left[ch] <= r.served[ch])
    && (forall ch :: r.missed[ch] + r.left[ch] == Removals(events, took, r.begun, r.ended, ch))
  }

  /** It started with the subscriptions there were. */
  ghost predicate Recorded(events: seq<Event>, took: seq<bool>, members: seq<multiset<Channel>>, r: Round) {
    Exact(events, took, r) && r.begun < |members| && r.start == members[r.begun]
  }

  lemma ExactRound(events: seq<Event>, took: seq<bool>, members: seq<multiset<Channel>>, r: Round)
    requires Tallied(r.missed, r.left, events, took, r.begun, r.ended) && r.ended < |events| && events[r.ended] == End
    requires r.count == |r.served|
    requires forall ch :: r.start[ch] == r.served[ch] + r.missed[ch] && r.left[ch] <= r.served[ch]
    requires r.begun < |members| && r.start == members[r.begun]
    ensures Recorded(events, took, members, r)
  {
  }

  lemma RecordedMore(events: seq<Event>, took: seq<bool>, t: bool, members: seq<multiset<Channel>>,
                     m: multiset<Channel>, r: Round)
    requires Recorded(events, took, members, r)
    ensures Recorded(events, took + [t], members + [m], r)
  {
    forall ch
      ensures Removals(events, took + [t], r.begun, r.ended, ch) == Removals(events, took, r.begun, r.ended, ch)
    {
      RemovalsMore(events, took, t, r.begun, r.ended, ch);
    }
  }

  /** What an event does to the subscriptions: they grow when a channel joins and shrink when a
      removal takes place, or when one quits that is still in the inbox. */
  ghost predicate Effect(before: multiset<Channel>, e: Event, took: bool, after: multiset<Channel>) {
    match e
    case Join(ch) => !took && after == before + multiset{ch}
    case Quit(ch) => !took && (after == before || after == Less(before, ch))
    case Remove(ch) => if took then ch in before && after == Less(before, ch) else after == before
    case _ => !took && after == before
  }

  /** The subscriptions after each event. */
  ghost predicate Traced(first: multiset<Channel>, events: seq<Event>, took: seq<bool>,
                         members: seq<multiset<Channel>>) {
    && |members| == |took| <= |events|
    && forall i {:trigger took[i]} :: 0 <= i < |members| ==>
      Effect(Before(first, members, i), events[i], took[i], members[i])
  }

  ghost function Before(first: multiset<Channel>, members: seq<multiset<Channel>>, i: nat): (r: multiset<Channel>)
    requires i <= |members|
  {
    if i == 0 then first else members[i - 1]
  }

  lemma TracedNone(first: multiset<Channel>, events: seq<Event>)
    ensures Traced(first, events, [], [])
  {
  }

  lemma TracedMore(first: multiset<Channel>, events: seq<Event>, took: seq<bool>, members: seq<multiset<Channel>>,
                   t: bool, m: multiset<Channel>)
    requires Traced(first, events, took, members) && |members| < |events|
    requires Effect(Before(first, members, |members|), events[|members|], t, m)
    ensures Traced(first, events, took + [t], members + [m])
  {
    hide Effect;
    forall i | 0 <= i <= |members|
      ensures Effect(Before(first, members + [m], i), events[i], (took + [t])[i], (members + [m])[i])
    {
      assert Before(first, members + [m], i) == Before(first, members, i);
      assert i < |members| ==> (took + [t])[i] == took[i];
    }
  }

  /** Whether a `Send` holds the lock before each event and after the last: it takes it when it begins, and
      each one that gives it back has its round. */
  ghost predicate Watched(events: seq<Event>, busy: seq<bool>, rounds: seq<Round>) {
    && 0 < |busy| <= |events| + 1 && !busy[0]
    && (forall k :: 0 <= k < |busy| - 1 ==> Turn(busy[k], events[k], busy[k + 1], Ended(rounds, k)))
    && (forall i :: 0 <= i < |rounds| ==> rounds[i].ended < |busy| - 1)
  }

  ghost predicate Turn(before: bool, e: Event, after: bool, ended: bool) {
    if before then !after <==> ended else (after <==> e == Begin) && !ended
  }

  ghost predicate Ended(rounds: seq<Round>, k: nat) {
    exists i :: 0 <= i < |rounds| && rounds[i].ended == k
  }

  lemma WatchedNone(events: seq<Event>)
    ensures Watched(events, [false], [])
  {
  }

  lemma WatchedMore(events: seq<Event>, busy: seq<bool>, rounds: seq<Round>, after: bool, more: seq<Round>)
    requires Watched(events, busy, rounds) && |busy| <= |events|
    requires
      || more == rounds
      || (|more| == |rounds| + 1 && more[..|rounds|] == rounds && more[|rounds|].ended == |busy| - 1)
    requires Turn(busy[|busy| - 1], events[|busy| - 1], after, |more| > |rounds|)
    ensures Watched(events, busy + [after], more)
  {
    var now := busy + [after];
    forall k | 0 <= k < |now| - 1 ensures Turn(now[k], events[k], now[k + 1], Ended(more, k)) {
      if k < |busy| - 1 {
        assert Turn(busy[k], events[k], busy[k + 1], Ended(rounds, k));
        SameEnds(rounds, more, k, |busy| - 1);
      } else if |more| > |rounds| {
        assert more[|rounds|].ended == k;
      }
    }
  }

  lemma SameEnds(rounds: seq<Round>, more: seq<Round>, k: nat, last: nat)
    requires k != last
    requires more == rounds || (|more| == |rounds| + 1 && more[..|rounds|] == rounds && more[|rounds|].ended == last)
    ensures Ended(rounds, k) <==> Ended(more, k)
  {
    if Ended(rounds, k) {
      var i :| 0 <= i < |rounds| && rounds[i].ended == k;
      assert more != rounds ==> more[..|rounds|][i] == more[i];
    }
    if Ended(more, k) {
      var i :| 0 <= i < |more| && more[i].ended == k;
      assert more != rounds ==> i < |rounds| && more[..|rounds|][i] == rounds[i];
    }
  }

  /** A removal, if it can take place now. */
  method RemoveNow(feed: Broadcast, ch: Channel) returns (took: bool)
    requires feed.Valid()
    modifies feed`sendCases, feed`active, feed`waiting, feed`subs, feed`missed, feed`left
    ensures feed.Valid()
    ensures took <==> ch in old(feed.waiting) && (feed.sending ==> old(feed.active) > 0)
    ensures Effect(old(feed.subs), Remove(ch), took, feed.subs)
    ensures feed.sending ==> forall c ::
      feed.missed[c] + feed.left[c] == old(feed.missed)[c] + old(feed.left)[c] + if took && c == ch then 1 else 0
  {
    hide Listed, Accounted, Less, Broadcast.Valid;
    took := false;
    if ch in feed.waiting {
      feed.WaitingIsListed(ch);
      if !feed.sending {
        feed.RemoveIdle(ch);
        took := true;
      } else if feed.active > 0 {
        feed.RemoveDuring(ch);
        took := true;
      }
    }
  }

  /** One event, or nothing if it cannot happen now. Tells whether a `Send` ended, and with what
      number, and whether a removal took place. */
  method Step(feed: Broadcast, e: Event) returns (ended: bool, n: nat, took: bool)
    requires feed.Valid()
    modifies feed
    ensures feed.Valid()
    ensures took <==> e.Remove? && e.ch in old(feed.waiting) && (old(feed.sending) ==> old(feed.active) > 0)
    ensures Effect(old(feed.subs), e, took, feed.subs)
    ensures feed.sending ==> !ended
    ensures !old(feed.sending) ==> (feed.sending <==> e == Begin) && !ended
    ensures !old(feed.sending) && feed.sending ==>
      feed.start == feed.subs && feed.missed == multiset{} && feed.left == multiset{}
    ensures old(feed.sending) && !feed.sending ==> ended
    ensures ended <==> e == End && old(feed.sending) && old(feed.active) == 0
    ensures old(feed.sending) ==> feed.start == old(feed.start)
    ensures old(feed.sending) ==> forall ch ::
      feed.missed[ch] + feed.left[ch] ==
        old(feed.missed)[ch] + old(feed.left)[ch] + if took && e == Remove(ch) then 1 else 0
    ensures ended ==>
      && old(feed.sending) && e == End && n == |feed.served|
      && feed.missed == old(feed.missed) && feed.left == old(feed.left)
    ensures ended ==>
      forall ch :: feed.start[ch] == feed.served[ch] + feed.missed[ch] && feed.left[ch] <= feed.served[ch]
  {
    hide Listed, Accounted, Less, Broadcast.Valid;
    ended, n, took := false, 0, false;
    if feed.sending {
      feed.Room();
    }
    match e {
      case Join(ch) => feed.Subscribe(ch);
      case Quit(ch) => if feed.Leaves(ch) { feed.Unsubscribe(ch); }
      case Remove(ch) => took := RemoveNow(feed, ch);
      case Begin => if !feed.sending { feed.BeginSend(); }
      case Offer => if feed.sending { feed.TrySendAll(); }
      case Select(i) => if feed.sending && i < feed.active { feed.Deliver(i); }
      case End =>
        if feed.sending && feed.active == 0 {
          n := feed.EndSend();
          ended := true;
        }
    }
  }

  /** Any sequence of events, those that cannot happen left out: every `Send` that ends has served
      each subscription that was there when it took the lock exactly once, unless it was removed
      first, and returns the number served. `members` are the subscriptions after each event, and
      `took` says which events were removals that took place. */
  method Replay(feed: Broadcast, events: seq<Event>)
    returns (counts: seq<nat>, ghost rounds: seq<Round>, ghost members: seq<multiset<Channel>>, ghost took: seq<bool>,
             ghost busy: seq<bool>)
    requires feed.Valid() && !feed.sending
    modifies feed
    ensures feed.Valid() && |rounds| == |counts| && |members| == |took| == |events|
    ensures Traced(old(feed.subs), events, took, members) && feed.subs == Before(old(feed.subs), members, |events|)
    ensures Watched(events, busy, rounds) && |busy| == |events| + 1 && busy[|events|] == feed.sending
    ensures forall i :: 0 <= i < |rounds| ==>
      Recorded(events, took, members, rounds[i]) && rounds[i].count == counts[i]
  {
    hide Recorded, Tallied, Effect, Traced, Broadcast.Valid, Watched;
    busy := [false];
    WatchedNone(events);
    TracedNone(feed.subs, events);
    counts, rounds, members, took := [], [], [], [];
    ghost var begun := 0;
    var k := 0;
    while k < |events|
      invariant k <= |events| && feed.Valid() && |rounds| == |counts| && |members| == |took| == k
      invariant Traced(old(feed.subs), events, took, members) && feed.subs == Before(old(feed.subs), members, k)
      invariant Watched(events, busy, rounds) && |busy| == k + 1 && busy[k] == feed.sending
      invariant forall i :: 0 <= i < |rounds| ==>
        Recorded(events, took, members, rounds[i]) && rounds[i].count == counts[i]
      invariant feed.sending ==>
        begun < k && Tallied(feed.missed, feed.left, events, took, begun, k) && feed.start == members[begun]
    {
      ghost var missed, left, was := feed.missed, feed.left, feed.sending;
      var ended, n, removed := Step(feed, events[k]);
      forall i | 0 <= i < |rounds| ensures Recorded(events, took + [removed], members + [feed.subs], rounds[i]) {
        RecordedMore(events, took, removed, members, feed.subs, rounds[i]);
      }
      if was {
        TalliedMore(missed, left, events, took, removed, begun, k);
        TalliedNext(missed, left, feed.missed, feed.left, events, took + [removed], begun, k);
      } else if feed.sending {
        begun := k;
        TalliedFirst(events, took + [removed], k);
      }
      TracedMore(old(feed.subs), events, took, members, removed, feed.subs);
      members, took := members + [feed.subs], took + [removed];
      ghost var earlier := rounds;
      if ended {
        ghost var r := Round(begun, k, feed.start, feed.served, feed.missed, feed.left, n);
        ExactRound(events, took, members, r);
        counts, rounds := counts + [n], rounds + [r];
      }
      WatchedMore(events, busy, earlier, feed.sending, rounds);
      busy := busy + [feed.sending];
      k := k + 1;
    }
  }
}
