/** The order in which an iterator visits the nodes of a trie. */
module Walk {

  import opened Common
  import opened Hex
  import opened TrieTree

  // ----- Lexical order

  /** Negative, zero or positive as `a` comes before, equals or comes after `b`. */
  function Compare(a: Bytes, b: Bytes): (r: int)
    ensures -1 <= r <= 1
  {
    if a == [] then (if b == [] then 0 else -1)
    else if b == [] then 1
    else if a[0] < b[0] then -1
    else if a[0] > b[0] then 1
    else Compare(a[1..], b[1..])
  }

  lemma {:induction false} CompareEqual(a: Bytes, b: Bytes)
    ensures Compare(a, b) == 0 <==> a == b
  {
    if a != [] && b != [] && a[0] == b[0] {
      CompareEqual(a[1..], b[1..]);
      assert a == [a[0]] + a[1..] && b == [b[0]] + b[1..];
    }
  }

  lemma {:induction false} CompareTrans(a: Bytes, b: Bytes, c: Bytes)
    requires Compare(a, b) <= 0 && Compare(b, c) <= 0
    ensures Compare(a, c) <= 0
    ensures Compare(a, b) < 0 || Compare(b, c) < 0 ==> Compare(a, c) < 0
  {
    if a != [] && b != [] && c != [] && a[0] == b[0] && b[0] == c[0] {
      CompareTrans(a[1..], b[1..], c[1..]);
    }
  }

  lemma {:induction false} CompareFlip(a: Bytes, b: Bytes)
    ensures Compare(a, b) == -Compare(b, a)
  {
    if a != [] && b != [] && a[0] == b[0] {
      CompareFlip(a[1..], b[1..]);
    }
  }

  /** A common beginning does not matter. */
  lemma {:induction false} CompareBehind(p: Bytes, a: Bytes, b: Bytes)
    ensures Compare(p + a, p + b) == Compare(a, b)
  {
    if p == [] {
      assert p + a == a && p + b == b;
    } else {
      CompareBehind(p[1..], a, b);
      assert (p + a)[1..] == p[1..] + a && (p + b)[1..] == p[1..] + b;
    }
  }

  // ----- Visits

  /** A node and the path to it. */
  datatype Visit = Visit(path: Bytes, node: Tree)

  /** All nodes of a subtree, parents first. */
  function Pre(t: Tree, path: Bytes): (r: seq<Visit>)
    decreases t, 18
  {
    if t.Nil? then [] else [Visit(path, t)] + Under(t, path, 0)
  }

  /** The nodes below a node, from child `i` on. */
  function Under(t: Tree, path: Bytes, i: nat): (r: seq<Visit>)
    decreases t, if i <= 17 then 17 - i else 0
  {
    match t
    case Short(k, val) => if i == 0 then Pre(val, path + k) else []
    case Full(kids) => if i < |kids| && i < 17 then Pre(kids[i], path + [i as Byte]) + Under(t, path, i + 1) else []
    case _ => []
  }

  /** Short nodes have a key and a child, and branches have 17 slots. */
  ghost predicate Shaped(t: Tree) {
    match t
    case Short(k, val) => k != [] && !val.Nil? && Shaped(val)
    case Full(kids) => |kids| == 17 && forall i :: 0 <= i < 17 ==> Shaped(kids[i])
    case _ => true
  }

  lemma {:induction false} CanonIsShaped(t: Tree)
    requires Canon(t)
    ensures Shaped(t)
  {
    match t
    case Short(k, val) =>
      if !HasTerm(k) { CanonIsShaped(val); }
    case Full(kids) =>
      forall i | 0 <= i < 17 ensures Shaped(kids[i]) {
        if i < 16 && !kids[i].Nil? { CanonIsShaped(kids[i]); }
      }
  }

  // ----- Paths go up

  /** All paths lead on from `p`, by a nibble from `lo` up to `hi`. */
  ghost predicate Between(vs: seq<Visit>, p: Bytes, lo: int, hi: int) {
    forall i :: 0 <= i < |vs| ==> p <= vs[i].path && |p| < |vs[i].path| && lo <= vs[i].path[|p|] as int < hi
  }

  ghost predicate From(vs: seq<Visit>, p: Bytes) {
    forall i :: 0 <= i < |vs| ==> p <= vs[i].path
  }

  ghost predicate Ascending(vs: seq<Visit>) {
    forall i, j :: 0 <= i < j < |vs| ==> Compare(vs[i].path, vs[j].path) < 0
  }

  lemma CompareLonger(p: Bytes, a: Bytes)
    requires p <= a && |p| < |a|
    ensures Compare(p, a) < 0
  {
  }

  lemma CompareFork(p: Bytes, a: Bytes, b: Bytes)
    requires p <= a && p <= b && |p| < |a| && |p| < |b| && a[|p|] < b[|p|]
    ensures Compare(a, b) < 0
  {
    assert a == p + a[|p|..] && b == p + b[|p|..];
    CompareBehind(p, a[|p|..], b[|p|..]);
  }

  lemma {:induction false} PreFrom(t: Tree, p: Bytes)
    requires Shaped(t)
    ensures From(Pre(t, p), p)
    decreases t, 18
  {
    if !t.Nil? {
      UnderBetween(t, p, 0);
    }
  }

  lemma {:induction false} UnderBetween(t: Tree, p: Bytes, i: nat)
    requires Shaped(t)
    ensures Between(Under(t, p, i), p, if t.Full? then i else 0, 256)
    decreases t, if i <= 17 then 17 - i else 0
  {
    match t
    case Short(k, val) =>
      if i == 0 {
        PreFrom(val, p + k);
        FromIsBetween(Pre(val, p + k), p, k, 0);
      }
    case Full(kids) =>
      if i < 17 {
        PreFrom(kids[i], p + [i as Byte]);
        FromIsBetween(Pre(kids[i], p + [i as Byte]), p, [i as Byte], i);
        UnderBetween(t, p, i + 1);
      }
    case _ =>
  }

  lemma FromIsBetween(vs: seq<Visit>, p: Bytes, k: Bytes, lo: int)
    requires From(vs, p + k) && k != [] && lo <= k[0] as int
    ensures Between(vs, p, lo, 256) && Between(vs, p, k[0] as int, k[0] as int + 1)
  {
  }

  lemma AscendingConcat(a: seq<Visit>, b: seq<Visit>)
    requires Ascending(a) && Ascending(b)
    requires forall i, j :: 0 <= i < |a| && 0 <= j < |b| ==> Compare(a[i].path, b[j].path) < 0
    ensures Ascending(a + b)
  {
  }

  /** Visits go by strictly increasing paths. */
  lemma {:induction false} PreAscending(t: Tree, p: Bytes)
    requires Shaped(t)
    ensures Ascending(Pre(t, p))
    decreases t, 18
  {
    if !t.Nil? {
      UnderAscending(t, p, 0);
      UnderBetween(t, p, 0);
      var below := Under(t, p, 0);
      forall j | 0 <= j < |below| ensures Compare(p, below[j].path) < 0 {
        CompareLonger(p, below[j].path);
      }
      AscendingConcat([Visit(p, t)], below);
    }
  }

  lemma {:induction false} UnderAscending(t: Tree, p: Bytes, i: nat)
    requires Shaped(t)
    ensures Ascending(Under(t, p, i))
    decreases t, if i <= 17 then 17 - i else 0
  {
    match t
    case Short(k, val) =>
      if i == 0 { PreAscending(val, p + k); }
    case Full(kids) =>
      if i < 17 {
        var first, rest := Pre(kids[i], p + [i as Byte]), Under(t, p, i + 1);
        PreAscending(kids[i], p + [i as Byte]);
        UnderAscending(t, p, i + 1);
        PreFrom(kids[i], p + [i as Byte]);
        FromIsBetween(first, p, [i as Byte], i);
        UnderBetween(t, p, i + 1);
        hide Ascending, From, Pre, Under;
        forall a, b | 0 <= a < |first| && 0 <= b < |rest| ensures Compare(first[a].path, rest[b].path) < 0 {
          CompareFork(p, first[a].path, rest[b].path);
        }
        AscendingConcat(first, rest);
      }
    case _ =>
  }

  // ----- Leaves

  ghost predicate LeafIn(vs: seq<Visit>, path: Bytes, v: Bytes) {
    Visit(path, Value(v)) in vs
  }

  /** The leaves visited are what the trie holds. */
  lemma {:induction false} PreLeaves(t: Tree, p: Bytes, x: Bytes, v: Bytes)
    requires Shaped(t)
    ensures LeafIn(Pre(t, p), p + x, v) <==> Lookup(t, x) == Some(v)
    decreases t, 18
  {
    if t.Short? || t.Full? {
      UnderLeaves(t, p, x, v, 0);
      assert LeafIn(Pre(t, p), p + x, v) <==> LeafIn(Under(t, p, 0), p + x, v);
    } else if t.Value? {
      assert p + x == p <==> x == [];
    }
  }

  lemma {:induction false} UnderLeaves(t: Tree, p: Bytes, x: Bytes, v: Bytes, i: nat)
    requires Shaped(t) && (t.Short? || t.Full?)
    ensures t.Short? && i == 0 ==> (LeafIn(Under(t, p, i), p + x, v) <==> Lookup(t, x) == Some(v))
    ensures t.Full? ==> (LeafIn(Under(t, p, i), p + x, v) <==> Lookup(t, x) == Some(v) && x != [] && x[0] as int >= i)
    decreases t, if i <= 17 then 17 - i else 0
  {
    if t.Short? {
      if i == 0 { ShortLeaves(t, p, x, v); }
    } else if i < 17 {
      UnderLeaves(t, p, x, v, i + 1);
      KidLeaves(t, p, x, v, i);
    }
  }

  lemma {:induction false} ShortLeaves(t: Tree, p: Bytes, x: Bytes, v: Bytes)
    requires Shaped(t) && t.Short?
    ensures LeafIn(Pre(t.val, p + t.key), p + x, v) <==> Lookup(t, x) == Some(v)
    decreases t, 0
  {
    var k, vs := t.key, Pre(t.val, p + t.key);
    if k <= x {
      PreLeaves(t.val, p + k, x[|k|..], v);
      assert (p + k) + x[|k|..] == p + x;
    } else {
      PreFrom(t.val, p + k);
      PrefixBehind(p, k, x);
    }
  }

  lemma {:induction false} KidLeaves(t: Tree, p: Bytes, x: Bytes, v: Bytes, i: nat)
    requires Shaped(t) && t.Full? && i < 17
    ensures LeafIn(Pre(t.kids[i], p + [i as Byte]), p + x, v) <==>
      Lookup(t, x) == Some(v) && x != [] && x[0] as int == i
    decreases t, 0
  {
    var k: Bytes := [i as Byte];
    if x != [] && x[0] as int == i {
      PreLeaves(t.kids[i], p + k, x[1..], v);
      assert (p + k) + x[1..] == p + x;
    } else {
      PreFrom(t.kids[i], p + k);
      PrefixBehind(p, k, x);
    }
  }

  lemma PrefixBehind(p: Bytes, k: Bytes, x: Bytes)
    ensures p + k <= p + x ==> k <= x
  {
    if p + k <= p + x {
      forall i | 0 <= i < |k| ensures k[i] == x[i] {
        assert (p + k)[|p| + i] == (p + x)[|p| + i];
      }
    }
  }

  // ----- Starting in the middle

  /** What comes after a path that differs from `key` before its end, and is smaller, does so too. */
  lemma {:induction false} CompareExtended(a: Bytes, key: Bytes, q: Bytes)
    requires Compare(a, key) < 0 && !(a <= key) && a <= q
    ensures Compare(q, key) < 0
  {
    if a[0] == key[0] {
      assert a == [a[0]] + a[1..] && key == [key[0]] + key[1..];
      CompareExtended(a[1..], key[1..], q[1..]);
    }
  }

  /** The visits at or after a path. */
  function AtOrAfter(vs: seq<Visit>, key: Bytes): (r: seq<Visit>) {
    if vs == [] then []
    else if Compare(vs[0].path, key) >= 0 then [vs[0]] + AtOrAfter(vs[1..], key)
    else AtOrAfter(vs[1..], key)
  }

  lemma {:induction false} AtOrAfterAscending(vs: seq<Visit>, key: Bytes)
    requires Ascending(vs)
    ensures Ascending(AtOrAfter(vs, key))
  {
    if vs != [] {
      var rest := vs[1..];
      assert forall i :: 0 <= i < |rest| ==> rest[i] == vs[i + 1];
      AtOrAfterAscending(rest, key);
      var r := AtOrAfter(rest, key);
      forall j | 0 <= j < |r| ensures Compare(vs[0].path, r[j].path) < 0 {
        AtOrAfterIn(rest, key, r[j]);
        var k :| 0 <= k < |rest| && rest[k] == r[j];
      }
      AscendingConcat([vs[0]], r);
    }
  }

  /** Where an iteration starts: the nibbles of a key, without the terminator. */
  function StartPath(start: Bytes): (r: Bytes) {
    HexOf(start)[..2 * |start|]
  }

  /** The keys at or after the start are met, and so are its proper prefixes: the terminator comes
      after all nibbles. */
  lemma {:induction false} StartOrder(key: Bytes, start: Bytes)
    ensures Compare(HexOf(key), StartPath(start)) >= 0 <==> Compare(key, start) >= 0 || (key <= start && key != start)
  {
    if key != [] && start != [] {
      var k, s := HexOf(key), StartPath(start);
      assert k == [key[0] / 16, key[0] % 16] + HexOf(key[1..]);
      assert s == [start[0] / 16, start[0] % 16] + StartPath(start[1..]);
      assert k[1..][1..] == HexOf(key[1..]) && s[1..][1..] == StartPath(start[1..]);
      StartOrder(key[1..], start[1..]);
      assert key == [key[0]] + key[1..] && start == [start[0]] + start[1..];
      assert key <= start <==> key[0] == start[0] && key[1..] <= start[1..];
    } else if start != [] {
      assert StartPath(start)[0] == start[0] / 16;
    }
  }

  lemma {:induction false} AtOrAfterDrops(a: seq<Visit>, b: seq<Visit>, key: Bytes)
    requires forall i :: 0 <= i < |a| ==> Compare(a[i].path, key) < 0
    ensures AtOrAfter(a + b, key) == AtOrAfter(b, key)
  {
    if a == [] {
      assert a + b == b;
    } else {
      assert (a + b)[1..] == a[1..] + b;
      AtOrAfterDrops(a[1..], b, key);
    }
  }

  lemma {:induction false} AtOrAfterAll(vs: seq<Visit>, key: Bytes)
    requires forall i :: 0 <= i < |vs| ==> Compare(vs[i].path, key) >= 0
    ensures AtOrAfter(vs, key) == vs
  {
    if vs != [] {
      AtOrAfterAll(vs[1..], key);
    }
  }

  /** In ascending visits, all that follow one at or after the path are so too. */
  lemma AscendingAfter(vs: seq<Visit>, key: Bytes)
    requires Ascending(vs) && vs != [] && Compare(vs[0].path, key) >= 0
    ensures AtOrAfter(vs, key) == vs
  {
    forall i | 0 <= i < |vs| ensures Compare(vs[i].path, key) >= 0 {
      if i > 0 {
        CompareFlip(vs[0].path, key);
        CompareFlip(vs[i].path, key);
        CompareTrans(key, vs[0].path, vs[i].path);
      }
    }
    AtOrAfterAll(vs, key);
  }

  lemma {:induction false} AtOrAfterIn(vs: seq<Visit>, key: Bytes, v: Visit)
    ensures v in AtOrAfter(vs, key) <==> v in vs && Compare(v.path, key) >= 0
  {
    if vs != [] {
      AtOrAfterIn(vs[1..], key, v);
      assert v in vs <==> v == vs[0] || v in vs[1..];
    }
  }

  /** All visits of a trie: the root, whatever it is, and what is below. */
  function Whole(t: Tree): (r: seq<Visit>) {
    [Visit([], t)] + Under(t, [], 0)
  }

  lemma WholeLeaves(t: Tree, p: Bytes, v: Bytes)
    requires Shaped(t)
    ensures LeafIn(Whole(t), p, v) <==> Lookup(t, p) == Some(v)
  {
    PreLeaves(t, [], p, v);
    assert [] + p == p;
    if t.Nil? {
      assert Whole(t) == [Visit([], t)];
    }
  }

  /** An iteration that starts at a key meets the leaves at or after it, and no others. */
  lemma LeavesFrom(t: Tree, key: Bytes, p: Bytes, v: Bytes)
    requires Shaped(t)
    ensures LeafIn(AtOrAfter(Whole(t), key), p, v) <==> Lookup(t, p) == Some(v) && Compare(p, key) >= 0
  {
    AtOrAfterIn(Whole(t), key, Visit(p, Value(v)));
    WholeLeaves(t, p, v);
  }

  lemma WholeAscending(t: Tree)
    requires Shaped(t)
    ensures Ascending(Whole(t))
  {
    if t.Nil? {
      assert Under(t, [], 0) == [];
    } else {
      PreAscending(t, []);
    }
  }

  // ----- Subtrees are contiguous

  /** Number of nodes below a visited one. */
  function Bulk(v: Visit): (r: nat) {
    |Under(v.node, v.path, 0)|
  }

  /** What is below a node is visited right after it. */
  ghost predicate Nested(vs: seq<Visit>) {
    forall i :: 0 <= i < |vs| ==>
      i + 1 + Bulk(vs[i]) <= |vs| && vs[i + 1..i + 1 + Bulk(vs[i])] == Under(vs[i].node, vs[i].path, 0)
  }

  lemma NestedConcat(a: seq<Visit>, b: seq<Visit>)
    requires Nested(a) && Nested(b)
    ensures Nested(a + b)
  {
    var vs := a + b;
    forall i | 0 <= i < |vs|
      ensures i + 1 + Bulk(vs[i]) <= |vs| && vs[i + 1..i + 1 + Bulk(vs[i])] == Under(vs[i].node, vs[i].path, 0)
    {
      if i < |a| {
        assert vs[i + 1..i + 1 + Bulk(a[i])] == a[i + 1..i + 1 + Bulk(a[i])];
      } else {
        var j := i - |a|;
        assert vs[i + 1..i + 1 + Bulk(b[j])] == b[j + 1..j + 1 + Bulk(b[j])];
      }
    }
  }

  lemma NestedCons(v: Visit)
    requires Nested(Under(v.node, v.path, 0))
    ensures Nested([v] + Under(v.node, v.path, 0))
  {
    var u := Under(v.node, v.path, 0);
    var vs := [v] + u;
    forall i | 0 <= i < |vs|
      ensures i + 1 + Bulk(vs[i]) <= |vs| && vs[i + 1..i + 1 + Bulk(vs[i])] == Under(vs[i].node, vs[i].path, 0)
    {
      if i > 0 {
        assert vs[i + 1..i + 1 + Bulk(u[i - 1])] == u[i..i + Bulk(u[i - 1])];
      }
    }
  }

  lemma NestedTail(vs: seq<Visit>, n: nat)
    requires Nested(vs) && n <= |vs|
    ensures Nested(vs[n..])
  {
  }

  lemma {:induction false} PreNested(t: Tree, p: Bytes)
    ensures Nested(Pre(t, p))
    decreases t, 18
  {
    if !t.Nil? {
      UnderNested(t, p, 0);
      NestedCons(Visit(p, t));
    }
  }

  lemma {:induction false} UnderNested(t: Tree, p: Bytes, i: nat)
    ensures Nested(Under(t, p, i))
    decreases t, if i <= 17 then 17 - i else 0
  {
    match t
    case Short(k, val) =>
      if i == 0 { PreNested(val, p + k); }
    case Full(kids) =>
      if i < |kids| && i < 17 {
        PreNested(kids[i], p + [i as Byte]);
        UnderNested(t, p, i + 1);
        NestedConcat(Pre(kids[i], p + [i as Byte]), Under(t, p, i + 1));
      }
    case _ =>
  }
}
