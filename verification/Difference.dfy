/** Iteration over what one trie has and another lacks (trie/iterator.go). */
module Difference {

  import opened Common
  import opened Hex
  import opened TrieTree
  import opened Walk
  import opened Iterator

  /** The hash of a visited node, or the zero hash if it has none of its own. */
  type VisitHash = Visit -> Bytes

  /** The order of two visits: by path, by hash, and by value. Whether a node is a leaf shows in
      its path. */
  function CompareNodes(hash: VisitHash, u: Visit, v: Visit): (r: int) {
    if Compare(u.path, v.path) != 0 then Compare(u.path, v.path)
    else if Compare(hash(u), hash(v)) != 0 then Compare(hash(u), hash(v))
    else if HasTerm(u.path) && u.node.Value? && v.node.Value? then Compare(u.node.v, v.node.v)
    else 0
  }

  /** Leaves are the visits whose path is terminated. */
  ghost predicate LeafByPath(vs: seq<Visit>) {
    forall i :: 0 <= i < |vs| ==> (HasTerm(vs[i].path) <==> vs[i].node.Value?)
  }

  /** Nodes at the same path with the same hash are the same. */
  ghost predicate Faithful(hash: VisitHash, zero: Bytes, a: seq<Visit>, b: seq<Visit>) {
    forall i, j :: 0 <= i < |a| && 0 <= j < |b| && a[i].path == b[j].path && hash(a[i]) == hash(b[j]) ==>
      hash(a[i]) == zero || a[i].node == b[j].node
  }

  /** Visits after the first one and what is below it. */
  function Skip(vs: seq<Visit>): (r: seq<Visit>)
    ensures vs != [] ==> |r| < |vs|
  {
    if vs != [] && 1 + Bulk(vs[0]) <= |vs| then vs[1 + Bulk(vs[0])..] else []
  }

  /** The visits of `b` at which the difference iteration stops, given that `a` and `b` start with
      the current nodes. */
  function Diff(hash: VisitHash, zero: Bytes, a: seq<Visit>, b: seq<Visit>): (r: seq<Visit>)
    decreases |a| + |b|
  {
    if a == [] || b == [] then b
    else
      var c := CompareNodes(hash, a[0], b[0]);
      if c < 0 then Diff(hash, zero, a[1..], b)
      else if c > 0 then [b[0]] + Diff(hash, zero, a, b[1..])
      else if hash(a[0]) == zero then Diff(hash, zero, a[1..], b[1..])
      else Diff(hash, zero, Skip(a), Skip(b))
  }

  /** Two lists of visits as two iterators produce them. */
  ghost predicate Ready(hash: VisitHash, zero: Bytes, a: seq<Visit>, b: seq<Visit>) {
    && Ascending(a) && Ascending(b)
    && LeafByPath(a) && LeafByPath(b)
    && Nested(a) && Nested(b)
    && Faithful(hash, zero, a, b)
  }

  lemma ReadyTail(hash: VisitHash, zero: Bytes, a: seq<Visit>, b: seq<Visit>, m: nat, n: nat)
    requires Ready(hash, zero, a, b) && m <= |a| && n <= |b|
    ensures Ready(hash, zero, a[m..], b[n..])
  {
    NestedTail(a, m);
    NestedTail(b, n);
    hide Nested;
    assert forall i :: 0 <= i < |a[m..]| ==> a[m..][i] == a[m + i];
    assert forall i :: 0 <= i < |b[n..]| ==> b[n..][i] == b[n + i];
  }

  /** In ascending visits, the first path is not seen again. */
  lemma FirstIsLeast(vs: seq<Visit>, u: Visit)
    requires Ascending(vs) && vs != [] && u in vs
    ensures u == vs[0] || Compare(vs[0].path, u.path) < 0
    ensures u == vs[0] || u in vs[1..]
    ensures u.path == vs[0].path ==> u == vs[0]
  {
    var i :| 0 <= i < |vs| && vs[i] == u;
    CompareEqual(vs[0].path, u.path);
    if i > 0 {
      assert vs[1..][i - 1] == u;
    }
  }

  lemma NotAmongRest(vs: seq<Visit>)
    requires Ascending(vs) && vs != []
    ensures vs[0] !in vs[1..]
  {
    forall i | 0 <= i < |vs[1..]| ensures vs[1..][i] != vs[0] {
      assert vs[1..][i] == vs[i + 1];
      CompareEqual(vs[0].path, vs[i + 1].path);
    }
  }

  lemma SameIsZero(hash: VisitHash, u: Visit)
    ensures CompareNodes(hash, u, u) == 0
  {
    CompareEqual(u.path, u.path);
    CompareEqual(hash(u), hash(u));
    if u.node.Value? {
      CompareEqual(u.node.v, u.node.v);
    }
  }

  /** When the node of `a` comes first, it is none of those of `b`. */
  lemma StepLess(hash: VisitHash, a: seq<Visit>, b: seq<Visit>)
    requires Ascending(b) && a != [] && b != [] && CompareNodes(hash, a[0], b[0]) < 0
    ensures a[0] !in b
  {
    forall i | 0 <= i < |b| ensures b[i] != a[0] {
      SameIsZero(hash, b[0]);
      CompareFlip(a[0].path, b[0].path);
      assert i > 0 ==> Compare(b[0].path, b[i].path) < 0;
    }
  }

  lemma StepMore(hash: VisitHash, a: seq<Visit>, b: seq<Visit>)
    requires Ascending(a) && a != [] && b != [] && CompareNodes(hash, a[0], b[0]) > 0
    ensures b[0] !in a
  {
    forall i | 0 <= i < |a| ensures a[i] != b[0] {
      SameIsZero(hash, a[0]);
      assert i > 0 ==> Compare(a[0].path, a[i].path) < 0;
    }
  }

  /** Leaves that compare equal are equal. */
  lemma StepSame(hash: VisitHash, u: Visit, v: Visit)
    requires CompareNodes(hash, u, v) == 0
    ensures u.path == v.path && hash(u) == hash(v)
    ensures HasTerm(u.path) && u.node.Value? && v.node.Value? ==> u == v
  {
    CompareEqual(u.path, v.path);
    CompareEqual(hash(u), hash(v));
    if u.node.Value? && v.node.Value? {
      CompareEqual(u.node.v, v.node.v);
    }
  }

  lemma InTail(vs: seq<Visit>, u: Visit)
    requires vs != []
    ensures u in vs <==> u == vs[0] || u in vs[1..]
  {
  }

  function Block(v: Visit): (r: seq<Visit>) {
    [v] + Under(v.node, v.path, 0)
  }

  lemma SkipSplit(vs: seq<Visit>)
    requires Nested(vs) && vs != []
    ensures vs == Block(vs[0]) + Skip(vs)
  {
    var n := 1 + Bulk(vs[0]);
    assert vs == vs[..n] + vs[n..];
    assert vs[..n] == [vs[0]] + vs[1..n];
  }

  /** Where two nodes are the same, so are the nodes below, and the rest decides. */
  lemma SkipSame(a: seq<Visit>, b: seq<Visit>, u: Visit)
    requires Ascending(b) && Nested(a) && Nested(b) && a != [] && b != [] && a[0] == b[0]
    ensures u in Skip(b) ==> u in b && (u in a <==> u in Skip(a))
    ensures u in b && u !in Skip(b) ==> u in a
  {
    SkipSplit(a);
    SkipSplit(b);
    hide Nested, Ascending, Block, Skip;
    var x, ra, rb := Block(a[0]), Skip(a), Skip(b);
    assert u in a <==> u in x || u in ra;
    assert u in b <==> u in x || u in rb;
    if u in rb {
      Separate(x, rb, u);
    }
  }

  lemma Separate(y: seq<Visit>, z: seq<Visit>, u: Visit)
    requires Ascending(y + z) && u in z
    ensures u !in y
  {
    var vs := y + z;
    var j :| 0 <= j < |z| && z[j] == u;
    forall i | 0 <= i < |y| ensures y[i] != u {
      assert vs[i] == y[i] && vs[|y| + j] == u;
      CompareEqual(y[i].path, u.path);
    }
  }

  /** A leaf is met by the difference iteration exactly if `b` has it and `a` does not. */
  lemma {:induction false} DiffLeaves(hash: VisitHash, zero: Bytes, a: seq<Visit>, b: seq<Visit>, u: Visit)
    requires Ready(hash, zero, a, b) && u.node.Value?
    ensures u in Diff(hash, zero, a, b) <==> u in b && u !in a
    decreases |a| + |b|, 1
  {
    if a != [] && b != [] {
      InTail(a, u);
      InTail(b, u);
      var c := CompareNodes(hash, a[0], b[0]);
      if c < 0 {
        assert b[0..] == b;
        ReadyTail(hash, zero, a, b, 1, 0);
        StepLess(hash, a, b);
        DiffLeaves(hash, zero, a[1..], b, u);
      } else if c > 0 {
        assert a[0..] == a;
        ReadyTail(hash, zero, a, b, 0, 1);
        StepMore(hash, a, b);
        DiffLeaves(hash, zero, a, b[1..], u);
      } else {
        StepSame(hash, a[0], b[0]);
        DiffSame(hash, zero, a, b, u);
      }
    }
  }

  lemma {:induction false} DiffSame(hash: VisitHash, zero: Bytes, a: seq<Visit>, b: seq<Visit>, u: Visit)
    requires Ready(hash, zero, a, b) && u.node.Value? && a != [] && b != []
    requires CompareNodes(hash, a[0], b[0]) == 0 && a[0].path == b[0].path && hash(a[0]) == hash(b[0])
    requires HasTerm(a[0].path) && a[0].node.Value? && b[0].node.Value? ==> a[0] == b[0]
    ensures u in Diff(hash, zero, a, b) <==> u in b && u !in a
    decreases |a| + |b|, 0
  {
    if hash(a[0]) == zero {
      ReadyTail(hash, zero, a, b, 1, 1);
      DiffLeaves(hash, zero, a[1..], b[1..], u);
      NotAmongRest(b);
      InTail(a, u);
      InTail(b, u);
      if u in b[1..] {
        FirstIsLeast(b, u);
        CompareEqual(b[0].path, u.path);
      }
    } else {
      assert a[0] == b[0];
      var m, n := 1 + Bulk(a[0]), 1 + Bulk(b[0]);
      ReadyTail(hash, zero, a, b, m, n);
      SkipSame(a, b, u);
      DiffLeaves(hash, zero, Skip(a), Skip(b), u);
    }
  }

  lemma {:induction false} DiffWithin(hash: VisitHash, zero: Bytes, a: seq<Visit>, b: seq<Visit>, u: Visit)
    requires u in Diff(hash, zero, a, b)
    ensures u in b
    decreases |a| + |b|
  {
    if a != [] && b != [] {
      var c := CompareNodes(hash, a[0], b[0]);
      if c < 0 {
        DiffWithin(hash, zero, a[1..], b, u);
      } else if c > 0 {
        if u != b[0] { DiffWithin(hash, zero, a, b[1..], u); }
      } else if hash(a[0]) == zero {
        DiffWithin(hash, zero, a[1..], b[1..], u);
      } else {
        DiffWithin(hash, zero, Skip(a), Skip(b), u);
      }
    }
  }

  /** The iteration goes by strictly increasing paths, so that nothing is met twice. */
  lemma {:induction false} DiffAscending(hash: VisitHash, zero: Bytes, a: seq<Visit>, b: seq<Visit>)
    requires Ascending(b)
    ensures Ascending(Diff(hash, zero, a, b))
    decreases |a| + |b|
  {
    if a != [] && b != [] {
      var c := CompareNodes(hash, a[0], b[0]);
      if c < 0 {
        DiffAscending(hash, zero, a[1..], b);
      } else if c > 0 {
        DiffAscending(hash, zero, a, b[1..]);
        var rest := Diff(hash, zero, a, b[1..]);
        forall j | 0 <= j < |rest| ensures Compare(b[0].path, rest[j].path) < 0 {
          DiffWithin(hash, zero, a, b[1..], rest[j]);
          var k :| 0 <= k < |b[1..]| && b[1..][k] == rest[j];
          assert b[k + 1] == rest[j];
        }
        AscendingConcat([b[0]], rest);
      } else if hash(a[0]) == zero {
        DiffAscending(hash, zero, a[1..], b[1..]);
      } else {
        DiffAscending(hash, zero, Skip(a), Skip(b));
      }
    }
  }

  // ----- The iterator

  /** What an iterator without a node stands for. */
  const NOTHING := Visit([], Nil)

  /** Walks `b`, stopping at nodes that `a` lacks. */
  class DifferenceIterator {
    const a: NodeIterator
    const b: NodeIterator
    const hash: VisitHash
    const zero: Bytes
    var eof: bool
    var count: nat

    ghost predicate Valid()
      reads this, a, b
    {
      && a != b && a.Valid() && b.Valid()
      && (!eof ==> if a.ended then hash(NOTHING) == zero else a.stack.On? && a.stack.top.next == 0)
    }

    /** Where `a` is: at a node, or, if it had nothing left to begin with, at an empty path. */
    function Here(): (r: Visit)
      reads a
    {
      if a.stack.On? then a.Current() else NOTHING
    }

    /** The visits of `a` from the current one on, and those of `b` still to come. */
    ghost function Old(): (r: seq<Visit>)
      requires Valid()
      reads this, a, b
    {
      if eof then [] else [Here()] + a.Left()
    }

    /** The stops still to come. */
    ghost function Stops(): (r: seq<Visit>)
      requires Valid()
      reads this, a, b
    {
      Diff(hash, zero, Old(), b.Left())
    }

    constructor (first: NodeIterator, second: NodeIterator, h: VisitHash, none: Bytes)
      requires first != second && first.Valid() && second.Valid()
      requires first.Left() == [] ==> h(NOTHING) == none
      modifies first
      ensures a == first && b == second && hash == h && zero == none
      ensures Valid() && Old() == (if old(first.Left()) == [] then [NOTHING] else old(first.Left()))
      ensures b.Left() == old(second.Left())
    {
      a, b, hash, zero, eof, count := first, second, h, none, false, 0;
      new;
      var ok := a.Next(true);
    }

    /** The visits of `b` from the current one on. */
    ghost function Now(): (r: seq<Visit>)
      requires b.stack.On?
      reads b
    {
      [b.Current()] + b.Left()
    }

    ghost predicate Placed()
      reads this, a, b
    {
      Valid() && !b.ended && b.stack.On? && b.stack.top.next == 0
    }

    lemma EndedHere()
      requires !eof && Valid() && a.ended
      ensures a.Left() == [] && a.Beyond() == [] && Old() == [NOTHING] && Skip(Old()) == []
    {
    }

    /** Moves `a` on; at its end only `b` is left. */
    method AdvanceOld(descend: bool)
      requires !eof && Valid()
      modifies this`eof, this`count, a
      ensures Valid() && |Old()| < old(|Old()|)
      ensures Old() == if descend then old(Old())[1..] else Skip(old(Old()))
    {
      hide Under, Skip, NodeIterator.Valid, NodeIterator.Left, NodeIterator.Beyond;
      if a.ended {
        EndedHere();
      } else {
        SkipIsBeyond(a);
      }
      var ok := a.Next(descend);
      if ok {
        count := count + 1;
      } else {
        eof := true;
      }
    }

    /** Moves `b` on. */
    method AdvanceNew(descend: bool) returns (ok: bool)
      requires Placed()
      modifies this`count, b
      ensures Valid() && Old() == old(Old())
      ensures ok <==> (if descend then old(Now())[1..] else Skip(old(Now()))) != []
      ensures ok ==>
        Placed() && Now() == (if descend then old(Now())[1..] else Skip(old(Now()))) && |Now()| < old(|Now()|)
      ensures !ok ==> b.Left() == []
    {
      hide Under, Skip, NodeIterator.Valid, NodeIterator.Left, NodeIterator.Beyond;
      SkipIsBeyond(b);
      ok := b.Next(descend);
      if ok {
        count := count + 1;
      }
    }

    /** Moves on to the next node of `b` that `a` lacks. */
    method Next() returns (ok: bool)
      requires Valid()
      modifies this, a, b
      ensures Valid()
      ensures ok <==> old(Stops()) != []
      ensures ok ==> b.stack.On? && [b.Current()] + Stops() == old(Stops())
      ensures !ok ==> b.Left() == []
    {
      hide Under, Skip, Diff, CompareNodes, NodeIterator.Valid, NodeIterator.Left;
      ghost var stops := Stops();
      DiffEnds(hash, zero, Old(), b.Left());
      ok := b.Next(true);
      if !ok {
        return;
      }
      count := count + 1;
      while true
        invariant Placed() && Diff(hash, zero, Old(), Now()) == stops
        decreases |Old()| + |Now()|
      {
        DiffEnds(hash, zero, Old(), Now());
        if eof {
          DiffEnds(hash, zero, Old(), b.Left());
          return true;
        }
        DiffStep(hash, zero, Old(), Now());
        var c := CompareNodes(hash, Here(), b.Current());
        if c < 0 {
          AdvanceOld(true);
        } else if c > 0 {
          return true;
        } else {
          var descend := hash(Here()) == zero;
          ok := AdvanceNew(descend);
          if !ok {
            return false;
          }
          AdvanceOld(descend);
        }
      }
    }
  }

  lemma SkipIsBeyond(it: NodeIterator)
    requires it.Valid() && !it.ended && it.stack.On? && it.stack.top.next == 0
    ensures Skip([it.Current()] + it.Left()) == it.Beyond()
    ensures ([it.Current()] + it.Left())[1..] == it.Left()
    ensures |it.Beyond()| <= |it.Left()|
  {
    hide Under;
    var vs := [it.Current()] + it.Left();
    assert it.Left() == Under(it.stack.top.node, it.path, 0) + it.Beyond();
    assert vs[1 + Bulk(vs[0])..] == it.Beyond();
  }

  lemma DiffEnds(hash: VisitHash, zero: Bytes, a: seq<Visit>, b: seq<Visit>)
    ensures a == [] || b == [] ==> Diff(hash, zero, a, b) == b
  {
  }

  lemma DiffStep(hash: VisitHash, zero: Bytes, a: seq<Visit>, b: seq<Visit>)
    requires a != [] && b != []
    ensures var c := CompareNodes(hash, a[0], b[0]);
      && (c < 0 ==> Diff(hash, zero, a, b) == Diff(hash, zero, a[1..], b))
      && (c > 0 ==> Diff(hash, zero, a, b) == [b[0]] + Diff(hash, zero, a, b[1..]))
      && (c == 0 && hash(a[0]) == zero ==> Diff(hash, zero, a, b) == Diff(hash, zero, a[1..], b[1..]))
      && (c == 0 && hash(a[0]) != zero ==> Diff(hash, zero, a, b) == Diff(hash, zero, Skip(a), Skip(b)))
      && (c == 0 && Skip(b) == [] && hash(a[0]) != zero ==> Diff(hash, zero, a, b) == [])
      && (c == 0 && b[1..] == [] && hash(a[0]) == zero ==> Diff(hash, zero, a, b) == [])
  {
  }

  /** A whole run: the nodes stopped at. */
  method Drain(it: DifferenceIterator) returns (r: seq<Visit>)
    requires it.Valid()
    modifies it, it.a, it.b
    ensures r == old(it.Stops())
  {
    hide Diff, NodeIterator.Valid, NodeIterator.Left;
    r := [];
    ghost var stops := it.Stops();
    var more := true;
    while more
      invariant it.Valid()
      invariant more ==> r + it.Stops() == stops
      invariant !more ==> r == stops
      decreases more, if more then |it.Stops()| else 0
    {
      ghost var left := it.Stops();
      more := it.Next();
      if more {
        r := r + [it.b.Current()];
      }
    }
  }
}
