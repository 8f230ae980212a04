/** Pre-order iteration over the nodes of a trie (trie/iterator.go). */
module Iterator {

  import opened Common
  import opened Hex
  import opened TrieTree
  import opened Walk

  /** A node being iterated: the child to be visited next (one more than the program's `index`), and
      how long the path to its parent is. */
  datatype State = State(node: Tree, next: nat, pathlen: nat)

  datatype Stack = Bottom | On(top: State, below: Stack)

  ghost predicate Placed(st: Stack, path: Bytes) {
    match st
    case Bottom => path == []
    case On(s, below) => Shaped(s.node) && s.pathlen <= |path| && Placed(below, path[..s.pathlen])
  }

  /** The visits still to come, from the top of the stack down. */
  function Rest(st: Stack, path: Bytes): (r: seq<Visit>) {
    match st
    case Bottom => []
    case On(s, below) =>
      Under(s.node, path, s.next) + Rest(below, if s.pathlen <= |path| then path[..s.pathlen] else path)
  }

  class NodeIterator {
    const root: Tree
    var stack: Stack
    var path: Bytes
    var ended: bool

    ghost predicate Valid()
      reads this
    {
      Shaped(root) && Placed(stack, path) && (ended ==> stack.Bottom?)
    }

    /** The visits still to come, and those left if the children of the current node are skipped. */
    function Left(): (r: seq<Visit>)
      reads this
    {
      if ended then [] else if stack.Bottom? then Whole(root) else Rest(stack, path)
    }

    function Beyond(): (r: seq<Visit>)
      reads this
    {
      if ended then [] else if stack.Bottom? then Whole(root)
      else Rest(stack.below, if stack.top.pathlen <= |path| then path[..stack.top.pathlen] else path)
    }

    function Current(): (r: Visit)
      requires stack.On?
      reads this
    {
      Visit(path, stack.top.node)
    }

    constructor (t: Tree)
      requires Shaped(t)
      ensures Valid() && root == t && Left() == Whole(root) && !ended && stack.Bottom?
    {
      root, stack, path, ended := t, Bottom, [], false;
    }

    /** Moves the top of the stack in front of its next child. */
    method NextChild() returns (found: bool, child: Tree, p: Bytes)
      requires stack.On?
      requires Valid()
      modifies this`stack
      ensures stack.On? && stack.below == old(stack.below) && stack.top == old(stack.top).(next := stack.top.next)
      ensures Under(stack.top.node, path, stack.top.next) == old(Under(stack.top.node, path, stack.top.next))
      ensures found <==> Under(stack.top.node, path, stack.top.next) != []
      ensures found ==> Leads(stack.top, path, child, p)
      ensures Valid()
    {
      var s := stack.top;
      found, child, p := false, Nil, path;
      match s.node {
        case Full(kids) =>
          var i := s.next;
          while i < |kids|
            invariant s.next <= i
            invariant Under(s.node, path, i) == Under(s.node, path, s.next)
          {
            if !kids[i].Nil? {
              stack := On(s.(next := i), stack.below);
              found, child, p := true, kids[i], path + [i as Byte];
              return;
            }
            i := i + 1;
          }
        case Short(k, val) =>
          if s.next == 0 {
            found, child, p := true, val, path + k;
          }
        case _ =>
      }
    }

    method Pop()
      requires stack.On?
      requires Valid()
      modifies this`stack, this`path
      ensures stack == old(stack.below) && path == old(path)[..old(stack.top.pathlen)]
      ensures Placed(stack, path)
    {
      path, stack := path[..stack.top.pathlen], stack.below;
    }

    /** Looks for the next node, leaving the stack in front of it. */
    method Peek(descend: bool) returns (found: bool, child: Tree, p: Bytes)
      requires !ended
      requires Valid()
      modifies this`stack, this`path
      ensures found <==> old(if descend then Left() else Beyond()) != []
      ensures found ==> Valid() && Left() == old(if descend then Left() else Beyond()) && Ahead(child, p)
      ensures !found ==> stack.Bottom? && Placed(stack, path)
      ensures old(stack.Bottom?) <==> found && stack.Bottom?
      ensures path <= old(path)
    {
      hide Under, Leads;
      if stack.Bottom? {
        return true, root, [];
      }
      if !descend {
        Pop();
      }
      ghost var left := Rest(stack, path);
      while stack.On?
        invariant Shaped(root) && Placed(stack, path)
        invariant Rest(stack, path) == left && path <= old(path)
        decreases stack
      {
        ghost var top := stack.top;
        ghost var below := stack.below;
        found, child, p := NextChild();
        if found {
          LeadsOn(stack.top, stack.below, path, child, p);
          return;
        }
        Pop();
      }
      return false, Nil, [];
    }

    /** The next visit is `child` at `p`. */
    ghost predicate Ahead(child: Tree, p: Bytes)
      reads this
    {
      && Left() != [] && Left()[0] == Visit(p, child)
      && (stack.Bottom? ==> child == root && p == [])
      && (stack.On? ==> Leads(stack.top, path, child, p))
    }

    method Push(child: Tree, p: Bytes)
      requires !ended && Ahead(child, p)
      requires Valid()
      modifies this`stack, this`path
      ensures stack.On? && Current() == Visit(p, child) && stack.top.next == 0
      ensures Left() == old(Left())[1..]
      ensures Valid()
    {
      hide Under, Leads;
      if stack.Bottom? {
        stack := On(State(child, 0, 0), Bottom);
        path := [];
        assert Rest(stack, path) == Under(root, [], 0) + [];
      } else {
        LeadsOn(stack.top, stack.below, path, child, p);
        var s := stack.top;
        stack, path := On(State(child, 0, |path|), On(s.(next := s.next + 1), stack.below)), p;
      }
    }

    /** Moves to the next node, past the children of the current one if `descend` is false. */
    method Next(descend: bool) returns (ok: bool)
      requires Valid()
      modifies this
      ensures ok <==> old(if descend then Left() else Beyond()) != []
      ensures ok ==> !ended && stack.On? && stack.top.next == 0
      ensures ok ==> [Current()] + Left() == old(if descend then Left() else Beyond())
      ensures !ok ==> ended && Left() == []
      ensures Valid()
    {
      hide Under, Leads;
      if ended {
        return false;
      }
      var child, p;
      ok, child, p := Peek(descend);
      if ok {
        Push(child, p);
      } else {
        ended := true;
      }
    }

    /** What `Next` skips when the current path is behind `key` for good is all behind `key`. */
    lemma SkipKeeps(key: Bytes)
      requires !ended && Valid() && stack.On? && Ascending(Left())
      requires Compare(path, key) < 0 && !(path <= key)
      ensures Ascending(Beyond()) && AtOrAfter(Beyond(), key) == AtOrAfter(Left(), key)
    {
      var skipped := Under(stack.top.node, path, stack.top.next);
      assert Left() == skipped + Beyond();
      UnderBetween(stack.top.node, path, stack.top.next);
      forall i | 0 <= i < |skipped| ensures Compare(skipped[i].path, key) < 0 {
        CompareExtended(path, key, skipped[i].path);
      }
      AscendingTail(skipped, Beyond());
      AtOrAfterDrops(skipped, Beyond(), key);
    }

    /** Moves in front of the first node at or after the given key. */
    method Seek(start: Bytes)
      requires !ended && stack.Bottom?
      requires Valid()
      modifies this
      ensures Left() == AtOrAfter(Whole(root), StartPath(start))
      ensures Valid()
    {
      hide Under, Leads, Placed, Ascending, AtOrAfter, Compare, Whole;
      var hex := KeybytesToHex(start);
      var key := hex[..|hex| - 1];
      WholeAscending(root);
      while true
        invariant !ended && Valid() && Ascending(Left())
        invariant AtOrAfter(Left(), key) == AtOrAfter(Whole(root), key)
        invariant stack.On? ==> Compare(path, key) < 0
        decreases |Left()|
      {
        if stack.On? && !(path <= key) {
          SkipKeeps(key);
        }
        var found, child, p := Peek(path <= key);
        if !found {
          ended := true;
          NoneAfter(key);
          return;
        }
        if Compare(p, key) >= 0 {
          AscendingAfter(Left(), key);
          return;
        }
        HeadDrops(Left(), key);
        Push(child, p);
      }
    }
  }

  /** A whole run: the nodes visited. */
  method Collect(it: NodeIterator) returns (r: seq<Visit>)
    requires it.Valid()
    modifies it
    ensures r == old(it.Left())
  {
    hide NodeIterator.Valid, NodeIterator.Left, NodeIterator.Beyond;
    r := [];
    ghost var all := it.Left();
    var more := true;
    while more
      invariant it.Valid()
      invariant if more then r + it.Left() == all else r == all
      decreases more, if more then |it.Left()| else 0
    {
      ghost var left := it.Left();
      more := it.Next(true);
      if more {
        r := r + [it.Current()];
      }
    }
  }

  /** An iteration that starts at a key meets the leaves whose path is at or after it, each once and
      in order. */
  method IterateFrom(t: Tree, start: Bytes) returns (r: seq<Visit>)
    requires Shaped(t)
    ensures Ascending(r)
    ensures forall p, v :: LeafIn(r, p, v) <==> Lookup(t, p) == Some(v) && Compare(p, StartPath(start)) >= 0
    ensures forall key, v :: LeafIn(r, HexOf(key), v) <==> Lookup(t, HexOf(key)) == Some(v) && Met(key, start)
  {
    hide Under, Ascending, AtOrAfter, Compare, Whole, Shaped, LeafIn;
    var it := new NodeIterator(t);
    it.Seek(start);
    r := Collect(it);
    WholeAscending(t);
    AtOrAfterAscending(Whole(t), StartPath(start));
    forall p, v ensures LeafIn(r, p, v) <==> Lookup(t, p) == Some(v) && Compare(p, StartPath(start)) >= 0 {
      LeavesFrom(t, StartPath(start), p, v);
    }
    forall key, v ensures LeafIn(r, HexOf(key), v) <==> Lookup(t, HexOf(key)) == Some(v) && Met(key, start) {
      StartOrder(key, start);
    }
  }

  /** The keys that an iteration from `start` meets: those not below it, and its proper prefixes. */
  predicate Met(key: Bytes, start: Bytes) {
    Compare(key, start) >= 0 || (key <= start && key != start)
  }

  /** With the key "a" in a trie, an iteration from "ab" meets it, although it is below. */
  method PrefixIsMet(v: Bytes) returns (r: seq<Visit>)
    requires v != []
    ensures LeafIn(r, HexOf([97]), v) && Compare([97], [97, 98]) < 0
  {
    HexOfIsKey([97]);
    var t := Update(Nil, HexOf([97]), v);
    assert t == Short(HexOf([97]), Value(v));
    LeafLookup(HexOf([97]), v, HexOf([97]));
    assert [97] <= [97, 98] && Met([97], [97, 98]);
    r := IterateFrom(t, [97, 98]);
  }

  lemma AscendingTail(a: seq<Visit>, b: seq<Visit>)
    requires Ascending(a + b)
    ensures Ascending(b)
  {
    var vs := a + b;
    forall i, j | 0 <= i < j < |b| ensures Compare(b[i].path, b[j].path) < 0 {
      assert vs[|a| + i] == b[i] && vs[|a| + j] == b[j];
    }
  }

  lemma NoneAfter(key: Bytes)
    ensures AtOrAfter([], key) == []
  {
  }

  lemma HeadDrops(vs: seq<Visit>, key: Bytes)
    requires vs != [] && Compare(vs[0].path, key) < 0 && Ascending(vs)
    ensures AtOrAfter(vs, key) == AtOrAfter(vs[1..], key) && Ascending(vs[1..])
  {
  }

  lemma LeadsOn(s: State, below: Stack, path: Bytes, child: Tree, p: Bytes)
    requires Leads(s, path, child, p) && Placed(On(s, below), path)
    ensures Rest(On(s, below), path) ==
      [Visit(p, child)] + Rest(On(State(child, 0, |path|), On(s.(next := s.next + 1), below)), p)
    ensures Placed(On(State(child, 0, |path|), On(s.(next := s.next + 1), below)), p)
  {
    assert p[..|path|] == path;
    var a, b := [Visit(p, child)], Under(child, p, 0);
    var c, d := Under(s.node, path, s.next + 1), Rest(below, path[..s.pathlen]);
    assert (a + b + c) + d == a + (b + (c + d));
    assert Rest(On(s.(next := s.next + 1), below), path) == c + d;
  }

  /** The next child of `s` is `child`, at path `p`. */
  ghost predicate Leads(s: State, path: Bytes, child: Tree, p: Bytes) {
    && Shaped(child) && path <= p
    && Under(s.node, path, s.next) == [Visit(p, child)] + Under(child, p, 0) + Under(s.node, path, s.next + 1)
  }
}
