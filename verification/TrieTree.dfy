/** The content of a Merkle Patricia trie, with cache flags and hash references stripped
    away: what a tree represents, how an update or a deletion reshapes it, and why its shape
    is determined by the mapping it represents. */
module TrieTree {
  import opened Common
  import opened Hex

  datatype Tree = Nil | Value(v: Bytes) | Short(key: Bytes, val: Tree) | Full(kids: seq<Tree>)

  /** The value stored at a path. */
  function Lookup(t: Tree, key: Bytes): (r: Option<Bytes>) {
    match t
    case Nil => None
    case Value(v) => if key == [] then Some(v) else None
    case Short(k, val) => if k <= key then Lookup(val, key[|k|..]) else None
    case Full(kids) => if key != [] && key[0] as int < |kids| then Lookup(kids[key[0]], key[1..]) else None
  }

  ghost predicate AtLeastTwo(kids: seq<Tree>) {
    exists i, j :: 0 <= i < j < |kids| && !kids[i].Nil? && !kids[j].Nil?
  }

  /** What may sit in slot 16 of a branch, or below a complete key. */
  predicate Leafy(t: Tree) {
    t.Nil? || (t.Value? && t.v != [])
  }

  /** Normal form of an inner node: a branch has two children or more, a short node never
      points to another short node, complete keys end in a value and only they do. */
  ghost predicate Canon(t: Tree) {
    match t
    case Short(k, val) =>
      if HasTerm(k) then HexKey(k) && val.Value? && val.v != []
      else k != [] && Nibbles(k) && val.Full? && Canon(val)
    case Full(kids) =>
      && |kids| == 17
      && AtLeastTwo(kids)
      && Leafy(kids[16])
      && forall i :: 0 <= i < 16 ==> kids[i].Nil? || Canon(kids[i])
    case _ => false
  }

  /** Normal form of a whole trie. */
  ghost predicate WellFormed(t: Tree) {
    t.Nil? || Canon(t)
  }

  /** `key` is what is left to walk at `t`: nothing at a value slot, a complete key above. */
  ghost predicate Fit(t: Tree, key: Bytes) {
    (key == [] && Leafy(t)) || (HexKey(key) && WellFormed(t))
  }

  function Attach(key: Bytes, t: Tree): (r: Tree) {
    if key == [] then t else Short(key, t)
  }

  function NoKids(n: nat): (r: seq<Tree>)
    ensures |r| == n && forall i :: 0 <= i < n ==> r[i] == Nil
  {
    if n == 0 then [] else NoKids(n - 1) + [Nil]
  }

  /** A branch holding two subtrees below different nibbles. */
  function Branch(i: Byte, a: Tree, j: Byte, b: Tree): (r: Tree)
    requires i < 17 && j < 17
  {
    Full(NoKids(17)[i := a][j := b])
  }

  function Update(t: Tree, key: Bytes, v: Bytes): (r: Tree)
    requires Fit(t, key)
  {
    if key == [] then Value(v) else
      match t
      case Nil => Short(key, Value(v))
      case Short(k, val) =>
        var m := CommonPrefix(key, k);
        StepShort(k, val, key, m);
        if m == |k| then Short(k, Update(val, key[m..], v))
        else
          var branch := Branch(k[m], Attach(k[m + 1..], val), key[m], Attach(key[m + 1..], Value(v)));
          Attach(key[..m], branch)
      case Full(kids) =>
        StepFull(kids, key);
        Full(kids[key[0] := Update(kids[key[0]], key[1..], v)])
  }

  /** Position of the only child, -1 when there is none and -2 when there are several. */
  function OnlyChild(kids: seq<Tree>): (pos: int)
    ensures -2 <= pos < |kids|
    ensures pos >= 0 ==> !kids[pos].Nil? && forall i :: 0 <= i < |kids| && i != pos ==> kids[i].Nil?
    ensures pos == -1 <==> forall i :: 0 <= i < |kids| ==> kids[i].Nil?
    ensures pos == -2 <==> AtLeastTwo(kids)
  {
    if kids == [] then -1 else
      var last := |kids| - 1;
      var pos := OnlyChild(kids[..last]);
      assert kids == kids[..last] + [kids[last]];
      AtLeastTwoStep(kids[..last], kids[last]);
      if kids[last].Nil? then pos
      else if pos == -1 then last
      else -2
  }

  lemma AtLeastTwoStep(init: seq<Tree>, t: Tree)
    ensures AtLeastTwo(init + [t]) <==>
            AtLeastTwo(init) || (!t.Nil? && exists i :: 0 <= i < |init| && !init[i].Nil?)
  {
    var all := init + [t];
    if AtLeastTwo(init) {
      var i, j :| 0 <= i < j < |init| && !init[i].Nil? && !init[j].Nil?;
      assert !all[i].Nil? && !all[j].Nil?;
    } else if !t.Nil? && exists i :: 0 <= i < |init| && !init[i].Nil? {
      var i :| 0 <= i < |init| && !init[i].Nil?;
      assert !all[i].Nil? && !all[|init|].Nil?;
    }
  }

  /** A short node over `child`, merged with it when that is a short node too. */
  function Prepend(key: Bytes, child: Tree): (r: Tree) {
    if child.Short? then Short(key + child.key, child.val) else Short(key, child)
  }

  /** A branch, reduced to a short node when one child is left. */
  function Reduce(kids: seq<Tree>): (r: Tree)
    requires |kids| == 17
  {
    var pos := OnlyChild(kids);
    if pos >= 0 then
      if pos != 16 then Prepend([pos as Byte], kids[pos]) else Short([pos as Byte], kids[pos])
    else Full(kids)
  }

  function Delete(t: Tree, key: Bytes): (r: Tree)
    requires Fit(t, key)
  {
    match t
    case Nil => Nil
    case Value(_) => Nil
    case Short(k, val) =>
      var m := CommonPrefix(key, k);
      StepShort(k, val, key, m);
      if m < |k| then t
      else if m == |key| then Nil
      else Prepend(k, Delete(val, key[m..]))
    case Full(kids) =>
      StepFull(kids, key);
      Reduce(kids[key[0] := Delete(kids[key[0]], key[1..])])
  }

  lemma StepShort(k: Bytes, val: Tree, key: Bytes, m: nat)
    requires Canon(Short(k, val)) && HexKey(key) && m == CommonPrefix(key, k)
    ensures m == |k| ==> Fit(val, key[m..])
    ensures m < |k| ==> m < |key| && key[m] != k[m] && key[m] < 17 && k[m] < 17
    ensures m == |k| ==> (m == |key| <==> HasTerm(k))
  {
    if m == |k| {
      assert k == key[..m];
      PathPrefix(k, key);
    } else {
      if m == |key| {
        assert key == k[..m];
        KeyNoProperPrefix(key, k);
      }
      BelowSeventeen(k, m);
      BelowSeventeen(key, m);
    }
  }

  lemma BelowSeventeen(k: Bytes, m: nat)
    requires HexPath(k) && m < |k|
    ensures k[m] < 17 && (k[m] == 16 <==> HasTerm(k) && m == |k| - 1)
  {
  }

  lemma StepFull(kids: seq<Tree>, key: Bytes)
    requires Canon(Full(kids)) && HexKey(key)
    ensures key[0] < 17 && Fit(kids[key[0]], key[1..])
    ensures key[0] == 16 <==> key[1..] == []
  {
    var rest := key[1..];
    if rest != [] {
      assert key[0] == key[..|key| - 1][0];
      assert rest[..|rest| - 1] == key[..|key| - 1][1..];
    }
  }

  // ----- Update and Delete keep the normal form

  ghost predicate SlotOk(i: Byte, t: Tree) {
    i < 17 && if i == 16 then t.Value? && t.v != [] else Canon(t)
  }

  lemma AttachSlot(k: Bytes, val: Tree, m: nat)
    requires Canon(Short(k, val)) && m < |k|
    ensures SlotOk(k[m], Attach(k[m + 1..], val))
  {
    BelowSeventeen(k, m);
    if m < |k| - 1 {
      if HasTerm(k) {
        assert k[m + 1..][..|k| - m - 2] == k[..|k| - 1][m + 1..];
      }
    }
  }

  lemma BranchCanon(i: Byte, a: Tree, j: Byte, b: Tree)
    requires i != j && SlotOk(i, a) && SlotOk(j, b)
    ensures Canon(Branch(i, a, j, b))
  {
    var kids := NoKids(17)[i := a][j := b];
    var lo, hi := if i < j then i else j, if i < j then j else i;
    assert !kids[lo].Nil? && !kids[hi].Nil?;
  }

  lemma AttachCanon(key: Bytes, m: nat, branch: Tree)
    requires HexKey(key) && m < |key| && branch.Full? && Canon(branch)
    ensures Canon(Attach(key[..m], branch))
  {
    assert key[..m] == key[..|key| - 1][..m];
    assert forall i :: 0 <= i < m ==> key[..m][i] == key[..|key| - 1][i];
  }

  /** An update leaves the trie in normal form. */
  lemma {:induction false} UpdateCanon(t: Tree, key: Bytes, v: Bytes)
    requires Fit(t, key) && v != []
    ensures key == [] ==> Update(t, key, v) == Value(v)
    ensures key != [] ==> Canon(Update(t, key, v)) && (t.Full? ==> Update(t, key, v).Full?)
  {
    if key != [] {
      match t
      case Nil =>
      case Short(k, val) =>
        var m := CommonPrefix(key, k);
        StepShort(k, val, key, m);
        if m == |k| {
          UpdateCanon(val, key[m..], v);
        } else {
          AttachSlot(k, val, m);
          AttachSlot(key, Value(v), m);
          BranchCanon(k[m], Attach(k[m + 1..], val), key[m], Attach(key[m + 1..], Value(v)));
          AttachCanon(key, m, Branch(k[m], Attach(k[m + 1..], val), key[m], Attach(key[m + 1..], Value(v))));
        }
      case Full(kids) =>
        StepFull(kids, key);
        UpdateCanon(kids[key[0]], key[1..], v);
        SetKidCanon(kids, key[0], Update(kids[key[0]], key[1..], v));
    }
  }

  lemma SetKidCanon(kids: seq<Tree>, i: Byte, kid: Tree)
    requires Canon(Full(kids)) && SlotOk(i, kid)
    ensures Canon(Full(kids[i := kid]))
  {
    var a, b :| 0 <= a < b < |kids| && !kids[a].Nil? && !kids[b].Nil?;
    var new_ := kids[i := kid];
    assert !new_[a].Nil? && !new_[b].Nil?;
  }

  lemma PrependCanon(k: Bytes, child: Tree)
    requires k != [] && Nibbles(k) && Canon(child)
    ensures Canon(Prepend(k, child))
  {
  }

  lemma ReduceCanon(kids: seq<Tree>)
    requires |kids| == 17 && Leafy(kids[16]) && OnlyChild(kids) != -1
    requires forall i :: 0 <= i < 16 ==> kids[i].Nil? || Canon(kids[i])
    ensures Canon(Reduce(kids))
  {
    var pos := OnlyChild(kids);
    if 0 <= pos < 16 {
      PrependCanon([pos as Byte], kids[pos]);
    }
  }

  /** Whatever happens to one child of a branch, another one stays. */
  lemma SomeChildStays(kids: seq<Tree>, i: Byte, kid: Tree)
    requires Canon(Full(kids)) && i < 17
    ensures OnlyChild(kids[i := kid]) != -1
  {
    var left := kids[i := kid];
    var a, b :| 0 <= a < b < |kids| && !kids[a].Nil? && !kids[b].Nil?;
    assert !left[if a == i as int then b else a].Nil?;
  }

  /** A deletion leaves the trie in normal form, and never empties a branch. */
  lemma {:induction false} DeleteCanon(t: Tree, key: Bytes)
    requires Fit(t, key)
    ensures key == [] ==> Delete(t, key) == Nil
    ensures key != [] ==> WellFormed(Delete(t, key))
    ensures t.Full? ==> Canon(Delete(t, key))
  {
    match t
    case Nil =>
    case Value(_) =>
    case Short(k, val) =>
      var m := CommonPrefix(key, k);
      StepShort(k, val, key, m);
      if m == |k| && m < |key| {
        DeleteCanon(val, key[m..]);
        PrependCanon(k, Delete(val, key[m..]));
      }
    case Full(kids) =>
      StepFull(kids, key);
      DeleteCanon(kids[key[0]], key[1..]);
      var left := kids[key[0] := Delete(kids[key[0]], key[1..])];
      SomeChildStays(kids, key[0], Delete(kids[key[0]], key[1..]));
      ReduceCanon(left);
  }

  // ----- Update and Delete act on the represented mapping

  lemma PrefixSplit(k: Bytes, m: nat, x: Bytes)
    requires m < |k|
    ensures k <= x <==> k[..m] <= x && m < |x| && x[m] == k[m] && k[m + 1..] <= x[m + 1..]
    ensures k <= x ==> x[|k|..] == x[m + 1..][|k| - m - 1..]
  {
  }

  /** Following a path can be cut at any nibble. */
  lemma PathLookup(k: Bytes, val: Tree, m: nat, x: Bytes)
    requires m < |k|
    ensures Lookup(Short(k, val), x) ==
            if k[..m] <= x && m < |x| && x[m] == k[m] then Lookup(Attach(k[m + 1..], val), x[m + 1..]) else None
  {
    PrefixSplit(k, m, x);
    if k[m + 1..] == [] && m < |x| {
      assert x[m + 1..][0..] == x[m + 1..];
    }
  }

  lemma AttachLookup(k: Bytes, t: Tree, x: Bytes)
    ensures Lookup(Attach(k, t), x) == if k <= x then Lookup(t, x[|k|..]) else None
  {
  }

  lemma LeafLookup(key: Bytes, v: Bytes, x: Bytes)
    ensures Lookup(Short(key, Value(v)), x) == if x == key then Some(v) else None
  {
  }

  /** Splitting a short node at the first difference keeps its paths and adds the new one. */
  lemma SplitLookup(k: Bytes, val: Tree, key: Bytes, w: Tree, m: nat, x: Bytes)
    requires m < |k| && m < |key| && k[..m] == key[..m] && k[m] != key[m] && k[m] < 17 && key[m] < 17
    ensures
      var branch := Branch(k[m], Attach(k[m + 1..], val), key[m], Attach(key[m + 1..], w));
      Lookup(Attach(key[..m], branch), x) ==
      if key[..m] <= x && m < |x| && x[m] == key[m] then Lookup(Attach(key[m + 1..], w), x[m + 1..])
      else Lookup(Short(k, val), x)
  {
    var branch := Branch(k[m], Attach(k[m + 1..], val), key[m], Attach(key[m + 1..], w));
    PathLookup(k, val, m, x);
    AttachLookup(key[..m], branch, x);
    if key[..m] <= x && m < |x| {
      assert x[m..][0] == x[m] && x[m..][1..] == x[m + 1..];
    }
  }

  lemma SplitUpdate(k: Bytes, val: Tree, key: Bytes, v: Bytes, m: nat, x: Bytes)
    requires m < |k| && m < |key| && k[..m] == key[..m] && k[m] != key[m] && k[m] < 17 && key[m] < 17
    ensures
      var branch := Branch(k[m], Attach(k[m + 1..], val), key[m], Attach(key[m + 1..], Value(v)));
      Lookup(Attach(key[..m], branch), x) == if x == key then Some(v) else Lookup(Short(k, val), x)
  {
    hide Branch;
    SplitLookup(k, val, key, Value(v), m, x);
    PathLookup(key, Value(v), m, x);
    LeafLookup(key, v, x);
    PathLookup(k, val, m, x);
    assert x == key ==> key[..m] <= x;
  }

  lemma LookupBelow(k: Bytes, val: Tree, key: Bytes, x: Bytes, sub: Tree, v: Option<Bytes>)
    requires k <= key
    requires k <= x ==> Lookup(sub, x[|k|..]) == if x[|k|..] == key[|k|..] then v else Lookup(val, x[|k|..])
    ensures Lookup(Short(k, sub), x) == if x == key then v else Lookup(Short(k, val), x)
  {
  }

  lemma LookupInside(kids: seq<Tree>, key: Bytes, x: Bytes, sub: Tree, v: Option<Bytes>)
    requires key != [] && key[0] as int < |kids|
    requires x != [] && x[0] == key[0] ==>
               Lookup(sub, x[1..]) == if x[1..] == key[1..] then v else Lookup(kids[key[0]], x[1..])
    ensures Lookup(Full(kids[key[0] := sub]), x) == if x == key then v else Lookup(Full(kids), x)
  {
  }

  /** An update changes what the trie holds at the updated key, and nothing else. */
  lemma SlotLookup(t: Tree, v: Bytes, x: Bytes)
    requires Leafy(t)
    ensures Lookup(Value(v), x) == if x == [] then Some(v) else Lookup(t, x)
    ensures t.Nil? ==> Lookup(t, x) == None
  {
  }

  lemma {:induction false} UpdateLookup(t: Tree, key: Bytes, v: Bytes, x: Bytes)
    requires Fit(t, key)
    ensures Lookup(Update(t, key, v), x) == if x == key then Some(v) else Lookup(t, x)
  {
    hide Lookup;
    if key == [] {
      SlotLookup(t, v, x);
    } else {
      match t
      case Nil =>
        LeafLookup(key, v, x);
        SlotLookup(t, v, x);
      case Short(k, val) =>
        var m := CommonPrefix(key, k);
        StepShort(k, val, key, m);
        if m < |k| {
          SplitUpdate(k, val, key, v, m, x);
        } else {
          if k <= x {
            UpdateLookup(val, key[m..], v, x[m..]);
          }
          LookupBelow(k, val, key, x, Update(val, key[m..], v), Some(v));
        }
      case Full(kids) =>
        StepFull(kids, key);
        if x != [] && x[0] == key[0] {
          UpdateLookup(kids[key[0]], key[1..], v, x[1..]);
        }
        LookupInside(kids, key, x, Update(kids[key[0]], key[1..], v), Some(v));
    }
  }

  lemma PrependLookup(k: Bytes, child: Tree, x: Bytes)
    ensures Lookup(Prepend(k, child), x) == Lookup(Short(k, child), x)
  {
  }

  lemma ReduceLookup(kids: seq<Tree>, x: Bytes)
    requires |kids| == 17 && OnlyChild(kids) != -1
    ensures Lookup(Reduce(kids), x) == Lookup(Full(kids), x)
  {
    var pos := OnlyChild(kids);
    if pos >= 0 {
      PrependLookup([pos as Byte], kids[pos], x);
      if x != [] && x[0] as int == pos {
        assert [pos as Byte] <= x;
      }
    }
  }

  /** A deletion removes the deleted key and nothing else. */
  lemma {:induction false} DeleteLookup(t: Tree, key: Bytes, x: Bytes)
    requires Fit(t, key)
    ensures Lookup(Delete(t, key), x) == if x == key then None else Lookup(t, x)
  {
    match t
    case Nil =>
    case Value(_) =>
    case Short(k, val) =>
      var m := CommonPrefix(key, k);
      StepShort(k, val, key, m);
      if m == |k| {
        if m == |key| {
          assert key == k;
          LeafLookup(k, val.v, x);
        } else {
          PrependLookup(k, Delete(val, key[m..]), x);
          if k <= x {
            DeleteLookup(val, key[m..], x[m..]);
          }
          LookupBelow(k, val, key, x, Delete(val, key[m..]), None);
        }
      } else {
        assert !(k <= key) by {
          assert k[m] != key[m];
        }
      }
    case Full(kids) =>
      StepFull(kids, key);
      DeleteCanon(kids[key[0]], key[1..]);
      var left := kids[key[0] := Delete(kids[key[0]], key[1..])];
      SomeChildStays(kids, key[0], Delete(kids[key[0]], key[1..]));
      ReduceLookup(left, x);
      if x != [] && x[0] == key[0] {
        DeleteLookup(kids[key[0]], key[1..], x[1..]);
      }
      LookupInside(kids, key, x, Delete(kids[key[0]], key[1..]), None);
  }

  // ----- The shape of a trie is determined by its mapping

  ghost predicate SameMapping(a: Tree, b: Tree) {
    forall k :: HexKey(k) ==> Lookup(a, k) == Lookup(b, k)
  }

  /** Every non-empty child of a branch holds some key. */
  lemma KidKey(kids: seq<Tree>, i: nat) returns (k: Bytes)
    requires Canon(Full(kids)) && i < 17 && !kids[i].Nil?
    ensures HexKey(k) && k[0] as int == i && Lookup(Full(kids), k).Some?
    decreases kids, 0
  {
    if i == 16 {
      k := [16];
    } else {
      var rest := SomeKey(kids[i]);
      k := [i as Byte] + rest;
      assert k[..|k| - 1] == [i as Byte] + rest[..|rest| - 1];
      assert k[1..] == rest;
    }
  }

  /** No trie in normal form is empty below its root. */
  lemma SomeKey(t: Tree) returns (k: Bytes)
    requires Canon(t)
    ensures HexKey(k) && Lookup(t, k).Some?
    decreases t, 1
  {
    match t
    case Short(key, val) =>
      if HasTerm(key) {
        k := key;
      } else {
        var rest := SomeKey(val);
        k := key + rest;
        assert k[..|k| - 1] == key + rest[..|rest| - 1];
        assert k[|key|..] == rest;
      }
    case Full(kids) =>
      var i, j :| 0 <= i < j < |kids| && !kids[i].Nil? && !kids[j].Nil?;
      k := KidKey(kids, i);
  }

  /** A branch holds two keys that part at once. */
  lemma TwoKeys(t: Tree) returns (a: Bytes, b: Bytes)
    requires t.Full? && Canon(t)
    ensures HexKey(a) && HexKey(b) && a[0] != b[0] && Lookup(t, a).Some? && Lookup(t, b).Some?
  {
    var i, j :| 0 <= i < j < |t.kids| && !t.kids[i].Nil? && !t.kids[j].Nil?;
    a := KidKey(t.kids, i);
    b := KidKey(t.kids, j);
  }

  lemma PrependKey(k: Bytes, x: Bytes)
    requires Nibbles(k) && HexKey(x)
    ensures HexKey(k + x) && (k + x)[|k|..] == x && k <= k + x
  {
  }

  /** Two keys of a short node whose child is a branch part right after the node's key. */
  lemma TwoKeysBelow(t: Tree) returns (a: Bytes, b: Bytes)
    requires t.Short? && Canon(t) && !HasTerm(t.key)
    ensures HexKey(a) && HexKey(b) && t.key <= a && t.key <= b && |t.key| < |a| && |t.key| < |b|
    ensures a[|t.key|] != b[|t.key|] && Lookup(t, a).Some? && Lookup(t, b).Some?
  {
    var x, y := TwoKeys(t.val);
    PrependKey(t.key, x);
    PrependKey(t.key, y);
    a, b := t.key + x, t.key + y;
  }

  lemma SubMapping(a: Tree, b: Tree, k: Bytes)
    requires a.Short? && b.Short? && a.key == b.key == k && Nibbles(k) && SameMapping(a, b)
    ensures SameMapping(a.val, b.val)
  {
    forall x | HexKey(x) ensures Lookup(a.val, x) == Lookup(b.val, x) {
      PrependKey(k, x);
      assert Lookup(a, k + x) == Lookup(b, k + x);
    }
  }

  lemma KidMapping(a: seq<Tree>, b: seq<Tree>, i: Byte)
    requires |a| == |b| == 17 && i < 16 && SameMapping(Full(a), Full(b))
    ensures SameMapping(a[i], b[i])
  {
    forall x | HexKey(x) ensures Lookup(a[i], x) == Lookup(b[i], x) {
      PrependKey([i], x);
      assert Lookup(Full(a), [i] + x) == Lookup(Full(b), [i] + x);
    }
  }

  /** The key of a short node is the longest common prefix of its keys, so it can be told from
      the mapping. */
  lemma SameShortKey(a: Tree, b: Tree)
    requires a.Short? && b.Short? && Canon(a) && Canon(b) && SameMapping(a, b)
    ensures b.key <= a.key
  {
    var x := SomeKey(a);
    assert a.key <= x && b.key <= x;
    if !HasTerm(a.key) {
      var y, z := TwoKeysBelow(a);
      assert b.key <= y && b.key <= z;
      assert |b.key| <= |a.key|;
    } else {
      LeafLookup(a.key, a.val.v, x);
    }
  }

  lemma FullIsNotShort(a: Tree, b: Tree)
    requires a.Full? && b.Short? && Canon(a) && Canon(b)
    ensures !SameMapping(a, b)
  {
    var x, y := TwoKeys(a);
    assert Lookup(b, x) == Lookup(a, x) ==> x[0] == b.key[0];
    assert Lookup(b, y) == Lookup(a, y) ==> y[0] == b.key[0];
  }

  lemma CanonIsNotNil(a: Tree)
    requires Canon(a)
    ensures !SameMapping(a, Nil) && !SameMapping(Nil, a)
  {
    var x := SomeKey(a);
    assert Lookup(a, x) != Lookup(Nil, x);
  }

  lemma SameValueSlot(a: seq<Tree>, b: seq<Tree>)
    requires |a| == 17 && |b| == 17 && Leafy(a[16]) && Leafy(b[16])
    requires SameMapping(Full(a), Full(b))
    ensures a[16] == b[16]
  {
    var k: Bytes := [16];
    assert HexKey(k);
    assert k[1..] == [];
    assert Lookup(a[16], []) == Lookup(Full(a), k) == Lookup(Full(b), k) == Lookup(b[16], []);
  }

  /** Two tries in normal form that represent the same mapping are the same trie. */
  lemma {:induction false} Unique(a: Tree, b: Tree)
    requires WellFormed(a) && WellFormed(b) && SameMapping(a, b)
    ensures a == b
    decreases a
  {
    if a.Nil? || b.Nil? {
      if !a.Nil? { CanonIsNotNil(a); }
      if !b.Nil? { CanonIsNotNil(b); }
    } else if a.Short? && b.Short? {
      SameShortKey(a, b);
      SameShortKey(b, a);
      if HasTerm(a.key) {
        LeafLookup(a.key, a.val.v, a.key);
        LeafLookup(b.key, b.val.v, a.key);
      } else {
        SubMapping(a, b, a.key);
        Unique(a.val, b.val);
      }
    } else if a.Full? && b.Full? {
      forall i | 0 <= i < 16 ensures a.kids[i] == b.kids[i] {
        KidMapping(a.kids, b.kids, i as Byte);
        Unique(a.kids[i], b.kids[i]);
      }
      SameValueSlot(a.kids, b.kids);
      assert a.kids == b.kids;
    } else if a.Full? {
      FullIsNotShort(a, b);
    } else {
      FullIsNotShort(b, a);
      assert SameMapping(b, a);
    }
  }

  /** Deleting a key that an update has just introduced restores the trie. */
  lemma DeleteUndoesFreshUpdate(t: Tree, key: Bytes, v: Bytes)
    requires WellFormed(t) && HexKey(key) && v != [] && Lookup(t, key) == None
    ensures WellFormed(Update(t, key, v)) && Delete(Update(t, key, v), key) == t
  {
    var u := Update(t, key, v);
    UpdateCanon(t, key, v);
    DeleteCanon(u, key);
    forall x | HexKey(x) ensures Lookup(Delete(u, key), x) == Lookup(t, x) {
      UpdateLookup(t, key, v, x);
      DeleteLookup(u, key, x);
    }
    Unique(Delete(u, key), t);
  }

  // ----- Whole runs

  /** A call of TryUpdate with a key and a value; an empty value deletes. */
  datatype Write = Write(key: Bytes, value: Bytes)

  function Apply(t: Tree, w: Write): (r: Tree)
    requires WellFormed(t)
    ensures WellFormed(r)
  {
    HexOfIsKey(w.key);
    if w.value != [] then
      UpdateCanon(t, HexOf(w.key), w.value);
      Update(t, HexOf(w.key), w.value)
    else
      DeleteCanon(t, HexOf(w.key));
      Delete(t, HexOf(w.key))
  }

  function Run(ws: seq<Write>): (r: Tree)
    ensures WellFormed(r)
  {
    if ws == [] then Nil else Apply(Run(ws[..|ws| - 1]), ws[|ws| - 1])
  }

  /** The mapping a run of writes leaves, by itself: the last non-empty value of each key. */
  function Mapping(ws: seq<Write>): (m: map<Bytes, Bytes>) {
    if ws == [] then map[] else
      var m, w := Mapping(ws[..|ws| - 1]), ws[|ws| - 1];
      if w.value != [] then m[w.key := w.value] else m - {w.key}
  }

  /** After any run the trie holds exactly the last non-empty value written to each key. */
  lemma {:induction false} RunLookup(ws: seq<Write>, key: Bytes)
    ensures Lookup(Run(ws), HexOf(key)) == if key in Mapping(ws) then Some(Mapping(ws)[key]) else None
  {
    if ws != [] {
      var init, w := ws[..|ws| - 1], ws[|ws| - 1];
      RunLookup(init, key);
      HexOfIsKey(w.key);
      if HexOf(w.key) == HexOf(key) {
        HexOfInjective(w.key, key);
      }
      if w.value != [] {
        UpdateLookup(Run(init), HexOf(w.key), w.value, HexOf(key));
      } else {
        DeleteLookup(Run(init), HexOf(w.key), HexOf(key));
      }
    }
  }

  /** Paths that are no caller's key stay empty. */
  lemma {:induction false} RunHoldsKeysOnly(ws: seq<Write>, x: Bytes)
    requires forall key :: HexOf(key) != x
    ensures Lookup(Run(ws), x) == None
  {
    if ws != [] {
      var init, w := ws[..|ws| - 1], ws[|ws| - 1];
      RunHoldsKeysOnly(init, x);
      HexOfIsKey(w.key);
      if w.value != [] {
        UpdateLookup(Run(init), HexOf(w.key), w.value, x);
      } else {
        DeleteLookup(Run(init), HexOf(w.key), x);
      }
    }
  }

  /** History independence: runs leave the same trie exactly when they leave the same mapping. */
  lemma HistoryIndependence(ws: seq<Write>, us: seq<Write>)
    ensures Run(ws) == Run(us) <==> Mapping(ws) == Mapping(us)
  {
    forall key ensures Lookup(Run(ws), HexOf(key)) == if key in Mapping(ws) then Some(Mapping(ws)[key]) else None {
      RunLookup(ws, key);
    }
    forall key ensures Lookup(Run(us), HexOf(key)) == if key in Mapping(us) then Some(Mapping(us)[key]) else None {
      RunLookup(us, key);
    }
    if Run(ws) == Run(us) {
      forall key ensures key in Mapping(ws) <==> key in Mapping(us) {
        assert Lookup(Run(ws), HexOf(key)) == Lookup(Run(us), HexOf(key));
      }
      forall key | key in Mapping(ws) ensures Mapping(ws)[key] == Mapping(us)[key] {
        assert Lookup(Run(ws), HexOf(key)) == Lookup(Run(us), HexOf(key));
      }
    }
    if Mapping(ws) == Mapping(us) {
      forall x | HexKey(x) ensures Lookup(Run(ws), x) == Lookup(Run(us), x) {
        if !exists key :: HexOf(key) == x {
          RunHoldsKeysOnly(ws, x);
          RunHoldsKeysOnly(us, x);
        }
      }
      Unique(Run(ws), Run(us));
    }
  }
}
