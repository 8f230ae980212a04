/** The two-phase RLP encoder: string data goes to one buffer, list headers to another, and
    the two are merged when the output is produced. */
module RlpEncbuf {
  import opened Common
  import opened Rlp

  /** A list header: where it goes in the string data, and the size it announces. */
  datatype ListHead = ListHead(offset: nat, size: nat)

  // ----- What the buffer holds for an item

  /** Encoded data without list headers. */
  function StrPart(it: Item): (r: Bytes) {
    match it
    case Str(_) => Encode(it)
    case List(items) => StrPartAll(items)
  }

  function StrPartAll(items: seq<Item>): (r: Bytes) {
    if items == [] then [] else StrPart(items[0]) + StrPartAll(items[1..])
  }

  /** List headers in preorder, for an item whose data starts at `off`, followed by `rest`. */
  function Heads(it: Item, off: nat, rest: seq<ListHead>): (r: seq<ListHead>) {
    match it
    case Str(_) => rest
    case List(items) => [ListHead(off, |EncodeAll(items)|)] + HeadsAll(items, off, rest)
  }

  function HeadsAll(items: seq<Item>, off: nat, rest: seq<ListHead>): (r: seq<ListHead>) {
    if items == [] then rest
    else Heads(items[0], off, HeadsAll(items[1..], off + |StrPart(items[0])|, rest))
  }

  function HeadSize(size: nat): (n: nat) {
    if size < 56 then 1 else 1 + |BigEndian(size)|
  }

  function HeadBytes(it: Item): (n: nat) {
    match it
    case Str(_) => 0
    case List(items) => HeadSize(|EncodeAll(items)|) + HeadBytesAll(items)
  }

  function HeadBytesAll(items: seq<Item>): (n: nat) {
    if items == [] then 0 else HeadBytes(items[0]) + HeadBytesAll(items[1..])
  }

  // ----- Merging the two buffers

  /** Offsets run from `from` to `n` without going back. */
  predicate Ordered(heads: seq<ListHead>, from: nat, n: nat) {
    if heads == [] then from <= n else from <= heads[0].offset && Ordered(heads[1..], heads[0].offset, n)
  }

  function HeadOf(h: ListHead): (r: Bytes) {
    Head(0xC0, 0xF7, h.size)
  }

  function Render(str: Bytes, heads: seq<ListHead>, from: nat): (r: Bytes)
    requires Ordered(heads, from, |str|)
  {
    if heads == [] then str[from..]
    else
      OrderedBound(heads, from, |str|);
      str[from..heads[0].offset] + (HeadOf(heads[0]) + Render(str, heads[1..], heads[0].offset))
  }

  lemma {:induction false} OrderedBound(heads: seq<ListHead>, from: nat, n: nat)
    requires Ordered(heads, from, n)
    ensures from <= n && (heads != [] ==> heads[0].offset <= n)
  {
    if heads != [] {
      OrderedBound(heads[1..], heads[0].offset, n);
    }
  }

  /** Headers of an item lie within its data, in order. */
  lemma {:induction false} HeadsOrdered(it: Item, off: nat, rest: seq<ListHead>, n: nat)
    requires Ordered(rest, off + |StrPart(it)|, n)
    ensures Ordered(Heads(it, off, rest), off, n)
    decreases it, 0
  {
    match it
    case Str(_) =>
    case List(items) =>
      HeadsAllOrdered(items, off, rest, n);
      assert Heads(it, off, rest)[1..] == HeadsAll(items, off, rest);
  }

  lemma {:induction false} HeadsAllOrdered(items: seq<Item>, off: nat, rest: seq<ListHead>, n: nat)
    requires Ordered(rest, off + |StrPartAll(items)|, n)
    ensures Ordered(HeadsAll(items, off, rest), off, n)
    decreases items, 1
  {
    if items != [] {
      var mid := off + |StrPart(items[0])|;
      HeadsAllOrdered(items[1..], mid, rest, n);
      HeadsOrdered(items[0], off, HeadsAll(items[1..], mid, rest), n);
    }
  }

  lemma Assoc<T>(a: seq<T>, b: seq<T>, c: seq<T>)
    ensures (a + b) + c == a + (b + c)
  {
  }

  lemma JoinSlices(s: Bytes, a: nat, b: nat, c: nat)
    requires a <= b <= c <= |s|
    ensures s[a..c] == s[a..b] + s[b..c]
  {
  }

  /** Data up to the next header can be emitted early. */
  lemma RenderSkip(str: Bytes, heads: seq<ListHead>, from: nat, mid: nat)
    requires from <= mid && Ordered(heads, mid, |str|)
    ensures Ordered(heads, from, |str|) && mid <= |str|
    ensures Render(str, heads, from) == str[from..mid] + Render(str, heads, mid)
  {
    OrderedBound(heads, mid, |str|);
    if heads == [] {
      assert str[from..] == str[from..mid] + str[mid..];
    } else {
      var o := heads[0].offset;
      var tail := HeadOf(heads[0]) + Render(str, heads[1..], o);
      JoinSlices(str, from, mid, o);
      Assoc(str[from..mid], str[mid..o], tail);
      assert Render(str, heads, from) == str[from..o] + tail;
    }
  }

  lemma RenderHead(h: ListHead, heads: seq<ListHead>, str: Bytes)
    requires Ordered(heads, h.offset, |str|)
    ensures Ordered([h] + heads, h.offset, |str|)
    ensures Render(str, [h] + heads, h.offset) == HeadOf(h) + Render(str, heads, h.offset)
  {
    var all := [h] + heads;
    assert all[1..] == heads;
    OrderedBound(heads, h.offset, |str|);
    assert str[h.offset..h.offset] == [];
  }

  /** The part of the merged output that belongs to one item is its encoding. */
  lemma {:induction false} RenderItem(it: Item, str: Bytes, off: nat, rest: seq<ListHead>)
    requires off + |StrPart(it)| <= |str| && str[off..off + |StrPart(it)|] == StrPart(it)
    requires Ordered(rest, off + |StrPart(it)|, |str|)
    ensures Ordered(Heads(it, off, rest), off, |str|)
    ensures Render(str, Heads(it, off, rest), off) == Encode(it) + Render(str, rest, off + |StrPart(it)|)
    decreases it, 0
  {
    HeadsOrdered(it, off, rest, |str|);
    match it
    case Str(_) =>
      RenderSkip(str, rest, off, off + |StrPart(it)|);
    case List(items) =>
      RenderAll(items, str, off, rest);
      var h := ListHead(off, |EncodeAll(items)|);
      RenderHead(h, HeadsAll(items, off, rest), str);
      Assoc(HeadOf(h), EncodeAll(items), Render(str, rest, off + |StrPart(it)|));
  }

  lemma {:induction false} RenderAll(items: seq<Item>, str: Bytes, off: nat, rest: seq<ListHead>)
    requires off + |StrPartAll(items)| <= |str| && str[off..off + |StrPartAll(items)|] == StrPartAll(items)
    requires Ordered(rest, off + |StrPartAll(items)|, |str|)
    ensures Ordered(HeadsAll(items, off, rest), off, |str|)
    ensures Render(str, HeadsAll(items, off, rest), off) ==
      EncodeAll(items) + Render(str, rest, off + |StrPartAll(items)|)
    decreases items, 1
  {
    hide Ordered, Render, Encode, StrPart, Heads;
    HeadsAllOrdered(items, off, rest, |str|);
    if items == [] {
      assert [] + Render(str, rest, off) == Render(str, rest, off);
    } else {
      var n, more := |StrPart(items[0])|, HeadsAll(items[1..], off + |StrPart(items[0])|, rest);
      var tail := Render(str, rest, off + |StrPartAll(items)|);
      SplitSlice(str, off, StrPart(items[0]), StrPartAll(items[1..]));
      RenderAll(items[1..], str, off + n, rest);
      RenderItem(items[0], str, off, more);
      RenderCons(str, HeadsAll(items, off, rest), off, more, off + n, Encode(items[0]), EncodeAll(items[1..]), tail);
    }
  }

  lemma RenderCons(str: Bytes, heads: seq<ListHead>, off: nat, more: seq<ListHead>, mid: nat, a: Bytes, b: Bytes,
                   tail: Bytes)
    requires Ordered(heads, off, |str|) && Ordered(more, mid, |str|)
    requires Render(str, heads, off) == a + Render(str, more, mid)
    requires Render(str, more, mid) == b + tail
    ensures Render(str, heads, off) == (a + b) + tail
  {
  }

  lemma SplitSlice(s: Bytes, off: nat, a: Bytes, b: Bytes)
    requires off + |a| + |b| <= |s| && s[off..off + |a| + |b|] == a + b
    ensures s[off..off + |a|] == a && s[off + |a|..off + |a| + |b|] == b
  {
    var w := s[off..off + |a| + |b|];
    assert w[..|a|] == a && w[|a|..] == b;
    assert forall i :: 0 <= i < |w| ==> w[i] == s[off + i];
  }

  /** Merging the buffers of an item gives its encoding. */
  lemma RenderIsEncode(it: Item)
    ensures Ordered(Heads(it, 0, []), 0, |StrPart(it)|)
    ensures Render(StrPart(it), Heads(it, 0, []), 0) == Encode(it)
  {
    var str := StrPart(it);
    assert str[0..|str|] == str;
    RenderItem(it, str, 0, []);
    assert str[|str|..] == [];
  }

  lemma HeadSizeIsExact(size: nat)
    requires size < SIZE_LIMIT
    ensures |Head(0xC0, 0xF7, size)| == HeadSize(size)
  {
    SizeFitsEightBytes(size);
  }

  /** The encoded length is the string data plus the headers. */
  lemma {:induction false} LengthSplits(it: Item)
    requires |Encode(it)| < SIZE_LIMIT
    ensures |Encode(it)| == |StrPart(it)| + HeadBytes(it)
    decreases it, 0
  {
    match it
    case Str(_) =>
    case List(items) =>
      LengthSplitsAll(items);
      HeadSizeIsExact(|EncodeAll(items)|);
  }

  lemma {:induction false} LengthSplitsAll(items: seq<Item>)
    requires |EncodeAll(items)| < SIZE_LIMIT
    ensures |EncodeAll(items)| == |StrPartAll(items)| + HeadBytesAll(items)
    decreases items, 1
  {
    if items != [] {
      LengthSplits(items[0]);
      LengthSplitsAll(items[1..]);
    }
  }

  // ----- Filling the buffers

  lemma {:induction false} HeadsThen(it: Item, off: nat, rest: seq<ListHead>)
    ensures Heads(it, off, rest) == Heads(it, off, []) + rest
    decreases it, 0
  {
    match it
    case Str(_) =>
      assert [] + rest == rest;
    case List(items) =>
      HeadsAllThen(items, off, rest);
      Assoc([ListHead(off, |EncodeAll(items)|)], HeadsAll(items, off, []), rest);
  }

  lemma {:induction false} HeadsAllThen(items: seq<Item>, off: nat, rest: seq<ListHead>)
    ensures HeadsAll(items, off, rest) == HeadsAll(items, off, []) + rest
    decreases items, 1
  {
    if items == [] {
      assert [] + rest == rest;
    } else {
      var mid := off + |StrPart(items[0])|;
      HeadsAllThen(items[1..], mid, rest);
      HeadsThen(items[0], off, HeadsAll(items[1..], mid, rest));
      HeadsThen(items[0], off, HeadsAll(items[1..], mid, []));
      Assoc(Heads(items[0], off, []), HeadsAll(items[1..], mid, []), rest);
    }
  }

  /** Minimum number of bytes that hold `i`. */
  method IntSize(iIn: nat) returns (size: nat)
    ensures size == |BigEndian(iIn)|
  {
    var i: nat := iIn / 256;
    size := 1;
    while i != 0
      invariant size + (if i == 0 then 0 else |BigEndian(i)|) == |BigEndian(iIn)|
      decreases i
    {
      i := i / 256;
      size := size + 1;
    }
  }

  class Encbuf {
    var str: Bytes
    var lheads: seq<ListHead>
    var lhsize: nat

    constructor ()
      ensures str == [] && lheads == [] && lhsize == 0
    {
      str := [];
      lheads := [];
      lhsize := 0;
    }

    function Size(): (n: nat)
      reads this
    {
      |str| + lhsize
    }

    /** String data of `s0`, `h0` and `n0` has grown by what one item contributes. */
    ghost predicate Grew(s0: Bytes, h0: seq<ListHead>, n0: nat, s: Bytes, h: seq<ListHead>, n: nat)
      reads this
    {
      str == s0 + s && lheads == h0 + h && lhsize == n0 + n
    }

    method EncodeString(b: Bytes)
      modifies this
      ensures str == old(str) + Encode(Str(b)) && lheads == old(lheads) && lhsize == old(lhsize)
    {
      if |b| == 1 && b[0] <= 0x7F {
        str := str + [b[0]];
        assert b == [b[0]];
      } else {
        Assoc(str, Head(0x80, 0xB7, |b|), b);
        str := str + Head(0x80, 0xB7, |b|);
        str := str + b;
      }
    }

    /** Opens a list. Its header records where it starts and how many header bytes preceded it. */
    method List() returns (lh: nat)
      modifies this
      ensures lh == old(|lheads|) && lheads == old(lheads) + [ListHead(|str|, lhsize)]
      ensures str == old(str) && lhsize == old(lhsize)
    {
      lh := |lheads|;
      lheads := lheads + [ListHead(|str|, lhsize)];
    }

    /** Closes a list: now its size is known. */
    method ListEnd(lh: nat)
      requires lh < |lheads| && lheads[lh].offset + lheads[lh].size <= Size()
      modifies this
      ensures str == old(str)
      ensures
        var size := old(Size() - lheads[lh].offset - lheads[lh].size);
        lheads == old(lheads)[lh := ListHead(old(lheads)[lh].offset, size)] && lhsize == old(lhsize) + HeadSize(size)
    {
      var size := Size() - lheads[lh].offset - lheads[lh].size;
      lheads := lheads[lh := ListHead(lheads[lh].offset, size)];
      if size < 56 {
        lhsize := lhsize + 1;
      } else {
        var n := IntSize(size);
        lhsize := lhsize + 1 + n;
      }
    }

    /** Writes an item, header bytes of its lists aside. */
    method Write(it: Item)
      requires |Encode(it)| < SIZE_LIMIT
      modifies this
      ensures Grew(old(str), old(lheads), old(lhsize), StrPart(it), Heads(it, old(|str|), []), HeadBytes(it))
      decreases it, 0
    {
      match it
      case Str(b) =>
        EncodeString(b);
        assert lheads + [] == lheads;
      case List(items) =>
        var lh := List();
        WriteAll(items);
        LengthSplitsAll(items);
        ListEnd(lh);
        ghost var h := ListHead(old(|str|), |EncodeAll(items)|);
        Assoc(old(lheads), [h], HeadsAll(items, old(|str|), []));
    }

    method WriteAll(items: seq<Item>)
      requires |EncodeAll(items)| < SIZE_LIMIT
      modifies this
      ensures Grew(old(str), old(lheads), old(lhsize), StrPartAll(items), HeadsAll(items, old(|str|), []),
                   HeadBytesAll(items))
      decreases items, 1
    {
      var i := 0;
      ghost var s, h := [], [];
      ghost var n: nat := 0;
      assert str + [] == str && lheads + [] == lheads && items[0..] == items;
      while i < |items|
        invariant i <= |items|
        invariant Grew(old(str), old(lheads), old(lhsize), s, h, n)
        invariant StrPartAll(items) == s + StrPartAll(items[i..])
        invariant HeadsAll(items, old(|str|), []) == h + HeadsAll(items[i..], old(|str|) + |s|, [])
        invariant HeadBytesAll(items) == n + HeadBytesAll(items[i..])
      {
        EncodeAllSize(items, i);
        ghost var x, off := items[i], |str|;
        Write(items[i]);
        StepAll(items, i, off, s, h);
        Assoc(old(str), s, StrPart(x));
        Assoc(old(lheads), h, Heads(x, off, []));
        s, h, n := s + StrPart(x), h + Heads(x, off, []), n + HeadBytes(x);
        i := i + 1;
      }
      assert s + [] == s && h + [] == h;
    }
  }

  // ----- Producing the output

  /** Copies `src` behind the first `pos` bytes of `out`. */
  method Copy(out: array<Byte>, pos: nat, src: Bytes) returns (end: nat)
    requires pos + |src| <= out.Length
    modifies out
    ensures end == pos + |src| && out[..end] == old(out[..pos]) + src
  {
    ghost var done := out[..pos];
    var n := 0;
    while n < |src|
      invariant n <= |src|
      invariant out[..pos + n] == done + src[..n]
    {
      out[pos + n] := src[n];
      assert out[..pos + n + 1] == out[..pos + n] + [src[n]];
      assert src[..n + 1] == src[..n] + [src[n]];
      n := n + 1;
    }
    end := pos + n;
    assert src[..n] == src;
  }

  /** Merges the buffers into one slice allocated with exactly the right size. */
  method ToBytes(str: Bytes, lheads: seq<ListHead>, size: nat) returns (r: Bytes)
    requires Ordered(lheads, 0, |str|) && size == |Render(str, lheads, 0)|
    ensures r == Render(str, lheads, 0)
  {
    var out := new Byte[size](_ => 0);
    var strpos: nat, pos: nat, i: nat := 0, 0, 0;
    ghost var goal := Render(str, lheads, 0);
    assert lheads[0..] == lheads && [] + goal == goal;
    while i < |lheads|
      invariant i <= |lheads| && pos <= out.Length
      invariant Ordered(lheads[i..], strpos, |str|)
      invariant goal == out[..pos] + Render(str, lheads[i..], strpos)
    {
      pos := EmitHead(out, pos, str, lheads, i, strpos, goal);
      strpos := lheads[i].offset;
      i := i + 1;
    }
    OrderedBound([], strpos, |str|);
    pos := Copy(out, pos, str[strpos..]);
    r := out[..];
  }

  /** String data up to the next header, and the header. */
  method EmitHead(out: array<Byte>, pos: nat, str: Bytes, lheads: seq<ListHead>, i: nat, strpos: nat, ghost goal: Bytes)
    returns (end: nat)
    requires i < |lheads| && Ordered(lheads[i..], strpos, |str|)
    requires pos <= out.Length == |goal| && goal == out[..pos] + Render(str, lheads[i..], strpos)
    modifies out
    ensures end <= out.Length && Ordered(lheads[i + 1..], lheads[i].offset, |str|)
    ensures goal == out[..end] + Render(str, lheads[i + 1..], lheads[i].offset)
  {
    var head := lheads[i];
    RenderStep(str, lheads, i, strpos);
    ghost var more := Render(str, lheads[i + 1..], head.offset);
    Assoc(out[..pos], str[strpos..head.offset], HeadOf(head) + more);
    end := Copy(out, pos, str[strpos..head.offset]);
    Assoc(out[..end], HeadOf(head), more);
    end := Copy(out, end, HeadOf(head));
  }

  /** Writes the merged buffers piece by piece; the result is all the writer received. */
  method ToWriter(str: Bytes, lheads: seq<ListHead>) returns (out: Bytes)
    requires Ordered(lheads, 0, |str|)
    ensures out == Render(str, lheads, 0)
  {
    out := [];
    var strpos: nat, i: nat := 0, 0;
    ghost var goal := Render(str, lheads, 0);
    assert lheads[0..] == lheads && [] + goal == goal;
    while i < |lheads|
      invariant i <= |lheads|
      invariant Ordered(lheads[i..], strpos, |str|)
      invariant goal == out + Render(str, lheads[i..], strpos)
    {
      var head := lheads[i];
      RenderStep(str, lheads, i, strpos);
      ghost var more := Render(str, lheads[i + 1..], head.offset);
      Assoc(out, str[strpos..head.offset], HeadOf(head) + more);
      if head.offset - strpos > 0 {
        out := out + str[strpos..head.offset];
        strpos := head.offset;
      } else {
        assert out + str[strpos..head.offset] == out;
      }
      Assoc(out, HeadOf(head), more);
      out := out + HeadOf(head);
      i := i + 1;
    }
    OrderedBound([], strpos, |str|);
    if strpos < |str| {
      out := out + str[strpos..];
    } else {
      assert out + str[strpos..] == out;
    }
  }

  /** Hands out the encoding in chunks of the caller's choice. */
  class EncReader {
    const str: Bytes
    const lheads: seq<ListHead>
    var open: bool
    var lhpos: nat
    var strpos: nat
    var piece: Bytes

    ghost predicate Valid()
      reads this
    {
      lhpos <= |lheads| && Ordered(lheads[lhpos..], strpos, |str|)
    }

    /** What is still to be read. */
    ghost function Rest(): Bytes
      reads this
      requires Valid()
    {
      if open then piece + Render(str, lheads[lhpos..], strpos) else []
    }

    constructor (s: Bytes, h: seq<ListHead>)
      requires Ordered(h, 0, |s|)
      ensures Valid() && str == s && lheads == h && Rest() == Render(s, h, 0)
    {
      str, lheads := s, h;
      open := true;
      lhpos, strpos, piece := 0, 0, [];
      new;
      assert lheads[0..] == lheads;
      assert [] + Render(s, h, 0) == Render(s, h, 0);
    }

    /** Makes the next piece available; an empty piece means the end. */
    method Next()
      requires Valid()
      modifies this
      ensures Valid() && Rest() == old(Rest()) && open == old(open)
      ensures piece == [] ==> Rest() == []
      ensures piece != [] ==> open
    {
      if !open {
        piece := [];
        return;
      }
      if piece != [] {
        return;
      }
      assert Rest() == Render(str, lheads[lhpos..], strpos);
      if lhpos < |lheads| {
        NextBeforeHead();
      } else {
        OrderedBound([], strpos, |str|);
        assert lheads[lhpos..] == [];
        piece := str[strpos..];
        strpos := |str|;
        assert str[|str|..] == [];
        assert piece + [] == piece;
      }
    }

    method NextBeforeHead()
      requires Valid() && open && lhpos < |lheads|
      modifies this
      ensures Valid() && open && piece != []
      ensures piece + Render(str, lheads[lhpos..], strpos) == old(Render(str, lheads[lhpos..], strpos))
    {
      var head := lheads[lhpos];
      RenderStep(str, lheads, lhpos, strpos);
      if head.offset - strpos > 0 {
        RenderSkip(str, lheads[lhpos..], strpos, head.offset);
        piece := str[strpos..head.offset];
        strpos := head.offset;
      } else {
        ghost var more := HeadOf(head) + Render(str, lheads[lhpos + 1..], head.offset);
        assert str[strpos..head.offset] == [];
        assert [] + more == more;
        piece := HeadOf(head);
        lhpos := lhpos + 1;
      }
    }

    /** Reads up to `cap` bytes. Less than that means the end, and nothing is skipped or
        repeated between calls. */
    method Read(cap: nat) returns (b: Bytes, eof: bool)
      requires Valid()
      modifies this
      ensures Valid() && old(Rest()) == b + Rest()
      ensures |b| <= cap && (!eof ==> |b| == cap)
      ensures eof ==> Rest() == []
    {
      hide Render, Ordered;
      b := [];
      assert [] + Rest() == Rest();
      while true
        invariant Valid() && old(Rest()) == b + Rest() && |b| <= cap
        decreases |Rest()|
      {
        Next();
        if piece == [] {
          open := false;
          return b, true;
        }
        var nn := if |piece| <= cap - |b| then |piece| else cap - |b|;
        ghost var left := |Rest()|;
        TakePiece(b, piece, nn, Render(str, lheads[lhpos..], strpos));
        b := b + piece[..nn];
        piece := piece[nn..];
        if piece != [] {
          return b, false;
        }
        assert |Rest()| == left - nn;
      }
    }
  }

  lemma TakePiece(b: Bytes, piece: Bytes, nn: nat, tail: Bytes)
    requires nn <= |piece|
    ensures b + (piece + tail) == (b + piece[..nn]) + (piece[nn..] + tail)
  {
  }

  lemma RenderStep(str: Bytes, heads: seq<ListHead>, i: nat, strpos: nat)
    requires i < |heads| && Ordered(heads[i..], strpos, |str|)
    ensures strpos <= heads[i].offset <= |str| && Ordered(heads[i + 1..], heads[i].offset, |str|)
    ensures Render(str, heads[i..], strpos) ==
            str[strpos..heads[i].offset] + (HeadOf(heads[i]) + Render(str, heads[i + 1..], heads[i].offset))
  {
    OrderedBound(heads[i..], strpos, |str|);
    assert heads[i..][1..] == heads[i + 1..];
  }

  lemma StepAll(items: seq<Item>, i: nat, off: nat, s: Bytes, h: seq<ListHead>)
    requires i < |items|
    ensures s + StrPartAll(items[i..]) == (s + StrPart(items[i])) + StrPartAll(items[i + 1..])
    ensures h + HeadsAll(items[i..], off, []) ==
            (h + Heads(items[i], off, [])) + HeadsAll(items[i + 1..], off + |StrPart(items[i])|, [])
    ensures HeadBytesAll(items[i..]) == HeadBytes(items[i]) + HeadBytesAll(items[i + 1..])
  {
    var rest := items[i..];
    assert rest[0] == items[i] && rest[1..] == items[i + 1..];
    var more := HeadsAll(items[i + 1..], off + |StrPart(items[i])|, []);
    HeadsThen(items[i], off, more);
    Assoc(s, StrPart(items[i]), StrPartAll(items[i + 1..]));
    Assoc(h, Heads(items[i], off, []), more);
  }

  // ----- The three ways out

  /** All buffers of one item, ready to be merged. */
  method Fill(it: Item) returns (buf: Encbuf)
    requires |Encode(it)| < SIZE_LIMIT
    ensures fresh(buf) && buf.str == StrPart(it) && buf.lheads == Heads(it, 0, [])
    ensures Ordered(buf.lheads, 0, |buf.str|) && Render(buf.str, buf.lheads, 0) == Encode(it)
    ensures buf.Size() == |Encode(it)|
  {
    buf := new Encbuf();
    buf.Write(it);
    assert [] + StrPart(it) == StrPart(it) && [] + Heads(it, 0, []) == Heads(it, 0, []);
    RenderIsEncode(it);
    LengthSplits(it);
  }

  method EncodeToBytes(it: Item) returns (r: Bytes)
    requires |Encode(it)| < SIZE_LIMIT
    ensures r == Encode(it)
  {
    var buf := Fill(it);
    r := ToBytes(buf.str, buf.lheads, buf.Size());
  }

  method EncodeToWriter(it: Item) returns (out: Bytes)
    requires |Encode(it)| < SIZE_LIMIT
    ensures out == Encode(it)
  {
    var buf := Fill(it);
    out := ToWriter(buf.str, buf.lheads);
  }

  function Sum(caps: seq<nat>): (n: nat) {
    if caps == [] then 0 else Sum(caps[..|caps| - 1]) + caps[|caps| - 1]
  }

  /** Announces the size, then reads with buffers of any sizes. What has been read is a prefix
      of the encoding as long as the buffers were filled, and all of it at the end. */
  method EncodeToReader(it: Item, caps: seq<nat>) returns (size: nat, got: Bytes, eof: bool)
    requires |Encode(it)| < SIZE_LIMIT
    ensures size == |Encode(it)|
    ensures got <= Encode(it)
    ensures eof ==> got == Encode(it)
    ensures !eof ==> |got| == Sum(caps)
  {
    var buf := Fill(it);
    size := buf.Size();
    var r := new EncReader(buf.str, buf.lheads);
    got, eof := [], false;
    assert [] + r.Rest() == r.Rest();
    var i := 0;
    while i < |caps| && !eof
      invariant i <= |caps| && r.Valid() && got + r.Rest() == Encode(it)
      invariant eof ==> r.Rest() == []
      invariant !eof ==> |got| == Sum(caps[..i])
      decreases |caps| - i
    {
      ghost var before := r.Rest();
      var b, end := r.Read(caps[i]);
      Assoc(got, b, r.Rest());
      assert caps[..i + 1][..i] == caps[..i];
      got, eof := got + b, end;
      i := i + 1;
    }
    assert caps[..|caps|] == caps;
    assert eof ==> got + [] == got;
  }
}
