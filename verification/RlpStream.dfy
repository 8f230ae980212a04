/** The streaming RLP decoder. A stream reads its input once, front to back, and keeps the
    lists it is inside of on a stack. */
module RlpStream {
  import opened Common
  import opened Rlp

  /** The lists being read, innermost first: how much has been read of each, and its size. */
  datatype Stack = Toplevel | Inside(pos: nat, size: nat, outer: Stack)

  function Advance(stack: Stack, n: nat): (r: Stack) {
    match stack
    case Toplevel => Toplevel
    case Inside(pos, size, outer) => Inside(pos + n, size, outer)
  }

  /** Header at the front of `w` as the stream reads it: the content of a string is not looked
      at yet, and a single byte is all tag. */
  function RawHead(w: Bytes): (r: Result<Header, Error>)
    ensures r.Ok? ==> 0 < r.value.tagsize <= |w|
    ensures r.Ok? && r.value.kind.ByteKind? ==> r.value.contentsize == 0
    ensures r.Err? ==> r.error != EOL
  {
    if w == [] then Err(UnexpectedEOF)
    else
      var b := w[0];
      if b < 0xB8 || 0xC0 <= b < 0xF8 then Ok(Header(ReadShort(b), 1, ShortSize(b)))
      else if b < 0xC0 then RawSized(w, StringKind, (b - 0xB7) as int)
      else RawSized(w, ListKind, (b - 0xF7) as int)
  }

  /** Kind told by a tag that carries the size itself. */
  function ReadShort(b: Byte): (k: Kind) {
    if b < 0x80 then ByteKind else if b < 0xB8 then StringKind else ListKind
  }

  function ShortSize(b: Byte): (n: nat) {
    if b < 0x80 then 0 else if b < 0xB8 then (b - 0x80) as int else if b < 0xC0 then 0 else (b - 0xC0) as int
  }

  function RawSized(w: Bytes, k: Kind, slen: nat): (r: Result<Header, Error>)
    requires |w| > 0 && 1 <= slen <= 8
    ensures r.Ok? ==> r.value.kind == k && 0 < r.value.tagsize <= |w|
    ensures r.Err? ==> r.error != EOL
  {
    match ReadSize(w[1..], slen)
    case Err(e) => Err(e)
    case Ok(s) => Ok(Header(k, slen + 1, s))
  }

  /** The same, refused when the value does not fit into `w`. */
  function StreamHead(w: Bytes): (r: Result<Header, Error>)
    ensures r.Ok? ==> 0 < r.value.tagsize && r.value.tagsize + r.value.contentsize <= |w|
    ensures r.Ok? && r.value.kind.ByteKind? ==> r.value.contentsize == 0
    ensures r.Err? ==> r.error != EOL
  {
    match RawHead(w)
    case Err(e) => Err(e)
    case Ok(h) => if h.contentsize > |w| - h.tagsize then Err(ValueTooLarge) else Ok(h)
  }

  /** The stream and the slice reader agree on what the next value is and where it ends,
      except that the slice reader already rejects the long form of a single byte here. */
  lemma StreamAgreesWithSlice(w: Bytes)
    ensures ReadKind(w).Ok? <==>
            StreamHead(w).Ok? && !(StreamHead(w).value.kind.StringKind? && StreamHead(w).value.contentsize == 1 &&
                                   w[1] < 128)
    ensures ReadKind(w).Ok? ==>
              && ReadKind(w).value.kind == StreamHead(w).value.kind
              && ReadKind(w).value.tagsize + ReadKind(w).value.contentsize ==
                 StreamHead(w).value.tagsize + StreamHead(w).value.contentsize
              && (!ReadKind(w).value.kind.ByteKind? ==> ReadKind(w).value == StreamHead(w).value)
  {
  }

  /** What a value is, once its header `h` has been read from the front of `w`. */
  function Body(w: Bytes, h: Header): (r: Option<Parsed>)
    requires 0 < h.tagsize && h.tagsize + h.contentsize <= |w|
  {
    var content := w[h.tagsize..h.tagsize + h.contentsize];
    match h.kind
    case ByteKind => Some(Parsed(Str([w[0]]), h.tagsize + h.contentsize))
    case StringKind =>
      if h.contentsize == 1 && content[0] < 128 then None else Some(Parsed(Str(content), h.tagsize + h.contentsize))
    case ListKind =>
      match ParseAll(content)
      case None => None
      case Some(items) => Some(Parsed(Item.List(items), h.tagsize + h.contentsize))
  }

  /** The value at the front of `w` as the stream decodes it. */
  function Next(w: Bytes): (r: Option<Parsed>) {
    match StreamHead(w)
    case Err(_) => None
    case Ok(h) => Body(w, h)
  }

  lemma ParseByHead(w: Bytes)
    ensures Parse(w) == Next(w)
  {
    StreamAgreesWithSlice(w);
    if ReadKind(w).Ok? && ReadKind(w).value.kind.ByteKind? {
      assert w[0..1] == [w[0]];
    }
  }

  class Stream {
    const input: Bytes
    var pos: nat
    var remaining: nat
    var kind: Option<Kind>
    var size: nat
    var byteval: Byte
    var kinderr: Option<Error>
    var stack: Stack

    /** Bytes the next value may take: the rest of the innermost list, or of the input. */
    ghost function Room(): nat
      reads this
      requires stack.Inside? ==> stack.pos <= stack.size
    {
      if stack.Inside? then stack.size - stack.pos else remaining
    }

    ghost predicate Valid()
      reads this
    {
      && pos + remaining == |input|
      && (stack.Inside? ==> stack.pos <= stack.size)
      && Room() <= remaining
    }

    ghost function Window(): Bytes
      reads this
      requires Valid()
    {
      input[pos..pos + Room()]
    }

    /** `n` bytes have been taken since the state (`pos0`, `rem0`, `stack0`). */
    ghost predicate Took(pos0: nat, rem0: nat, stack0: Stack, n: nat)
      reads this
    {
      && pos == pos0 + n
      && rem0 == remaining + n
      && stack == Advance(stack0, n)
    }

    constructor (data: Bytes)
      ensures input == data && Valid() && pos == 0 && kind == None && stack == Toplevel && remaining == |data|
    {
      input := data;
      pos := 0;
      remaining := |data|;
      kind := None;
      size := 0;
      byteval := 0;
      kinderr := None;
      stack := Toplevel;
    }

    method WillRead(n: nat) returns (err: Option<Error>)
      requires Valid()
      modifies this
      ensures kind == None
      ensures err == None <==> n <= old(Room())
      ensures err == None ==> Valid() && Took(old(pos), old(remaining), old(stack), n) && byteval == old(byteval)
      ensures err != Some(EOL)
    {
      kind := None;
      if stack.Inside? {
        if n > stack.size - stack.pos {
          return Some(ElemTooLarge);
        }
        stack := stack.(pos := stack.pos + n);
      }
      if n > remaining {
        return Some(ValueTooLarge);
      }
      remaining := remaining - n;
      pos := pos + n;
      return None;
    }

    method ReadFull(n: nat) returns (r: Result<Bytes, Error>)
      requires Valid()
      modifies this
      ensures kind == None
      ensures r.Ok? <==> n <= old(Room())
      ensures r.Ok? ==>
        && Valid()
        && Took(old(pos), old(remaining), old(stack), n)
        && r.value == old(input[pos..pos + n])
        && byteval == old(byteval)
      ensures r.Err? ==> r.error != EOL
    {
      var start := pos;
      var err := WillRead(n);
      if err.Some? {
        return Err(err.value);
      }
      return Ok(input[start..start + n]);
    }

    /** Big-endian size of `n` bytes. */
    method ReadUint(n: nat) returns (r: Result<nat, Error>)
      requires Valid() && 1 <= n <= 8
      modifies this
      ensures kind == None
      ensures r.Ok? <==> n <= old(Room()) && (n > 1 ==> old(input[pos]) != 0)
      ensures r.Ok? ==>
        && Valid()
        && Took(old(pos), old(remaining), old(stack), n)
        && r.value == FromBigEndian(old(input[pos..pos + n]))
        && byteval == old(byteval)
      ensures r.Err? ==> r.error != EOL
    {
      var bytes := ReadFull(n);
      match bytes
      case Err(e) => return Err(e);
      case Ok(buf) =>
        if n > 1 && buf[0] == 0 {
          return Err(CanonSize);
        }
        return Ok(FromBigEndian(buf));
    }

    method ReadKind() returns (k: Kind, sz: nat, err: Option<Error>)
      requires Valid()
      modifies this
      ensures err != Some(EOL)
      ensures err == None <==> RawHead(old(Window())).Ok?
      ensures err == None ==>
        Valid() && ReadHeader(old(pos), old(remaining), old(stack), RawHead(old(Window())).value, k, sz, old(Window()))
    {
      ghost var w := Window();
      var first := ReadFull(1);
      match first
      case Err(e) =>
        return ByteKind, 0, Some(e);
      case Ok(buf) =>
        var b := buf[0];
        assert b == w[0];
        byteval := if b < 0x80 then b else 0;
        if b < 0xB8 || 0xC0 <= b < 0xF8 {
          k, sz, err := ReadShort(b), ShortSize(b), None;
        } else {
          k := if b < 0xC0 then StringKind else ListKind;
          var slen := (b - if b < 0xC0 then 0xB7 else 0xF7) as int;
          sz, err := ReadLongSize(slen, w);
        }
    }

    /** The header `h` at the front of `w` has been read and reported. */
    ghost predicate ReadHeader(pos0: nat, rem0: nat, stack0: Stack, h: Header, k: Kind, sz: nat, w: Bytes)
      reads this
    {
      Took(pos0, rem0, stack0, h.tagsize) && h.kind == k && h.contentsize == sz &&
        (k.ByteKind? ==> w != [] && byteval == w[0])
    }

    /** The size bytes of a long header; `w` is the window the tag was read from. */
    method ReadLongSize(slen: nat, ghost w: Bytes) returns (sz: nat, err: Option<Error>)
      requires Valid() && 1 <= slen <= 8 && |w| > 0 && Window() == w[1..]
      modifies this
      ensures err != Some(EOL)
      ensures err == None <==> ReadSize(w[1..], slen).Ok?
      ensures err == None ==>
        && Valid()
        && Took(old(pos), old(remaining), old(stack), slen)
        && sz == ReadSize(w[1..], slen).value
        && byteval == old(byteval)
    {
      var v := ReadUint(slen);
      match v
      case Err(e) =>
        return 0, Some(e);
      case Ok(n) =>
        assert old(input[pos..pos + slen]) == w[1..][..slen];
        if n < 56 {
          return n, Some(CanonSize);
        }
        assert slen == 1 ==> FromBigEndian(w[1..][..slen]) == w[1..][0] as int;
        return n, None;
    }

    /** Reads the next header and checks that the value fits where it is. */
    method Peek()
      requires Valid()
      modifies this
      ensures kind.Some? && kinderr != Some(EOL)
      ensures kinderr == None <==> StreamHead(old(Window())).Ok?
      ensures kinderr == None ==>
        && Valid()
        && ReadHeader(old(pos), old(remaining), old(stack), StreamHead(old(Window())).value, kind.value, size,
                      old(Window()))
    {
      var k, sz, err := ReadKind();
      kind, size, kinderr := Some(k), sz, err;
      if kinderr == None {
        if stack.Toplevel? {
          if size > remaining {
            kinderr := Some(ValueTooLarge);
          }
        } else if size > stack.size - stack.pos {
          kinderr := Some(ElemTooLarge);
        }
      }
    }

    /** Kind and size of the next value. A second call returns what the first one found. */
    method Kind() returns (k: Kind, sz: nat, err: Option<Error>)
      requires kind == None ==> Valid()
      modifies this
      ensures old(kind) != None ==> unchanged(this) && err == kinderr && kind == Some(k) && sz == size
      ensures old(kind) == None ==>
                && (err == Some(EOL) <==> old(stack.Inside? && Room() == 0))
                && (err == Some(EOL) ==>
                      kind == None && pos == old(pos) && remaining == old(remaining) && stack == old(stack))
                && (err == None <==> StreamHead(old(Window())).Ok?)
      ensures old(kind) == None && err == None ==>
                && kind == Some(k) && size == sz && kinderr == None
                && Valid() && ReadHeader(old(pos), old(remaining), old(stack), StreamHead(old(Window())).value, k, sz,
                                         old(Window()))
    {
      if kind == None {
        kinderr := None;
        if stack.Inside? && stack.pos == stack.size {
          return ByteKind, 0, Some(EOL);
        }
        Peek();
      }
      return kind.value, size, kinderr;
    }

    /** Between values, or at one whose header has been read. */
    ghost predicate Ready()
      reads this
    {
      && (kind == None ==> Valid())
      && (kind.Some? && kinderr == None ==> Valid() && size <= Room() && (kind.value.ByteKind? ==> size == 0))
    }

    /** The content of the string whose header has been read. */
    method Content() returns (r: Result<Bytes, Error>)
      requires kind.Some? && kinderr == None && !kind.value.ListKind? && Ready()
      modifies this
      ensures r.Err? ==> r.error != EOL
      ensures old(kind.value.ByteKind?) ==> r == Ok([old(byteval)]) && Took(old(pos), old(remaining), old(stack), 0)
      ensures old(kind.value.StringKind?) ==>
                && (r.Ok? <==> !old(size == 1 && input[pos] < 128))
                && (r.Ok? ==>
                      Took(old(pos), old(remaining), old(stack), old(size)) && r.value == old(input[pos..pos + size]))
      ensures r.Ok? ==> Valid() && kind == None
    {
      if kind.value.ByteKind? {
        kind := None;
        return Ok([byteval]);
      } else {
        var sz := size;
        r := ReadFull(sz);
        if r.Ok? && sz == 1 && r.value[0] < 128 {
          r := Err(CanonSize);
        }
      }
    }

    /** Reads a string or a single byte; anything else is an error. */
    method Bytes() returns (r: Result<Bytes, Error>)
      requires Ready()
      modifies this
      ensures old(kind.Some? && kinderr.Some?) ==> unchanged(this) && r == Err(kinderr.value)
      ensures old(kind == Some(ListKind) && kinderr == None) ==> unchanged(this) && r == Err(ExpectedString)
      ensures old(kind == Some(ByteKind) && kinderr == None) ==>
                r == Ok([old(byteval)]) && Took(old(pos), old(remaining), old(stack), 0)
      ensures old(kind == Some(StringKind) && kinderr == None) ==>
                && (r.Ok? <==> !old(size == 1 && input[pos] < 128)) && (r.Err? ==> r.error != EOL)
                && (r.Ok? ==>
                      Took(old(pos), old(remaining), old(stack), old(size)) && r.value == old(input[pos..pos + size]))
      ensures old(kind) == None ==>
                && (r.Ok? <==> Next(old(Window())).Some? && Next(old(Window())).value.item.Str?)
                && (r.Ok? ==>
                      && Took(old(pos), old(remaining), old(stack), Next(old(Window())).value.size)
                      && r.value == Next(old(Window())).value.item.b)
      ensures r.Ok? ==> Valid() && kind == None
    {
      if kind == None {
        r := NextBytes();
        return;
      }
      var k, sz, err := Kind();
      if err.Some? {
        return Err(err.value);
      }
      if k.ListKind? {
        return Err(ExpectedString);
      }
      r := Content();
    }

    /** The same when the header has not been read. */
    method NextBytes() returns (r: Result<Bytes, Error>)
      requires kind == None && Valid()
      modifies this
      ensures r.Ok? <==> Next(old(Window())).Some? && Next(old(Window())).value.item.Str?
      ensures r.Ok? ==>
                && Took(old(pos), old(remaining), old(stack), Next(old(Window())).value.size)
                && r.value == Next(old(Window())).value.item.b
      ensures r.Ok? ==> Valid() && kind == None
    {
      hide StreamHead, ParseAll;
      ghost var w := Window();
      var k, sz, err := Kind();
      if err.Some? {
        return Err(err.value);
      }
      if k.ListKind? {
        return Err(ExpectedString);
      }
      ghost var h := StreamHead(w).value;
      SubSlice(input, old(pos), |w|, h.tagsize, h.tagsize + sz);
      r := Content();
    }

    /** Enters the list that comes next; anything else is an error. */
    method List() returns (r: Result<nat, Error>)
      requires Ready()
      modifies this
      ensures old(kind.Some? && kinderr.Some?) ==> unchanged(this) && r == Err(kinderr.value)
      ensures old(kind.Some? && kind != Some(ListKind) && kinderr == None) ==> unchanged(this) && r == Err(ExpectedList)
      ensures old(kind == Some(ListKind) && kinderr == None) ==>
                r == Ok(old(size)) && stack == Inside(0, old(size), old(stack)) && pos == old(pos) &&
                  remaining == old(remaining)
      ensures old(kind) == None ==>
                && (r.Ok? <==> StreamHead(old(Window())).Ok? && StreamHead(old(Window())).value.kind.ListKind?)
                && (r.Ok? ==>
                      var h := StreamHead(old(Window())).value;
                      && r.value == h.contentsize && pos == old(pos) + h.tagsize &&
                      remaining + h.tagsize == old(remaining)
                      && stack == Inside(0, r.value, Advance(old(stack), h.tagsize)))
      ensures r.Ok? ==> kind == None && Valid() && Room() == r.value
    {
      var k, s, err := Kind();
      if err.Some? {
        return Err(err.value);
      }
      if !k.ListKind? {
        return Err(ExpectedList);
      }
      stack := Inside(0, s, stack);
      kind := None;
      size := 0;
      return Ok(s);
    }

    /** Leaves a list that has been read to its end. */
    method ListEnd() returns (err: Option<Error>)
      modifies this
      ensures err == None <==> old(stack.Inside? && stack.pos == stack.size)
      ensures err == None ==>
                && kind == None && pos == old(pos) && remaining == old(remaining)
                && stack == Advance(old(stack).outer, old(stack).size)
      ensures err != Some(EOL)
    {
      if stack.Toplevel? {
        return Some(NotInList);
      }
      var tos := stack;
      if tos.pos != tos.size {
        return Some(NotAtEOL);
      }
      stack := tos.outer;
      if stack.Inside? {
        stack := stack.(pos := stack.pos + tos.size);
      }
      kind := None;
      size := 0;
      return None;
    }

    /** Decodes one value of any shape. */
    method DecodeInterface() returns (r: Result<Item, Error>)
      requires Valid() && kind == None
      modifies this
      ensures r == Err(EOL) <==> old(stack.Inside? && Room() == 0)
      ensures r == Err(EOL) ==> kind == None && pos == old(pos) && remaining == old(remaining) && stack == old(stack)
      ensures r.Ok? <==> Next(old(Window())).Some?
      ensures r.Ok? ==>
                && Valid() && kind == None
                && Took(old(pos), old(remaining), old(stack), Next(old(Window())).value.size)
                && r.value == Next(old(Window())).value.item
      decreases remaining, 0
    {
      ghost var w := Window();
      var k, sz, err := Kind();
      if err.Some? {
        return Err(err.value);
      }
      ghost var h := StreamHead(w).value;
      assert input[pos..pos + size] == w[h.tagsize..h.tagsize + h.contentsize] by {
        SubSlice(input, old(pos), |w|, h.tagsize, h.tagsize + sz);
      }
      r := DecodeBody(k, w, h);
    }

    method DecodeBody(k: Kind, ghost w: Bytes, ghost h: Header) returns (r: Result<Item, Error>)
      requires Valid() && kind == Some(k) && kinderr == None && size <= Room()
      requires k == h.kind && size == h.contentsize && 0 < h.tagsize && h.tagsize + h.contentsize <= |w|
      requires input[pos..pos + size] == w[h.tagsize..h.tagsize + h.contentsize]
      requires k.ByteKind? ==> byteval == w[0] && h.contentsize == 0
      modifies this
      ensures r.Err? ==> r.error != EOL
      ensures r.Ok? <==> Body(w, h).Some?
      ensures r.Ok? ==>
        && Valid()
        && kind == None
        && Took(old(pos), old(remaining), old(stack), h.contentsize)
        && r.value == Body(w, h).value.item
      decreases remaining, 4
    {
      if k.ListKind? {
        var items := DecodeListSlice();
        match items
        case Err(e) => return Err(e);
        case Ok(xs) => return Ok(Item.List(xs));
      } else {
        var content := Bytes();
        match content
        case Err(e) => return Err(e);
        case Ok(b) => return Ok(Str(b));
      }
    }

    /** Decodes the list whose header has just been read. */
    method DecodeListSlice() returns (r: Result<seq<Item>, Error>)
      requires Valid() && kind == Some(ListKind) && kinderr == None && size <= Room()
      modifies this
      ensures r.Err? ==> r.error != EOL
      ensures r.Ok? <==> ParseAll(old(input[pos..pos + size])).Some?
      ensures r.Ok? ==>
        && Valid()
        && kind == None
        && Took(old(pos), old(remaining), old(stack), old(size))
        && r.value == ParseAll(old(input[pos..pos + size])).value
      decreases remaining, 3
    {
      var sz := List();
      if sz.value == 0 {
        var err := ListEnd();
        return Ok([]);
      }
      r := DecodeSliceElems();
      if r.Ok? {
        var err := ListEnd();
      }
    }

    /** Decodes the next element of the innermost list, if there is one. */
    method DecodeElem() returns (r: Result<Item, Error>)
      requires Valid() && kind == None && stack.Inside?
      modifies this
      ensures r == Err(EOL) ==>
                old(Room()) == 0 && kind == None && pos == old(pos) && remaining == old(remaining) &&
                  stack == old(stack)
      ensures r.Err? && r.error != EOL ==> ParseAll(old(Window())) == None
      ensures r.Ok? ==>
                && Valid() && kind == None && pos > old(pos)
                && Took(old(pos), old(remaining), old(stack), pos - old(pos))
                && ParseAll(old(Window())) == Prefixed([r.value], ParseAll(Window()))
      decreases remaining, 1
    {
      ghost var w := Window();
      ParseByHead(w);
      r := DecodeInterface();
      if r.Ok? {
        ghost var n := Parse(w).value.size;
        SubSlice(input, old(pos), |w|, n, |w|);
        assert Window() == w[n..];
      }
    }

    /** Decodes elements until the innermost list is used up. */
    method DecodeSliceElems() returns (r: Result<seq<Item>, Error>)
      requires Valid() && kind == None && stack.Inside?
      modifies this
      ensures r.Err? ==> r.error != EOL
      ensures r.Ok? <==> ParseAll(old(Window())).Some?
      ensures r.Ok? ==>
                && Valid() && kind == None && Took(old(pos), old(remaining), old(stack), old(Room()))
                && r.value == ParseAll(old(Window())).value
      decreases remaining, 2
    {
      var val: seq<Item> := [];
      ghost var goal := ParseAll(Window());
      assert goal.Some? ==> [] + goal.value == goal.value;
      while true
        invariant Valid() && kind == None && stack.Inside?
        invariant pos >= old(pos) && Took(old(pos), old(remaining), old(stack), pos - old(pos))
        invariant goal == Prefixed(val, ParseAll(Window()))
        decreases remaining
      {
        ghost var left := ParseAll(Window());
        var elem := DecodeElem();
        match elem
        case Err(e) =>
          if e == EOL {
            return Ok(val);
          }
          return Err(e);
        case Ok(x) =>
          PrefixedTwice(val, x, ParseAll(Window()));
          val := val + [x];
      }
    }
  }

  lemma SubSlice(s: Bytes, at: nat, len: nat, lo: nat, hi: nat)
    requires at + len <= |s| && lo <= hi <= len
    ensures s[at..at + len][lo..hi] == s[at + lo..at + hi]
    ensures s[at..at + len][lo..] == s[at + lo..at + len]
  {
    var w := s[at..at + len];
    assert forall i :: lo <= i < hi ==> w[i] == s[at + i];
  }

  function Prefixed(done: seq<Item>, rest: Option<seq<Item>>): (r: Option<seq<Item>>) {
    match rest
    case None => None
    case Some(items) => Some(done + items)
  }

  lemma PrefixedTwice(done: seq<Item>, x: Item, rest: Option<seq<Item>>)
    ensures Prefixed(done, Prefixed([x], rest)) == Prefixed(done + [x], rest)
  {
    if rest.Some? {
      assert done + ([x] + rest.value) == done + [x] + rest.value;
    }
  }

  /** Decodes an input that must hold exactly one value. */
  method DecodeBytes(b: Bytes) returns (r: Result<Item, Error>)
    ensures r.Ok? <==> Parse(b).Some? && Parse(b).value.size == |b|
    ensures r.Ok? ==> r.value == Parse(b).value.item
  {
    var s := new Stream(b);
    assert s.Window() == b;
    ParseByHead(b);
    r := s.DecodeInterface();
    if r.Ok? && s.remaining > 0 {
      r := Err(MoreThanOneValue);
    }
  }

  /** Decoding is the exact inverse of encoding: an input is accepted if and only if it is the
      canonical encoding of an item, and that item is the result. */
  method DecodeBytesIsInverse(b: Bytes) returns (r: Result<Item, Error>)
    requires |b| < SIZE_LIMIT
    ensures forall it :: r == Ok(it) <==> Encode(it) == b
  {
    r := DecodeBytes(b);
    if r.Ok? {
      ParseIsCanonical(b);
      assert b[..|b|] == b;
    }
    forall it | Encode(it) == b ensures r == Ok(it) {
      ParseEncoded(it, []);
      assert Encode(it) + [] == b;
    }
  }
}
