/** Recursive Length Prefix encoding (Appendix B of the Ethereum Yellow Paper) and the
    decoder that works on byte slices. Values are item trees, which is what decoding into an
    empty interface yields. */
module Rlp {
  import opened Common

  datatype Item = Str(b: Bytes) | List(items: seq<Item>)

  datatype Kind = ByteKind | StringKind | ListKind

  datatype Error =
    | UnexpectedEOF
    | CanonSize
    | ValueTooLarge
    | ElemTooLarge
    | ExpectedString
    | ExpectedList
    | MoreThanOneValue
    | EOL
    | NotInList
    | NotAtEOL

  datatype Header = Header(kind: Kind, tagsize: nat, contentsize: nat)

  /** Sizes are 64-bit numbers. */
  const SIZE_LIMIT: nat := 0x1_0000_0000_0000_0000

  // ----- The encoding, by structure

  /** Shortest big-endian form. */
  function BigEndian(n: nat): (r: Bytes)
    ensures |r| > 0
  {
    if n < 256 then [n as Byte] else BigEndian(n / 256) + [(n % 256) as Byte]
  }

  function FromBigEndian(s: Bytes): (n: nat) {
    if s == [] then 0 else FromBigEndian(s[..|s| - 1]) * 256 + s[|s| - 1] as int
  }

  /** A string or list header. No value in memory reaches the size limit, so the last case
      never arises; it keeps the function total. */
  function Head(small: Byte, large: Byte, size: nat): (r: Bytes)
    requires small <= 200 && large <= 247
  {
    if size < 56 then [small + size as Byte]
    else
      var be := BigEndian(size);
      if |be| <= 8 then [large + |be| as Byte] + be else [large]
  }

  function Encode(it: Item): (r: Bytes) {
    match it
    case Str(b) => if |b| == 1 && b[0] < 0x80 then b else Head(0x80, 0xB7, |b|) + b
    case List(items) => Head(0xC0, 0xF7, |EncodeAll(items)|) + EncodeAll(items)
  }

  function EncodeAll(items: seq<Item>): (r: Bytes) {
    if items == [] then [] else Encode(items[0]) + EncodeAll(items[1..])
  }

  /** The minimal big-endian form of a size: up to eight bytes, the first of them not zero. */
  ghost predicate SizeBytes(be: Bytes, size: nat) {
    1 <= |be| <= 8 && be[0] != 0 && FromBigEndian(be) == size
  }

  /** A payload with its head: one byte for up to 55 bytes, and the length of the length before the
      length for more. */
  ghost predicate Headed(r: Bytes, small: int, large: int, payload: Bytes) {
    if |payload| <= 55 then |r| == |payload| + 1 && r[0] as int == small + |payload| && r[1..] == payload
    else exists be :: SizeBytes(be, |payload|) && |r| == 1 + |be| + |payload| && r[0] as int == large + |be| &&
                      r[1..1 + |be|] == be && r[1 + |be|..] == payload
  }

  // ----- Reading a header from a slice

  function Fits(buf: Bytes, k: Kind, tagsize: nat, contentsize: nat): (r: Result<Header, Error>)
    requires tagsize <= |buf|
  {
    if contentsize > |buf| - tagsize then Err(ValueTooLarge) else Ok(Header(k, tagsize, contentsize))
  }

  function ReadSize(b: Bytes, slen: nat): (r: Result<nat, Error>)
    requires 1 <= slen <= 8
    ensures r.Ok? ==> slen <= |b|
  {
    if slen > |b| then Err(UnexpectedEOF)
    else
      var s := FromBigEndian(b[..slen]);
      if s < 56 || b[0] == 0 then Err(CanonSize) else Ok(s)
  }

  function ReadSized(buf: Bytes, k: Kind, slen: nat): (r: Result<Header, Error>)
    requires 1 <= slen <= 8 && |buf| > 0
  {
    match ReadSize(buf[1..], slen)
    case Err(e) => Err(e)
    case Ok(s) => Fits(buf, k, slen + 1, s)
  }

  function ReadKind(buf: Bytes): (r: Result<Header, Error>)
    ensures r.Ok? ==> r.value.tagsize + r.value.contentsize <= |buf| && r.value.tagsize + r.value.contentsize > 0
    ensures r.Ok? && r.value.kind.ListKind? ==> r.value.tagsize > 0
  {
    if buf == [] then Err(UnexpectedEOF)
    else
      var b := buf[0];
      if b < 0x80 then Ok(Header(ByteKind, 0, 1))
      else if b < 0xB8 then
        if b == 0x81 && |buf| > 1 && buf[1] < 128 then Err(CanonSize) else Fits(buf, StringKind, 1, (b - 0x80) as int)
      else if b < 0xC0 then ReadSized(buf, StringKind, (b - 0xB7) as int)
      else if b < 0xF8 then Fits(buf, ListKind, 1, (b - 0xC0) as int)
      else ReadSized(buf, ListKind, (b - 0xF7) as int)
  }

  datatype Piece = Piece(kind: Kind, content: Bytes, rest: Bytes)

  function Split(b: Bytes): (r: Result<Piece, Error>)
    ensures r.Ok? ==> |r.value.content| + |r.value.rest| <= |b| && |r.value.rest| < |b|
    ensures r.Ok? && r.value.kind.ListKind? ==> |r.value.content| < |b|
  {
    match ReadKind(b)
    case Err(e) => Err(e)
    case Ok(h) => Ok(Piece(h.kind, b[h.tagsize..h.tagsize + h.contentsize], b[h.tagsize + h.contentsize..]))
  }

  function SplitString(b: Bytes): (r: Result<Piece, Error>)
    ensures r.Ok? ==> |r.value.rest| < |b|
  {
    match Split(b)
    case Err(e) => Err(e)
    case Ok(p) => if p.kind.ListKind? then Err(ExpectedString) else Ok(p)
  }

  function SplitList(b: Bytes): (r: Result<Piece, Error>)
    ensures r.Ok? ==> |r.value.content| < |b|
  {
    match Split(b)
    case Err(e) => Err(e)
    case Ok(p) => if !p.kind.ListKind? then Err(ExpectedList) else Ok(p)
  }

  /** Number of values laid end to end in `b`; zero with an error when one is malformed. */
  function Count(b: Bytes): (r: Result<nat, Error>) {
    if b == [] then Ok(0)
    else
      match ReadKind(b)
      case Err(e) => Err(e)
      case Ok(h) =>
        match Count(b[h.tagsize + h.contentsize..])
        case Err(e) => Err(e)
        case Ok(n) => Ok(n + 1)
  }

  method CountValues(bIn: Bytes) returns (r: Result<nat, Error>)
    ensures r == Count(bIn)
  {
    var b, i := bIn, 0;
    while |b| > 0
      invariant Count(bIn) == (match Count(b) case Ok(n) => Ok(n + i) case Err(e) => Err(e))
      decreases |b|
    {
      match ReadKind(b) {
        case Err(e) => return Err(e);
        case Ok(h) => b := b[h.tagsize + h.contentsize..];
      }
      i := i + 1;
    }
    return Ok(i);
  }

  // ----- Decoding into an item tree

  datatype Parsed = Parsed(item: Item, size: nat)

  /** The value at the front of `b` and its size. */
  function Parse(b: Bytes): (r: Option<Parsed>)
    ensures r.Some? ==> 0 < r.value.size <= |b|
    decreases |b|, 0
  {
    match ReadKind(b)
    case Err(_) => None
    case Ok(h) =>
      var content := b[h.tagsize..h.tagsize + h.contentsize];
      if h.kind.ListKind? then
        match ParseAll(content)
        case None => None
        case Some(items) => Some(Parsed(List(items), h.tagsize + h.contentsize))
      else Some(Parsed(Str(content), h.tagsize + h.contentsize))
  }

  /** All values laid end to end in `b`. */
  function ParseAll(b: Bytes): (r: Option<seq<Item>>)
    decreases |b|, 1
  {
    if b == [] then Some([])
    else
      match Parse(b)
      case None => None
      case Some(p) =>
        match ParseAll(b[p.size..])
        case None => None
        case Some(items) => Some([p.item] + items)
  }

  // ----- Big-endian numbers

  lemma {:induction false} BigEndianRoundTrip(n: nat)
    ensures FromBigEndian(BigEndian(n)) == n
    ensures n > 0 ==> BigEndian(n)[0] != 0
  {
    if n >= 256 {
      BigEndianRoundTrip(n / 256);
      var r := BigEndian(n);
      assert r[..|r| - 1] == BigEndian(n / 256);
    } else {
      assert BigEndian(n)[..0] == [];
    }
  }

  lemma {:induction false} FromBigEndianMinimal(s: Bytes)
    requires s != [] && s[0] != 0
    ensures FromBigEndian(s) > 0 && BigEndian(FromBigEndian(s)) == s
  {
    var init, d := s[..|s| - 1], s[|s| - 1];
    assert s == init + [d];
    if init == [] {
      assert FromBigEndian(s) == d as int;
    } else {
      FromBigEndianMinimal(init);
      var n := FromBigEndian(init);
      assert (n * 256 + d as int) / 256 == n && (n * 256 + d as int) % 256 == d as int;
    }
  }

  function Pow256(k: nat): (r: nat)
    ensures r > 0
  {
    if k == 0 then 1 else 256 * Pow256(k - 1)
  }

  /** A number below 256^k, and only such a number, takes at most k bytes. */
  lemma {:induction false} BigEndianLength(n: nat, k: nat)
    requires k > 0
    ensures |BigEndian(n)| <= k <==> n < Pow256(k)
  {
    if n >= 256 && k > 1 {
      BigEndianLength(n / 256, k - 1);
      assert n < 256 * Pow256(k - 1) <==> n / 256 < Pow256(k - 1);
    } else if n >= 256 {
      assert Pow256(1) == 256 * Pow256(0);
    } else {
      assert Pow256(k) == 256 * Pow256(k - 1);
    }
  }

  lemma SizeFitsEightBytes(n: nat)
    ensures |BigEndian(n)| <= 8 <==> n < SIZE_LIMIT
  {
    BigEndianLength(n, 8);
    assert Pow256(2) == 0x1_0000;
    assert Pow256(4) == 0x1_0000_0000;
    assert Pow256(6) == 0x1_0000_0000_0000;
    assert Pow256(8) == SIZE_LIMIT;
  }

  // ----- Headers

  lemma ReadLongHead(k: Kind, be: Bytes, body: Bytes)
    requires !k.ByteKind? && 1 <= |be| <= 8 && be[0] != 0 && 56 <= FromBigEndian(be) <= |body|
    ensures ReadKind([(if k.ListKind? then 0xF7 else 0xB7) + |be| as Byte] + be + body) ==
            Ok(Header(k, 1 + |be|, FromBigEndian(be)))
  {
    var buf := [(if k.ListKind? then 0xF7 else 0xB7) + |be| as Byte] + be + body;
    assert buf[1..][..|be|] == be;
    assert buf[1..][0] == be[0];
  }

  /** Reading the header that `Head` wrote gives the kind and the size back. */
  lemma ReadHead(k: Kind, size: nat, body: Bytes)
    requires !k.ByteKind? && size < SIZE_LIMIT && size <= |body|
    requires k.StringKind? && size == 1 ==> body[0] >= 128
    ensures
      var head := if k.ListKind? then Head(0xC0, 0xF7, size) else Head(0x80, 0xB7, size);
      ReadKind(head + body) == Ok(Header(k, |head|, size))
  {
    if size >= 56 {
      SizeFitsEightBytes(size);
      BigEndianRoundTrip(size);
      ReadLongHead(k, BigEndian(size), body);
    } else {
      var buf := [(if k.ListKind? then 0xC0 else 0x80) + size as Byte] + body;
      assert |body| > 0 ==> buf[1] == body[0];
    }
  }

  /** Only the canonical header is accepted. */
  lemma HeadIsCanonical(buf: Bytes)
    requires ReadKind(buf).Ok?
    ensures
      var h := ReadKind(buf).value;
      match h.kind
      case ByteKind => h.tagsize == 0 && h.contentsize == 1 && buf[0] < 0x80
      case StringKind =>
        && buf[..h.tagsize] == Head(0x80, 0xB7, h.contentsize)
        && (h.contentsize == 1 ==> buf[h.tagsize] >= 128)
      case ListKind => buf[..h.tagsize] == Head(0xC0, 0xF7, h.contentsize)
  {
    var h := ReadKind(buf).value;
    if h.tagsize > 1 {
      var slen := h.tagsize - 1;
      FromBigEndianMinimal(buf[1..][..slen]);
      assert buf[..h.tagsize] == [buf[0]] + buf[1..][..slen];
    } else if h.tagsize == 1 {
      assert buf[..1] == [buf[0]];
    }
  }

  // ----- Decoding inverts encoding

  lemma HeadIs(small: Byte, large: Byte, payload: Bytes)
    requires small <= 200 && large <= 247 && |payload| < SIZE_LIMIT
    ensures Headed(Head(small, large, |payload|) + payload, small as int, large as int, payload)
  {
    var size, r := |payload|, Head(small, large, |payload|) + payload;
    if size > 55 {
      var be := BigEndian(size);
      BigEndianRoundTrip(size);
      SizeFitsEightBytes(size);
      assert SizeBytes(be, size);
      assert r[1..1 + |be|] == be && r[1 + |be|..] == payload;
    }
  }

  /** The encoding by Appendix B of the Yellow Paper: a single byte below 128 stands for itself, other
      strings come with a head from 128 or 183 on, and lists with one from 192 or 247 on. */
  lemma EncodeIs(it: Item)
    requires |Encode(it)| < SIZE_LIMIT
    ensures it.Str? && |it.b| == 1 && it.b[0] as int <= 127 ==> Encode(it) == it.b
    ensures it.Str? && !(|it.b| == 1 && it.b[0] as int <= 127) ==> Headed(Encode(it), 128, 183, it.b)
    ensures it.List? ==> Headed(Encode(it), 192, 247, EncodeAll(it.items))
  {
    match it
    case Str(b) => HeadIs(0x80, 0xB7, b);
    case List(items) => HeadIs(0xC0, 0xF7, EncodeAll(items));
  }

  lemma EncodeAllSize(items: seq<Item>, i: nat)
    requires i < |items|
    ensures |Encode(items[i])| <= |EncodeAll(items)|
  {
    if i > 0 {
      EncodeAllSize(items[1..], i - 1);
    }
  }

  /** What a reader sees at the front of an encoding. */
  lemma ReadEncoded(it: Item, rest: Bytes) returns (h: Header)
    requires |Encode(it)| < SIZE_LIMIT
    ensures ReadKind(Encode(it) + rest) == Ok(h) && h.tagsize + h.contentsize == |Encode(it)|
    ensures h.kind.ListKind? <==> it.List?
    ensures it.Str? && |it.b| != 1 ==> h.kind.StringKind?
    ensures (Encode(it) + rest)[h.tagsize..h.tagsize + h.contentsize] == if it.List? then EncodeAll(it.items) else it.b
  {
    if it.Str? && |it.b| == 1 && it.b[0] < 0x80 {
      h := Header(ByteKind, 0, 1);
    } else {
      var k := if it.List? then ListKind else StringKind;
      var body := if it.List? then EncodeAll(it.items) else it.b;
      var head := if it.List? then Head(0xC0, 0xF7, |body|) else Head(0x80, 0xB7, |body|);
      ReadHead(k, |body|, body + rest);
      assert head + (body + rest) == Encode(it) + rest;
      h := Header(k, |head|, |body|);
    }
  }

  lemma ParseUnfold(b: Bytes, h: Header, content: Bytes)
    requires ReadKind(b) == Ok(h) && content == b[h.tagsize..h.tagsize + h.contentsize]
    ensures !h.kind.ListKind? ==> Parse(b) == Some(Parsed(Str(content), h.tagsize + h.contentsize))
    ensures h.kind.ListKind? && ParseAll(content).Some? ==>
              Parse(b) == Some(Parsed(List(ParseAll(content).value), h.tagsize + h.contentsize))
  {
  }

  /** The first value of any input that starts with an encoding is the encoded item. */
  lemma {:induction false} ParseEncoded(it: Item, rest: Bytes)
    requires |Encode(it)| < SIZE_LIMIT
    ensures Parse(Encode(it) + rest) == Some(Parsed(it, |Encode(it)|))
    decreases it, 0
  {
    var h := ReadEncoded(it, rest);
    var content := if it.List? then EncodeAll(it.items) else it.b;
    if it.List? {
      ParseAllEncoded(it.items);
    }
    ParseUnfold(Encode(it) + rest, h, content);
  }

  lemma {:induction false} ParseAllEncoded(items: seq<Item>)
    requires |EncodeAll(items)| < SIZE_LIMIT
    ensures ParseAll(EncodeAll(items)) == Some(items)
    decreases items, 1
  {
    if items != [] {
      EncodeAllSize(items, 0);
      ParseEncoded(items[0], EncodeAll(items[1..]));
      assert EncodeAll(items)[|Encode(items[0])|..] == EncodeAll(items[1..]);
      ParseAllEncoded(items[1..]);
      assert items == [items[0]] + items[1..];
    }
  }

  lemma EncodeAllCons(x: Item, xs: seq<Item>)
    ensures EncodeAll([x] + xs) == Encode(x) + EncodeAll(xs)
  {
  }

  lemma StringIsCanonical(b: Bytes)
    requires ReadKind(b).Ok? && !ReadKind(b).value.kind.ListKind?
    ensures
      var h := ReadKind(b).value;
      b[..h.tagsize + h.contentsize] == Encode(Str(b[h.tagsize..h.tagsize + h.contentsize]))
  {
    HeadIsCanonical(b);
    var h := ReadKind(b).value;
    var content := b[h.tagsize..h.tagsize + h.contentsize];
    assert b[..h.tagsize + h.contentsize] == b[..h.tagsize] + content;
    assert h.contentsize == 1 ==> content[0] == b[h.tagsize];
  }

  /** Whatever is accepted is the canonical encoding of the result: no other form of a size,
      and no long form of a single byte, gets through. */
  lemma {:induction false} ParseIsCanonical(b: Bytes)
    requires Parse(b).Some?
    ensures b[..Parse(b).value.size] == Encode(Parse(b).value.item)
    decreases |b|, 0
  {
    hide ReadKind, Head;
    var h := ReadKind(b).value;
    if h.kind.ListKind? {
      HeadIsCanonical(b);
      var content := b[h.tagsize..h.tagsize + h.contentsize];
      ParseAllIsCanonical(content);
      assert b[..h.tagsize + h.contentsize] == b[..h.tagsize] + content;
    } else {
      StringIsCanonical(b);
    }
  }

  lemma {:induction false} ParseAllIsCanonical(b: Bytes)
    requires ParseAll(b).Some?
    ensures b == EncodeAll(ParseAll(b).value)
    decreases |b|, 1
  {
    if b != [] {
      ParseIsCanonical(b);
      var p := Parse(b).value;
      var rest := ParseAll(b[p.size..]).value;
      ParseAllIsCanonical(b[p.size..]);
      EncodeAllCons(p.item, rest);
      assert b == b[..p.size] + b[p.size..];
    }
  }

  /** Encodings determine their items. */
  lemma EncodeInjective(a: Item, b: Item)
    requires Encode(a) == Encode(b) && |Encode(a)| < SIZE_LIMIT
    ensures a == b
  {
    ParseEncoded(a, []);
    ParseEncoded(b, []);
    assert Encode(a) + [] == Encode(b) + [];
  }

  lemma {:induction false} CountEncoded(items: seq<Item>)
    requires |EncodeAll(items)| < SIZE_LIMIT
    ensures Count(EncodeAll(items)) == Ok(|items|)
  {
    if items != [] {
      EncodeAllSize(items, 0);
      var _ := ReadEncoded(items[0], EncodeAll(items[1..]));
      assert EncodeAll(items)[|Encode(items[0])|..] == EncodeAll(items[1..]);
      CountEncoded(items[1..]);
    }
  }

  /** Splitting off an encoded item gives its content and leaves the rest. */
  lemma SplitEncoded(it: Item, rest: Bytes)
    requires |Encode(it)| < SIZE_LIMIT
    ensures Split(Encode(it) + rest).Ok?
    ensures
      var p := Split(Encode(it) + rest).value;
      && p.rest == rest
      && (p.kind.ListKind? <==> it.List?)
      && p.content == (if it.List? then EncodeAll(it.items) else it.b)
      && (it.Str? && |it.b| != 1 ==> p.kind.StringKind?)
  {
    var h := ReadEncoded(it, rest);
    assert (Encode(it) + rest)[|Encode(it)|..] == rest;
  }
}
