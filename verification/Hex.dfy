/** Trie keys in their three encodings: KEYBYTES (the caller's bytes), HEX (one nibble per
    byte, closed by the terminator 16 when the key ends in a value) and COMPACT (the
    hex-prefix form of Appendix C of the Ethereum Yellow Paper, used in stored nodes). */
module Hex {
  import opened Common

  const TERM: Byte := 16

  predicate Nibbles(s: Bytes) {
    forall i :: 0 <= i < |s| ==> s[i] < 16
  }

  predicate HasTerm(s: Bytes) {
    |s| > 0 && s[|s| - 1] == TERM
  }

  /** A complete key: nibbles closed by the terminator. */
  predicate HexKey(s: Bytes) {
    HasTerm(s) && Nibbles(s[..|s| - 1])
  }

  /** A key as it may label a node: a complete key or a plain run of nibbles. */
  predicate HexPath(s: Bytes) {
    Nibbles(s) || HexKey(s)
  }

  function Body(hex: Bytes): (r: Bytes) {
    if HasTerm(hex) then hex[..|hex| - 1] else hex
  }

  /** HEX form of a key, terminator included. */
  function HexOf(key: Bytes): (r: Bytes)
    ensures |r| == 2 * |key| + 1
  {
    if key == [] then [TERM] else [key[0] / 16, key[0] % 16] + HexOf(key[1..])
  }

  /** Two nibbles per byte. */
  function Pack(nibbles: Bytes): (r: Bytes)
    requires Nibbles(nibbles) && |nibbles| % 2 == 0
    ensures |r| == |nibbles| / 2
  {
    if nibbles == [] then [] else [nibbles[0] * 16 + nibbles[1]] + Pack(nibbles[2..])
  }

  /** Hex-prefix encoding of a node key. */
  function Compact(hex: Bytes): (r: Bytes)
    requires HexPath(hex)
  {
    var flag := if HasTerm(hex) then 32 else 0;
    var nibbles := Body(hex);
    if |nibbles| % 2 == 1 then [flag + 16 + nibbles[0]] + Pack(nibbles[1..]) else [flag] + Pack(nibbles)
  }

  /** Inverse of `Compact`. The slice expression fails on the empty string, which is why the
      argument must not be empty. */
  function CompactToHex(compact: Bytes): (r: Bytes)
    requires |compact| > 0
  {
    var base := HexOf(compact);
    var trimmed := if base[0] < 2 then base[..|base| - 1] else base;
    trimmed[2 - base[0] % 2..]
  }

  lemma HexOfStep(str: Bytes, i: nat, done: Bytes)
    requires i < |str|
    ensures done + HexOf(str[i..]) == done + [str[i] / 16, str[i] % 16] + HexOf(str[i + 1..])
  {
  }

  method KeybytesToHex(str: Bytes) returns (r: Bytes)
    ensures r == HexOf(str)
  {
    var l := |str| * 2 + 1;
    var nibbles := new Byte[l](_ => 0);
    for i := 0 to |str|
      invariant nibbles[..2 * i] + HexOf(str[i..]) == HexOf(str)
    {
      ghost var done := nibbles[..2 * i];
      HexOfStep(str, i, done);
      nibbles[i * 2] := str[i] / 16;
      nibbles[i * 2 + 1] := str[i] % 16;
      assert nibbles[..2 * (i + 1)] == done + [str[i] / 16, str[i] % 16];
    }
    nibbles[l - 1] := 16;
    r := nibbles[..];
    assert r == nibbles[..2 * |str|] + [16];
  }

  lemma PackStep(nibbles: Bytes, ni: nat, done: Bytes)
    requires Nibbles(nibbles) && |nibbles| % 2 == 0 && ni % 2 == 0 && ni < |nibbles|
    ensures done + Pack(nibbles[ni..]) == done + [nibbles[ni] * 16 + nibbles[ni + 1]] + Pack(nibbles[ni + 2..])
  {
  }

  method DecodeNibbles(nibbles: Bytes) returns (r: Bytes)
    requires Nibbles(nibbles) && |nibbles| % 2 == 0
    ensures r == Pack(nibbles)
  {
    var bytes := new Byte[|nibbles| / 2](_ => 0);
    var bi, ni := 0, 0;
    while ni < |nibbles|
      invariant 0 <= bi <= |nibbles| / 2 && ni == 2 * bi
      invariant bytes[..bi] + Pack(nibbles[ni..]) == Pack(nibbles)
    {
      ghost var done := bytes[..bi];
      PackStep(nibbles, ni, done);
      bytes[bi] := nibbles[ni] * 16 + nibbles[ni + 1];
      assert bytes[..bi + 1] == done + [nibbles[ni] * 16 + nibbles[ni + 1]];
      bi, ni := bi + 1, ni + 2;
    }
    r := bytes[..];
  }

  lemma CompactShape(hex: Bytes)
    requires HexPath(hex)
    ensures
      var nibbles, flag := Body(hex), if HasTerm(hex) then 32 else 0;
      var odd := |nibbles| % 2;
      Compact(hex) == [flag + if odd == 1 then 16 + nibbles[0] else 0] + Pack(nibbles[odd..])
  {
  }

  method HexToCompact(hexIn: Bytes) returns (r: Bytes)
    requires HexPath(hexIn)
    ensures r == Compact(hexIn)
  {
    CompactShape(hexIn);
    var hex := hexIn;
    var terminator := 0;
    if HasTerm(hex) {
      terminator := 1;
      hex := hex[..|hex| - 1];
    }
    var first := terminator * 32;
    if |hex| % 2 == 1 {
      first := first + 16 + hex[0];
      hex := hex[1..];
    }
    var packed := DecodeNibbles(hex);
    r := [first] + packed;
  }

  method HexToKeybytes(hexIn: Bytes) returns (r: Bytes)
    requires HexPath(hexIn) && |Body(hexIn)| % 2 == 0
    ensures r == Pack(Body(hexIn))
  {
    r := DecodeNibbles(Body(hexIn));
  }

  /** Length of the longest common prefix. */
  method PrefixLen(a: Bytes, b: Bytes) returns (i: nat)
    ensures i == CommonPrefix(a, b)
  {
    var length := if |b| < |a| then |b| else |a|;
    i := 0;
    while i < length
      invariant i <= length && a[..i] == b[..i]
    {
      if a[i] != b[i] {
        break;
      }
      i := i + 1;
    }
    CommonPrefixUnique(a, b, i);
  }

  function CommonPrefix(a: Bytes, b: Bytes): (m: nat)
    ensures m <= |a| && m <= |b| && a[..m] == b[..m]
    ensures m == |a| || m == |b| || a[m] != b[m]
  {
    if a == [] || b == [] || a[0] != b[0] then 0 else
      var rest := CommonPrefix(a[1..], b[1..]);
      assert a[..1 + rest] == [a[0]] + a[1..][..rest];
      assert b[..1 + rest] == [b[0]] + b[1..][..rest];
      1 + rest
  }

  lemma CommonPrefixUnique(a: Bytes, b: Bytes, m: nat)
    requires m <= |a| && m <= |b| && a[..m] == b[..m]
    requires m == |a| || m == |b| || a[m] != b[m]
    ensures m == CommonPrefix(a, b)
  {
    var c := CommonPrefix(a, b);
    assert forall i :: 0 <= i < c ==> a[..c][i] == b[..c][i];
    assert forall i :: 0 <= i < m ==> a[..m][i] == b[..m][i];
  }

  /** A path that leads along a complete key is either the whole of it or free of the
      terminator, and then a complete key is left. */
  lemma PathPrefix(k: Bytes, key: Bytes)
    requires HexKey(key) && HexPath(k) && k != [] && k <= key
    ensures HasTerm(k) <==> |k| == |key|
    ensures !HasTerm(k) ==> HexKey(key[|k|..])
  {
    assert k[|k| - 1] == key[|k| - 1];
    if |k| < |key| {
      assert key[|k| - 1] == key[..|key| - 1][|k| - 1];
      assert key[|k|..][..|key| - |k| - 1] == key[..|key| - 1][|k|..];
    }
  }

  /** No complete key goes on inside a path. */
  lemma KeyNoProperPrefix(key: Bytes, k: Bytes)
    requires HexKey(key) && HexPath(k) && key <= k
    ensures key == k
  {
  }

  lemma {:induction false} HexOfIsKey(key: Bytes)
    ensures HexKey(HexOf(key))
  {
    if key != [] {
      HexOfIsKey(key[1..]);
      var h, rest := HexOf(key), HexOf(key[1..]);
      assert h[..|h| - 1] == [key[0] / 16, key[0] % 16] + rest[..|rest| - 1];
    }
  }

  /** A key survives the trip to HEX form and back. */
  lemma {:induction false} KeybytesRoundTrip(key: Bytes)
    ensures HexKey(HexOf(key)) && Pack(Body(HexOf(key))) == key
  {
    HexOfIsKey(key);
    if key != [] {
      KeybytesRoundTrip(key[1..]);
      var body := Body(HexOf(key));
      assert body == [key[0] / 16, key[0] % 16] + Body(HexOf(key[1..]));
      assert body[2..] == Body(HexOf(key[1..]));
    }
  }

  lemma HexOfInjective(a: Bytes, b: Bytes)
    requires HexOf(a) == HexOf(b)
    ensures a == b
  {
    KeybytesRoundTrip(a);
    KeybytesRoundTrip(b);
  }

  /** Packed nibbles come back as they were, closed by the terminator. */
  lemma {:induction false} HexOfPack(nibbles: Bytes)
    requires Nibbles(nibbles) && |nibbles| % 2 == 0
    ensures HexOf(Pack(nibbles)) == nibbles + [TERM]
  {
    if nibbles != [] {
      HexOfPack(nibbles[2..]);
      var a, b := nibbles[0], nibbles[1];
      assert (a * 16 + b) / 16 == a && (a * 16 + b) % 16 == b;
      assert Pack(nibbles)[1..] == Pack(nibbles[2..]);
      assert nibbles == [a, b] + nibbles[2..];
    }
  }

  /** The hex form, byte by byte: the high and the low half of each, and 16 at the end. */
  lemma {:induction false} HexOfIs(key: Bytes, i: nat)
    requires i < |key|
    ensures |HexOf(key)| == 2 * |key| + 1 && HexOf(key)[2 * |key|] == 16
    ensures HexOf(key)[2 * i] as int == key[i] as int / 16 && HexOf(key)[2 * i + 1] as int == key[i] as int % 16
    decreases |key|
  {
    var rest := key[1..];
    if rest != [] {
      HexOfIs(rest, if i > 0 then i - 1 else 0);
      assert HexOf(key)[2 * |key|] == HexOf(rest)[2 * |rest|];
      if i > 0 {
        assert HexOf(key)[2 * i] == HexOf(rest)[2 * (i - 1)] && HexOf(key)[2 * i + 1] == HexOf(rest)[2 * (i - 1) + 1];
      }
    }
  }

  lemma CutFront(a: Byte, b: Byte, tail: Bytes)
    ensures ([a, b] + tail)[1..] == [b] + tail && ([a, b] + tail)[2..] == tail
    ensures tail != [] ==> ([a, b] + tail)[..|tail| + 1] == [a, b] + tail[..|tail| - 1]
  {
  }

  lemma HexOfFlagged(flag: Byte, low: Byte, packed: Bytes)
    requires flag < 4 && low < 16 && Nibbles(packed) && |packed| % 2 == 0
    ensures HexOf([flag * 16 + low] + Pack(packed)) == [flag, low] + (packed + [TERM])
  {
    var c := [flag * 16 + low] + Pack(packed);
    HexOfPack(packed);
    assert c[1..] == Pack(packed);
    assert c[0] / 16 == flag && c[0] % 16 == low;
  }

  lemma CompactToHexOf(c: Bytes, flag: Byte, low: Byte, packed: Bytes)
    requires |c| > 0 && flag < 4 && HexOf(c) == [flag, low] + (packed + [TERM])
    ensures
      var tail := if flag < 2 then packed else packed + [TERM];
      CompactToHex(c) == if flag % 2 == 1 then [low] + tail else tail
  {
    var closed := packed + [TERM];
    assert closed[..|closed| - 1] == packed;
    CutFront(flag, low, closed);
    CutFront(flag, low, packed);
  }

  /** Hex-prefix encoding loses nothing: any node key is recovered from its stored form. */
  lemma CompactRoundTrip(hex: Bytes)
    requires HexPath(hex)
    ensures |Compact(hex)| > 0 && CompactToHex(Compact(hex)) == hex
  {
    var nibbles := Body(hex);
    var flag := if HasTerm(hex) then 2 else 0;
    assert hex == if HasTerm(hex) then nibbles + [TERM] else nibbles;
    if |nibbles| % 2 == 1 {
      HexOfFlagged(flag + 1, nibbles[0], nibbles[1..]);
      CompactToHexOf(Compact(hex), flag + 1, nibbles[0], nibbles[1..]);
      assert nibbles == [nibbles[0]] + nibbles[1..];
    } else {
      HexOfFlagged(flag, 0, nibbles);
      CompactToHexOf(Compact(hex), flag, 0, nibbles);
    }
  }

  /** The compact form, nibble by nibble: 2 for a terminated key, one more for an odd number of nibbles,
      a zero to fill up an even number, and then the nibbles of the key. */
  lemma CompactIs(hex: Bytes)
    requires HexPath(hex)
    ensures
      var nibbles := if HasTerm(hex) then hex[..|hex| - 1] else hex;
      var flag := if HasTerm(hex) then 2 else 0;
      HexOf(Compact(hex)) == (if |nibbles| % 2 == 1 then [flag + 1] else [flag, 0]) + nibbles + [16]
  {
    var nibbles, flag := Body(hex), if HasTerm(hex) then 2 else 0;
    if |nibbles| % 2 == 1 {
      var tail := nibbles[1..];
      HexOfFlagged(flag + 1, nibbles[0], tail);
      assert [flag + 1] + nibbles + [16] == [flag + 1, nibbles[0]] + (tail + [16]);
    } else {
      HexOfFlagged(flag, 0, nibbles);
      assert [flag, 0] + nibbles + [16] == [flag, 0] + (nibbles + [16]);
    }
  }
}
