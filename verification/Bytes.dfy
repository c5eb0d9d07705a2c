/** Bytes, optional values and the search primitives every scanner is built on. */
module Bytes {

  type Byte = b: int | 0 <= b < 256

  datatype Option<+T> = None | Some(value: T)

  const TAB: Byte := 0x09
  const LF: Byte := 0x0A
  const FF: Byte := 0x0C
  const CR: Byte := 0x0D
  const SPACE: Byte := 0x20
  const BANG: Byte := 0x21
  const DASH: Byte := 0x2D
  const SLASH: Byte := 0x2F
  const LT: Byte := 0x3C
  const EQUALS: Byte := 0x3D
  const GT: Byte := 0x3E
  const QUESTION: Byte := 0x3F

  const U64_MAX: nat := 0xFFFF_FFFF_FFFF_FFFF

  function Min(a: nat, b: nat): nat {
    if a < b then a else b
  }

  /** `u64` and 64-bit `usize` addition that stops at the largest value. */
  function SatAdd(a: nat, b: nat): nat {
    Min(a + b, U64_MAX)
  }

  predicate IsAlpha(b: Byte) {
    0x41 <= b <= 0x5A || 0x61 <= b <= 0x7A
  }

  /** The five bytes that end a tag name; they are also Rust's ASCII whitespace. */
  predicate IsSpace(b: Byte) {
    b == TAB || b == LF || b == FF || b == CR || b == SPACE
  }

  function Lower(b: Byte): Byte {
    if 0x41 <= b <= 0x5A then b + 0x20 else b
  }

  function LowerAll(s: seq<Byte>): (r: seq<Byte>)
    ensures |r| == |s|
    ensures forall i :: 0 <= i < |s| ==> r[i] == Lower(s[i])
  {
    seq(|s|, i requires 0 <= i < |s| => Lower(s[i]))
  }

  predicate AllSpaces(s: seq<Byte>) {
    forall k :: 0 <= k < |s| ==> IsSpace(s[k])
  }

  function TrimFront(s: seq<Byte>): (r: seq<Byte>)
    ensures r != [] ==> !IsSpace(r[0])
  {
    if s != [] && IsSpace(s[0]) then TrimFront(s[1..]) else s
  }

  lemma {:induction false} TrimsFront(s: seq<Byte>) returns (before: seq<Byte>)
    ensures s == before + TrimFront(s) && AllSpaces(before)
    decreases |s|
  {
    before := [];
    if s != [] && IsSpace(s[0]) {
      var others := TrimsFront(s[1..]);
      before := [s[0]] + others;
    }
  }

  lemma {:induction false} TrimFrontIs(before: seq<Byte>, rest: seq<Byte>)
    requires AllSpaces(before) && (rest != [] ==> !IsSpace(rest[0]))
    ensures TrimFront(before + rest) == rest
    decreases |before|
  {
    if before == [] {
      assert before + rest == rest;
    } else {
      assert (before + rest)[1..] == before[1..] + rest;
      TrimFrontIs(before[1..], rest);
    }
  }

  /** The bytes of an ASCII text. */
  function Spelled(text: string): (s: seq<Byte>)
    requires forall k :: 0 <= k < |text| ==> text[k] as int < 0x80
    ensures |s| == |text| && forall k :: 0 <= k < |s| ==> s[k] == text[k] as int
  {
    seq(|text|, k requires 0 <= k < |text| => text[k] as int)
  }

  predicate StartsAt(s: seq<Byte>, at: nat, needle: seq<Byte>) {
    at + |needle| <= |s| && s[at..at + |needle|] == needle
  }

  lemma StartsAtBytes(s: seq<Byte>, at: nat, needle: seq<Byte>)
    ensures StartsAt(s, at, needle)
            <==> at + |needle| <= |s| && forall k :: 0 <= k < |needle| ==> s[at + k] == needle[k]
  {
    if at + |needle| <= |s| {
      var window := s[at..at + |needle|];
      assert forall k :: 0 <= k < |needle| ==> window[k] == s[at + k];
    }
  }

  lemma StartsWithByte(s: seq<Byte>, at: nat, b: Byte)
    ensures StartsAt(s, at, [b]) <==> at < |s| && s[at] == b
  {
    StartsAtBytes(s, at, [b]);
  }

  lemma SliceOfDrop(s: seq<Byte>, a: nat, b: nat, c: nat)
    requires b <= c && a + c <= |s|
    ensures s[a..][b..c] == s[a + b..a + c]
  {
  }

  /** The offset of the first `needle` at or after `from`: `memchr` and `memmem`. */
  function Find(s: seq<Byte>, from: nat, needle: seq<Byte>): (r: Option<nat>)
    ensures r.Some? ==> from <= r.value && r.value + |needle| <= |s| && StartsAt(s, r.value, needle)
    ensures r.Some? ==> forall k :: from <= k < r.value ==> !StartsAt(s, k, needle)
    ensures r.None? ==> forall k :: from <= k ==> !StartsAt(s, k, needle)
    decreases |s| - from
  {
    if from + |needle| > |s| then None
    else if StartsAt(s, from, needle) then Some(from)
    else Find(s, from + 1, needle)
  }

  predicate Without(s: string, c: char) {
    forall i :: 0 <= i < |s| ==> s[i] != c
  }

  lemma WithoutBoth(x: string, y: string, c: char)
    ensures Without(x + y, c) <==> Without(x, c) && Without(y, c)
  {
    assert forall i :: 0 <= i < |x| ==> (x + y)[i] == x[i];
    assert forall i :: 0 <= i < |y| ==> (x + y)[|x| + i] == y[i];
  }

  /** Four bytes, least significant first, as a number. */
  function Le32(b0: int, b1: int, b2: int, b3: int): int {
    b0 + 0x100 * (b1 + 0x100 * (b2 + 0x100 * b3))
  }

  lemma Le32IsU32(b0: Byte, b1: Byte, b2: Byte, b3: Byte)
    ensures 0 <= Le32(b0, b1, b2, b3) < 0x1_0000_0000
  {
  }

  /** The little-endian `u32` at `at`, or `None` past the end. */
  function U32Le(s: seq<Byte>, at: nat): (r: Option<nat>)
    ensures r.Some? <==> at + 4 <= |s|
    ensures r.Some? ==> r.value < 0x1_0000_0000
  {
    if at + 4 <= |s| then
      Le32IsU32(s[at], s[at + 1], s[at + 2], s[at + 3]);
      Some(Le32(s[at], s[at + 1], s[at + 2], s[at + 3]))
    else None
  }

  function ToLe32(n: nat): (s: seq<Byte>)
    requires n < 0x1_0000_0000
    ensures |s| == 4
  {
    [n % 0x100, n / 0x100 % 0x100, n / 0x100 / 0x100 % 0x100, n / 0x100 / 0x100 / 0x100]
  }

  /** The lowest byte of a number, and what is above it. */
  lemma LowByte(b: Byte, high: nat)
    ensures (b + 0x100 * high) % 0x100 == b && (b + 0x100 * high) / 0x100 == high
  {
  }

  lemma Le32RoundTrip(n: nat)
    requires n < 0x1_0000_0000
    ensures var s := ToLe32(n); Le32(s[0], s[1], s[2], s[3]) == n
  {
    var n1 := n / 0x100;
    var n2 := n1 / 0x100;
    assert n == n % 0x100 + 0x100 * n1;
    assert n1 == n1 % 0x100 + 0x100 * n2;
    assert n2 == n2 % 0x100 + 0x100 * (n2 / 0x100);
  }

  lemma Le32Bytes(b0: Byte, b1: Byte, b2: Byte, b3: Byte)
    ensures 0 <= Le32(b0, b1, b2, b3) < 0x1_0000_0000
    ensures ToLe32(Le32(b0, b1, b2, b3)) == [b0, b1, b2, b3]
  {
    Le32IsU32(b0, b1, b2, b3);
    LowByte(b0, b1 + 0x100 * (b2 + 0x100 * b3));
    LowByte(b1, b2 + 0x100 * b3);
    LowByte(b2, b3);
  }

  lemma FourBytes(s: seq<Byte>, at: nat)
    requires at + 4 <= |s|
    ensures s[at..] == [s[at], s[at + 1], s[at + 2], s[at + 3]] + s[at + 4..]
  {
  }

  /** A `u32` reads as `n` exactly where `n` is written. */
  lemma ReadsWhatIsWritten(s: seq<Byte>, at: nat, n: nat)
    requires at <= |s| && n < 0x1_0000_0000
    ensures U32Le(s, at) == Some(n) <==> at + 4 <= |s| && s[at..] == ToLe32(n) + s[at + 4..]
  {
    if at + 4 <= |s| {
      FourBytes(s, at);
      Le32Bytes(s[at], s[at + 1], s[at + 2], s[at + 3]);
      if s[at..] == ToLe32(n) + s[at + 4..] {
        var written := ToLe32(n);
        assert s[at] == s[at..][0] && s[at + 1] == s[at..][1] && s[at + 2] == s[at..][2] && s[at + 3] == s[at..][3];
        Le32RoundTrip(n);
      }
    }
  }
}
