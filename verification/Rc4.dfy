/**
 The RC4 cipher of `rc4_container.rs`: the cipher as a value, what is true of it, and the class
 that updates its permutation in place.
 */
module Rc4 {
  import opened Bytes

  function Pow2(n: nat): nat {
    if n == 0 then 1 else 2 * Pow2(n - 1)
  }

  /** Exclusive or of the low `n` bits, the lowest bit first. */
  function XorBits(x: nat, y: nat, n: nat): (r: nat)
    ensures r < Pow2(n)
  {
    if n == 0 then 0 else (x % 2 + y % 2) % 2 + 2 * XorBits(x / 2, y / 2, n - 1)
  }

  lemma OneBit(x: nat, k: nat)
    requires x < 2 && k < 2
    ensures ((x + k) % 2 + k) % 2 == x
  {
  }

  lemma {:induction false} XorBitsTwice(x: nat, k: nat, n: nat)
    requires x < Pow2(n)
    ensures XorBits(XorBits(x, k, n), k, n) == x
    decreases n
  {
    if n > 0 {
      hide XorBits;
      XorLowBit(x, k, n);
      XorLowBit(XorBits(x, k, n), k, n);
      OneBit(x % 2, k % 2);
      XorBitsTwice(x / 2, k / 2, n - 1);
    }
  }

  /** The lowest bit, and the bits above it. */
  lemma XorLowBit(x: nat, k: nat, n: nat)
    requires n > 0
    ensures var r := XorBits(x, k, n);
            && r % 2 == (x % 2 + k % 2) % 2
            && r / 2 == XorBits(x / 2, k / 2, n - 1)
            && r == r % 2 + 2 * (r / 2)
  {
    var bit, high := (x % 2 + k % 2) % 2, XorBits(x / 2, k / 2, n - 1);
    assert (bit + 2 * high) / 2 == high;
  }

  lemma Pow2Of8()
    ensures Pow2(8) == 256
  {
    assert Pow2(4) == 16;
  }

  function Xor(x: Byte, y: Byte): Byte {
    Pow2Of8();
    XorBits(x, y, 8)
  }

  lemma XorTwice(x: Byte, k: Byte)
    ensures Xor(Xor(x, k), k) == x
  {
    Pow2Of8();
    XorBitsTwice(x, k, 8);
  }

  function WrappingAdd(x: Byte, y: Byte): Byte {
    (x + y) % 256
  }

  // ----- the cipher as a value -----

  datatype Cipher = Cipher(state: seq<Byte>, i: Byte, j: Byte)

  function Identity(): (s: seq<Byte>)
    ensures |s| == 256
  {
    seq(256, i requires 0 <= i < 256 => i)
  }

  /** `s` holds the values 0 to 255 in some order. */
  predicate IsPermutation(s: seq<Byte>) {
    |s| == 256 && multiset(s) == multiset(Identity())
  }

  function Swap(s: seq<Byte>, x: Byte, y: Byte): (r: seq<Byte>)
    requires |s| == 256
    ensures |r| == 256 && multiset(r) == multiset(s)
  {
    s[x as int := s[y as int]][y as int := s[x as int]]
  }

  /** Key setup after `n` of its 256 swaps: the state and `j`. */
  function Setup(key: seq<Byte>, n: nat): (r: (seq<Byte>, Byte))
    requires n <= 256 && key != []
    ensures IsPermutation(r.0)
  {
    if n == 0 then (Identity(), 0)
    else
      var (s, j0) := Setup(key, n - 1);
      var j := WrappingAdd(WrappingAdd(j0, s[n - 1]), key[(n - 1) % |key|]);
      (Swap(s, n - 1, j), j)
  }

  function Fresh(key: seq<Byte>): (c: Cipher)
    ensures |c.state| == 256
  {
    Cipher(if key == [] then Identity() else Setup(key, 256).0, 0, 0)
  }

  function Next(c: Cipher): (r: Cipher)
    requires |c.state| == 256
    ensures |r.state| == 256 && multiset(r.state) == multiset(c.state)
  {
    var i := WrappingAdd(c.i, 1);
    var j := WrappingAdd(c.j, c.state[i]);
    Cipher(Swap(c.state, i, j), i, j)
  }

  /** The keystream byte that the step into `c` puts out. */
  function Output(c: Cipher): Byte
    requires |c.state| == 256
  {
    c.state[WrappingAdd(c.state[c.i], c.state[c.j])]
  }

  function After(c: Cipher, n: nat): (r: Cipher)
    requires |c.state| == 256
    ensures |r.state| == 256 && multiset(r.state) == multiset(c.state)
    decreases n
  {
    if n == 0 then c else After(Next(c), n - 1)
  }

  function Applied(c: Cipher, data: seq<Byte>): (r: seq<Byte>)
    requires |c.state| == 256
    ensures |r| == |data|
    decreases |data|
  {
    if data == [] then []
    else [Xor(data[0], Output(Next(c)))] + Applied(Next(c), data[1..])
  }

  // ----- what holds of it -----

  lemma SetupStep(key: seq<Byte>, n: nat)
    requires n < 256 && key != []
    ensures var (s, j0) := Setup(key, n);
            var j := WrappingAdd(WrappingAdd(j0, s[n]), key[n % |key|]);
            Setup(key, n + 1) == (Swap(s, n, j), j)
  {
  }

  /** After key setup and any number of bytes, the state holds each value at exactly one index. */
  lemma HoldsEachValueOnce(key: seq<Byte>, n: nat, v: Byte) returns (i: nat)
    ensures var s := After(Fresh(key), n).state;
            && |s| == 256 && i < 256 && s[i] == v
            && forall k :: 0 <= k < 256 && s[k] == v ==> k == i
  {
    var s := After(Fresh(key), n).state;
    assert IsPermutation(s);
    CountInIdentity(v);
    assert multiset(s)[v] == 1;
    i :| 0 <= i < 256 && s[i] == v;
    forall k | 0 <= k < 256 && s[k] == v ensures k == i {
      if k < i { TwoOccurrences(s, k, i); }
      if i < k { TwoOccurrences(s, i, k); }
    }
  }

  lemma CountInIdentity(v: Byte)
    ensures multiset(Identity())[v] == 1
  {
    var s := Identity();
    assert s == s[..v] + [v] + s[v + 1..];
    assert v !in s[..v] && v !in s[v + 1..];
  }

  lemma TwoOccurrences(s: seq<Byte>, i: nat, j: nat)
    requires i < j < |s| && s[i] == s[j]
    ensures multiset(s)[s[i]] >= 2
  {
    assert s == s[..i] + [s[i]] + s[i + 1..j] + [s[j]] + s[j + 1..];
  }

  lemma {:induction false} AfterTwice(c: Cipher, m: nat, n: nat)
    requires |c.state| == 256
    ensures After(After(c, m), n) == After(c, m + n)
    decreases m
  {
    hide Next;
    if m > 0 { AfterTwice(Next(c), m - 1, n); }
  }

  /** Applying in two pieces is applying once; so is any chunking. */
  lemma {:induction false} Chunked(c: Cipher, x: seq<Byte>, y: seq<Byte>)
    requires |c.state| == 256
    ensures Applied(c, x + y) == Applied(c, x) + Applied(After(c, |x|), y)
    ensures After(After(c, |x|), |y|) == After(c, |x| + |y|)
    decreases |x|
  {
    hide Next, Output, Xor;
    if x == [] {
      assert x + y == y;
    } else {
      assert (x + y)[1..] == x[1..] + y;
      Chunked(Next(c), x[1..], y);
      AfterTwice(Next(c), |x| - 1, |y|);
    }
  }

  /** Two ciphers in the same state cancel. */
  lemma {:induction false} Cancels(c: Cipher, data: seq<Byte>)
    requires |c.state| == 256
    ensures Applied(c, Applied(c, data)) == data
    decreases |data|
  {
    if data != [] {
      XorTwice(data[0], Output(Next(c)));
      Cancels(Next(c), data[1..]);
      assert Applied(c, data)[1..] == Applied(Next(c), data[1..]);
    }
  }

  /** A prefix deciphers to the prefix of the whole. */
  lemma PrefixOfWhole(c: Cipher, data: seq<Byte>, n: nat)
    requires |c.state| == 256 && n <= |data|
    ensures Applied(c, data[..n]) == Applied(c, data)[..n]
  {
    hide Applied, After;
    Chunked(c, data[..n], data[n..]);
    assert data == data[..n] + data[n..];
  }

  // ----- the cipher in place -----

  lemma AppliedToNone(c: Cipher)
    requires |c.state| == 256
    ensures Applied(c, []) == [] && After(c, 0) == c
  {
  }

  lemma OneByte(c: Cipher, b: Byte)
    requires |c.state| == 256
    ensures After(c, 1) == Next(c) && Applied(c, [b]) == [Xor(b, Output(Next(c)))]
  {
    hide Next, Xor, Output;
    assert [b][1..] == [];
  }

  /** One more byte. */
  lemma Snoc(c: Cipher, data: seq<Byte>, n: nat)
    requires |c.state| == 256 && n < |data|
    ensures After(c, n + 1) == Next(After(c, n))
    ensures Applied(c, data[..n + 1]) == Applied(c, data[..n]) + [Xor(data[n], Output(Next(After(c, n))))]
  {
    hide After, Applied, Next, Xor, Output;
    assert data[..n + 1] == data[..n] + [data[n]];
    Chunked(c, data[..n], [data[n]]);
    OneByte(After(c, n), data[n]);
  }

  /** The data when a pass over `lo..` has come to `at`. */
  ghost function Midway(c: Cipher, before: seq<Byte>, lo: nat, at: nat): (data: seq<Byte>)
    requires |c.state| == 256 && lo <= at <= |before|
    ensures |data| == |before|
  {
    before[..lo] + Applied(c, before[lo..at]) + before[at..]
  }

  lemma MidwayStarts(c: Cipher, before: seq<Byte>, lo: nat)
    requires |c.state| == 256 && lo <= |before|
    ensures Midway(c, before, lo, lo) == before && After(c, 0) == c
  {
    hide After, Applied;
    AppliedToNone(c);
    assert before[lo..lo] == [];
  }

  lemma MidwayGoesOn(c: Cipher, before: seq<Byte>, lo: nat, at: nat)
    requires |c.state| == 256 && lo <= at < |before|
    ensures var key := Next(After(c, at - lo));
            && After(c, at + 1 - lo) == key
            && Midway(c, before, lo, at)[at] == before[at]
            && Midway(c, before, lo, at)[at := Xor(before[at], Output(key))] == Midway(c, before, lo, at + 1)
  {
    hide After, Applied, Next, Xor, Output;
    var part := before[lo..at + 1];
    Snoc(c, part, at - lo);
    assert part[..at - lo] == before[lo..at] && part[..at + 1 - lo] == part;
  }

  lemma MidwayEnds(c: Cipher, before: seq<Byte>, lo: nat, hi: nat)
    requires |c.state| == 256 && lo <= hi <= |before|
    ensures var data := Midway(c, before, lo, hi);
            data[..lo] == before[..lo] && data[lo..hi] == Applied(c, before[lo..hi]) && data[hi..] == before[hi..]
  {
    hide Applied;
  }

  class Rc4State {
    const state: array<Byte>
    var i: Byte
    var j: Byte

    ghost predicate Valid()
      reads this, state
    {
      state.Length == 256 && IsPermutation(state[..])
    }

    ghost function Value(): (c: Cipher)
      requires Valid()
      reads this, state
    {
      Cipher(state[..], i, j)
    }

    constructor (key: seq<Byte>)
      ensures Valid() && fresh(state) && Value() == Fresh(key)
    {
      state := new Byte[256](n => if 0 <= n < 256 then n else 0);
      i, j := 0, 0;
      new;
      assert state[..] == Identity();
      if key != [] {
        var y: Byte := 0;
        var n := 0;
        while n < 256
          invariant 0 <= n <= 256 && state.Length == 256 && i == 0 && j == 0
          invariant (state[..], y) == Setup(key, n)
          modifies state
        {
          SetupStep(key, n);
          ghost var before := state[..];
          y := WrappingAdd(WrappingAdd(y, state[n]), key[n % |key|]);
          state[n], state[y] := state[y], state[n];
          assert state[..] == Swap(before, n, y);
          n := n + 1;
        }
      }
    }

    /** Decipher `data[lo..hi]` in place and step the cipher past it. */
    method Apply(data: array<Byte>, lo: nat, hi: nat)
      requires Valid() && data != state && lo <= hi <= data.Length
      modifies this, state, data
      ensures Valid() && Value() == After(old(Value()), hi - lo)
      ensures data[lo..hi] == Applied(old(Value()), old(data[lo..hi]))
      ensures data[..lo] == old(data[..lo]) && data[hi..] == old(data[hi..])
    {
      hide After, Applied, Next, Output, Xor, IsPermutation, Midway;
      ghost var before := data[..];
      ghost var start := Value();
      MidwayStarts(start, before, lo);
      var at := lo;
      while at < hi
        invariant lo <= at <= hi
        invariant Valid() && Value() == After(start, at - lo)
        invariant data[..] == Midway(start, before, lo, at)
      {
        MidwayGoesOn(start, before, lo, at);
        Step(data, at);
        at := at + 1;
      }
      MidwayEnds(start, before, lo, hi);
    }

    /** The body of the loop: one byte. */
    method Step(data: array<Byte>, at: nat)
      requires Valid() && data != state && at < data.Length
      modifies this, state, data
      ensures Valid() && Value() == Next(old(Value()))
      ensures data[..] == old(data[..])[at := Xor(old(data[at]), Output(Value()))]
    {
      ghost var c := Value();
      i := WrappingAdd(i, 1);
      j := WrappingAdd(j, state[i]);
      state[i], state[j] := state[j], state[i];
      assert state[..] == Swap(c.state, i, j);
      var k := WrappingAdd(state[i], state[j]);
      data[at] := Xor(data[at], state[k]);
    }
  }
}
