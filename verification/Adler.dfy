/**
 The Adler-32 checksum of RFC 1950, section 2.2, and the deferred-modulo loop of `valid_dex`,
 whose 5552-byte chunks are the longest on which neither `u32` sum can overflow.
 */
module Adler {
  import opened Bytes

  const MODULUS: int := 65_521
  const CHUNK: nat := 5552

  type U32 = x: int | 0 <= x < 0x1_0000_0000

  datatype Sums = Sums(a: int, b: int)

  /** Both sums over `data`, reduced after every byte, as the RFC defines them. */
  function PerByte(s: Sums, data: seq<Byte>): (r: Sums)
    ensures 0 <= s.a < MODULUS && 0 <= s.b < MODULUS ==> 0 <= r.a < MODULUS && 0 <= r.b < MODULUS
    decreases |data|
  {
    if data == [] then s
    else
      var a := (s.a + data[0]) % MODULUS;
      PerByte(Sums(a, (s.b + a) % MODULUS), data[1..])
  }

  function Checksum(data: seq<Byte>): int {
    var s := PerByte(Sums(1, 0), data);
    s.b * 0x1_0000 + s.a
  }

  /** The checksum of `Wikipedia`, a published one. */
  lemma KnownChecksum()
    ensures Checksum(Spelled("Wikipedia")) == 0x11E6_0398
  {
    var s := Spelled("Wikipedia");
    assert s[0..] == s && s[9..] == [];
    AllSummed(Sums(920, 4582));
    hide PerByte, Spelled;
    ByteOf(s, 0, 1, 0);
    ByteOf(s, 1, 88, 88);
    ByteOf(s, 2, 193, 281);
    ByteOf(s, 3, 300, 581);
    ByteOf(s, 4, 405, 986);
    ByteOf(s, 5, 517, 1503);
    ByteOf(s, 6, 618, 2121);
    ByteOf(s, 7, 718, 2839);
    ByteOf(s, 8, 823, 3662);
  }

  lemma AllSummed(s: Sums)
    ensures PerByte(s, []) == s
  {
  }

  lemma ByteOf(data: seq<Byte>, at: nat, a: nat, b: nat)
    requires at < |data| && a + data[at] < MODULUS && b + a + data[at] < MODULUS
    ensures PerByte(Sums(a, b), data[at..]) == PerByte(Sums(a + data[at], b + a + data[at]), data[at + 1..])
  {
    assert data[at..][1..] == data[at + 1..];
    Reduces(a + data[at]);
    Reduces(b + a + data[at]);
  }

  lemma Reduces(n: nat)
    requires n < MODULUS
    ensures n % MODULUS == n
  {
  }

  /** Both sums over `data`, never reduced. */
  function Raw(s: Sums, data: seq<Byte>): Sums
    decreases |data|
  {
    if data == [] then s
    else Raw(Sums(s.a + data[0], s.b + s.a + data[0]), data[1..])
  }

  function Reduced(s: Sums): Sums {
    Sums(s.a % MODULUS, s.b % MODULUS)
  }

  function Longest(size: nat, data: seq<Byte>): nat {
    if |data| < size then |data| else size
  }

  /** The sums after reducing once a chunk. */
  function Chunked(s: Sums, data: seq<Byte>, size: nat): Sums
    requires size > 0
    decreases |data|
  {
    if data == [] then s
    else
      var n := Longest(size, data);
      Chunked(Reduced(Raw(s, data[..n])), data[n..], size)
  }

  // ----- deferring the modulo does not change the sums -----

  /** Reducing first does not change a reduced sum. */
  lemma ReduceAdd(x: int, y: int)
    ensures (x % MODULUS + y) % MODULUS == (x + y) % MODULUS
  {
    var q := x / MODULUS;
    assert x + y == q * MODULUS + (x % MODULUS + y);
    ReduceMultiple(q, x % MODULUS + y);
  }

  lemma ReduceMultiple(q: int, y: int)
    ensures (q * MODULUS + y) % MODULUS == y % MODULUS
  {
    assert MODULUS == 65_521;
    assert q * 65_521 + y == 65_521 * (q + y / 65_521) + y % 65_521;
  }

  lemma {:induction false} DeferReduction(s: Sums, data: seq<Byte>)
    ensures PerByte(Reduced(s), data) == Reduced(Raw(s, data))
    decreases |data|
  {
    if data != [] {
      var d := data[0];
      ReduceAdd(s.a, d);
      ReduceAdd(s.b, (s.a + d) % MODULUS);
      ReduceAdd(s.a + d, s.b);
      DeferReduction(Sums(s.a + d, s.b + s.a + d), data[1..]);
    }
  }

  lemma {:induction false} PerByteAppends(s: Sums, x: seq<Byte>, y: seq<Byte>)
    ensures PerByte(s, x + y) == PerByte(PerByte(s, x), y)
    decreases |x|
  {
    if x == [] {
      assert x + y == y;
    } else {
      assert (x + y)[1..] == x[1..] + y;
      var a := (s.a + x[0]) % MODULUS;
      PerByteAppends(Sums(a, (s.b + a) % MODULUS), x[1..], y);
    }
  }

  /** Whatever the chunk size, the chunked sums are the RFC's. */
  lemma {:induction false} ChunkedIsPerByte(s: Sums, data: seq<Byte>, size: nat)
    requires size > 0 && Reduced(s) == s
    ensures Chunked(s, data, size) == PerByte(s, data)
    decreases |data|
  {
    if data != [] {
      var n := Longest(size, data);
      DeferReduction(s, data[..n]);
      var next := Reduced(Raw(s, data[..n]));
      ChunkedIsPerByte(next, data[n..], size);
      PerByteAppends(s, data[..n], data[n..]);
      assert data == data[..n] + data[n..];
    }
  }

  // ----- how large the unreduced sums get -----

  lemma {:induction false} RawGrows(s: Sums, data: seq<Byte>)
    requires 0 <= s.a && 0 <= s.b
    ensures var r := Raw(s, data);
            && s.a <= r.a <= s.a + 255 * |data|
            && s.b <= r.b
            && 2 * r.b <= 2 * s.b + 2 * s.a * |data| + 255 * |data| * (|data| + 1)
    decreases |data|
  {
    if data != [] {
      var n, d := |data| - 1, data[0];
      RawGrows(Sums(s.a + d, s.b + s.a + d), data[1..]);
      WorstStep(s.a, s.b, d, n);
    }
  }

  lemma WorstStep(a: int, b: int, d: int, n: int)
    requires 0 <= d <= 255 && 0 <= n
    ensures 2 * (b + a + d) + 2 * (a + d) * n + 255 * n * (n + 1)
            <= 2 * b + 2 * a * (n + 1) + 255 * (n + 1) * (n + 2)
  {
    assert 2 * (a + d) * n == 2 * a * n + 2 * d * n;
    assert d * n <= 255 * n;
    assert 255 * (n + 1) * (n + 2) == 255 * n * (n + 1) + 510 * n + 510;
  }

  /** From reduced sums a chunk of at most 5552 bytes fits; so every prefix of it does. */
  lemma ChunkFits(s: Sums, data: seq<Byte>)
    requires 0 <= s.a < MODULUS && 0 <= s.b < MODULUS && |data| <= CHUNK
    ensures var r := Raw(s, data); 0 <= r.a < 0x1_0000_0000 && 0 <= r.b < 0x1_0000_0000
  {
    hide Raw;
    RawGrows(s, data);
    WorstChunk(s.a, |data|);
  }

  lemma WorstChunk(a: int, n: int)
    requires 0 <= a <= 65_520 && 0 <= n <= 5552
    ensures a * n <= 65_520 * 5552
    ensures 255 * n * (n + 1) <= 255 * 5552 * 5553
  {
    Scaled(a, 65_520, n);
    Scaled(255 * n, 255 * 5552, n + 1);
  }

  lemma Scaled(x: int, y: int, z: int)
    requires x <= y && 0 <= z
    ensures x * z <= y * z
  {
  }

  lemma {:induction false} RawAppends(s: Sums, x: seq<Byte>, y: seq<Byte>)
    ensures Raw(s, x + y) == Raw(Raw(s, x), y)
    decreases |x|
  {
    if x == [] {
      assert x + y == y;
    } else {
      assert (x + y)[1..] == x[1..] + y;
      RawAppends(Sums(s.a + x[0], s.b + s.a + x[0]), x[1..], y);
    }
  }

  // ----- 5552 is the longest safe chunk -----

  /** No unreduced sum leaves `u32` when `data` is summed in chunks of `size`. */
  predicate Fits(s: Sums, data: seq<Byte>, size: nat)
    requires size > 0
    decreases |data|
  {
    data == []
    || (var n := Longest(size, data);
        var r := Raw(s, data[..n]);
        r.a < 0x1_0000_0000 && r.b < 0x1_0000_0000 && Fits(Reduced(r), data[n..], size))
  }

  lemma {:induction false} AlwaysFits(s: Sums, data: seq<Byte>, size: nat)
    requires 0 < size <= CHUNK && 0 <= s.a < MODULUS && 0 <= s.b < MODULUS
    ensures Fits(s, data, size)
    decreases |data|
  {
    if data != [] {
      var n := Longest(size, data);
      ChunkFits(s, data[..n]);
      AlwaysFits(Reduced(Raw(s, data[..n])), data[n..], size);
    }
  }

  function Repeat(b: Byte, n: nat): (r: seq<Byte>)
    ensures |r| == n
  {
    if n == 0 then [] else [b] + Repeat(b, n - 1)
  }

  lemma {:induction false} RawOfRepeat(s: Sums, b: Byte, n: nat)
    ensures Raw(s, Repeat(b, n)).a == s.a + b * n
    ensures 2 * Raw(s, Repeat(b, n)).b == 2 * s.b + 2 * s.a * n + b * n * (n + 1)
    decreases n
  {
    if n > 0 {
      assert Repeat(b, n)[1..] == Repeat(b, n - 1);
      RawOfRepeat(Sums(s.a + b, s.b + s.a + b), b, n - 1);
      RepeatStep(s.a, b, n);
    }
  }

  lemma RepeatStep(a: int, b: int, n: int)
    ensures 2 * (a + b) + 2 * (a + b) * (n - 1) + b * (n - 1) * n == 2 * a * n + b * n * (n + 1)
    ensures a + b + b * (n - 1) == a + b * n
  {
    assert 2 * (a + b) * (n - 1) == 2 * a * n + 2 * b * n - 2 * a - 2 * b;
    assert b * (n - 1) * n == b * n * (n + 1) - 2 * b * n by {
      assert b * (n - 1) * n == b * n * n - b * n;
      assert b * n * (n + 1) == b * n * n + b * n;
    }
  }

  /** A first chunk that leaves the first sum at its largest, then a chunk of all ones. */
  function Witness(size: nat): seq<Byte>
    requires size >= 257
  {
    Repeat(0, size - 257) + Repeat(255, 256) + [239] + Repeat(255, size)
  }

  lemma WitnessOverflows(size: nat)
    requires size > CHUNK
    ensures !Fits(Sums(1, 0), Witness(size), size)
  {
    var first := Repeat(0, size - 257) + Repeat(255, 256) + [239];
    var data := Witness(size);
    assert data[..size] == first && data[size..] == Repeat(255, size);
    FirstChunkSum(size);
    var r := Raw(Sums(1, 0), first);
    assert r.a == 65_520;
    var s := Reduced(r);
    RawOfRepeat(s, 255, size);
    LargeSquare(size);
    assert Repeat(255, size)[..size] == Repeat(255, size);
    assert 2 * Raw(s, Repeat(255, size)).b >= 0x2_0000_0000;
  }

  lemma LargeSquare(n: int)
    requires n > CHUNK
    ensures 2 * 65_520 * n + 255 * n * (n + 1) >= 0x2_0000_0000
  {
    assert n * (n + 1) >= 5553 * 5554;
  }

  lemma FirstChunkSum(size: nat)
    requires size >= 257
    ensures Raw(Sums(1, 0), Repeat(0, size - 257) + Repeat(255, 256) + [239]).a == 65_520
  {
    var zeros, ones := Repeat(0, size - 257), Repeat(255, 256);
    RawAppends(Sums(1, 0), zeros + ones, [239]);
    RawAppends(Sums(1, 0), zeros, ones);
    RawOfRepeat(Sums(1, 0), 0, size - 257);
    RawOfRepeat(Raw(Sums(1, 0), zeros), 255, 256);
  }

  /** A chunk size is safe for every input exactly when it is at most 5552. */
  lemma SafeChunkSizes(size: nat)
    requires size > 0
    ensures (forall data :: Fits(Sums(1, 0), data, size)) <==> size <= CHUNK
  {
    if size <= CHUNK {
      forall data ensures Fits(Sums(1, 0), data, size) { AlwaysFits(Sums(1, 0), data, size); }
    } else {
      WitnessOverflows(size);
    }
  }

  // ----- the loop -----

  /** Any prefix of a chunk that fits keeps both sums within `u32`. */
  lemma PrefixFits(s: Sums, data: seq<Byte>, k: nat)
    requires 0 <= s.a < MODULUS && 0 <= s.b < MODULUS && k <= |data| <= CHUNK
    ensures var r := Raw(s, data[..k]); 0 <= r.a < 0x1_0000_0000 && 0 <= r.b < 0x1_0000_0000
  {
    ChunkFits(s, data[..k]);
  }

  lemma RawSnoc(s: Sums, data: seq<Byte>, k: nat)
    requires k < |data|
    ensures var r := Raw(s, data[..k]);
            Raw(s, data[..k + 1]) == Sums(r.a + data[k], r.b + r.a + data[k])
  {
    assert data[..k + 1] == data[..k] + [data[k]];
    RawAppends(s, data[..k], [data[k]]);
  }

  /** One chunk, byte by byte, in `u32` sums. */
  method SumChunk(a0: U32, b0: U32, chunk: seq<Byte>) returns (a: U32, b: U32)
    requires a0 < MODULUS && b0 < MODULUS && |chunk| <= CHUNK
    ensures Sums(a, b) == Reduced(Raw(Sums(a0, b0), chunk))
  {
    hide Raw;
    a, b := a0, b0;
    assert chunk[..0] == [];
    RawOfNone(Sums(a0, b0));
    var k := 0;
    while k < |chunk|
      invariant 0 <= k <= |chunk|
      invariant Sums(a, b) == Raw(Sums(a0, b0), chunk[..k])
    {
      RawSnoc(Sums(a0, b0), chunk, k);
      PrefixFits(Sums(a0, b0), chunk, k + 1);
      a := a + chunk[k];
      b := b + a;
      k := k + 1;
    }
    assert chunk[..k] == chunk;
    a := a % MODULUS;
    b := b % MODULUS;
  }

  lemma RawOfNone(s: Sums)
    ensures Raw(s, []) == s
  {
  }
}
