/**
 `recover_until`: try one RC4 key on a container, accepting the result only under complete format
 checks. SHA-1 and the ZIP check are parameters; `cancelled(k)` is what the k-th poll is told.
 */
module Recovery {
  import opened Bytes
  import opened Rc4
  import Adler

  const MAX_INPUT: nat := 8 * 1024 * 1024
  const CANCEL_CHECK_BLOCK: nat := 64 * 1024
  const DEX_HEADER_LEN: nat := 112
  const DEX_ENDIAN_CONSTANT: nat := 0x1234_5678
  /** `dex\n` */
  const DEX: seq<Byte> := [0x64, 0x65, 0x78, 0x0A]
  const PK: seq<Byte> := [0x50, 0x4B, 3, 4]

  datatype Kind = Dex | Zip
  datatype Recovered = Recovered(data: seq<Byte>, kind: Kind)

  /** The magic of a classic DEX, versions 035 to 039 and 040. */
  predicate DexMagic(data: seq<Byte>) {
    && |data| >= 8 && data[..4] == DEX && data[4] == 0x30 && data[7] == 0
    && ((data[5] == 0x33 && 0x35 <= data[6] <= 0x39) || (data[5] == 0x34 && data[6] == 0x30))
  }

  /** What the format requires of a DEX: its header, its SHA-1 and its Adler-32. */
  predicate IsDex(data: seq<Byte>, sha1: seq<Byte> -> seq<Byte>) {
    && |data| >= DEX_HEADER_LEN && DexMagic(data)
    && U32Le(data, 32) == Some(|data|)
    && U32Le(data, 36) == Some(DEX_HEADER_LEN)
    && U32Le(data, 40) == Some(DEX_ENDIAN_CONSTANT)
    && sha1(data[32..]) == data[12..32]
    && U32Le(data, 8) == Some(Adler.Checksum(data[12..]))
  }

  ghost predicate NoneCancelled(cancelled: nat -> bool, from: nat, to: nat) {
    forall k :: from <= k < to ==> !cancelled(k)
  }

  /** The poll before `to` was the first from `from` on to be told so. */
  ghost predicate StoppedAt(cancelled: nat -> bool, from: nat, to: nat) {
    from < to && cancelled(to - 1) && NoneCancelled(cancelled, from, to - 1)
  }

  /** Blocks of at most `size` bytes that `n` bytes come in. */
  function Blocks(n: nat, size: nat): (k: nat)
    requires size > 0
    ensures n <= k * size && (k > 0 ==> (k - 1) * size < n)
  {
    if n == 0 then 0 else if n <= size then 1 else 1 + Blocks(n - size, size)
  }

  lemma NoBlock(size: nat)
    requires size > 0
    ensures Blocks(0, size) == 0
  {
  }

  lemma OneBlock(n: nat, size: nat)
    requires 0 < n && size > 0
    ensures Blocks(n, size) == 1 + Blocks(n - Min(n, size), size)
  {
  }

  /** SHA-1 over `data[from..]`, polling before every block. */
  method Hash(data: seq<Byte>, from: nat, sha1: seq<Byte> -> seq<Byte>, cancelled: nat -> bool, poll: nat)
    returns (digest: Option<seq<Byte>>, next: nat)
    requires from <= |data|
    ensures digest.Some? ==> digest.value == sha1(data[from..]) && NoneCancelled(cancelled, poll, next)
    ensures digest.Some? ==> next == poll + Blocks(|data| - from, CANCEL_CHECK_BLOCK)
    ensures digest.None? ==> StoppedAt(cancelled, poll, next)
  {
    hide Blocks;
    digest, next := None, poll;
    var hashed := [];
    var at := from;
    while at < |data|
      invariant from <= at <= |data| && poll <= next
      invariant next + Blocks(|data| - at, CANCEL_CHECK_BLOCK) == poll + Blocks(|data| - from, CANCEL_CHECK_BLOCK)
      invariant hashed == data[from..at]
      invariant NoneCancelled(cancelled, poll, next)
    {
      next := next + 1;
      if cancelled(next - 1) { return; }
      OneBlock(|data| - at, CANCEL_CHECK_BLOCK);
      var end := if at + CANCEL_CHECK_BLOCK < |data| then at + CANCEL_CHECK_BLOCK else |data|;
      hashed, at := hashed + data[at..end], end;
    }
    assert data[from..at] == data[from..];
    NoBlock(CANCEL_CHECK_BLOCK);
    digest := Some(sha1(hashed));
  }

  /** The Adler-32 of `summed`, polling before every chunk. */
  method Sum(summed: seq<Byte>, cancelled: nat -> bool, poll: nat) returns (sum: Option<nat>, next: nat)
    ensures sum.Some? ==> sum.value == Adler.Checksum(summed) && NoneCancelled(cancelled, poll, next)
    ensures sum.Some? ==> next == poll + Blocks(|summed|, Adler.CHUNK)
    ensures sum.None? ==> StoppedAt(cancelled, poll, next)
  {
    hide Adler.PerByte, Adler.Raw, Blocks;
    sum, next := None, poll;
    var a: Adler.U32, b: Adler.U32 := 1, 0;
    var at := 0;
    Adler.ChunkedIsPerByte(Adler.Sums(1, 0), summed, Adler.CHUNK);
    while at < |summed|
      invariant 0 <= at <= |summed| && poll <= next
      invariant next + Blocks(|summed| - at, Adler.CHUNK) == poll + Blocks(|summed|, Adler.CHUNK)
      invariant a < Adler.MODULUS && b < Adler.MODULUS
      invariant Adler.Chunked(Adler.Sums(a, b), summed[at..], Adler.CHUNK)
                == Adler.PerByte(Adler.Sums(1, 0), summed)
      invariant NoneCancelled(cancelled, poll, next)
    {
      next := next + 1;
      if cancelled(next - 1) { return; }
      OneBlock(|summed| - at, Adler.CHUNK);
      var n := Adler.Longest(Adler.CHUNK, summed[at..]);
      assert summed[at..][..n] == summed[at..at + n] && summed[at..][n..] == summed[at + n..];
      a, b := Adler.SumChunk(a, b, summed[at..at + n]);
      at := at + n;
    }
    NoBlock(Adler.CHUNK);
    sum := Some(b * 0x1_0000 + a);
  }

  /** `valid_dex`: the header's fields, then the digest, then the checksum. */
  method ValidDex(data: seq<Byte>, sha1: seq<Byte> -> seq<Byte>, cancelled: nat -> bool, poll: nat)
    returns (ok: bool, next: nat)
    ensures poll <= next
    ensures ok ==> IsDex(data, sha1) && NoneCancelled(cancelled, poll, next)
    ensures ok ==> next == poll + Blocks(|data| - 32, CANCEL_CHECK_BLOCK) + Blocks(|data| - 12, Adler.CHUNK)
    ensures !ok ==> StoppedAt(cancelled, poll, next) || (NoneCancelled(cancelled, poll, next) && !IsDex(data, sha1))
  {
    ok, next := false, poll;
    if |data| < DEX_HEADER_LEN || !DexMagic(data)
       || U32Le(data, 32) != Some(|data|)
       || U32Le(data, 36) != Some(DEX_HEADER_LEN)
       || U32Le(data, 40) != Some(DEX_ENDIAN_CONSTANT)
    {
      return;
    }
    var digest;
    digest, next := Hash(data, 32, sha1, cancelled, poll);
    if digest != Some(data[12..32]) { return; }
    var sum;
    sum, next := Sum(data[12..], cancelled, next);
    ok := sum.Some? && U32Le(data, 8) == sum;
  }

  // ----- recovery -----

  function Decoded(data: seq<Byte>, key: seq<Byte>): seq<Byte> {
    Applied(Fresh(key), data)
  }

  /** The kind a decoded container is read as, from its first bytes alone. */
  function KindOf(decoded: seq<Byte>): Option<Kind> {
    if DexMagic(decoded) then Some(Dex)
    else if StartsAt(decoded, 0, PK) then Some(Zip)
    else None
  }

  predicate IsValid(decoded: seq<Byte>, kind: Kind, sha1: seq<Byte> -> seq<Byte>, zip: seq<Byte> -> bool) {
    match kind
    case Dex => IsDex(decoded, sha1)
    case Zip => zip(decoded)
  }

  /** What a key recovers from `data` when nothing is cancelled. */
  function Recovers(data: seq<Byte>, key: seq<Byte>, sha1: seq<Byte> -> seq<Byte>, zip: seq<Byte> -> bool)
    : Option<Recovered>
  {
    var decoded := Decoded(data, key);
    var kind := KindOf(decoded);
    if 32 <= |data| <= MAX_INPUT && 1 <= |key| <= 64 && kind.Some? && IsValid(decoded, kind.value, sha1, zip)
    then Some(Recovered(decoded, kind.value)) else None
  }

  /** The 32-byte probe sees the kind of the whole container. */
  lemma ProbeDecides(data: seq<Byte>, key: seq<Byte>)
    requires |data| >= 32
    ensures Decoded(data[..32], key) == Decoded(data, key)[..32]
    ensures KindOf(Decoded(data[..32], key)) == KindOf(Decoded(data, key))
  {
    hide Applied, Fresh;
    PrefixOfWhole(Fresh(key), data, 32);
    var decoded := Decoded(data, key);
    assert decoded[..32][..4] == decoded[..4];
    StartsAtBytes(decoded, 0, PK);
    StartsAtBytes(decoded[..32], 0, PK);
  }

  /** A recovered container enciphers back to the input, and passed its format's checks. */
  lemma RecoveryIsFaithful(data: seq<Byte>, key: seq<Byte>, sha1: seq<Byte> -> seq<Byte>, zip: seq<Byte> -> bool)
    requires Recovers(data, key, sha1, zip).Some?
    ensures var r := Recovers(data, key, sha1, zip).value;
            && Decoded(r.data, key) == data
            && IsValid(r.data, r.kind, sha1, zip)
            && |r.data| == |data|
  {
    Cancels(Fresh(key), data);
  }

  /** At most one recovery per key: distinct inputs never recover to the same container. */
  lemma RecoveryIsInjective(data: seq<Byte>, data': seq<Byte>, key: seq<Byte>,
                            sha1: seq<Byte> -> seq<Byte>, zip: seq<Byte> -> bool)
    requires Recovers(data, key, sha1, zip).Some?
    requires Recovers(data, key, sha1, zip) == Recovers(data', key, sha1, zip)
    ensures data == data'
  {
    RecoveryIsFaithful(data, key, sha1, zip);
    RecoveryIsFaithful(data', key, sha1, zip);
  }

  /** How often a recovery polls: at the start, before every block it decodes, and as its checks do. */
  function PollsOf(size: nat, kind: Kind): nat {
    1 + Blocks(size, 64 * 1024)
    + if kind == Dex && size >= 32 then Blocks(size - 32, 64 * 1024) + Blocks(size - 12, 5552) else 0
  }

  /**
   Whatever is told to stop stops at that poll, with nothing. Otherwise what is returned is what the
   key recovers, after exactly as many polls as its size and kind ask for.
   */
  method Recover(data: seq<Byte>, key: seq<Byte>, sha1: seq<Byte> -> seq<Byte>, zip: seq<Byte> -> bool,
                 cancelled: nat -> bool)
    returns (recovery: Option<Recovered>, polls: nat)
    ensures recovery.Some? ==> recovery == Recovers(data, key, sha1, zip) && NoneCancelled(cancelled, 0, polls)
    ensures recovery.Some? ==> polls == PollsOf(|data|, recovery.value.kind)
    ensures recovery.None? ==>
              || StoppedAt(cancelled, 0, polls)
              || (NoneCancelled(cancelled, 0, polls) && Recovers(data, key, sha1, zip) == None)
  {
    hide Blocks, IsDex, DexMagic, KindOf, Applied, Fresh;
    recovery, polls := None, 0;
    if |data| > MAX_INPUT || !(1 <= |key| <= 64) { return; }
    polls := 1;
    if cancelled(0) || |data| < 32 { return; }
    var kind := Probe(data, key);
    if kind.None? { return; }
    var decoded;
    decoded, polls := DecodeAll(data, key, cancelled, polls);
    if decoded.None? { return; }
    var valid;
    if kind.value == Dex {
      valid, polls := ValidDex(decoded.value, sha1, cancelled, polls);
    } else {
      valid := zip(decoded.value);
    }
    if valid { recovery := Some(Recovered(decoded.value, kind.value)); }
  }

  /** Decipher the first 32 bytes with a cipher of their own. */
  method Probe(data: seq<Byte>, key: seq<Byte>) returns (kind: Option<Kind>)
    requires |data| >= 32
    ensures kind == KindOf(Decoded(data, key))
  {
    hide Applied, After, Fresh;
    var prefix := new Byte[32](n requires 0 <= n < 32 && 32 <= |data| => data[n]);
    assert prefix[..] == data[..32];
    var cipher := new Rc4State(key);
    assert prefix[0..32] == data[..32];
    cipher.Apply(prefix, 0, 32);
    assert prefix[..] == prefix[0..32];
    ProbeDecides(data, key);
    kind := KindOf(prefix[..]);
  }

  /** Decode a copy in place, a block at a time, polling before each. */
  method DecodeAll(data: seq<Byte>, key: seq<Byte>, cancelled: nat -> bool, poll: nat)
    returns (decoded: Option<seq<Byte>>, next: nat)
    ensures decoded.Some? ==> decoded.value == Decoded(data, key) && NoneCancelled(cancelled, poll, next)
    ensures decoded.Some? ==> next == poll + Blocks(|data|, CANCEL_CHECK_BLOCK)
    ensures decoded.None? ==> StoppedAt(cancelled, poll, next)
  {
    hide Applied, After, Fresh, IsPermutation, Blocks;
    decoded, next := None, poll;
    var buffer := new Byte[|data|](n requires 0 <= n < |data| => data[n]);
    var cipher := new Rc4State(key);
    ghost var start := cipher.Value();
    AppliedToNone(start);
    assert data[..0] == [] && [] + data[0..] == data;
    assert buffer[..] == data;
    var at := 0;
    while at < |data|
      invariant 0 <= at <= |data| && poll <= next && buffer.Length == |data|
      invariant next + Blocks(|data| - at, CANCEL_CHECK_BLOCK) == poll + Blocks(|data|, CANCEL_CHECK_BLOCK)
      invariant cipher.Valid() && cipher.state != buffer && fresh(cipher) && fresh(cipher.state)
      invariant cipher.Value() == After(start, at)
      invariant buffer[..] == Applied(start, data[..at]) + data[at..]
      invariant NoneCancelled(cancelled, poll, next)
    {
      next := next + 1;
      if cancelled(next - 1) { return; }
      OneBlock(|data| - at, CANCEL_CHECK_BLOCK);
      var end := if at + CANCEL_CHECK_BLOCK < |data| then at + CANCEL_CHECK_BLOCK else |data|;
      Block(start, data, at, end);
      DecodeBlock(cipher, buffer, at, end);
      at := end;
    }
    assert data[..at] == data;
    NoBlock(CANCEL_CHECK_BLOCK);
    decoded := Some(buffer[..]);
  }

  method DecodeBlock(cipher: Rc4State, buffer: array<Byte>, at: nat, end: nat)
    requires cipher.Valid() && cipher.state != buffer && at <= end <= buffer.Length
    modifies cipher, cipher.state, buffer
    ensures cipher.Valid() && cipher.Value() == After(old(cipher.Value()), end - at)
    ensures var before := old(buffer[..]);
            buffer[..] == before[..at] + Applied(old(cipher.Value()), before[at..end]) + before[end..]
  {
    hide Applied, After;
    ghost var before := buffer[..];
    assert buffer[at..end] == before[at..end];
    cipher.Apply(buffer, at, end);
    assert buffer[..] == buffer[..at] + buffer[at..end] + buffer[end..];
  }

  /** What one block does to a partly decoded buffer. */
  lemma Block(c: Cipher, data: seq<Byte>, at: nat, end: nat)
    requires |c.state| == 256 && at <= end <= |data|
    ensures var before := Applied(c, data[..at]) + data[at..];
            && before[..at] == Applied(c, data[..at])
            && before[at..end] == data[at..end]
            && before[end..] == data[end..]
            && Applied(c, data[..end]) == Applied(c, data[..at]) + Applied(After(c, at), data[at..end])
            && After(c, end) == After(After(c, at), end - at)
  {
    hide Applied, After;
    Chunked(c, data[..at], data[at..end]);
    assert data[..at] + data[at..end] == data[..end];
  }
}
