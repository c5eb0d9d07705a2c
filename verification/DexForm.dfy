/**
 What a recovery promises byte for byte: the files that pass as a DEX, and a container that is its
 ciphertext changed by the RC4 keystream.
 */
module DexForm {
  import opened Bytes
  import opened Rc4
  import opened Keystream
  import opened Recovery
  import Adler

  const DEX_VERSIONS: seq<string> := ["035", "036", "037", "038", "039", "040"]

  /** `dex`, a line feed, three digits and a zero. */
  function Magic(version: string): (s: seq<Byte>)
    requires version in DEX_VERSIONS
    ensures |s| == 8
  {
    Spelled("dex\n") + Spelled(version) + [0]
  }

  /** The digits of a version, as they stand in the magic. */
  predicate IsVersion(a: Byte, b: Byte, c: Byte) {
    a == 0x30 && ((b == 0x33 && 0x35 <= c <= 0x39) || (b == 0x34 && c == 0x30))
  }

  lemma VersionAt(k: nat)
    requires k < 6
    ensures Spelled(DEX_VERSIONS[k]) == if k < 5 then [0x30, 0x33, 0x35 + k] else [0x30, 0x34, 0x30]
  {
  }

  lemma VersionIs(a: Byte, b: Byte, c: Byte)
    ensures IsVersion(a, b, c) <==> exists k :: 0 <= k < 6 && Spelled(DEX_VERSIONS[k]) == [a, b, c]
  {
    forall k: nat | k < 6
      ensures Spelled(DEX_VERSIONS[k]) == if k < 5 then [0x30, 0x33, 0x35 + k] else [0x30, 0x34, 0x30]
    {
      VersionAt(k);
    }
    hide Spelled;
    if IsVersion(a, b, c) {
      var k: nat := if b == 0x34 then 5 else c - 0x35;
      assert Spelled(DEX_VERSIONS[k]) == [a, b, c];
    }
  }

  lemma MagicIs(data: seq<Byte>)
    ensures DexMagic(data) <==> |data| >= 8 && exists version :: version in DEX_VERSIONS && data[..8] == Magic(version)
  {
    if DexMagic(data) {
      VersionIs(data[4], data[5], data[6]);
      var k :| 0 <= k < 6 && Spelled(DEX_VERSIONS[k]) == [data[4], data[5], data[6]];
      assert DEX_VERSIONS[k] in DEX_VERSIONS;
      MagicParts(data, DEX_VERSIONS[k]);
    }
    if |data| >= 8 && exists version :: version in DEX_VERSIONS && data[..8] == Magic(version) {
      var version :| version in DEX_VERSIONS && data[..8] == Magic(version);
      MagicParts(data, version);
      var k :| 0 <= k < 6 && DEX_VERSIONS[k] == version;
      VersionIs(data[4], data[5], data[6]);
      assert IsVersion(data[4], data[5], data[6]);
    }
  }

  lemma MagicParts(data: seq<Byte>, version: string)
    requires |data| >= 8 && version in DEX_VERSIONS
    ensures data[..8] == Magic(version)
            <==> data[..4] == DEX && data[7] == 0 && Spelled(version) == [data[4], data[5], data[6]]
  {
    assert DEX == Spelled("dex\n");
    assert data[..8] == data[..4] + [data[4], data[5], data[6]] + [data[7]];
    if data[..8] == Magic(version) {
      assert data[..8][..4] == data[..4] && Magic(version)[..4] == DEX;
      assert data[..8][4..7] == [data[4], data[5], data[6]] && Magic(version)[4..7] == Spelled(version);
      assert data[..8][7] == data[7];
    }
  }

  /** A word's value, its four bytes lowest first. */
  function WordOf(w: seq<Byte>): nat
    requires |w| == 4
  {
    var b0: int, b1: int, b2: int, b3: int := w[0], w[1], w[2], w[3];
    b0 + 0x100 * b1 + 0x1_0000 * b2 + 0x100_0000 * b3
  }

  lemma WordAt(data: seq<Byte>, at: nat)
    requires at + 4 <= |data|
    ensures U32Le(data, at) == Some(WordOf(data[at..at + 4]))
  {
  }

  lemma WordIs(w: seq<Byte>, b: seq<Byte>)
    requires |w| == |b| == 4
    ensures WordOf(w) == WordOf(b) <==> w == b
  {
    hide ToLe32;
    WordSpells(w);
    WordSpells(b);
  }

  /** A word is what its value is written as. */
  lemma WordSpells(w: seq<Byte>)
    requires |w| == 4
    ensures WordOf(w) < 0x1_0000_0000 && ToLe32(WordOf(w)) == w
  {
    hide ToLe32;
    Le32IsU32(w[0], w[1], w[2], w[3]);
    Le32Bytes(w[0], w[1], w[2], w[3]);
  }

  /**
   A DEX is 112 bytes or more: the magic; the Adler-32 of all behind it; the SHA-1 of all behind that;
   then the file's size, 112, and 12 34 56 78 with the low byte first.
   */
  lemma DexIs(sum: seq<Byte>, digest: seq<Byte>, size: seq<Byte>, header: seq<Byte>, endian: seq<Byte>,
              magic: seq<Byte>, rest: seq<Byte>, sha1: seq<Byte> -> seq<Byte>)
    requires |magic| == 8 && |sum| == 4 && |digest| == 20 && |size| == 4 && |header| == 4 && |endian| == 4
    ensures var hashed := size + header + endian + rest;
            var data := magic + sum + digest + hashed;
            IsDex(data, sha1)
            <==> && (exists version :: version in DEX_VERSIONS && magic == Magic(version))
                 && |data| >= 112 && WordOf(size) == |data| && header == [112, 0, 0, 0]
                 && endian == [0x78, 0x56, 0x34, 0x12]
                 && digest == sha1(hashed) && WordOf(sum) == Adler.Checksum(digest + hashed)
  {
    hide DexMagic, Adler.Checksum, U32Le, Magic;
    var hashed := size + header + endian + rest;
    var data := magic + sum + digest + hashed;
    assert data[..8] == magic && data[12..32] == digest && data[32..] == hashed && data[12..] == digest + hashed;
    assert data[8..12] == sum && data[32..36] == size && data[36..40] == header && data[40..44] == endian;
    MagicIs(data);
    WordAt(data, 8);
    WordAt(data, 32);
    WordAt(data, 36);
    WordAt(data, 40);
    WordIs(header, [112, 0, 0, 0]);
    WordIs(endian, [0x78, 0x56, 0x34, 0x12]);
  }

  /** Every file of 44 bytes or more has those parts. */
  lemma HasTheParts(data: seq<Byte>)
    requires |data| >= 44
    ensures data == data[..8] + data[8..12] + data[12..32] + (data[32..36] + data[36..40] + data[40..44] + data[44..])
  {
  }

  lemma ZipIs(decoded: seq<Byte>)
    ensures KindOf(decoded) == Some(Zip) <==> |decoded| >= 4 && decoded[..4] == Spelled("PK") + [3, 4]
    ensures KindOf(decoded) == Some(Dex) <==> DexMagic(decoded)
  {
    if DexMagic(decoded) { assert decoded[..4][0] == 0x64; }
  }

  /** A key recovers exactly the containers within the limits that pass as what they begin as. */
  lemma RecoversWhen(data: seq<Byte>, key: seq<Byte>, sha1: seq<Byte> -> seq<Byte>, zip: seq<Byte> -> bool,
                     r: Recovered)
    ensures Recovers(data, key, sha1, zip) == Some(r)
            <==> && 32 <= |data| <= 8 * 1024 * 1024 && 1 <= |key| <= 64
                 && r.data == Applied(Fresh(key), data)
                 && match r.kind
                    case Dex => IsDex(r.data, sha1)
                    case Zip => r.data[..4] == Spelled("PK") + [3, 4] && zip(r.data)
  {
    hide DexMagic, Fresh, Applied, IsDex, KindOf, Spelled;
    ZipIs(Decoded(data, key));
    DexHasMagic(Decoded(data, key), sha1);
  }

  lemma DexHasMagic(data: seq<Byte>, sha1: seq<Byte> -> seq<Byte>)
    ensures IsDex(data, sha1) ==> DexMagic(data)
  {
  }

  /** A recovery is its input with each byte changed in the bits of the RC4 keystream of the key. */
  lemma RecoveryIsDeciphered(data: seq<Byte>, key: seq<Byte>, sha1: seq<Byte> -> seq<Byte>, zip: seq<Byte> -> bool,
                             r: Recovered, n: nat, k: nat)
    requires Recovers(data, key, sha1, zip) == Some(r) && n < |data| && k < 8
    ensures |r.data| == |data| && (Bit(r.data[n], k) <==> Bit(data[n], k) != Bit(KeyByte(key, n + 1), k))
  {
    hide Fresh, Applied, KindOf, IsValid, Bit, KeyByte;
    AppliesTheKeystream(key, data, n, k);
  }
}
