/**
 What a phar looks like byte for byte where the parse only measures: its signature trailers, the two
 version bytes, the flag that promises a signature, and the openings PHP is detected by.
 */
module PharForms {
  import opened Bytes
  import opened PharManifest
  import opened Phar

  lemma Spellings()
    ensures HALT_TOKEN == Spelled("__HALT_COMPILER();") && SIGNATURE_MAGIC == Spelled("GBMB")
  {
  }

  // ----- signatures -----

  /** Bytes of a digest, and the flag word's low byte. */
  function DigestOf(a: Algorithm): Option<(nat, Byte)> {
    match a
    case Md5 => Some((128 / 8, 1))
    case Sha1 => Some((160 / 8, 2))
    case Sha256 => Some((256 / 8, 3))
    case Sha512 => Some((512 / 8, 4))
    case _ => None
  }

  function KeyedFlag(a: Algorithm): Byte {
    match a
    case OpenSsl => 0x10
    case OpenSslSha256 => 0x11
    case _ => 0x12
  }

  /** A digest is followed by its flag, three zeros and `GBMB`. */
  lemma DigestIsRead(signed: seq<Byte>, digest: seq<Byte>, a: Algorithm)
    requires DigestOf(a).Some? && |digest| == DigestOf(a).value.0
    ensures var data := signed + digest + [DigestOf(a).value.1, 0, 0, 0] + Spelled("GBMB");
            TrailerOf(data) == Ok(Trailer(a, |signed|, |signed| + |digest|))
  {
    var behind := [DigestOf(a).value.1, 0, 0, 0] + Spelled("GBMB");
    var data := signed + digest + [DigestOf(a).value.1, 0, 0, 0] + Spelled("GBMB");
    var t := Trailer(a, |signed|, |signed| + |digest|);
    Spellings();
    DigestFlag(a);
    hide TrailerOf, Spelled, ToLe32, Flags, DigestOf;
    assert AfterSignature(t) == behind;
    assert data[t.end..] == behind;
    TrailerIsCanonical(data, t);
  }

  lemma DigestFlag(a: Algorithm)
    requires DigestOf(a).Some?
    ensures DigestLen(a) == Some(DigestOf(a).value.0) && DigestOf(a).value.0 < WORD
    ensures ToLe32(Flags(a)) == [DigestOf(a).value.1, 0, 0, 0]
  {
  }

  /** A signature by key is followed by its length, low byte first, then its flag, three zeros and `GBMB`. */
  lemma KeyedIsRead(signed: seq<Byte>, signature: seq<Byte>, a: Algorithm, b0: Byte, b1: Byte, b2: Byte, b3: Byte)
    requires DigestOf(a).None? && |signature| == b0 + 0x100 * b1 + 0x1_0000 * b2 + 0x100_0000 * b3
    ensures var data := signed + signature + [b0, b1, b2, b3] + [KeyedFlag(a), 0, 0, 0] + Spelled("GBMB");
            TrailerOf(data) == Ok(Trailer(a, |signed|, |signed| + |signature|))
  {
    var behind := [b0, b1, b2, b3] + [KeyedFlag(a), 0, 0, 0] + Spelled("GBMB");
    var data := signed + signature + [b0, b1, b2, b3] + [KeyedFlag(a), 0, 0, 0] + Spelled("GBMB");
    var t := Trailer(a, |signed|, |signed| + |signature|);
    Spellings();
    KeyedEnds(t, b0, b1, b2, b3);
    assert data[t.end..] == behind;
    TrailerIsCanonical(data, t);
  }

  lemma KeyedEnds(t: Trailer, b0: Byte, b1: Byte, b2: Byte, b3: Byte)
    requires DigestOf(t.algorithm).None? && t.start <= t.end
    requires t.end - t.start == b0 + 0x100 * b1 + 0x1_0000 * b2 + 0x100_0000 * b3
    ensures t.end < t.start + WORD
    ensures AfterSignature(t) == [b0, b1, b2, b3] + [KeyedFlag(t.algorithm), 0, 0, 0] + SIGNATURE_MAGIC
  {
    WordOf(b0, b1, b2, b3);
    FlagWord(t.algorithm);
    hide ToLe32, Le32, Flags;
    var flags := [KeyedFlag(t.algorithm), 0, 0, 0];
    assert [b0, b1, b2, b3] + (flags + SIGNATURE_MAGIC) == [b0, b1, b2, b3] + flags + SIGNATURE_MAGIC;
  }

  lemma WordOf(b0: Byte, b1: Byte, b2: Byte, b3: Byte)
    ensures var n := b0 + 0x100 * b1 + 0x1_0000 * b2 + 0x100_0000 * b3; n < WORD && ToLe32(n) == [b0, b1, b2, b3]
  {
    hide ToLe32;
    Le32IsU32(b0, b1, b2, b3);
    Le32Bytes(b0, b1, b2, b3);
  }

  lemma FlagWord(a: Algorithm)
    requires DigestOf(a).None?
    ensures ToLe32(Flags(a)) == [KeyedFlag(a), 0, 0, 0]
  {
  }

  /** A manifest promises a signature by the lowest bit of its flags' third byte. */
  lemma PromiseIsABit(low: nat, bit: nat, high: nat)
    requires low < 0x1_0000 && bit < 2
    ensures PromisesSignature(low + 0x1_0000 * (bit + 2 * high)) <==> bit == 1
  {
    var flags := low + 0x1_0000 * (bit + 2 * high);
    assert flags / 0x1_0000 == bit + 2 * high;
    assert (bit + 2 * high) % 2 == bit;
  }

  /** Major, minor and patch are the first three half bytes. */
  lemma VersionIsItsHalves(major: nat, minor: nat, patch: nat, rest: nat)
    requires major < 0x10 && minor < 0x10 && patch < 0x10 && rest < 0x10
    ensures Version(0x10 * major + minor, 0x10 * patch + rest) == (major, minor, patch)
  {
  }

  // ----- PHP's openings -----

  /** `<?=`, or `<?` or `<?php` in any case before `=` or a blank. */
  ghost predicate Opens(s: seq<Byte>) {
    exists word, c: Byte, rest ::
      && s == Spelled("<?") + word + [c] + rest
      && (word == [] || IsPhp(word))
      && (c == '=' as int || IsSpace(c))
  }

  predicate IsPhp(word: seq<Byte>) {
    |word| == 3 && (word[0] == 'p' as int || word[0] == 'P' as int) && (word[1] == 'h' as int || word[1] == 'H' as int)
    && (word[2] == 'p' as int || word[2] == 'P' as int)
  }

  lemma PhpInAnyCase(word: seq<Byte>)
    ensures LowerAll(word) == [0x70, 0x68, 0x70] <==> IsPhp(word)
  {
  }

  lemma OpensTagIsOpens(s: seq<Byte>)
    ensures OpensTag(s) <==> Opens(s)
  {
    hide OpensTag, Opens;
    if OpensTag(s) { TagOpens(s); }
    if Opens(s) { OpensWithTag(s); }
  }

  lemma TagOpens(s: seq<Byte>)
    requires OpensTag(s)
    ensures Opens(s)
  {
    hide LowerAll, IsPhp;
    var word := if |s| >= 5 && LowerAll(s[2..5]) == [0x70, 0x68, 0x70] then s[2..5] else [];
    PhpInAnyCase(word);
    var at := 2 + |word|;
    assert s == Spelled("<?") + word + [s[at]] + s[at + 1..];
  }

  lemma OpensWithTag(s: seq<Byte>)
    requires Opens(s)
    ensures OpensTag(s)
  {
    hide LowerAll, IsPhp;
    var word, c: Byte, rest :| s == Spelled("<?") + word + [c] + rest && (word == [] || IsPhp(word))
                               && (c == '=' as int || IsSpace(c));
    PhpInAnyCase(word);
    var at := 2 + |word|;
    assert s[0] == LT && s[1] == QUESTION && s[at] == c;
    if word != [] {
      PhpIsThree(word);
      assert s[2..5] == word;
    } else if |s| >= 5 {
      assert s[2..5][0] == c;
      PhpInAnyCase(s[2..5]);
      PhpIsThree(s[2..5]);
    }
  }

  lemma PhpIsThree(word: seq<Byte>)
    ensures IsPhp(word) ==> |word| == 3 && word[0] != '=' as int && !IsSpace(word[0])
  {
  }

  ghost predicate OpensBehindBlanks(data: seq<Byte>) {
    exists before, rest :: AllSpaces(before) && Opens(rest) && data == before + rest
  }

  ghost predicate OpensBehindLine(data: seq<Byte>) {
    exists before, line, more, rest ::
      && AllSpaces(before) && LF !in line && AllSpaces(more) && Opens(rest)
      && data == before + Spelled("#!") + line + [LF] + more + rest
  }

  lemma OpensIsNoBlank(s: seq<Byte>)
    requires Opens(s)
    ensures s != [] && s[0] == '<' as int && !IsSpace(s[0])
  {
  }

  /** A file opens as PHP behind blanks, or behind blanks, a line `#!...` and blanks, and in no other way. */
  lemma OpensAsPhpIs(data: seq<Byte>)
    ensures OpensAsPhp(data) <==> OpensBehindBlanks(data) || OpensBehindLine(data)
  {
    hide OpensAsPhp, Opens;
    if OpensAsPhp(data) { OpensHere(data); }
    if OpensBehindBlanks(data) {
      var before, rest :| AllSpaces(before) && Opens(rest) && data == before + rest;
      OpensOnThisLine(before, rest);
    }
    if OpensBehindLine(data) {
      var before, line, more, rest :|
        && AllSpaces(before) && LF !in line && AllSpaces(more) && Opens(rest)
        && data == before + Spelled("#!") + line + [LF] + more + rest;
      OpensOnALaterLine(before, line, more, rest);
    }
  }

  lemma OpensOnThisLine(before: seq<Byte>, rest: seq<Byte>)
    requires AllSpaces(before) && Opens(rest)
    ensures OpensAsPhp(before + rest)
  {
    hide Opens, OpensTag, Find, TrimFront;
    OpensIsNoBlank(rest);
    OpensTagIsOpens(rest);
    TrimFrontIs(before, rest);
  }

  lemma OpensHere(data: seq<Byte>)
    requires OpensAsPhp(data)
    ensures OpensBehindBlanks(data) || OpensBehindLine(data)
  {
    hide Opens, OpensTag, Find, TrimFront, Spelled;
    var before := TrimsFront(data);
    var head := TrimFront(data);
    if |head| >= 2 && head[0] == 0x23 && head[1] == BANG {
      var line, more, rest := OpensLater(head);
      Regrouped(before, Spelled("#!"), line, [LF], more, rest);
    } else {
      OpensTagIsOpens(head);
    }
  }

  lemma Regrouped(a: seq<Byte>, b: seq<Byte>, c: seq<Byte>, d: seq<Byte>, e: seq<Byte>, f: seq<Byte>)
    ensures a + (b + c + d + e + f) == a + b + c + d + e + f
  {
    assert a + (b + c + d + e + f) == a + (b + c + d + e) + f;
    assert a + (b + c + d + e) == a + (b + c + d) + e;
    assert a + (b + c + d) == a + (b + c) + d;
    assert a + (b + c) == a + b + c;
  }

  lemma OpensLater(head: seq<Byte>) returns (line: seq<Byte>, more: seq<Byte>, rest: seq<Byte>)
    requires |head| >= 2 && head[0] == 0x23 && head[1] == BANG && Find(head, 0, [LF]).Some?
    requires OpensTag(TrimFront(head[Find(head, 0, [LF]).value + 1..]))
    ensures head == Spelled("#!") + line + [LF] + more + rest
    ensures LF !in line && AllSpaces(more) && Opens(rest)
  {
    hide Opens, OpensTag, Find, TrimFront;
    var end := Find(head, 0, [LF]).value;
    NoBreakBefore(head, end);
    line := head[2..end];
    more := TrimsFront(head[end + 1..]);
    rest := TrimFront(head[end + 1..]);
    OpensTagIsOpens(rest);
    assert head[..2] == Spelled("#!");
    assert head == head[..2] + line + [LF] + head[end + 1..];
    Assoc(head[..2] + line + [LF], more, rest);
  }

  lemma Assoc(x: seq<Byte>, y: seq<Byte>, z: seq<Byte>)
    ensures x + (y + z) == x + y + z
  {
  }

  lemma NoBreakBefore(head: seq<Byte>, end: nat)
    requires Find(head, 0, [LF]) == Some(end) && |head| >= 2 && head[0] == 0x23 && head[1] == BANG
    ensures 2 <= end < |head| && head[end] == LF && LF !in head[2..end]
  {
    hide Find, StartsAt;
    StartsWithByte(head, end, LF);
    forall k | 2 <= k < end ensures head[k] != LF { StartsWithByte(head, k, LF); }
    assert forall k :: 0 <= k < |head[2..end]| ==> head[2..end][k] == head[k + 2];
  }

  lemma FirstBreak(head: seq<Byte>, end: nat)
    requires end < |head| && head[end] == LF && LF !in head[..end]
    ensures Find(head, 0, [LF]) == Some(end)
  {
    hide Find, StartsAt;
    StartsWithByte(head, end, LF);
    forall k | 0 <= k < end ensures !StartsAt(head, k, [LF]) {
      StartsWithByte(head, k, LF);
      assert head[..end][k] == head[k];
    }
    assert StartsAt(head, end, [LF]);
  }

  lemma OpensOnALaterLine(before: seq<Byte>, line: seq<Byte>, more: seq<Byte>, rest: seq<Byte>)
    requires AllSpaces(before) && LF !in line && AllSpaces(more) && Opens(rest)
    ensures OpensAsPhp(before + Spelled("#!") + line + [LF] + more + rest)
  {
    hide Opens, OpensTag, Find, TrimFront;
    var head := Spelled("#!") + line + [LF] + more + rest;
    assert before + Spelled("#!") + line + [LF] + more + rest == before + head;
    TrimFrontIs(before, head);
    var end := 2 + |line|;
    assert head[..end] == Spelled("#!") + line;
    FirstBreak(head, end);
    assert head[end + 1..] == more + rest;
    OpensIsNoBlank(rest);
    OpensTagIsOpens(rest);
    TrimFrontIs(more, rest);
  }

  // ----- what is written where -----

  /** A word, lowest byte first. */
  predicate Spells(w: seq<Byte>, n: nat) {
    |w| == 4 && (var b0: int, b1: int, b2: int, b3: int := w[0], w[1], w[2], w[3];
                 n == b0 + 0x100 * b1 + 0x1_0000 * b2 + 0x100_0000 * b3)
  }

  lemma WordIsSpelled(w: seq<Byte>, n: nat, rest: seq<Byte>)
    requires Spells(w, n)
    ensures n < WORD && PutWord(n, rest) == w + rest
  {
    hide ToLe32;
    WordOf(w[0], w[1], w[2], w[3]);
  }

  /** A member: its name's length and name, five words, its metadata's length and metadata. */
  lemma MemberLayout(m: Member, words: seq<seq<Byte>>, rest: seq<Byte>)
    requires |words| == 7 && 0 < |m.name|
    requires Spells(words[0], |m.name|) && Spells(words[1], m.size) && Spells(words[2], m.mtime)
    requires Spells(words[3], m.compressedSize) && Spells(words[4], m.crc32) && Spells(words[5], m.flags)
    requires Spells(words[6], |m.metadata|)
    ensures MemberFits(m)
    ensures PutMember(m, rest) == words[0] + m.name + words[1] + words[2] + words[3] + words[4] + words[5]
                                  + words[6] + m.metadata + rest
  {
    hide PutWord, Spells;
    var metadata := m.metadata + rest;
    WordIsSpelled(words[6], |m.metadata|, metadata);
    var f6 := words[6] + metadata;
    WordIsSpelled(words[5], m.flags, f6);
    WordIsSpelled(words[4], m.crc32, words[5] + f6);
    WordIsSpelled(words[3], m.compressedSize, words[4] + (words[5] + f6));
    WordIsSpelled(words[2], m.mtime, words[3] + (words[4] + (words[5] + f6)));
    WordIsSpelled(words[1], m.size, words[2] + (words[3] + (words[4] + (words[5] + f6))));
    var behind := words[1] + (words[2] + (words[3] + (words[4] + (words[5] + f6))));
    WordIsSpelled(words[0], |m.name|, m.name + behind);
  }

  /** A manifest: how many members, two version bytes, flags, the alias, the metadata, and the members. */
  lemma ManifestLayout(m: Manifest, words: seq<seq<Byte>>, rest: seq<Byte>)
    requires |words| == 4 && MembersFit(m.members) && m.hi / 16 == 1
    requires Spells(words[0], |m.members|) && Spells(words[1], m.flags)
    requires Spells(words[2], |m.alias|) && Spells(words[3], |m.metadata|)
    ensures ManifestFits(m)
    ensures PutManifest(m, rest) == words[0] + [m.hi, m.lo] + words[1] + words[2] + m.alias + words[3] + m.metadata
                                    + PutMembers(m.members, rest)
  {
    hide PutWord, Spells, PutMembers;
    var members := PutMembers(m.members, rest);
    WordIsSpelled(words[3], |m.metadata|, m.metadata + members);
    var metadata := words[3] + (m.metadata + members);
    WordIsSpelled(words[2], |m.alias|, m.alias + metadata);
    var alias := words[2] + (m.alias + metadata);
    WordIsSpelled(words[1], m.flags, alias);
    WordIsSpelled(words[0], |m.members|, [m.hi, m.lo] + (words[1] + alias));
  }

  /** So a file printed behind a newline is listed with the fields it was printed from. */
  lemma PrintedIsListed(head: seq<Byte>, closing: seq<Byte>, m: Manifest, slack: seq<Byte>, contents: seq<Byte>,
                        signature: Option<Trailer>, cap: nat)
    requires |HALT_TOKEN| <= |head| && Find(head, 0, HALT_TOKEN) == Some(|head| - |HALT_TOKEN|)
    requires IsClosing(closing) && |closing| > 3
    requires ManifestFits(m) && |PutManifest(m, slack)| <= MAX_MANIFEST_SIZE
    requires var data := Built(head, closing, PutManifest(m, slack), contents);
             if signature.Some? then IsSigned(m) && TrailerStands(data, signature.value) else !IsSigned(m)
    ensures var listed := Listed(Whole(Built(head, closing, PutManifest(m, slack), contents)), cap);
            && listed.Ok?
            && var p := listed.value;
            && p.stubSize == |head| + |closing| && p.manifestSize == |PutManifest(m, slack)|
            && p.version == Version(m.hi, m.lo) && p.alias == m.alias && p.metadata == m.metadata
            && p.signature == signature
            && |p.entries| + p.unlisted == |m.members| && |p.entries| == Min(|m.members|, cap)
            && forall k :: 0 <= k < |p.entries| ==>
                 p.entries[k] == Entry(m.members[k], p.stubSize + 4 + p.manifestSize + Stored(m.members[..k]))
  {
    hide Find, PutManifest, ManifestFits, TrailerStands, IsSigned, Whole, Built, IsClosing, Kept, Stored;
    NewlineParsesBack(head, closing, m, slack, contents, signature);
    var base := |head| + |closing| + 4 + |PutManifest(m, slack)|;
    forall k | 0 <= k < Min(|m.members|, cap)
      ensures Kept(m.members, base, cap)[k] == Entry(m.members[k], base + Stored(m.members[..k]))
    {
      KeptAt(m.members, base, cap, k);
    }
  }
}
