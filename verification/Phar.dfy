/**
 The parse of a phar around its manifest: where the stub ends, what the signature trailer says, and
 the archive that both stand in. Of its members the caller's `cap` limits only the listing.
 */
module Phar {
  import opened Bytes
  import opened Cursor
  import opened PharManifest

  /** `__HALT_COMPILER();` */
  const HALT_TOKEN: seq<Byte> := [0x5F, 0x5F, 0x48, 0x41, 0x4C, 0x54, 0x5F, 0x43, 0x4F, 0x4D, 0x50, 0x49, 0x4C, 0x45,
                                  0x52, 0x28, 0x29, 0x3B]

  /** `GBMB` */
  const SIGNATURE_MAGIC: seq<Byte> := [0x47, 0x42, 0x4D, 0x42]

  const MAX_MANIFEST_SIZE: nat := 0x640_0000
  const MAX_DETECT_STUB: nat := 0x10_0000

  // ----- the stub -----

  /** The first offset behind the token and whatever closing `ClosingLength` sees there. */
  function StubEnd(data: seq<Byte>, afterToken: nat): (end: nat)
    requires afterToken <= |data|
    ensures afterToken <= end <= |data|
  {
    afterToken + ClosingLength(data[afterToken..])
  }

  function ClosingLength(rest: seq<Byte>): (n: nat)
    ensures n <= |rest|
  {
    if |rest| >= 3 && (rest[0] == SPACE || rest[0] == LF) && rest[1] == QUESTION && rest[2] == GT then
      if |rest| >= 5 && rest[3] == CR && rest[4] == LF then 5
      else if |rest| >= 4 && rest[3] == LF then 4
      else 3
    else 0
  }

  /** The ways PHP closes a stub. */
  predicate IsClosing(c: seq<Byte>) {
    c == [] || (|c| >= 3 && (c[0] == SPACE || c[0] == LF) && c[1] == QUESTION && c[2] == GT
                && (c[3..] == [] || c[3..] == [LF] || c[3..] == [CR, LF]))
  }

  /** The manifest's length field cannot be mistaken for more of the closing. */
  predicate KeepsApart(c: seq<Byte>, size: nat) {
    if c == [] then size % 0x100_0000 != 0x3E3F20 && size % 0x100_0000 != 0x3E3F0A
    else if |c| == 3 then size % 0x100 != LF && size % 0x1_0000 != 0x0A0D
    else true
  }

  lemma LowBytes(size: nat, b0: int, b1: int, b2: int)
    requires b0 == size % 0x100 && b1 == size / 0x100 % 0x100 && b2 == size / 0x100 / 0x100 % 0x100
    ensures size % 0x100 == b0
    ensures size % 0x1_0000 == b0 + 0x100 * b1
    ensures size % 0x100_0000 == b0 + 0x100 * b1 + 0x1_0000 * b2
  {
    var q := size / 0x100 / 0x100;
    assert size / 0x100 == q * 0x100 + b1;
    TwoBytes(q, b0 + 0x100 * b1);
    assert q == q / 0x100 * 0x100 + b2;
    ThreeBytes(q / 0x100, b0 + 0x100 * b1 + 0x1_0000 * b2);
  }

  lemma TwoBytes(q: nat, r: nat)
    requires r < 0x1_0000
    ensures (q * 0x1_0000 + r) % 0x1_0000 == r
  {
  }

  lemma ThreeBytes(q: nat, r: nat)
    requires r < 0x100_0000
    ensures (q * 0x100_0000 + r) % 0x100_0000 == r
  {
  }

  /** The stub is measured right exactly when its closing and the length field keep apart. */
  lemma StubBoundary(head: seq<Byte>, closing: seq<Byte>, size: nat, rest: seq<Byte>)
    requires IsClosing(closing) && size < WORD
    ensures var data := head + closing + PutWord(size, rest);
            StubEnd(data, |head|) == |head| + |closing| <==> KeepsApart(closing, size)
  {
    var data := head + closing + PutWord(size, rest);
    assert data[|head|..] == closing + PutWord(size, rest);
    var b := PutWord(size, rest);
    LowBytes(size, b[0], b[1], b[2]);
    ClosingBoundary(closing, b);
  }

  lemma ClosingBoundary(closing: seq<Byte>, behind: seq<Byte>)
    requires IsClosing(closing) && |behind| >= 3
    ensures ClosingLength(closing + behind) == |closing|
            <==> if closing == [] then
                   !((behind[0] == SPACE || behind[0] == LF) && behind[1] == QUESTION && behind[2] == GT)
                 else
                   |closing| == 3 ==> behind[0] != LF && !(behind[0] == CR && behind[1] == LF)
  {
    var s := closing + behind;
    assert closing == [] ==> s[0] == behind[0] && s[1] == behind[1] && s[2] == behind[2];
    if |closing| == 3 {
      assert s[3] == behind[0] && s[4] == behind[1];
    } else if |closing| > 3 {
      assert s[3] == closing[3..][0];
      assert |closing| == 5 ==> s[4] == closing[3..][1];
    }
  }

  // ----- the signature trailer -----

  datatype Algorithm = Md5 | Sha1 | Sha256 | Sha512 | OpenSsl | OpenSslSha256 | OpenSslSha512

  datatype Trailer = Trailer(algorithm: Algorithm, start: nat, end: nat)

  function FromFlags(flags: nat): Option<Algorithm> {
    match flags
    case 0x01 => Some(Md5)
    case 0x02 => Some(Sha1)
    case 0x03 => Some(Sha256)
    case 0x04 => Some(Sha512)
    case 0x10 => Some(OpenSsl)
    case 0x11 => Some(OpenSslSha256)
    case 0x12 => Some(OpenSslSha512)
    case _ => None
  }

  function Flags(a: Algorithm): (flags: nat)
    ensures flags < WORD && FromFlags(flags) == Some(a)
  {
    match a
    case Md5 => 0x01
    case Sha1 => 0x02
    case Sha256 => 0x03
    case Sha512 => 0x04
    case OpenSsl => 0x10
    case OpenSslSha256 => 0x11
    case OpenSslSha512 => 0x12
  }

  function DigestLen(a: Algorithm): Option<nat> {
    match a
    case Md5 => Some(16)
    case Sha1 => Some(20)
    case Sha256 => Some(32)
    case Sha512 => Some(64)
    case _ => None
  }

  predicate EndsWith(data: seq<Byte>, suffix: seq<Byte>) {
    |suffix| <= |data| && data[|data| - |suffix|..] == suffix
  }

  function TrailerOf(data: seq<Byte>): Result<Trailer> {
    if !EndsWith(data, SIGNATURE_MAGIC) then Err(TrailerWithoutMagic)
    else if |data| < 8 then Err(TrailerTruncated)
    else
      var flagsAt := |data| - 8;
      match FromFlags(U32Le(data, flagsAt).value)
      case None => Err(TrailerUnknownAlgorithm)
      case Some(algorithm) =>
        match DigestLen(algorithm)
        case Some(len) =>
          if flagsAt < len then Err(TrailerTruncated) else Ok(Trailer(algorithm, flagsAt - len, flagsAt))
        case None =>
          if flagsAt < 4 then Err(TrailerTruncated)
          else
            var lenAt := flagsAt - 4;
            var len := U32Le(data, lenAt).value;
            if lenAt < len then Err(TrailerTruncated) else Ok(Trailer(algorithm, lenAt - len, lenAt))
  }

  /** What stands behind the signature: an OpenSSL signature's length, the flags, the magic. */
  function AfterSignature(t: Trailer): seq<Byte>
    requires t.start <= t.end < t.start + WORD
  {
    var flags := PutWord(Flags(t.algorithm), SIGNATURE_MAGIC);
    if DigestLen(t.algorithm).Some? then flags else PutWord(t.end - t.start, flags)
  }

  predicate TrailerStands(data: seq<Byte>, t: Trailer) {
    && t.start <= t.end < t.start + WORD && t.end <= |data|
    && (DigestLen(t.algorithm).Some? ==> t.end - t.start == DigestLen(t.algorithm).value)
    && data[t.end..] == AfterSignature(t)
  }

  lemma WordAt(data: seq<Byte>, at: nat, n: nat, rest: seq<Byte>)
    requires n < WORD && at <= |data|
    ensures data[at..] == PutWord(n, rest) <==> at + 4 <= |data| && U32Le(data, at) == Some(n) && data[at + 4..] == rest
  {
    hide U32Le, ToLe32;
    ReadsWhatIsWritten(data, at, n);
    if data[at..] == PutWord(n, rest) {
      assert data[at + 4..] == data[at..][4..];
    }
  }

  lemma FlagsAreTheAlgorithms(flags: nat, a: Algorithm)
    ensures FromFlags(flags) == Some(a) <==> flags == Flags(a)
  {
  }

  /** `trailer` answers `t` exactly for the files that end in a trailer `t` describes. */
  lemma TrailerIsCanonical(data: seq<Byte>, t: Trailer)
    ensures TrailerOf(data) == Ok(t) <==> TrailerStands(data, t)
  {
    hide U32Le, ToLe32, PutWord, Flags, FromFlags;
    if DigestLen(t.algorithm).Some? { DigestTrailer(data, t); } else { OpenSslTrailer(data, t); }
  }

  lemma DigestTrailer(data: seq<Byte>, t: Trailer)
    requires DigestLen(t.algorithm).Some?
    ensures TrailerOf(data) == Ok(t) <==> TrailerStands(data, t)
  {
    hide U32Le, ToLe32, PutWord, Flags, FromFlags, EndsWith;
    PutWordLength(Flags(t.algorithm), SIGNATURE_MAGIC);
    if |data| >= 8 { FlagsStand(data, t.algorithm); }
  }

  lemma FlagsStand(data: seq<Byte>, a: Algorithm)
    requires |data| >= 8
    ensures data[|data| - 8..] == PutWord(Flags(a), SIGNATURE_MAGIC)
            <==> EndsWith(data, SIGNATURE_MAGIC) && FromFlags(U32Le(data, |data| - 8).value) == Some(a)
  {
    hide U32Le, ToLe32, PutWord, Flags, FromFlags;
    WordAt(data, |data| - 8, Flags(a), SIGNATURE_MAGIC);
    FlagsAreTheAlgorithms(U32Le(data, |data| - 8).value, a);
  }

  lemma OpenSslTrailer(data: seq<Byte>, t: Trailer)
    requires DigestLen(t.algorithm).None?
    ensures TrailerOf(data) == Ok(t) <==> TrailerStands(data, t)
  {
    hide U32Le, ToLe32, PutWord, Flags, FromFlags, EndsWith;
    var flags := PutWord(Flags(t.algorithm), SIGNATURE_MAGIC);
    if |data| >= 8 { FlagsStand(data, t.algorithm); }
    if |data| >= 12 && t.start <= t.end < t.start + WORD {
      WordAt(data, |data| - 12, t.end - t.start, flags);
    }
    PutWordLength(Flags(t.algorithm), SIGNATURE_MAGIC);
    if t.start <= t.end < t.start + WORD { PutWordLength(t.end - t.start, flags); }
  }

  lemma PutWordLength(n: nat, rest: seq<Byte>)
    requires n < WORD
    ensures |PutWord(n, rest)| == |rest| + 4
  {
  }

  /** The signed bytes, the signature and its trailer lie one after the other inside the file. */
  lemma TrailerIsInside(data: seq<Byte>)
    ensures TrailerOf(data).Ok? ==> var t := TrailerOf(data).value; t.start <= t.end <= |data| - 8
  {
  }

  // ----- the whole file -----

  /** What a file declares: `slack` is what the manifest holds behind its members. */
  datatype Archive = Archive(stubSize: nat, manifestSize: nat, manifest: Manifest, slack: seq<Byte>,
                             signature: Option<Trailer>)

  predicate IsSigned(m: Manifest) {
    PromisesSignature(m.flags)
  }

  predicate PromisesSignature(flags: nat) {
    flags / 0x1_0000 % 2 == 1
  }

  function SignatureOf(data: seq<Byte>, signed: bool): Result<Option<Trailer>> {
    if signed then
      var trailer :- TrailerOf(data);
      Ok(Some(trailer))
    else Ok(None)
  }

  /** What any parse of `data` answers, however few members it keeps. */
  function Whole(data: seq<Byte>): Result<Archive> {
    match Find(data, 0, HALT_TOKEN)
    case None => Err(NoStubEnd)
    case Some(halt) =>
      var stubSize := StubEnd(data, halt + |HALT_TOKEN|);
      match U32Le(data, stubSize)
      case None => Err(TruncatedLength)
      case Some(size) =>
        if size > MAX_MANIFEST_SIZE then Err(ManifestTooLarge)
        else if stubSize + 4 + size > |data| then Err(PastEndOfFile)
        else
          Described(data, stubSize, size, TakeManifest(data[stubSize + 4..stubSize + 4 + size]))
  }

  function Described(data: seq<Byte>, stubSize: nat, size: nat, taken: Result<(Manifest, seq<Byte>)>): Result<Archive> {
    var manifest :- taken;
    var signature :- SignatureOf(data, IsSigned(manifest.0));
    Ok(Archive(stubSize, size, manifest.0, manifest.1, signature))
  }

  predicate StubStands(data: seq<Byte>, stubSize: nat) {
    match Find(data, 0, HALT_TOKEN)
    case None => false
    case Some(halt) => stubSize == StubEnd(data, halt + |HALT_TOKEN|)
  }

  /** `data` is the file `a` describes. */
  predicate ArchiveStands(data: seq<Byte>, a: Archive) {
    && StubStands(data, a.stubSize)
    && ManifestFits(a.manifest)
    && |PutManifest(a.manifest, a.slack)| == a.manifestSize <= MAX_MANIFEST_SIZE
    && a.stubSize + 4 + a.manifestSize <= |data|
    && data[a.stubSize..] == PutWord(a.manifestSize, PutManifest(a.manifest, a.slack)
                                                     + data[a.stubSize + 4 + a.manifestSize..])
    && (match a.signature
        case None => !IsSigned(a.manifest)
        case Some(t) => IsSigned(a.manifest) && TrailerStands(data, t))
  }

  lemma SignatureIsCanonical(data: seq<Byte>, signed: bool, signature: Option<Trailer>)
    ensures SignatureOf(data, signed) == Ok(signature)
            <==> if signature.Some? then signed && TrailerStands(data, signature.value) else !signed
  {
    hide TrailerOf, TrailerStands;
    if signature.Some? { TrailerIsCanonical(data, signature.value); }
  }

  lemma RegionAt(data: seq<Byte>, stubSize: nat, size: nat, region: seq<Byte>)
    requires stubSize + 4 + size <= |data| && size < WORD && |region| == size
    ensures data[stubSize..] == PutWord(size, region + data[stubSize + 4 + size..])
            <==> U32Le(data, stubSize) == Some(size) && data[stubSize + 4..stubSize + 4 + size] == region
  {
    hide PutWord, U32Le;
    WordAt(data, stubSize, size, region + data[stubSize + 4 + size..]);
    assert data[stubSize + 4..] == data[stubSize + 4..stubSize + 4 + size] + data[stubSize + 4 + size..];
    if data[stubSize + 4..] == region + data[stubSize + 4 + size..] {
      assert data[stubSize + 4..][..size] == region;
    }
  }

  /** A parse succeeds exactly on the files some archive describes, and finds that archive. */
  lemma WholeIsCanonical(data: seq<Byte>, a: Archive)
    ensures Whole(data) == Ok(a) <==> ArchiveStands(data, a)
  {
    hide Find, StubEnd, U32Le, TakeManifest, PutManifest, ManifestFits, SignatureOf, TrailerStands, IsSigned, PutWord;
    SignatureIsCanonical(data, IsSigned(a.manifest), a.signature);
    if a.stubSize + 4 + a.manifestSize <= |data| && a.manifestSize <= MAX_MANIFEST_SIZE {
      var region := data[a.stubSize + 4..a.stubSize + 4 + a.manifestSize];
      ManifestIsCanonical(region, a.manifest, a.slack);
      if ManifestFits(a.manifest) && |PutManifest(a.manifest, a.slack)| == a.manifestSize {
        RegionAt(data, a.stubSize, a.manifestSize, PutManifest(a.manifest, a.slack));
      }
    }
  }

  // ----- building one -----

  lemma FirstTokenStays(head: seq<Byte>, rest: seq<Byte>)
    requires |HALT_TOKEN| <= |head| && Find(head, 0, HALT_TOKEN) == Some(|head| - |HALT_TOKEN|)
    ensures Find(head + rest, 0, HALT_TOKEN) == Some(|head| - |HALT_TOKEN|)
  {
    var halt := |head| - |HALT_TOKEN|;
    forall k | 0 <= k <= halt ensures StartsAt(head + rest, k, HALT_TOKEN) == StartsAt(head, k, HALT_TOKEN) {
      assert (head + rest)[k..k + |HALT_TOKEN|] == head[k..k + |HALT_TOKEN|];
    }
  }

  function Built(head: seq<Byte>, closing: seq<Byte>, region: seq<Byte>, contents: seq<Byte>): seq<Byte>
    requires |region| < WORD
  {
    head + closing + PutWord(|region|, region + contents)
  }

  /**
   A manifest printed behind a stub parses back to itself exactly when the stub's closing and the
   length field keep apart; a closing that ends in a newline always does.
   */
  lemma RoundTrip(head: seq<Byte>, closing: seq<Byte>, m: Manifest, slack: seq<Byte>, contents: seq<Byte>,
                  signature: Option<Trailer>)
    requires |HALT_TOKEN| <= |head| && Find(head, 0, HALT_TOKEN) == Some(|head| - |HALT_TOKEN|)
    requires IsClosing(closing)
    requires ManifestFits(m) && |PutManifest(m, slack)| <= MAX_MANIFEST_SIZE
    requires var data := Built(head, closing, PutManifest(m, slack), contents);
             if signature.Some? then IsSigned(m) && TrailerStands(data, signature.value) else !IsSigned(m)
    ensures var size := |PutManifest(m, slack)|;
            Whole(Built(head, closing, PutManifest(m, slack), contents))
            == Ok(Archive(|head| + |closing|, size, m, slack, signature))
            <==> KeepsApart(closing, size)
  {
    hide Find, StubEnd, ClosingLength, PutManifest, PutWord, ManifestFits, TrailerStands, IsSigned, Whole, IsClosing,
      KeepsApart;
    hide Built;
    var region := PutManifest(m, slack);
    var data := Built(head, closing, region, contents);
    var tail := PutWord(|region|, region + contents);
    BuiltInParts(head, closing, region, contents);
    FirstTokenStays(head, closing + tail);
    StubBoundary(head, closing, |region|, region + contents);
    WholeIsCanonical(data, Archive(|head| + |closing|, |region|, m, slack, signature));
  }

  lemma NewlineKeepsApart(closing: seq<Byte>, size: nat)
    requires IsClosing(closing) && |closing| > 3
    ensures KeepsApart(closing, size)
  {
  }

  /** Behind a stub closed with a newline it always does. */
  lemma NewlineParsesBack(head: seq<Byte>, closing: seq<Byte>, m: Manifest, slack: seq<Byte>, contents: seq<Byte>,
                          signature: Option<Trailer>)
    requires |HALT_TOKEN| <= |head| && Find(head, 0, HALT_TOKEN) == Some(|head| - |HALT_TOKEN|)
    requires IsClosing(closing) && |closing| > 3
    requires ManifestFits(m) && |PutManifest(m, slack)| <= MAX_MANIFEST_SIZE
    requires var data := Built(head, closing, PutManifest(m, slack), contents);
             if signature.Some? then IsSigned(m) && TrailerStands(data, signature.value) else !IsSigned(m)
    ensures Whole(Built(head, closing, PutManifest(m, slack), contents))
            == Ok(Archive(|head| + |closing|, |PutManifest(m, slack)|, m, slack, signature))
  {
    hide Find, PutManifest, ManifestFits, TrailerStands, IsSigned, Whole, Built, IsClosing;
    RoundTrip(head, closing, m, slack, contents, signature);
    NewlineKeepsApart(closing, |PutManifest(m, slack)|);
  }

  /**
   A stub closed ` ?>` without a newline, in front of a manifest of 266 bytes: the low byte of the
   length, a line feed, is taken for the closing's, and the file does not parse back.
   */
  lemma ClosingTakesTheLength()
    ensures var m, slack := Manifest(0x11, 0x10, 0, [], [], []), Zeros(248);
            var closing := [SPACE, QUESTION, GT];
            && ManifestFits(m) && !IsSigned(m) && IsClosing(closing) && |PutManifest(m, slack)| == 266
            && Whole(Built(HALT_TOKEN, closing, PutManifest(m, slack), []))
               != Ok(Archive(|HALT_TOKEN| + |closing|, 266, m, slack, None))
  {
    var m, slack := Manifest(0x11, 0x10, 0, [], [], []), Zeros(248);
    var closing := [SPACE, QUESTION, GT];
    SmallManifest(m, slack);
    hide ManifestFits, PutManifest, Whole, Find, Built;
    TokenIsFirst();
    RoundTrip(HALT_TOKEN, closing, m, slack, [], None);
  }

  function Zeros(n: nat): (s: seq<Byte>)
    ensures |s| == n
  {
    seq(n, _ => 0)
  }

  lemma SmallManifest(m: Manifest, slack: seq<Byte>)
    requires m == Manifest(0x11, 0x10, 0, [], [], [])
    ensures ManifestFits(m) && |PutManifest(m, slack)| == 18 + |slack|
  {
  }

  lemma TokenIsFirst()
    ensures Find(HALT_TOKEN, 0, HALT_TOKEN) == Some(0)
  {
  }

  lemma BuiltInParts(head: seq<Byte>, closing: seq<Byte>, region: seq<Byte>, contents: seq<Byte>)
    requires |region| < WORD
    ensures var data, tail := Built(head, closing, region, contents), PutWord(|region|, region + contents);
            && data == head + (closing + tail) && data == head + closing + tail
            && data[|head| + |closing|..] == tail
            && |head| + |closing| + 4 + |region| <= |data|
            && data[|head| + |closing| + 4 + |region|..] == contents
  {
    Contents(head + closing, region, contents);
  }

  lemma Contents(stub: seq<Byte>, region: seq<Byte>, contents: seq<Byte>)
    requires |region| < WORD
    ensures (stub + PutWord(|region|, region + contents))[|stub| + 4 + |region|..] == contents
  {
  }

  // ----- the parse -----

  /** A kept member, and where its content starts. */
  datatype Entry = Entry(member: Member, offset: nat)

  datatype Phar = Phar(stubSize: nat, manifestSize: nat, version: (nat, nat, nat), alias: seq<Byte>,
                       metadata: seq<Byte>, entries: seq<Entry>, unlisted: nat, signature: Option<Trailer>)

  /** The bytes all of `ms` take in the file. */
  function Stored(ms: seq<Member>): nat {
    if ms == [] then 0 else Stored(ms[..|ms| - 1]) + ms[|ms| - 1].compressedSize
  }

  /** The members kept of `ms` as they are read, the first starting at `base`. */
  function Kept(ms: seq<Member>, base: nat, cap: nat): (entries: seq<Entry>)
    ensures |entries| == Min(|ms|, cap)
  {
    if ms == [] then []
    else
      var last := |ms| - 1;
      var before := Kept(ms[..last], base, cap);
      if |before| < cap then before + [Entry(ms[last], base + Stored(ms[..last]))] else before
  }

  /** The members a manifest that declares `count` lists. */
  function TakeAll(s: seq<Byte>, count: nat): Result<(seq<Member>, seq<Byte>)> {
    TakeMembers(s, count)
  }

  function KeptOf(taken: Result<(seq<Member>, seq<Byte>)>, base: nat, cap: nat): (kept: Result<seq<Entry>>)
    ensures kept.Err? <==> taken.Err?
    ensures kept.Err? ==> kept.problem == taken.problem
  {
    match taken
    case Ok(members) => Ok(Kept(members.0, base, cap))
    case Err(problem) => Err(problem)
  }

  /** A manifest as a parse leaves it: its fields, how many members it declares, and those kept. */
  datatype Short = Short(count: nat, hi: Byte, lo: Byte, flags: nat, alias: seq<Byte>, metadata: seq<Byte>,
                         entries: seq<Entry>)

  function Shortened(taken: Result<(Manifest, seq<Byte>)>, base: nat, cap: nat): Result<Short> {
    match taken
    case Ok((m, _)) =>
      Ok(Short(|m.members|, m.hi, m.lo, m.flags, m.alias, m.metadata, Kept(m.members, base, cap)))
    case Err(problem) => Err(problem)
  }

  /** The first `cap` members are kept, each starting where those before it end. */
  lemma {:induction false} KeptAt(ms: seq<Member>, base: nat, cap: nat, k: nat)
    requires k < Min(|ms|, cap)
    ensures Kept(ms, base, cap)[k] == Entry(ms[k], base + Stored(ms[..k]))
  {
    var last := |ms| - 1;
    if k < last {
      KeptAt(ms[..last], base, cap, k);
      assert ms[..last][..k] == ms[..k];
    }
  }

  /** The API version's three nibbles. */
  function Version(hi: Byte, lo: Byte): (nat, nat, nat) {
    (hi / 16, hi % 16, lo / 16)
  }

  function Listing(a: Archive, cap: nat): Phar {
    Phar(a.stubSize, a.manifestSize, Version(a.manifest.hi, a.manifest.lo), a.manifest.alias,
         a.manifest.metadata, Kept(a.manifest.members, a.stubSize + 4 + a.manifestSize, cap),
         |a.manifest.members| - Min(|a.manifest.members|, cap), a.signature)
  }

  /** What a parse that keeps `cap` members answers. */
  function Listed(whole: Result<Archive>, cap: nat): Result<Phar> {
    match whole
    case Ok(a) => Ok(Listing(a, cap))
    case Err(problem) => Err(problem)
  }

  lemma StoredGrows(ms: seq<Member>, m: Member)
    ensures Stored(ms + [m]) == Stored(ms) + m.compressedSize
  {
    assert (ms + [m])[..|ms|] == ms;
  }

  lemma {:induction false} StoredIsBounded(ms: seq<Member>)
    requires MembersFit(ms)
    ensures Stored(ms) <= |ms| * (WORD - 1)
  {
    if ms != [] {
      assert MemberFits(ms[|ms| - 1]);
      StoredIsBounded(ms[..|ms| - 1]);
    }
  }

  lemma KeptGrows(ms: seq<Member>, m: Member, base: nat, cap: nat)
    ensures Kept(ms + [m], base, cap)
            == if |ms| < cap then Kept(ms, base, cap) + [Entry(m, base + Stored(ms))] else Kept(ms, base, cap)
  {
    assert (ms + [m])[..|ms|] == ms;
  }

  /** A smaller cap keeps a prefix; kept and unlisted members are all the declared ones. */
  lemma CapOnlyTrims(a: Archive, cap: nat, more: nat)
    requires cap <= more
    ensures var small, large := Listing(a, cap), Listing(a, more);
            && small.entries == large.entries[..|small.entries|]
            && |small.entries| <= cap
            && |small.entries| + small.unlisted == |large.entries| + large.unlisted == |a.manifest.members|
            && small.(entries := large.entries, unlisted := large.unlisted) == large
  {
    hide Kept, Stored;
    var small, large := Listing(a, cap).entries, Listing(a, more).entries;
    var base := a.stubSize + 4 + a.manifestSize;
    forall k | 0 <= k < |small| ensures small[k] == large[k] {
      KeptAt(a.manifest.members, base, cap, k);
      KeptAt(a.manifest.members, base, more, k);
    }
  }

  /** One member at the cursor. */
  method ReadMember(r: Reader) returns (read: Result<Member>)
    requires r.Valid()
    modifies r`pos
    ensures r.Valid()
    ensures match TakeMember(old(r.Left()))
            case Ok(found) => read == Ok(found.0) && r.Left() == found.1
            case Err(problem) => read == Err(problem)
  {
    hide TakeWord, TakeField;
    var name := LengthPrefixed(r, MemberName);
    if name.None? { return Err(Truncated(MemberName)); }
    if name.value == [] { return Err(EmptyName); }
    var size := Word(r, MemberEntry);
    if size.None? { return Err(Truncated(MemberEntry)); }
    var mtime := Word(r, MemberEntry);
    if mtime.None? { return Err(Truncated(MemberEntry)); }
    var compressed := Word(r, MemberEntry);
    if compressed.None? { return Err(Truncated(MemberEntry)); }
    var crc32 := Word(r, MemberEntry);
    if crc32.None? { return Err(Truncated(MemberEntry)); }
    var flags := Word(r, MemberEntry);
    if flags.None? { return Err(Truncated(MemberEntry)); }
    var metadata := LengthPrefixed(r, MemberMetadata);
    if metadata.None? { return Err(Truncated(MemberMetadata)); }
    return Ok(Member(name.value, size.value, mtime.value, compressed.value, crc32.value, flags.value, metadata.value));
  }

  /** `ms` read already, in front of what the rest reads as. */
  function After(ms: seq<Member>, rest: Result<(seq<Member>, seq<Byte>)>): Result<(seq<Member>, seq<Byte>)> {
    match rest
    case Err(problem) => Err(problem)
    case Ok(read) => Ok((ms + read.0, read.1))
  }

  lemma AfterOne(ms: seq<Member>, s: seq<Byte>, count: nat)
    requires count > 0
    ensures After(ms, TakeMembers(s, count))
            == match TakeMember(s)
               case Err(problem) => Err(problem)
               case Ok(first) => After(ms + [first.0], TakeMembers(first.1, count - 1))
  {
    hide TakeMember;
    match TakeMember(s)
    case Err(_) =>
    case Ok(first) =>
      match TakeMembers(first.1, count - 1)
      case Err(_) =>
      case Ok(others) => assert ms + ([first.0] + others.0) == ms + [first.0] + others.0;
  }

  lemma MembersGrow(ms: seq<Member>, m: Member)
    requires MembersFit(ms) && MemberFits(m)
    ensures MembersFit(ms + [m]) && m.compressedSize < WORD
  {
  }

  lemma NeverSaturates(ms: seq<Member>, base: nat, m: Member)
    requires MembersFit(ms) && MIN_MEMBER * |ms| <= MAX_MANIFEST_SIZE && base <= MAX_SLICE && m.compressedSize < WORD
    ensures SatAdd(base + Stored(ms), m.compressedSize) == base + Stored(ms + [m])
  {
    hide MembersFit, Stored;
    StoredIsBounded(ms);
    StoredGrows(ms, m);
    RoomForOneMore(|ms|, base, Stored(ms), m.compressedSize);
  }

  lemma RoomForOneMore(count: nat, base: nat, stored: nat, size: nat)
    requires MIN_MEMBER * count <= MAX_MANIFEST_SIZE && base <= MAX_SLICE
    requires stored <= count * (WORD - 1) && size < WORD
    ensures base + stored + size <= U64_MAX
  {
  }

  lemma NothingYet(rest: Result<(seq<Member>, seq<Byte>)>, base: nat, cap: nat)
    ensures After([], rest) == rest && Kept([], base, cap) == [] && Stored([]) == 0
  {
    if rest.Ok? { assert [] + rest.value.0 == rest.value.0; }
  }

  lemma AllRead(ms: seq<Member>, rest: seq<Byte>)
    ensures After(ms, TakeMembers(rest, 0)) == Ok((ms, rest))
  {
    var none: seq<Member> := [];
    assert ms + none == ms;
  }

  /** The members, of which the first `cap` are kept, each with the offset of its content. */
  method ReadMembers(r: Reader, count: nat, base: nat, cap: nat) returns (read: Result<seq<Entry>>)
    requires r.Valid() && |r.Left()| <= MAX_MANIFEST_SIZE && base <= MAX_SLICE
    modifies r`pos
    ensures read == KeptOf(TakeAll(old(r.Left()), count), base, cap)
    ensures var found := TakeAll(old(r.Left()), count); found.Ok? ==> |found.value.0| == count
  {
    hide TakeMember, TakeMembers, After, Kept, MemberFits, Stored, SatAdd;
    var entries := [];
    var offset := base;
    ghost var start := r.Left();
    ghost var listed: seq<Member> := [];
    NothingYet(TakeMembers(start, count), base, cap);
    var i := 0;
    while i < count
      invariant 0 <= i <= count && r.Valid()
      invariant |listed| == i && MembersFit(listed)
      invariant MIN_MEMBER * i + |r.Left()| <= |start|
      invariant TakeMembers(start, count) == After(listed, TakeMembers(r.Left(), count - i))
      invariant entries == Kept(listed, base, cap)
      invariant offset == base + Stored(listed)
    {
      AfterOne(listed, r.Left(), count - i);
      MemberIsLong(r.Left());
      MemberWasWritten(r.Left());
      var member := ReadMember(r);
      if member.Err? { return Err(member.problem); }
      MembersGrow(listed, member.value);
      KeptGrows(listed, member.value, base, cap);
      NeverSaturates(listed, base, member.value);
      if |entries| < cap { entries := entries + [Entry(member.value, offset)]; }
      offset := SatAdd(offset, member.value.compressedSize);
      listed := listed + [member.value];
      i := i + 1;
    }
    AllRead(listed, r.Left());
    return Ok(entries);
  }

  /**
   `parse`: success, failure and its reason are those of `Whole`, into which `cap` does not enter.
   */
  method Parse(data: seq<Byte>, cap: nat) returns (parsed: Result<Phar>)
    requires |data| <= MAX_SLICE
    ensures parsed == Listed(Whole(data), cap)
  {
    hide TakeManifest, Described, StubEnd, U32Le, Find;
    var halt := Find(data, 0, HALT_TOKEN);
    if halt.None? { return Err(NoStubEnd); }
    var stubSize := StubEnd(data, halt.value + |HALT_TOKEN|);
    var manifestSize := U32Le(data, stubSize);
    if manifestSize.None? { return Err(TruncatedLength); }
    if manifestSize.value > MAX_MANIFEST_SIZE { return Err(ManifestTooLarge); }
    if stubSize + 4 + manifestSize.value > |data| { return Err(PastEndOfFile); }
    var region := data[stubSize + 4..stubSize + 4 + manifestSize.value];
    parsed := ParseManifest(data, stubSize, region, cap);
  }

  /** The manifest, its members and the signature, once the manifest's place in the file is known. */
  method ParseManifest(data: seq<Byte>, stubSize: nat, region: seq<Byte>, cap: nat) returns (parsed: Result<Phar>)
    requires stubSize + 4 + |region| <= |data| <= MAX_SLICE && |region| <= MAX_MANIFEST_SIZE
    ensures parsed == Listed(Described(data, stubSize, |region|, TakeManifest(region)), cap)
  {
    hide Version, PromisesSignature, TakeManifest, Shortened, SignatureOf, Described, Listed;
    var read := ReadManifest(region, stubSize + 4 + |region|, cap);
    ParsedAs(data, stubSize, |region|, cap, TakeManifest(region), read);
    if read.Err? { return Err(read.problem); }
    // The trailer is looked for only when the flags promise one.
    var m := read.value;
    var signature := SignatureOf(data, PromisesSignature(m.flags));
    if signature.Err? { return Err(signature.problem); }
    return Ok(Phar(stubSize, |region|, Version(m.hi, m.lo), m.alias, m.metadata, m.entries, m.count - |m.entries|,
                   signature.value));
  }

  /** What a parse answers, once the manifest is read. */
  lemma ParsedAs(data: seq<Byte>, stubSize: nat, size: nat, cap: nat, taken: Result<(Manifest, seq<Byte>)>,
                 read: Result<Short>)
    requires read == Shortened(taken, stubSize + 4 + size, cap)
    ensures read.Ok? ==> |read.value.entries| <= read.value.count
    ensures Listed(Described(data, stubSize, size, taken), cap)
            == if read.Err? then Err(read.problem)
               else
                 var m, signature := read.value, SignatureOf(data, PromisesSignature(read.value.flags));
                 if signature.Err? then Err(signature.problem)
                 else Ok(Phar(stubSize, size, Version(m.hi, m.lo), m.alias, m.metadata, m.entries,
                              m.count - |m.entries|, signature.value))
  {
    hide Kept, SignatureOf, PromisesSignature, Version;
  }

  /** A manifest of which only the first `cap` members are kept, the first of all starting at `base`. */
  method ReadManifest(region: seq<Byte>, base: nat, cap: nat) returns (read: Result<Short>)
    requires |region| <= MAX_MANIFEST_SIZE && base <= MAX_SLICE
    ensures read == Shortened(TakeManifest(region), base, cap)
  {
    hide TakeManifest, TakeAll, KeptOf, WithMembers, Shortened;
    var r := new Reader(region);
    var head := ReadHead(r);
    if head.Err? {
      NothingShortened(head.problem, base, cap);
      return Err(head.problem);
    }
    var (count, hi, lo, flags, alias, metadata) := head.value;
    ghost var members := TakeAll(r.Left(), count);
    var entries := ReadMembers(r, count, base, cap);
    ShortenedTo(count, hi, lo, flags, alias, metadata, members, base, cap, entries);
    if entries.Err? { return Err(entries.problem); }
    return Ok(Short(count, hi, lo, flags, alias, metadata, entries.value));
  }

  lemma NothingShortened(problem: Problem, base: nat, cap: nat)
    ensures Shortened(Err(problem), base, cap) == Err(problem)
  {
  }

  lemma ShortenedTo(count: nat, hi: Byte, lo: Byte, flags: nat, alias: seq<Byte>, metadata: seq<Byte>,
                    members: Result<(seq<Member>, seq<Byte>)>, base: nat, cap: nat, entries: Result<seq<Entry>>)
    requires entries == KeptOf(members, base, cap) && (members.Ok? ==> |members.value.0| == count)
    ensures Shortened(WithMembers(hi, lo, flags, alias, metadata, members), base, cap)
            == if entries.Err? then Err(entries.problem)
               else Ok(Short(count, hi, lo, flags, alias, metadata, entries.value))
  {
    hide Kept;
  }

  function WithMembers(hi: Byte, lo: Byte, flags: nat, alias: seq<Byte>, metadata: seq<Byte>,
                       taken: Result<(seq<Member>, seq<Byte>)>): Result<(Manifest, seq<Byte>)> {
    var members :- taken;
    Ok((Manifest(hi, lo, flags, alias, metadata, members.0), members.1))
  }

  /** The manifest's fields before its members: count, version bytes, flags, alias, metadata. */
  method ReadHead(r: Reader) returns (head: Result<(nat, Byte, Byte, nat, seq<Byte>, seq<Byte>)>)
    requires r.Valid()
    modifies r`pos
    ensures r.Valid()
    ensures head.Ok? ==> |r.Left()| <= |old(r.Left())|
    ensures match head
            case Err(problem) => TakeManifest(old(r.Left())) == Err(problem)
            case Ok((count, hi, lo, flags, alias, metadata)) =>
              TakeManifest(old(r.Left())) == WithMembers(hi, lo, flags, alias, metadata, TakeAll(r.Left(), count))
  {
    hide TakeWord, TakeField, TakeMembers;
    var count := Word(r, MemberCount);
    if count.None? { return Err(Truncated(MemberCount)); }
    ghost var left := r.Left();
    var version := r.Bytes(2);
    if version.None? { return Err(Truncated(ApiVersion)); }
    assert left[..2] == version.value && left[2..] == r.Left();
    var hi, lo := version.value[0], version.value[1];
    if hi / 16 != 1 { return Err(UnsupportedVersion); }
    var flags := Word(r, GlobalFlags);
    if flags.None? { return Err(Truncated(GlobalFlags)); }
    var alias := LengthPrefixed(r, Alias);
    if alias.None? { return Err(Truncated(Alias)); }
    var metadata := LengthPrefixed(r, Metadata);
    if metadata.None? { return Err(Truncated(Metadata)); }
    return Ok((count.value, hi, lo, flags.value, alias.value, metadata.value));
  }

  // ----- detection -----

  /** The bytes begin with one of PHP's opening tags, the long one in any case. */
  predicate OpensTag(head: seq<Byte>) {
    |head| >= 2 && head[0] == LT && head[1] == QUESTION
    && (var after := if |head| >= 5 && LowerAll(head[2..5]) == [0x70, 0x68, 0x70] then head[5..] else head[2..];
        |after| > 0 && (after[0] == EQUALS || IsSpace(after[0])))
  }

  /** So do they once blanks are dropped, a first line `#!...` with them. */
  predicate OpensAsPhp(data: seq<Byte>) {
    var head := TrimFront(data);
    if |head| >= 2 && head[0] == 0x23 && head[1] == BANG then
      match Find(head, 0, [LF])
      case None => false
      case Some(lineEnd) => OpensTag(TrimFront(head[lineEnd + 1..]))
    else OpensTag(head)
  }

  lemma StartsInWindow(data: seq<Byte>, window: nat, k: nat, needle: seq<Byte>)
    requires window <= |data|
    ensures StartsAt(data[..window], k, needle) <==> StartsAt(data, k, needle) && k + |needle| <= window
  {
    if k + |needle| <= window {
      assert data[..window][k..k + |needle|] == data[k..k + |needle|];
    }
  }

  /** A search of the window finds the token exactly when the whole file's first one lies in it. */
  lemma TokenInWindow(data: seq<Byte>, window: nat, token: seq<Byte>)
    requires window <= |data|
    ensures Find(data[..window], 0, token).Some?
            <==> Find(data, 0, token).Some? && Find(data, 0, token).value + |token| <= window
  {
    hide StartsAt, Find;
    var front := data[..window];
    forall k: nat ensures StartsAt(front, k, token) <==> StartsAt(data, k, token) && k + |token| <= window {
      StartsInWindow(data, window, k, token);
    }
  }

  /**
   Detection is a successful parse whose stub token starts within `MAX_DETECT_STUB`, of a file that
   ends in the magic or opens as PHP; the first of those two holds of every signed phar.
   */
  method IsPhar(data: seq<Byte>) returns (found: bool)
    requires |data| <= MAX_SLICE
    ensures found <==> && Whole(data).Ok? && Find(data, 0, HALT_TOKEN).value <= MAX_DETECT_STUB
                       && (Whole(data).value.signature.Some? || EndsWith(data, SIGNATURE_MAGIC) || OpensAsPhp(data))
  {
    hide OpensAsPhp, TakeManifest, StubEnd, U32Le, Find;
    if !EndsWith(data, SIGNATURE_MAGIC) && !OpensAsPhp(data) {
      return false;
    }
    var end := Min(|data|, MAX_DETECT_STUB + |HALT_TOKEN|);
    TokenInWindow(data, end, HALT_TOKEN);
    if Find(data[..end], 0, HALT_TOKEN).None? { return false; }
    var parsed := Parse(data, 0);
    return parsed.Ok?;
  }
}
