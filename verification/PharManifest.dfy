/**
 The manifest of a native phar: what is written, and the length-driven reads that take it apart.
 `Put` functions write a value in front of what follows it; each `Take` undoes one `Put`.
 */
module PharManifest {
  import opened Bytes
  import opened Cursor

  const WORD: nat := 0x1_0000_0000

  datatype Part =
    MemberCount | ApiVersion | GlobalFlags | Alias | Metadata | MemberName | MemberEntry | MemberMetadata

  /** Why a phar is malformed. */
  datatype Problem =
    | NoStubEnd | TruncatedLength | ManifestTooLarge | PastEndOfFile
    | Truncated(part: Part) | UnsupportedVersion | EmptyName
    | TrailerWithoutMagic | TrailerTruncated | TrailerUnknownAlgorithm

  datatype Result<+T> = Ok(value: T) | Err(problem: Problem) {
    predicate IsFailure() { Err? }

    function PropagateFailure<U>(): Result<U>
      requires Err?
    {
      Err(problem)
    }

    function Extract(): T
      requires Ok?
    {
      value
    }
  }

  datatype Member = Member(name: seq<Byte>, size: nat, mtime: nat, compressedSize: nat, crc32: nat, flags: nat,
                           metadata: seq<Byte>)

  datatype Manifest = Manifest(hi: Byte, lo: Byte, flags: nat, alias: seq<Byte>, metadata: seq<Byte>,
                               members: seq<Member>)

  // ----- writing -----

  function PutWord(n: nat, rest: seq<Byte>): (s: seq<Byte>)
    requires n < WORD
  {
    ToLe32(n) + rest
  }

  function PutField(field: seq<Byte>, rest: seq<Byte>): (s: seq<Byte>)
    requires |field| < WORD
  {
    PutWord(|field|, field + rest)
  }

  predicate MemberFits(m: Member) {
    && 0 < |m.name| < WORD && |m.metadata| < WORD
    && m.size < WORD && m.mtime < WORD && m.compressedSize < WORD && m.crc32 < WORD && m.flags < WORD
  }

  predicate MembersFit(ms: seq<Member>) {
    forall k :: 0 <= k < |ms| ==> MemberFits(ms[k])
  }

  predicate ManifestFits(m: Manifest) {
    m.hi / 16 == 1 && m.flags < WORD && |m.alias| < WORD && |m.metadata| < WORD && |m.members| < WORD
    && MembersFit(m.members)
  }

  function PutWords(m: Member, rest: seq<Byte>): (s: seq<Byte>)
    requires MemberFits(m)
  {
    PutWord(m.size, PutWord(m.mtime, PutWord(m.compressedSize, PutWord(m.crc32, PutWord(m.flags, rest)))))
  }

  function PutMember(m: Member, rest: seq<Byte>): (s: seq<Byte>)
    requires MemberFits(m)
  {
    PutField(m.name, PutWords(m, PutField(m.metadata, rest)))
  }

  function PutMembers(ms: seq<Member>, rest: seq<Byte>): (s: seq<Byte>)
    requires MembersFit(ms)
  {
    if ms == [] then rest else PutMember(ms[0], PutMembers(ms[1..], rest))
  }

  function PutManifest(m: Manifest, rest: seq<Byte>): (s: seq<Byte>)
    requires ManifestFits(m)
  {
    PutWord(|m.members|, [m.hi, m.lo] + PutWord(m.flags,
                                                PutField(m.alias, PutField(m.metadata, PutMembers(m.members, rest)))))
  }

  // ----- reading -----

  function TakeWord(s: seq<Byte>, part: Part): Result<(nat, seq<Byte>)> {
    if |s| < 4 then Err(Truncated(part)) else Ok((U32Le(s, 0).value, s[4..]))
  }

  function TakeField(s: seq<Byte>, part: Part): Result<(seq<Byte>, seq<Byte>)> {
    var len :- TakeWord(s, part);
    if len.0 > |len.1| then Err(Truncated(part)) else Ok((len.1[..len.0], len.1[len.0..]))
  }

  function TakeMember(s: seq<Byte>): Result<(Member, seq<Byte>)> {
    var name :- TakeField(s, MemberName);
    if name.0 == [] then Err(EmptyName)
    else
      var size :- TakeWord(name.1, MemberEntry);
      var mtime :- TakeWord(size.1, MemberEntry);
      var compressed :- TakeWord(mtime.1, MemberEntry);
      var crc32 :- TakeWord(compressed.1, MemberEntry);
      var flags :- TakeWord(crc32.1, MemberEntry);
      var metadata :- TakeField(flags.1, MemberMetadata);
      Ok((Member(name.0, size.0, mtime.0, compressed.0, crc32.0, flags.0, metadata.0), metadata.1))
  }

  function TakeMembers(s: seq<Byte>, count: nat): Result<(seq<Member>, seq<Byte>)>
    decreases count
  {
    if count == 0 then Ok(([], s))
    else
      var first :- TakeMember(s);
      var others :- TakeMembers(first.1, count - 1);
      Ok(([first.0] + others.0, others.1))
  }

  function TakeManifest(s: seq<Byte>): Result<(Manifest, seq<Byte>)> {
    var count :- TakeWord(s, MemberCount);
    if |count.1| < 2 then Err(Truncated(ApiVersion))
    else if count.1[0] / 16 != 1 then Err(UnsupportedVersion)
    else
      var flags :- TakeWord(count.1[2..], GlobalFlags);
      var alias :- TakeField(flags.1, Alias);
      var metadata :- TakeField(alias.1, Metadata);
      var members :- TakeMembers(metadata.1, count.0);
      Ok((Manifest(count.1[0], count.1[1], flags.0, alias.0, metadata.0, members.0), members.1))
  }

  // ----- each read takes exactly what was written -----

  lemma WordIsWritten(s: seq<Byte>, part: Part, n: nat, rest: seq<Byte>)
    ensures TakeWord(s, part) == Ok((n, rest)) <==> n < WORD && s == PutWord(n, rest)
  {
    hide U32Le, ToLe32;
    if n < WORD { ReadsWhatIsWritten(s, 0, n); }
    if n < WORD && s == PutWord(n, rest) { assert s[4..] == rest; }
  }

  lemma FieldIsWritten(s: seq<Byte>, part: Part, field: seq<Byte>, rest: seq<Byte>)
    ensures TakeField(s, part) == Ok((field, rest)) <==> |field| < WORD && s == PutField(field, rest)
  {
    hide TakeWord, PutWord;
    WordIsWritten(s, part, |field|, field + rest);
    match TakeWord(s, part)
    case Ok(len) =>
      WordIsWritten(s, part, len.0, len.1);
      if len.0 <= |len.1| { assert len.1 == len.1[..len.0] + len.1[len.0..]; }
    case Err(_) =>
  }

  lemma WordReads(n: nat, part: Part, rest: seq<Byte>)
    requires n < WORD
    ensures TakeWord(PutWord(n, rest), part) == Ok((n, rest))
  {
    WordIsWritten(PutWord(n, rest), part, n, rest);
  }

  lemma FieldReads(field: seq<Byte>, part: Part, rest: seq<Byte>)
    requires |field| < WORD
    ensures TakeField(PutField(field, rest), part) == Ok((field, rest))
  {
    FieldIsWritten(PutField(field, rest), part, field, rest);
  }

  lemma WordWasWritten(s: seq<Byte>, part: Part)
    ensures TakeWord(s, part).Ok? ==> var r := TakeWord(s, part).value; r.0 < WORD && s == PutWord(r.0, r.1)
  {
    if TakeWord(s, part).Ok? { WordIsWritten(s, part, TakeWord(s, part).value.0, TakeWord(s, part).value.1); }
  }

  lemma FieldWasWritten(s: seq<Byte>, part: Part)
    ensures TakeField(s, part).Ok? ==> var r := TakeField(s, part).value; |r.0| < WORD && s == PutField(r.0, r.1)
  {
    if TakeField(s, part).Ok? { FieldIsWritten(s, part, TakeField(s, part).value.0, TakeField(s, part).value.1); }
  }

  lemma MemberReads(m: Member, rest: seq<Byte>)
    requires MemberFits(m)
    ensures TakeMember(PutMember(m, rest)) == Ok((m, rest))
  {
    hide TakeWord, TakeField, PutWord, PutField;
    var s6 := PutField(m.metadata, rest);
    var s5 := PutWord(m.flags, s6);
    var s4 := PutWord(m.crc32, s5);
    var s3 := PutWord(m.compressedSize, s4);
    var s2 := PutWord(m.mtime, s3);
    FieldReads(m.metadata, MemberMetadata, rest);
    WordReads(m.flags, MemberEntry, s6);
    WordReads(m.crc32, MemberEntry, s5);
    WordReads(m.compressedSize, MemberEntry, s4);
    WordReads(m.mtime, MemberEntry, s3);
    WordReads(m.size, MemberEntry, s2);
    FieldReads(m.name, MemberName, PutWord(m.size, s2));
  }

  lemma MemberWasWritten(s: seq<Byte>)
    ensures TakeMember(s).Ok? ==> var r := TakeMember(s).value; MemberFits(r.0) && s == PutMember(r.0, r.1)
  {
    hide TakeWord, TakeField, PutWord, PutField;
    if TakeMember(s).Ok? {
      FieldWasWritten(s, MemberName);
      var s1 := TakeField(s, MemberName).value.1;
      WordWasWritten(s1, MemberEntry);
      var s2 := TakeWord(s1, MemberEntry).value.1;
      WordWasWritten(s2, MemberEntry);
      var s3 := TakeWord(s2, MemberEntry).value.1;
      WordWasWritten(s3, MemberEntry);
      var s4 := TakeWord(s3, MemberEntry).value.1;
      WordWasWritten(s4, MemberEntry);
      var s5 := TakeWord(s4, MemberEntry).value.1;
      WordWasWritten(s5, MemberEntry);
      FieldWasWritten(TakeWord(s5, MemberEntry).value.1, MemberMetadata);
    }
  }

  lemma {:induction false} MembersRead(ms: seq<Member>, rest: seq<Byte>)
    requires MembersFit(ms)
    ensures TakeMembers(PutMembers(ms, rest), |ms|) == Ok((ms, rest))
  {
    hide TakeMember, PutMember, MemberFits;
    if ms != [] {
      MembersRead(ms[1..], rest);
      MemberReads(ms[0], PutMembers(ms[1..], rest));
      assert ms == [ms[0]] + ms[1..];
    }
  }

  lemma {:induction false} MembersWereWritten(s: seq<Byte>, count: nat)
    ensures TakeMembers(s, count).Ok? ==>
              var r := TakeMembers(s, count).value;
              |r.0| == count && MembersFit(r.0) && s == PutMembers(r.0, r.1)
    decreases count
  {
    hide TakeMember, PutMember, MemberFits;
    if count > 0 && TakeMembers(s, count).Ok? {
      MemberWasWritten(s);
      var first := TakeMember(s).value;
      MembersWereWritten(first.1, count - 1);
      var others := TakeMembers(first.1, count - 1).value;
      assert ([first.0] + others.0)[1..] == others.0;
    }
  }

  /** A manifest reads as `m` exactly when it is `m` written out, whatever follows. */
  lemma ManifestIsCanonical(s: seq<Byte>, m: Manifest, slack: seq<Byte>)
    ensures TakeManifest(s) == Ok((m, slack)) <==> ManifestFits(m) && s == PutManifest(m, slack)
  {
    if TakeManifest(s) == Ok((m, slack)) { ManifestWasWritten(s); }
    if ManifestFits(m) && s == PutManifest(m, slack) { ManifestReads(m, slack); }
  }

  lemma ManifestReads(m: Manifest, slack: seq<Byte>)
    requires ManifestFits(m)
    ensures TakeManifest(PutManifest(m, slack)) == Ok((m, slack))
  {
    hide TakeWord, TakeField, PutWord, PutField, TakeMembers, PutMembers, MembersFit;
    var s5 := PutMembers(m.members, slack);
    var s4 := PutField(m.metadata, s5);
    var s3 := PutField(m.alias, s4);
    var s2 := PutWord(m.flags, s3);
    MembersRead(m.members, slack);
    FieldReads(m.metadata, Metadata, s5);
    FieldReads(m.alias, Alias, s4);
    WordReads(m.flags, GlobalFlags, s3);
    assert ([m.hi, m.lo] + s2)[2..] == s2;
    WordReads(|m.members|, MemberCount, [m.hi, m.lo] + s2);
  }

  lemma ManifestWasWritten(s: seq<Byte>)
    ensures TakeManifest(s).Ok? ==> var r := TakeManifest(s).value; ManifestFits(r.0) && s == PutManifest(r.0, r.1)
  {
    hide TakeWord, TakeField, PutWord, PutField, TakeMembers, PutMembers, MembersFit;
    if TakeManifest(s).Ok? {
      WordWasWritten(s, MemberCount);
      var (count, s1) := TakeWord(s, MemberCount).value;
      assert s1 == [s1[0], s1[1]] + s1[2..];
      WordWasWritten(s1[2..], GlobalFlags);
      var s2 := TakeWord(s1[2..], GlobalFlags).value.1;
      FieldWasWritten(s2, Alias);
      var s3 := TakeField(s2, Alias).value.1;
      FieldWasWritten(s3, Metadata);
      MembersWereWritten(TakeField(s3, Metadata).value.1, count);
    }
  }

  // ----- sizes -----

  /** A member's four length and count fields, its five words and a one-byte name. */
  const MIN_MEMBER: nat := 29

  lemma MemberIsLong(s: seq<Byte>)
    ensures TakeMember(s).Ok? ==> |TakeMember(s).value.1| + MIN_MEMBER <= |s|
  {
  }

  // ----- the reader's form -----

  /** `length_prefixed` against `TakeField`; on failure the cursor may stand behind the length. */
  method LengthPrefixed(r: Reader, ghost part: Part) returns (field: Option<seq<Byte>>)
    requires r.Valid()
    modifies r`pos
    ensures r.Valid() && |r.Left()| <= |old(r.Left())|
    ensures match TakeField(old(r.Left()), part)
            case Ok(read) => field == Some(read.0) && r.Left() == read.1
            case Err(problem) => field == None && problem == Truncated(part)
  {
    var len := Word(r, part);
    if len.None? { return None; }
    field := r.Bytes(len.value);
  }

  /** `Reader::u32_le` against the reads above. */
  method Word(r: Reader, ghost part: Part) returns (word: Option<nat>)
    requires r.Valid()
    modifies r`pos
    ensures r.Valid() && |r.Left()| <= |old(r.Left())|
    ensures match TakeWord(old(r.Left()), part)
            case Ok(read) => word == Some(read.0) && r.Left() == read.1
            case Err(problem) => word == None && problem == Truncated(part) && r.Left() == old(r.Left())
  {
    hide TakeWord, PutWord, U32Le;
    word := r.U32();
    ghost var before := old(r.Left());
    WordWasWritten(before, part);
    if word.Some? {
      assert before == PutWord(word.value, r.Left()) by { WordOf(word.value, r.Left()); }
      WordIsWritten(before, part, word.value, r.Left());
    } else {
      ShortWord(before, part);
    }
  }

  lemma WordOf(n: nat, rest: seq<Byte>)
    requires n < WORD
    ensures PutWord(n, rest) == ToLe32(n) + rest
  {
  }

  lemma ShortWord(s: seq<Byte>, part: Part)
    requires |s| < 4
    ensures TakeWord(s, part) == Err(Truncated(part))
  {
  }
}
