/**
 The Image4 trust-cache payload: `parse` accepts exactly the canonical encodings of well-formed
 trust caches, and what it returns encodes back to the input.
 */
module Image4 {
  import opened Bytes
  import opened Der

  const MAX_SIZE: nat := 16 * 1024 * 1024
  const HEADER_LEN: nat := 24
  const ENTRY_LEN: nat := 24
  const HASH_LEN: nat := 20
  const MAX_DESCRIPTION: nat := 4096
  const MAX_ENTRIES: nat := 100_000

  const IM4P: seq<Byte> := [0x49, 0x4D, 0x34, 0x50]
  const TRCA: seq<Byte> := [0x74, 0x72, 0x63, 0x61]
  const VERSION_2: seq<Byte> := [2, 0, 0, 0]

  datatype TrustCache = TrustCache(description: seq<Byte>, uuid: seq<Byte>, entries: seq<Byte>)

  // ----- the table -----

  /** How the hashes of neighbours are compared, byte by byte. */
  predicate LexLe(x: seq<Byte>, y: seq<Byte>)
    decreases |x|
  {
    x == [] || (y != [] && (x[0] < y[0] || (x[0] == y[0] && LexLe(x[1..], y[1..]))))
  }

  /** Alike, or less where they first differ. */
  ghost predicate InOrder(x: seq<Byte>, y: seq<Byte>)
    requires |x| == |y|
  {
    x == y || exists k :: 0 <= k < |x| && x[..k] == y[..k] && x[k] < y[k]
  }

  lemma {:induction false} LexLeIsTheOrder(x: seq<Byte>, y: seq<Byte>)
    requires |x| == |y|
    ensures LexLe(x, y) <==> InOrder(x, y)
    decreases |x|
  {
    if x != [] {
      LexLeIsTheOrder(x[1..], y[1..]);
      assert x == [x[0]] + x[1..] && y == [y[0]] + y[1..];
      if LexLe(x, y) && x != y { DiffersLater(x, y); }
      if InOrder(x, y) && x != y { DiffersFirst(x, y); }
    }
  }

  lemma DiffersLater(x: seq<Byte>, y: seq<Byte>)
    requires |x| == |y| > 0 && (x[0] < y[0] || (x[0] == y[0] && x[1..] != y[1..] && InOrder(x[1..], y[1..])))
    ensures InOrder(x, y)
  {
    if x[0] < y[0] {
      assert x[..0] == y[..0];
    } else {
      var k :| 0 <= k < |x[1..]| && x[1..][..k] == y[1..][..k] && x[1..][k] < y[1..][k];
      assert x[..k + 1] == [x[0]] + x[1..][..k] && y[..k + 1] == [y[0]] + y[1..][..k];
    }
  }

  lemma DiffersFirst(x: seq<Byte>, y: seq<Byte>)
    requires |x| == |y| > 0 && x != y && InOrder(x, y)
    ensures x[0] < y[0] || (x[0] == y[0] && InOrder(x[1..], y[1..]))
  {
    var k :| 0 <= k < |x| && x[..k] == y[..k] && x[k] < y[k];
    if k > 0 {
      assert x[0] == x[..k][0] == y[..k][0] == y[0];
      assert x[1..][..k - 1] == x[..k][1..] == y[..k][1..] == y[1..][..k - 1];
      assert x[1..][k - 1] < y[1..][k - 1];
    }
  }

  function HashAt(entries: seq<Byte>, k: nat): (h: seq<Byte>)
    requires ENTRY_LEN * (k + 1) <= |entries|
    ensures |h| == HASH_LEN
  {
    entries[ENTRY_LEN * k..ENTRY_LEN * k + HASH_LEN]
  }

  function ReservedAt(entries: seq<Byte>, k: nat): Byte
    requires ENTRY_LEN * (k + 1) <= |entries|
  {
    entries[ENTRY_LEN * k + ENTRY_LEN - 1]
  }

  /** Hashes in order, reserved bytes zero, for the first `n` entries. */
  ghost predicate TableOk(entries: seq<Byte>, n: nat) {
    && ENTRY_LEN * n <= |entries|
    && (forall k :: 0 <= k < n ==> ReservedAt(entries, k) == 0)
    && (forall j, k :: 0 <= j <= k < n ==> InOrder(HashAt(entries, j), HashAt(entries, k)))
  }

  lemma {:induction false} LexLeIsReflexive(x: seq<Byte>)
    ensures LexLe(x, x)
    decreases |x|
  {
    if x != [] { LexLeIsReflexive(x[1..]); }
  }

  lemma {:induction false} LexLeIsTransitive(x: seq<Byte>, y: seq<Byte>, z: seq<Byte>)
    requires LexLe(x, y) && LexLe(y, z)
    ensures LexLe(x, z)
    decreases |x|
  {
    if x != [] && x[0] == y[0] && y[0] == z[0] { LexLeIsTransitive(x[1..], y[1..], z[1..]); }
  }

  lemma TableExtends(entries: seq<Byte>, n: nat)
    requires TableOk(entries, n) && ENTRY_LEN * (n + 1) <= |entries|
    requires ReservedAt(entries, n) == 0
    requires n > 0 ==> LexLe(HashAt(entries, n - 1), HashAt(entries, n))
    ensures TableOk(entries, n + 1)
  {
    hide LexLe, HashAt, InOrder;
    var last := HashAt(entries, n);
    LexLeIsReflexive(last);
    LexLeIsTheOrder(last, last);
    forall j | 0 <= j < n ensures InOrder(HashAt(entries, j), last) {
      LexLeIsTheOrder(HashAt(entries, j), HashAt(entries, n - 1));
      LexLeIsTransitive(HashAt(entries, j), HashAt(entries, n - 1), last);
      LexLeIsTheOrder(HashAt(entries, j), last);
    }
  }

  // ----- the table, entry by entry -----

  /** The fields of an entry, the last one reserved. */
  datatype Record = Record(hash: seq<Byte>, hashType: Byte, flags: Byte, category: Byte, reserved: Byte)

  function Print(r: Record): seq<Byte> {
    r.hash + [r.hashType, r.flags, r.category, r.reserved]
  }

  function Table(rs: seq<Record>): seq<Byte> {
    if rs == [] then [] else Table(rs[..|rs| - 1]) + Print(rs[|rs| - 1])
  }

  ghost predicate AreRecords(rs: seq<Record>) {
    forall k :: 0 <= k < |rs| ==> |rs[k].hash| == 20
  }

  lemma {:induction false} RecordAt(rs: seq<Record>, k: nat)
    requires AreRecords(rs) && k < |rs|
    ensures |Table(rs)| == ENTRY_LEN * |rs|
    ensures HashAt(Table(rs), k) == rs[k].hash && ReservedAt(Table(rs), k) == rs[k].reserved
    decreases |rs|
  {
    var last := |rs| - 1;
    var front := Table(rs[..last]);
    if last > 0 { RecordAt(rs[..last], if k < last then k else 0); }
    assert |front| == ENTRY_LEN * last;
    var at := ENTRY_LEN * k;
    if k < last {
      assert Table(rs)[at..at + HASH_LEN] == front[at..at + HASH_LEN];
    } else {
      assert Table(rs)[at..at + HASH_LEN] == Print(rs[k])[..HASH_LEN];
      assert Table(rs)[at + 23] == Print(rs[k])[23];
    }
  }

  /** The entries are in the order of their hashes, each reserved byte zero. */
  ghost predicate InTableOrder(rs: seq<Record>)
    requires AreRecords(rs)
  {
    && (forall k :: 0 <= k < |rs| ==> rs[k].reserved == 0)
    && (forall j, k :: 0 <= j <= k < |rs| ==> InOrder(rs[j].hash, rs[k].hash))
  }

  lemma TableLength(rs: seq<Record>)
    requires AreRecords(rs)
    ensures |Table(rs)| == ENTRY_LEN * |rs|
  {
    if rs != [] { RecordAt(rs, 0); }
  }

  /** A table is accepted exactly when its entries are. */
  lemma TableIsItsRecords(rs: seq<Record>)
    requires AreRecords(rs)
    ensures TableOk(Table(rs), |rs|) <==> InTableOrder(rs)
  {
    hide TableOk, InTableOrder, Table, AreRecords;
    if TableOk(Table(rs), |rs|) { TableHoldsRecords(rs); }
    if InTableOrder(rs) { RecordsMakeTable(rs); }
  }

  lemma TableHoldsRecords(rs: seq<Record>)
    requires AreRecords(rs) && TableOk(Table(rs), |rs|)
    ensures InTableOrder(rs)
  {
    hide HashAt, ReservedAt, Table, InOrder;
    TableLength(rs);
    forall k | 0 <= k < |rs| ensures rs[k].reserved == 0 {
      RecordAt(rs, k);
    }
    forall j, k | 0 <= j <= k < |rs| ensures InOrder(rs[j].hash, rs[k].hash) {
      RecordAt(rs, j);
      RecordAt(rs, k);
      assert InOrder(HashAt(Table(rs), j), HashAt(Table(rs), k));
    }
  }

  lemma RecordsMakeTable(rs: seq<Record>)
    requires AreRecords(rs) && InTableOrder(rs)
    ensures TableOk(Table(rs), |rs|)
  {
    hide HashAt, ReservedAt, Table, InOrder;
    TableLength(rs);
    forall k | 0 <= k < |rs| ensures ReservedAt(Table(rs), k) == 0 {
      RecordAt(rs, k);
    }
    forall j, k | 0 <= j <= k < |rs| ensures InOrder(HashAt(Table(rs), j), HashAt(Table(rs), k)) {
      RecordAt(rs, j);
      RecordAt(rs, k);
    }
  }

  /** The loop over the entries, each hash against the one before it. */
  method CheckTable(entries: seq<Byte>) returns (ok: bool)
    requires |entries| % ENTRY_LEN == 0
    ensures ok <==> TableOk(entries, |entries| / ENTRY_LEN)
  {
    hide LexLe, HashAt, ReservedAt, InOrder;
    var n := |entries| / ENTRY_LEN;
    var previous: Option<seq<Byte>> := None;
    var k := 0;
    while k < n
      invariant 0 <= k <= n && TableOk(entries, k)
      invariant previous == if k == 0 then None else Some(HashAt(entries, k - 1))
    {
      assert ENTRY_LEN * (k + 1) <= |entries|;
      var hash := HashAt(entries, k);
      if ReservedAt(entries, k) != 0 { return false; }
      if previous.Some? {
        LexLeIsTheOrder(previous.value, hash);
        if !LexLe(previous.value, hash) { return false; }
      }
      TableExtends(entries, k);
      previous := Some(hash);
      k := k + 1;
    }
    return true;
  }

  // ----- the canonical form -----

  predicate IsAscii(s: seq<Byte>) {
    forall i :: 0 <= i < |s| ==> s[i] < 0x80
  }

  ghost predicate IsTrustCache(t: TrustCache) {
    && |t.description| <= MAX_DESCRIPTION && IsAscii(t.description)
    && |t.uuid| == 16
    && |t.entries| % ENTRY_LEN == 0 && |t.entries| / ENTRY_LEN <= MAX_ENTRIES
    && TableOk(t.entries, |t.entries| / ENTRY_LEN)
  }

  /** A trust cache printed from its entries: how long the description and the UUID are, how many entries, and which. */
  lemma IsItsRecords(description: seq<Byte>, uuid: seq<Byte>, rs: seq<Record>)
    requires AreRecords(rs)
    ensures IsTrustCache(TrustCache(description, uuid, Table(rs)))
            <==> && |description| <= 4096 && (forall i :: 0 <= i < |description| ==> description[i] < 128)
                 && |uuid| == 16 && |rs| <= 100_000 && InTableOrder(rs)
  {
    hide Table, TableOk, InOrder, IsAscii, HashAt, ReservedAt, InTableOrder, AreRecords;
    TableIsItsRecords(rs);
    TableLength(rs);
    Entries(|rs|);
    AsciiIs(description);
  }

  lemma Entries(n: nat)
    ensures ENTRY_LEN * n % ENTRY_LEN == 0 && ENTRY_LEN * n / ENTRY_LEN == n
  {
  }

  lemma AsciiIs(s: seq<Byte>)
    ensures IsAscii(s) <==> forall i :: 0 <= i < |s| ==> s[i] < 128
  {
  }

  function Payload(t: TrustCache): (s: seq<Byte>)
    requires |t.entries| / ENTRY_LEN <= MAX_ENTRIES
  {
    VERSION_2 + t.uuid + ToLe32(|t.entries| / ENTRY_LEN) + t.entries
  }

  ghost function Content(t: TrustCache): (s: seq<Byte>)
    requires IsTrustCache(t)
  {
    Sizes(t);
    Tlv(IA5_STRING, IM4P)
    + (Tlv(IA5_STRING, TRCA) + (Tlv(IA5_STRING, t.description) + (Tlv(OCTET_STRING, Payload(t)) + [])))
  }

  /** The one input that parses to `t`. */
  ghost function Encode(t: TrustCache): (s: seq<Byte>)
    requires IsTrustCache(t)
  {
    ContentFits(t);
    Tlv(SEQUENCE, Content(t))
  }

  lemma Sizes(t: TrustCache)
    requires IsTrustCache(t)
    ensures |Payload(t)| <= HEADER_LEN + ENTRY_LEN * MAX_ENTRIES < MAX_LENGTH
  {
  }

  lemma TlvFits(tag: Byte, body: seq<Byte>)
    requires |body| < MAX_LENGTH
    ensures |Tlv(tag, body)| <= |body| + 6
  {
    if |body| >= 0x80 { BigEndianFits(|body|); }
  }

  /** The other limits keep every trust cache under the size limit, which so refuses none. */
  lemma ContentFits(t: TrustCache)
    requires IsTrustCache(t)
    ensures |Content(t)| + 6 <= MAX_SIZE < MAX_LENGTH
  {
    Sizes(t);
    TlvFits(IA5_STRING, IM4P);
    TlvFits(IA5_STRING, TRCA);
    TlvFits(IA5_STRING, t.description);
    TlvFits(OCTET_STRING, Payload(t));
  }

  // ----- parse -----

  method Parse(data: seq<Byte>) returns (parsed: Option<TrustCache>)
    ensures parsed.Some? ==> IsTrustCache(parsed.value) && data == Encode(parsed.value)
    ensures parsed.None? ==> forall t :: IsTrustCache(t) ==> data != Encode(t)
  {
    hide Element, Encode, Content, IsTrustCache, Tlv, Payload;
    if |data| > MAX_SIZE {
      forall t | IsTrustCache(t) ensures data != Encode(t) { EncodeFits(t); }
      return None;
    }
    var sequence, outer := TakeElement(data, SEQUENCE);
    if sequence.None? || outer != [] {
      forall t | IsTrustCache(t) ensures data != Encode(t) { EncodeOpens(t); }
      return None;
    }
    ElementIsCanonical(data, SEQUENCE, sequence.value, []);
    var inner := ParseContent(sequence.value);
    if inner.Some? {
      Reencodes(data, sequence.value, inner.value);
    } else {
      forall t | IsTrustCache(t) ensures data != Encode(t) { EncodeOpens(t); }
    }
    return inner;
  }

  lemma EncodeFits(t: TrustCache)
    requires IsTrustCache(t)
    ensures |Encode(t)| <= MAX_SIZE
  {
    ContentFits(t);
    TlvFits(SEQUENCE, Content(t));
  }

  lemma EncodeOpens(t: TrustCache)
    requires IsTrustCache(t)
    ensures Element(Encode(t), SEQUENCE) == Some((Content(t), []))
  {
    ContentFits(t);
    assert Encode(t) + [] == Encode(t);
    ElementIsCanonical(Encode(t), SEQUENCE, Content(t), []);
  }

  lemma Reencodes(data: seq<Byte>, content: seq<Byte>, t: TrustCache)
    requires IsTrustCache(t) && content == Content(t)
    requires |content| < MAX_LENGTH && data == Tlv(SEQUENCE, content) + []
    ensures data == Encode(t)
  {
  }

  /** Two trust caches never share an encoding, so `Parse` and `Encode` undo each other. */
  lemma EncodeIsInjective(t: TrustCache, u: TrustCache)
    requires IsTrustCache(t) && IsTrustCache(u) && Encode(t) == Encode(u)
    ensures t == u
  {
    EncodeOpens(t);
    EncodeOpens(u);
    ContentReads(Content(t), t);
    ContentReads(Content(t), u);
    ContentElementsAgree(Content(t), t, u);
    PayloadReads(Payload(t), t);
    PayloadReads(Payload(t), u);
  }

  lemma ContentElementsAgree(content: seq<Byte>, t: TrustCache, u: TrustCache)
    requires IsTrustCache(t) && IsTrustCache(u) && content == Content(t) == Content(u)
    requires ContentElements(content, t) && ContentElements(content, u)
    ensures t.description == u.description && Payload(t) == Payload(u)
  {
    hide Element, Content, Payload, IsTrustCache;
  }

  /** The four elements of the sequence. */
  method ParseContent(content: seq<Byte>) returns (parsed: Option<TrustCache>)
    ensures parsed.Some? ==> IsTrustCache(parsed.value) && content == Content(parsed.value)
    ensures parsed.None? ==> forall t :: IsTrustCache(t) ==> content != Content(t)
  {
    hide Element, Content, IsTrustCache, Tlv, Payload;
    forall t | IsTrustCache(t) ensures ContentElements(content, t) { ContentReads(content, t); }
    var magic, r1 := TakeElement(content, IA5_STRING);
    if magic != Some(IM4P) { return None; }
    var kind, r2 := TakeElement(r1, IA5_STRING);
    if kind != Some(TRCA) { return None; }
    var description, r3 := TakeElement(r2, IA5_STRING);
    if description.None? { return None; }
    var payload, r4 := TakeElement(r3, OCTET_STRING);
    if payload.None? || r4 != [] { return None; }
    var inner := ParsePayload(description.value, payload.value);
    return inner;
  }

  /** `content` is that of `t` exactly when it reads as its four elements. */
  ghost predicate ContentElements(content: seq<Byte>, t: TrustCache)
    requires IsTrustCache(t)
  {
    content == Content(t)
    <==> match Element(content, IA5_STRING)
         case None => false
         case Some(magic) =>
           magic.0 == IM4P
           && match Element(magic.1, IA5_STRING)
              case None => false
              case Some(kind) =>
                kind.0 == TRCA
                && match Element(kind.1, IA5_STRING)
                   case None => false
                   case Some(description) =>
                     description.0 == t.description
                     && Element(description.1, OCTET_STRING) == Some((Payload(t), []))
  }

  lemma ContentReads(content: seq<Byte>, t: TrustCache)
    requires IsTrustCache(t)
    ensures ContentElements(content, t)
  {
    Sizes(t);
    var p := Payload(t);
    hide Element, Tlv, Payload;
    var c4 := Tlv(OCTET_STRING, p) + [];
    var c3 := Tlv(IA5_STRING, t.description) + c4;
    var c2 := Tlv(IA5_STRING, TRCA) + c3;
    if content == Content(t) {
      ElementIsCanonical(content, IA5_STRING, IM4P, c2);
      ElementIsCanonical(c2, IA5_STRING, TRCA, c3);
      ElementIsCanonical(c3, IA5_STRING, t.description, c4);
      ElementIsCanonical(c4, OCTET_STRING, p, []);
    }
    var e1 := Element(content, IA5_STRING);
    if e1.Some? && e1.value.0 == IM4P {
      ElementIsCanonical(content, IA5_STRING, IM4P, e1.value.1);
      var e2 := Element(e1.value.1, IA5_STRING);
      if e2.Some? && e2.value.0 == TRCA {
        ElementIsCanonical(e1.value.1, IA5_STRING, TRCA, e2.value.1);
        var e3 := Element(e2.value.1, IA5_STRING);
        if e3.Some? && e3.value.0 == t.description {
          ElementIsCanonical(e2.value.1, IA5_STRING, t.description, e3.value.1);
          ElementIsCanonical(e3.value.1, OCTET_STRING, p, []);
        }
      }
    }
  }

  /** The description's limits and the table. */
  method ParsePayload(description: seq<Byte>, payload: seq<Byte>) returns (parsed: Option<TrustCache>)
    ensures parsed.Some? ==> IsTrustCache(parsed.value) && parsed.value.description == description
                             && payload == Payload(parsed.value)
    ensures parsed.None? ==> forall t :: IsTrustCache(t) && t.description == description ==> payload != Payload(t)
  {
    hide TableOk;
    forall t | IsTrustCache(t) && payload == Payload(t)
      ensures |payload| >= HEADER_LEN && payload[..4] == VERSION_2 && payload[4..20] == t.uuid
              && U32Le(payload, 20) == Some(|t.entries| / ENTRY_LEN) && payload[HEADER_LEN..] == t.entries
    {
      PayloadReads(payload, t);
    }
    if |description| > MAX_DESCRIPTION || !IsAscii(description) { return None; }
    if |payload| < HEADER_LEN || payload[..4] != VERSION_2 { return None; }
    var count := U32Le(payload, 20).value;
    if count > MAX_ENTRIES || |payload| != HEADER_LEN + count * ENTRY_LEN { return None; }
    var entries := payload[HEADER_LEN..];
    assert |entries| / ENTRY_LEN == count && |entries| % ENTRY_LEN == 0;
    var ok := CheckTable(entries);
    if !ok { return None; }
    var t := TrustCache(description, payload[4..20], entries);
    Le32Bytes(payload[20], payload[21], payload[22], payload[23]);
    assert payload[20..24] == [payload[20], payload[21], payload[22], payload[23]];
    assert payload == payload[..4] + payload[4..20] + payload[20..24] + entries;
    return Some(t);
  }

  lemma PayloadReads(payload: seq<Byte>, t: TrustCache)
    requires IsTrustCache(t) && payload == Payload(t)
    ensures |payload| >= HEADER_LEN && payload[..4] == VERSION_2 && payload[4..20] == t.uuid
    ensures U32Le(payload, 20) == Some(|t.entries| / ENTRY_LEN) && payload[HEADER_LEN..] == t.entries
  {
    hide TableOk;
    var count := |t.entries| / ENTRY_LEN;
    Le32RoundTrip(count);
    var le := ToLe32(count);
    assert payload[20] == le[0] && payload[21] == le[1] && payload[22] == le[2] && payload[23] == le[3];
  }

  lemma ShortTlv(tag: Byte, body: seq<Byte>)
    requires |body| < 0x80
    ensures Tlv(tag, body) == [tag, |body|] + body
  {
  }

  lemma EmptyTable(description: seq<Byte>, uuid: seq<Byte>)
    requires |description| < 0x40 && IsAscii(description) && |uuid| == 16
    ensures IsTrustCache(TrustCache(description, uuid, []))
    ensures Payload(TrustCache(description, uuid, [])) == [2, 0, 0, 0] + uuid + [0, 0, 0, 0]
  {
  }

  /** A trust cache without entries, byte for byte. */
  lemma KnownFile(description: seq<Byte>, uuid: seq<Byte>)
    requires |description| < 0x40 && IsAscii(description) && |uuid| == 16
    ensures IsTrustCache(TrustCache(description, uuid, []))
    ensures Encode(TrustCache(description, uuid, []))
            == [0x30, 40 + |description|]
               + ([0x16, 4] + Spelled("IM4P")
                  + ([0x16, 4] + Spelled("trca")
                     + ([0x16, |description|] + description
                        + ([0x04, 24] + ([2, 0, 0, 0] + uuid + [0, 0, 0, 0])))))
  {
    var t := TrustCache(description, uuid, []);
    EmptyTable(description, uuid);
    assert IM4P == Spelled("IM4P") && TRCA == Spelled("trca");
    hide Tlv, IsTrustCache, Payload, Spelled;
    ShortTlv(IA5_STRING, IM4P);
    ShortTlv(IA5_STRING, TRCA);
    ShortTlv(IA5_STRING, description);
    ShortTlv(OCTET_STRING, Payload(t));
    assert Tlv(OCTET_STRING, Payload(t)) + [] == Tlv(OCTET_STRING, Payload(t));
    ShortTlv(SEQUENCE, Content(t));
  }
}
