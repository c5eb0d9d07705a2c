/**
 `xml_text` and `xml_reference`: the text of an SVG script body, in which every byte keeps the offset
 it has in the page until some reference is decoded.
 */
module XmlText {
  import opened Bytes
  import opened References
  import opened Utf8
  import opened XmlScript
  import opened ScriptEnd
  import opened Comments

  // ----- character references -----

  /** XML 1.0, production [2] Char. */
  predicate IsXmlChar(code: int) {
    code == 9 || code == 10 || code == 13 || 0x20 <= code <= 0xD7FF
    || 0xE000 <= code <= 0xFFFD || 0x1_0000 <= code <= 0x10_FFFF
  }

  /** `u32::from_str_radix`, `char::from_u32` and the two filters, on digits alone. */
  function CharOf(digits: seq<Byte>, radix: nat): Option<nat>
    requires AllDigits(digits, radix)
  {
    if digits == [] then None
    else
      var code := Number(digits, radix);
      if code >= 0x1_0000_0000 then None
      else if !IsScalar(code) then None
      else if code <= 8 || code == 0x0B || code == 0x0C || 0x0E <= code <= 0x1F then None
      else if code == 0xFFFE || code == 0xFFFF then None
      else Some(code)
  }

  /** The character the name between `&` and `;` stands for. */
  function NamedChar(name: seq<Byte>): (c: Option<nat>)
    ensures c.Some? ==> IsScalar(c.value)
  {
    if !Valid(name) then None
    else if name == [0x6C, 0x74] then Some(0x3C)
    else if name == [0x67, 0x74] then Some(0x3E)
    else if name == [0x61, 0x6D, 0x70] then Some(0x26)
    else if name == [0x71, 0x75, 0x6F, 0x74] then Some(0x22)
    else if name == [0x61, 0x70, 0x6F, 0x73] then Some(0x27)
    else if StartsAt(name, 0, [HASH, LOWER_X]) then
      if AllDigits(name[2..], 16) then CharOf(name[2..], 16) else None
    else if StartsAt(name, 0, [HASH]) then
      if AllDigits(name[1..], 10) then CharOf(name[1..], 10) else None
    else None
  }

  const LONGEST_REFERENCE: nat := 16

  /** The reference at `at`, an `&`: the character and the reference's length. */
  function Reference(raw: seq<Byte>, at: nat): (r: Option<(nat, nat)>)
    ensures r.Some? ==> IsScalar(r.value.0) && at + r.value.1 <= |raw|
    ensures r.Some? ==> at + r.value.1 <= at + LONGEST_REFERENCE && r.value.1 >= 1
  {
    var semicolon := Find(raw, at, [SEMICOLON]);
    if semicolon.None? || semicolon.value >= at + LONGEST_REFERENCE || semicolon.value == at then None
    else
      var c := NamedChar(raw[at + 1..semicolon.value]);
      if c.None? then None else Some((c.value, semicolon.value + 1 - at))
  }

  /** The filters keep exactly XML's characters. */
  lemma FiltersAreXmlChar(digits: seq<Byte>, radix: nat)
    requires AllDigits(digits, radix) && digits != []
    ensures CharOf(digits, radix)
            == if IsXmlChar(Number(digits, radix)) then Some(Number(digits, radix)) else None
  {
  }

  lemma SmallNumber(digits: seq<Byte>, radix: nat)
    requires |digits| == 1 && AllDigits(digits, radix)
    ensures Number(digits, radix) < radix
  {
    assert digits[..0] == [];
    assert Number(digits[..0], radix) == 0;
    assert DigitValue(digits[0]) < radix;
  }

  /** Decoding always shortens: the character is narrower in UTF-8 than its reference. */
  lemma ReferenceIsLonger(raw: seq<Byte>, at: nat)
    requires Reference(raw, at).Some?
    ensures |Encode(Reference(raw, at).value.0)| < Reference(raw, at).value.1
  {
    var (c, len) := Reference(raw, at).value;
    var name := raw[at + 1..at + len - 1];
    NameIsWide(name);
  }

  lemma NameIsWide(name: seq<Byte>)
    requires NamedChar(name).Some?
    ensures |name| >= 2 && |Encode(NamedChar(name).value)| < |name| + 2
  {
    StartsAtBytes(name, 0, [HASH, LOWER_X]);
    StartsAtBytes(name, 0, [HASH]);
    if |name| == 2 && StartsAt(name, 0, [HASH]) && !StartsAt(name, 0, [HASH, LOWER_X]) {
      SmallNumber(name[1..], 10);
    }
  }

  /** The reference to a numbered character, as a document writes it. */
  function Written(digits: seq<Byte>, hex: bool): seq<Byte> {
    [AMP] + (if hex then [HASH, LOWER_X] else [HASH]) + digits + [SEMICOLON]
  }

  /** A reference reads as what its name stands for, when it is short enough. */
  lemma ReferenceReads(raw: seq<Byte>, at: nat, name: seq<Byte>)
    requires StartsAt(raw, at, [AMP] + name + [SEMICOLON]) && SEMICOLON !in name
    ensures var len := |name| + 2;
            Reference(raw, at) == if len <= LONGEST_REFERENCE && NamedChar(name).Some?
                                  then Some((NamedChar(name).value, len)) else None
  {
    hide NamedChar;
    var written := [AMP] + name + [SEMICOLON];
    StartsAtBytes(raw, at, written);
    var end := at + 1 + |name|;
    forall k | 0 <= k < |name| ensures raw[at + 1 + k] == name[k] {
      assert raw[at + (1 + k)] == written[1 + k];
    }
    assert raw[at + 1..end] == name;
    assert raw[at + (1 + |name|)] == written[1 + |name|];
    forall k | at <= k < end ensures !StartsAt(raw, k, [SEMICOLON]) {
      StartsAtBytes(raw, k, [SEMICOLON]);
      assert raw[at + (k - at)] == written[k - at];
      if k > at { assert written[k - at] == name[k - at - 1]; }
    }
    StartsAtBytes(raw, end, [SEMICOLON]);
    assert StartsAt(raw, end, [SEMICOLON]);
    assert Find(raw, at, [SEMICOLON]) == Some(end);
  }

  /** A numeric reference reads as its number when XML has that character and it is short enough. */
  lemma NumericReference(raw: seq<Byte>, at: nat, digits: seq<Byte>, hex: bool)
    requires digits != [] && AllDigits(digits, if hex then 16 else 10)
    requires StartsAt(raw, at, Written(digits, hex))
    ensures var code := Number(digits, if hex then 16 else 10);
            var len := |Written(digits, hex)|;
            Reference(raw, at)
              == if len <= LONGEST_REFERENCE && IsXmlChar(code) then Some((code, len)) else None
  {
    hide Number, NamedChar, Reference, IsXmlChar;
    var name := (if hex then [HASH, LOWER_X] else [HASH]) + digits;
    assert Written(digits, hex) == [AMP] + name + [SEMICOLON];
    forall k | 0 <= k < |digits| ensures digits[k] != SEMICOLON {}
    ReferenceReads(raw, at, name);
    NumericName(digits, hex);
  }

  lemma DecimalIsNotHex(digits: seq<Byte>)
    requires digits != [] && AllDigits(digits, 10)
    ensures digits[0] != LOWER_X
  {
  }

  lemma NumericIsText(digits: seq<Byte>, hex: bool)
    requires AllDigits(digits, if hex then 16 else 10)
    ensures Valid((if hex then [HASH, LOWER_X] else [HASH]) + digits)
  {
    var radix := if hex then 16 else 10;
    var prefix := if hex then [HASH, LOWER_X] else [HASH];
    var name := prefix + digits;
    forall i | 0 <= i < |name| ensures name[i] < 0x80 {
      if i >= |prefix| { assert DigitValue(digits[i - |prefix|]) < radix; }
    }
    AsciiIsValid(name);
  }

  lemma NumericName(digits: seq<Byte>, hex: bool)
    requires digits != [] && AllDigits(digits, if hex then 16 else 10)
    ensures var radix := if hex then 16 else 10;
            NamedChar((if hex then [HASH, LOWER_X] else [HASH]) + digits)
              == if IsXmlChar(Number(digits, radix)) then Some(Number(digits, radix)) else None
  {
    hide CharOf, Number, Valid, AllDigits, StartsAt, IsXmlChar;
    var radix := if hex then 16 else 10;
    var prefix := if hex then [HASH, LOWER_X] else [HASH];
    var name := prefix + digits;
    NumericIsText(digits, hex);
    FiltersAreXmlChar(digits, radix);
    StartsAtBytes(name, 0, [HASH, LOWER_X]);
    StartsAtBytes(name, 0, [HASH]);
    assert name[0] == HASH;
    if !hex {
      DecimalIsNotHex(digits);
      assert name[0 + 1] == digits[0] && [HASH, LOWER_X][1] == LOWER_X;
      assert !StartsAt(name, 0, [HASH, LOWER_X]) && StartsAt(name, 0, [HASH]);
    } else {
      assert StartsAt(name, 0, [HASH, LOWER_X]);
    }
    assert name[|prefix|..] == digits;
  }

  lemma {:induction false} AsciiIsValid(s: seq<Byte>)
    requires forall i :: 0 <= i < |s| ==> s[i] < 0x80
    ensures Valid(s)
    decreases |s|
  {
    if s != [] {
      assert CharLen(s, 0) == 1;
      AsciiIsValid(s[1..]);
    }
  }

  // ----- the text -----

  predicate IsBreak(b: Byte) {
    b == LF || b == CR
  }

  function Blank(bytes: seq<Byte>): (r: seq<Byte>)
    ensures |r| == |bytes|
    ensures forall k :: 0 <= k < |bytes| ==> r[k] == if IsBreak(bytes[k]) then bytes[k] else SPACE
  {
    seq(|bytes|, k requires 0 <= k < |bytes| => if IsBreak(bytes[k]) then bytes[k] else SPACE)
  }

  /** What one turn of the loop takes and puts out; `exact` unless it decoded a reference. */
  datatype Piece = Piece(len: nat, text: seq<Byte>, exact: bool)

  function CDataPiece(raw: seq<Byte>, i: nat): Piece
    requires StartsAt(raw, i, CDATA_OPEN)
  {
    var content := i + |CDATA_OPEN|;
    var close := Find(raw, content, CDATA_CLOSE);
    var contentEnd := if close.Some? then close.value else |raw|;
    var end := Past(raw, content, CDATA_CLOSE);
    Piece(end - i, Blank(CDATA_OPEN) + raw[content..contentEnd] + Blank(raw[contentEnd..end]), true)
  }

  function MarkupPiece(raw: seq<Byte>, i: nat): Piece
    requires i < |raw|
  {
    var close := if StartsAt(raw, i, OPEN_COMMENT) then DASH_DASH_GT
                 else if StartsAt(raw, i, PI_OPEN) then PI_CLOSE
                 else [GT];
    var end := Past(raw, i + 1, close);
    Piece(end - i, Blank(raw[i..end]), true)
  }

  function PieceAt(raw: seq<Byte>, i: nat): Piece
    requires i < |raw|
  {
    if raw[i] == LT then
      if StartsAt(raw, i, CDATA_OPEN) then CDataPiece(raw, i) else MarkupPiece(raw, i)
    else if raw[i] == AMP && Reference(raw, i).Some? then
      Piece(Reference(raw, i).value.1, Encode(Reference(raw, i).value.0), false)
    else Piece(1, [raw[i]], true)
  }

  /** `t` is the host byte `r` or a blank for it, and breaks a line where it does. */
  predicate Kept(t: Byte, r: Byte) {
    (t == r || t == SPACE) && (IsBreak(t) <==> IsBreak(r))
  }

  ghost predicate KeptAll(text: seq<Byte>, raw: seq<Byte>, i: nat) {
    i + |text| <= |raw| && forall k :: 0 <= k < |text| ==> Kept(text[k], raw[i + k])
  }

  lemma PastOne(raw: seq<Byte>, i: nat, close: seq<Byte>)
    requires i < |raw| && close != []
    ensures i < Past(raw, i + 1, close) <= |raw|
  {
  }

  lemma CDataPieceFits(raw: seq<Byte>, i: nat)
    requires StartsAt(raw, i, CDATA_OPEN)
    ensures var p := CDataPiece(raw, i);
            0 < p.len && i + p.len <= |raw| && |p.text| == p.len && KeptAll(p.text, raw, i)
  {
    StartsAtBytes(raw, i, CDATA_OPEN);
    var content := i + |CDATA_OPEN|;
    var close := Find(raw, content, CDATA_CLOSE);
    var contentEnd := if close.Some? then close.value else |raw|;
    var end := Past(raw, content, CDATA_CLOSE);
    hide StartsAt, Find;
    assert KeptAll(Blank(CDATA_OPEN), raw, i);
    assert KeptAll(raw[content..contentEnd], raw, content);
    assert KeptAll(Blank(raw[contentEnd..end]), raw, contentEnd);
    KeptJoin(Blank(CDATA_OPEN), raw[content..contentEnd], raw, i);
    KeptJoin(Blank(CDATA_OPEN) + raw[content..contentEnd], Blank(raw[contentEnd..end]), raw, i);
  }

  lemma KeptJoin(x: seq<Byte>, y: seq<Byte>, raw: seq<Byte>, i: nat)
    requires KeptAll(x, raw, i) && KeptAll(y, raw, i + |x|)
    ensures KeptAll(x + y, raw, i)
  {
    forall k | 0 <= k < |x + y| ensures Kept((x + y)[k], raw[i + k]) {
      if k >= |x| { assert Kept(y[k - |x|], raw[i + |x| + (k - |x|)]); }
    }
  }

  /** A piece lies in the body, is no longer than what it stands for, and shorter only if decoded. */
  lemma PieceFits(raw: seq<Byte>, i: nat)
    requires i < |raw|
    ensures var p := PieceAt(raw, i);
            && 0 < p.len && i + p.len <= |raw|
            && |p.text| <= p.len && (p.exact <==> |p.text| == p.len)
            && (p.exact ==> KeptAll(p.text, raw, i))
  {
    hide Find, Encode, NamedChar, Reference;
    if raw[i] == LT {
      if StartsAt(raw, i, CDATA_OPEN) {
        CDataPieceFits(raw, i);
      } else {
        PastOne(raw, i, DASH_DASH_GT);
        PastOne(raw, i, PI_CLOSE);
        PastOne(raw, i, [GT]);
      }
    } else if raw[i] == AMP && Reference(raw, i).Some? {
      ReferenceIsLonger(raw, i);
    }
  }

  /** The text and whether it is aligned, before bytes that are not UTF-8 are replaced. */
  function From(raw: seq<Byte>, i: nat): (r: (seq<Byte>, bool))
    decreases |raw| - i
  {
    if i >= |raw| then ([], true)
    else
      PieceFits(raw, i);
      var p := PieceAt(raw, i);
      var (text, aligned) := From(raw, i + p.len);
      (p.text + text, p.exact && aligned)
  }

  lemma {:induction false} FromFits(raw: seq<Byte>, i: nat)
    requires i <= |raw|
    ensures var (text, aligned) := From(raw, i);
            && |text| <= |raw| - i
            && (aligned <==> |text| == |raw| - i)
            && (aligned ==> KeptAll(text, raw, i))
    decreases |raw| - i
  {
    hide PieceAt;
    if i < |raw| {
      PieceFits(raw, i);
      var p := PieceAt(raw, i);
      FromFits(raw, i + p.len);
      var (text, aligned) := From(raw, i + p.len);
      if p.exact && aligned { KeptJoin(p.text, text, raw, i); }
    }
  }

  /** What `xml_text` returns. */
  function TextOf(raw: seq<Byte>): (seq<Byte>, bool) {
    var (out, aligned) := From(raw, 0);
    (OneForOne(out), aligned)
  }

  /**
   The text is UTF-8 and never longer than the body; it is as long exactly when it is aligned,
   and then every byte is the body's own, a blank, or a `?` for one that is not UTF-8, with line
   breaks at the body's own offsets and nowhere else.
   */
  lemma TextKeepsOffsets(raw: seq<Byte>)
    ensures var (text, aligned) := TextOf(raw);
            && Valid(text)
            && |text| <= |raw|
            && (aligned <==> |text| == |raw|)
            && (aligned ==> forall k :: 0 <= k < |raw| ==>
                  && (text[k] == raw[k] || text[k] == SPACE || (text[k] == QUESTION && raw[k] >= 0x80))
                  && (text[k] == LF <==> raw[k] == LF) && (text[k] == CR <==> raw[k] == CR))
  {
    hide OneForOne, From, Valid;
    FromFits(raw, 0);
    var (out, aligned) := From(raw, 0);
    OneForOneIsText(out);
  }

  method XmlText(raw: seq<Byte>) returns (text: seq<Byte>, aligned: bool)
    ensures (text, aligned) == TextOf(raw)
  {
    hide PieceAt, OneForOne;
    var out := [];
    aligned := true;
    var i := 0;
    ghost var whole := From(raw, 0).0;
    assert [] + whole == whole;
    while i < |raw|
      invariant i <= |raw|
      invariant From(raw, 0) == (out + From(raw, i).0, aligned && From(raw, i).1)
      decreases |raw| - i
    {
      PieceFits(raw, i);
      var p := Take(raw, i);
      Assoc(out, p.text, From(raw, i + p.len).0);
      out := out + p.text;
      aligned := aligned && p.exact;
      i := i + p.len;
    }
    assert out + [] == out;
    text := Widen(out);
  }

  lemma Assoc(x: seq<Byte>, y: seq<Byte>, z: seq<Byte>)
    ensures x + (y + z) == x + y + z
  {
  }

  /** One turn of the loop, branch by branch. */
  method Take(raw: seq<Byte>, i: nat) returns (p: Piece)
    requires i < |raw|
    ensures p == PieceAt(raw, i)
  {
    var b := raw[i];
    if b == LT && StartsAt(raw, i, CDATA_OPEN) {
      p := CDataPiece(raw, i);
    } else if b == LT {
      p := MarkupPiece(raw, i);
    } else if b == AMP {
      var reference := Reference(raw, i);
      if reference.Some? {
        p := Piece(reference.value.1, Encode(reference.value.0), false);
      } else {
        p := Piece(1, [AMP], true);
      }
    } else {
      p := Piece(1, [b], true);
    }
  }
}
