/**
 Character references: how their digits read, and the attribute values an HTML tokenizer makes of
 them, by sections 13.2.5.72 to 13.2.5.80 of the HTML Standard.
 */
module References {
  import opened Bytes
  import opened Utf8

  const AMP: Byte := 0x26
  const SEMICOLON: Byte := 0x3B
  const HASH: Byte := 0x23
  const LOWER_X: Byte := 0x78
  const UPPER_X: Byte := 0x58

  function DigitValue(b: Byte): nat {
    if 0x30 <= b <= 0x39 then b - 0x30
    else if 0x41 <= b <= 0x46 then b - 0x41 + 10
    else if 0x61 <= b <= 0x66 then b - 0x61 + 10
    else 99
  }

  predicate AllDigits(s: seq<Byte>, radix: nat) {
    forall i :: 0 <= i < |s| ==> DigitValue(s[i]) < radix
  }

  function Number(s: seq<Byte>, radix: nat): nat
    decreases |s|
  {
    if s == [] then 0 else Number(s[..|s| - 1], radix) * radix + DigitValue(s[|s| - 1])
  }

  // ----- in an HTML attribute value -----

  /** So many bytes, and what they become. */
  datatype Replacement = Replacement(len: nat, text: seq<Byte>)

  /** The table of named references: the longest of its names in front of these bytes, which follow an `&`. */
  type Named = seq<Byte> -> Option<Replacement>

  predicate IsAlphanumeric(b: Byte) {
    IsAlpha(b) || 0x30 <= b <= 0x39
  }

  /** What the numbers 0x80 to 0x9F stand for; those that stay are the number itself. */
  const C1_CONTROLS: seq<nat> := [
    0x20AC, 0x0081, 0x201A, 0x0192, 0x201E, 0x2026, 0x2020, 0x2021,
    0x02C6, 0x2030, 0x0160, 0x2039, 0x0152, 0x008D, 0x017D, 0x008F,
    0x0090, 0x2018, 0x2019, 0x201C, 0x201D, 0x2022, 0x2013, 0x2014,
    0x02DC, 0x2122, 0x0161, 0x203A, 0x0153, 0x009D, 0x017E, 0x0178
  ]

  /** The character a number stands for. */
  function Numbered(code: nat): (c: nat)
    ensures IsScalar(c)
  {
    if code == 0 || !IsScalar(code) then 0xFFFD
    else if 0x80 <= code < 0xA0 then C1_CONTROLS[code - 0x80]
    else code
  }

  function DigitsEnd(s: seq<Byte>, from: nat, radix: nat): (end: nat)
    requires from <= |s|
    ensures from <= end <= |s|
    ensures AllDigits(s[from..end], radix)
    ensures end < |s| ==> DigitValue(s[end]) >= radix
    decreases |s| - from
  {
    if from < |s| && DigitValue(s[from]) < radix then DigitsEnd(s, from + 1, radix) else from
  }

  /** `&#`: without a digit behind it, itself. */
  function NumericAt(s: seq<Byte>): (r: Replacement)
    requires |s| >= 2 && s[0] == AMP && s[1] == HASH
    ensures 0 < r.len <= |s|
  {
    var hex := |s| > 2 && (s[2] == LOWER_X || s[2] == UPPER_X);
    var from := if hex then 3 else 2;
    var end := DigitsEnd(s, from, if hex then 16 else 10);
    if end == from then Replacement(from, s[..from])
    else
      Replacement(if end < |s| && s[end] == SEMICOLON then end + 1 else end,
                Encode(Numbered(Number(s[from..end], if hex then 16 else 10))))
  }

  /** `&` and a letter or digit: a name of the table, unless it runs on without its semicolon. */
  function NamedAt(s: seq<Byte>, named: Named): (r: Replacement)
    requires s != [] && s[0] == AMP
    ensures 0 < r.len <= |s|
  {
    match named(s[1..])
    case None => Replacement(1, [AMP])
    case Some(found) =>
      if !(0 < found.len < |s|) then Replacement(1, [AMP])
      else if s[found.len] != SEMICOLON && found.len + 1 < |s|
              && (s[found.len + 1] == EQUALS || IsAlphanumeric(s[found.len + 1])) then Replacement(1, [AMP])
      else Replacement(found.len + 1, found.text)
  }

  function ReferenceAt(s: seq<Byte>, named: Named): (r: Replacement)
    requires s != [] && s[0] == AMP
    ensures 0 < r.len <= |s|
  {
    if |s| > 1 && s[1] == HASH then NumericAt(s)
    else if |s| > 1 && IsAlphanumeric(s[1]) then NamedAt(s, named)
    else Replacement(1, [AMP])
  }

  /** The value an element has for an attribute whose value is written so. */
  function Decode(s: seq<Byte>, named: Named): seq<Byte>
    decreases |s|
  {
    if s == [] then []
    else if s[0] != AMP then [s[0]] + Decode(s[1..], named)
    else
      var r := ReferenceAt(s, named);
      r.text + Decode(s[r.len..], named)
  }

  /** Without an `&` a value is what it is written. */
  lemma {:induction false} PlainIsItself(s: seq<Byte>, named: Named)
    requires AMP !in s
    ensures Decode(s, named) == s
    decreases |s|
  {
    if s != [] { PlainIsItself(s[1..], named); }
  }

  /** A lower-case ASCII letter from `d` on, written `&#10d;` with one digit `d`. */
  lemma LetterDecodes(d: Byte, rest: seq<Byte>, named: Named)
    requires 0x30 <= d <= 0x39 && AMP !in rest
    ensures Decode([AMP, HASH, 0x31, 0x30, d, SEMICOLON] + rest, named) == [100 + d - 0x30] + rest
  {
    var s := [AMP, HASH, 0x31, 0x30, d, SEMICOLON] + rest;
    assert DigitsEnd(s, 4, 10) == 5;
    assert DigitsEnd(s, 2, 10) == 5;
    var digits := s[2..5];
    assert digits == [0x31, 0x30, d];
    assert Number(digits[..1], 10) == 1;
    assert digits[..2][..1] == digits[..1];
    assert Number(digits[..2], 10) == 10;
    assert Number(digits, 10) == 100 + d - 0x30;
    assert ReferenceAt(s, named) == Replacement(6, [100 + d - 0x30]);
    assert s[6..] == rest;
    PlainIsItself(rest, named);
  }
}
