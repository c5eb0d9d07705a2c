/**
 UTF-8 as the standard library reads it (Unicode's table of well-formed byte sequences), and
 `one_for_one`, which turns any bytes into text of the same width.
 */
module Utf8 {
  import opened Bytes

  predicate IsContinuation(b: Byte) {
    0x80 <= b <= 0xBF
  }

  /** The second byte that may follow a lead byte of a sequence of three or four. */
  predicate IsSecond(lead: Byte, b: Byte) {
    if lead == 0xE0 then 0xA0 <= b <= 0xBF
    else if lead == 0xED then 0x80 <= b <= 0x9F
    else if lead == 0xF0 then 0x90 <= b <= 0xBF
    else if lead == 0xF4 then 0x80 <= b <= 0x8F
    else IsContinuation(b)
  }

  /** How long a sequence a lead byte announces; 0 for a byte that leads none. */
  function Announced(lead: Byte): nat {
    if lead < 0x80 then 1
    else if 0xC2 <= lead <= 0xDF then 2
    else if 0xE0 <= lead <= 0xEF then 3
    else if 0xF0 <= lead <= 0xF4 then 4
    else 0
  }

  /** How many bytes at `at` begin a well-formed sequence: at most as many as its lead announces. */
  function Begun(s: seq<Byte>, at: nat): (n: nat)
    ensures n <= 4 && (n > 0 ==> at + n <= |s|)
    ensures at < |s| ==> n <= Announced(s[at])
    ensures forall k :: at < k < at + n ==> IsContinuation(s[k])
  {
    if at >= |s| || Announced(s[at]) == 0 then 0
    else if Announced(s[at]) == 1 then 1
    else if at + 1 >= |s| || !IsSecond(s[at], s[at + 1]) then 1
    else if Announced(s[at]) == 2 then 2
    else if at + 2 >= |s| || !IsContinuation(s[at + 2]) then 2
    else if Announced(s[at]) == 3 then 3
    else if at + 3 >= |s| || !IsContinuation(s[at + 3]) then 3
    else 4
  }

  /** The length of the character at `at`, or 0 when none is well-formed there. */
  function CharLen(s: seq<Byte>, at: nat): (n: nat)
    ensures n > 0 ==> n <= 4 && at + n <= |s|
  {
    if at < |s| && Begun(s, at) == Announced(s[at]) then Begun(s, at) else 0
  }

  predicate Valid(s: seq<Byte>)
    decreases |s|
  {
    s == [] || (CharLen(s, 0) > 0 && Valid(s[CharLen(s, 0)..]))
  }

  /** A character is decided by its own bytes. */
  lemma CharLenIsLocal(s: seq<Byte>, more: seq<Byte>)
    requires CharLen(s, 0) > 0
    ensures CharLen(s + more, 0) == CharLen(s, 0)
  {
  }

  lemma {:induction false} ValidAppends(x: seq<Byte>, y: seq<Byte>)
    requires Valid(x) && Valid(y)
    ensures Valid(x + y)
    decreases |x|
  {
    if x == [] {
      assert x + y == y;
    } else {
      CharLenIsLocal(x, y);
      var n := CharLen(x, 0);
      assert (x + y)[n..] == x[n..] + y;
      ValidAppends(x[n..], y);
    }
  }

  // ----- encoding -----

  /** A Unicode scalar value. */
  predicate IsScalar(code: int) {
    0 <= code <= 0x10_FFFF && !(0xD800 <= code <= 0xDFFF)
  }

  function Encode(code: nat): (s: seq<Byte>)
    requires IsScalar(code)
    ensures 1 <= |s| <= 4
    ensures |s| == 1 <==> code < 0x80
  {
    if code < 0x80 then [code]
    else if code < 0x800 then [0xC0 + code / 0x40, 0x80 + code % 0x40]
    else if code < 0x1_0000 then [0xE0 + code / 0x1000, 0x80 + code / 0x40 % 0x40, 0x80 + code % 0x40]
    else [0xF0 + code / 0x4_0000, 0x80 + code / 0x1000 % 0x40, 0x80 + code / 0x40 % 0x40, 0x80 + code % 0x40]
  }

  /** An encoded character is one well-formed sequence. */
  lemma EncodeIsValid(code: nat)
    requires IsScalar(code)
    ensures CharLen(Encode(code), 0) == |Encode(code)| && Valid(Encode(code))
  {
    var s := Encode(code);
    EncodedBytes(code);
    hide Encode;
    assert CharLen(s, 0) == |s|;
    assert s[|s|..] == [];
  }

  lemma EncodedBytes(code: nat)
    requires IsScalar(code)
    ensures var s := Encode(code);
            && Announced(s[0]) == |s| && (|s| > 1 ==> IsSecond(s[0], s[1]))
            && forall k :: 2 <= k < |s| ==> IsContinuation(s[k])
  {
    var s := Encode(code);
    if code >= 0x1_0000 {
      assert s[0] == 0xF0 ==> s[1] >= 0x90;
      assert s[0] == 0xF4 ==> s[1] <= 0x8F;
    } else if code >= 0x800 {
      assert s[0] == 0xE0 ==> s[1] >= 0xA0;
      assert s[0] == 0xED ==> s[1] <= 0x9F;
    }
  }

  /** Nothing else is well-formed: a sequence is the encoding of one character. */
  lemma WellFormedIsEncoded(s: seq<Byte>, at: nat) returns (code: nat)
    requires CharLen(s, at) > 0
    ensures IsScalar(code) && s[at..at + CharLen(s, at)] == Encode(code)
  {
    var n := CharLen(s, at);
    var b0: int := s[at];
    if n == 1 {
      code := b0;
    } else if n == 2 {
      code := TwoBytes(b0, s[at + 1]);
    } else if n == 3 {
      code := ThreeBytes(b0, s[at + 1], s[at + 2]);
    } else {
      code := FourOf(b0, s[at + 1], s[at + 2], s[at + 3]);
    }
  }

  lemma TwoBytes(b0: int, b1: int) returns (code: nat)
    requires 0xC2 <= b0 <= 0xDF && 0x80 <= b1 <= 0xBF
    ensures 0x80 <= code < 0x800 && Encode(code) == [b0, b1]
  {
    code := (b0 - 0xC0) * 0x40 + (b1 - 0x80);
    Digits(b0 - 0xC0, b1 - 0x80);
  }

  lemma ThreeBytes(b0: int, b1: int, b2: int) returns (code: nat)
    requires 0xE0 <= b0 <= 0xEF && 0x80 <= b1 <= 0xBF && 0x80 <= b2 <= 0xBF
    requires b0 == 0xE0 ==> b1 >= 0xA0
    requires b0 == 0xED ==> b1 <= 0x9F
    ensures 0x800 <= code < 0x1_0000 && IsScalar(code) && Encode(code) == [b0, b1, b2]
  {
    var high := (b0 - 0xE0) * 0x40 + (b1 - 0x80);
    code := high * 0x40 + (b2 - 0x80);
    Digits(b0 - 0xE0, b1 - 0x80);
    Digits(high, b2 - 0x80);
    Twice(code);
  }

  lemma FourOf(b0: int, b1: int, b2: int, b3: int) returns (code: nat)
    requires 0xF0 <= b0 <= 0xF4 && 0x80 <= b1 <= 0xBF && 0x80 <= b2 <= 0xBF && 0x80 <= b3 <= 0xBF
    requires b0 == 0xF0 ==> b1 >= 0x90
    requires b0 == 0xF4 ==> b1 <= 0x8F
    ensures 0x1_0000 <= code <= 0x10_FFFF && Encode(code) == [b0, b1, b2, b3]
  {
    var top := (b0 - 0xF0) * 0x40 + (b1 - 0x80);
    var high := top * 0x40 + (b2 - 0x80);
    code := high * 0x40 + (b3 - 0x80);
    Digits(b0 - 0xF0, b1 - 0x80);
    Digits(top, b2 - 0x80);
    Digits(high, b3 - 0x80);
    Twice(code);
  }

  /** A number to the base 64, and its last digit. */
  lemma Digits(high: nat, low: nat)
    requires low < 0x40
    ensures (high * 0x40 + low) / 0x40 == high && (high * 0x40 + low) % 0x40 == low
  {
  }

  lemma Twice(code: nat)
    ensures code / 0x40 / 0x40 == code / 0x1000 && code / 0x1000 / 0x40 == code / 0x4_0000
  {
  }

  /** Characters of every width. */
  lemma KnownCharacters()
    ensures Encode('A' as nat) == [0x41] && Encode(0xE9) == [0xC3, 0xA9]
    ensures Encode(0x20AC) == [0xE2, 0x82, 0xAC] && Encode(0x1_F600) == [0xF0, 0x9F, 0x98, 0x80]
  {
  }

  // ----- one_for_one -----

  /** Characters kept, every other byte a `?`. */
  function OneForOne(raw: seq<Byte>): (text: seq<Byte>)
    ensures |text| == |raw|
    decreases |raw|
  {
    if raw == [] then []
    else if CharLen(raw, 0) > 0 then raw[..CharLen(raw, 0)] + OneForOne(raw[CharLen(raw, 0)..])
    else [QUESTION] + OneForOne(raw[1..])
  }

  /** The text is UTF-8, and differs from the bytes only by a `?` for a byte that is not. */
  lemma {:induction false} OneForOneIsText(raw: seq<Byte>)
    ensures Valid(OneForOne(raw))
    ensures forall i :: 0 <= i < |raw| ==>
              OneForOne(raw)[i] == raw[i] || (OneForOne(raw)[i] == QUESTION && raw[i] >= 0x80)
    decreases |raw|
  {
    if raw != [] {
      var n := CharLen(raw, 0);
      if n > 0 {
        OneForOneIsText(raw[n..]);
        OneChar(raw);
        ValidAppends(raw[..n], OneForOne(raw[n..]));
      } else {
        OneForOneIsText(raw[1..]);
        assert Valid([QUESTION]) by { assert [QUESTION][1..] == []; }
        ValidAppends([QUESTION], OneForOne(raw[1..]));
      }
    }
  }

  lemma OneChar(raw: seq<Byte>)
    requires CharLen(raw, 0) > 0
    ensures Valid(raw[..CharLen(raw, 0)])
  {
    var n := CharLen(raw, 0);
    var c := raw[..n];
    assert CharLen(c, 0) == n;
    assert c[n..] == [];
  }

  /** Text is kept as it is, and only text. */
  lemma {:induction false} OneForOneKeepsText(raw: seq<Byte>)
    ensures OneForOne(raw) == raw <==> Valid(raw)
    decreases |raw|
  {
    hide CharLen;
    if Valid(raw) {
      if raw != [] {
        OneForOneKeepsText(raw[CharLen(raw, 0)..]);
        assert raw == raw[..CharLen(raw, 0)] + raw[CharLen(raw, 0)..];
      }
    } else {
      OneForOneIsText(raw);
    }
  }

  function Marks(n: nat): (s: seq<Byte>)
    ensures |s| == n
  {
    if n == 0 then [] else [QUESTION] + Marks(n - 1)
  }

  /** A byte that belongs to no character is replaced, a character kept. */
  lemma OneForOneStep(raw: seq<Byte>, at: nat)
    requires at < |raw|
    ensures var n := CharLen(raw, at);
            OneForOne(raw[at..])
              == if n > 0 then raw[at..at + n] + OneForOne(raw[at + n..]) else Marks(1) + OneForOne(raw[at + 1..])
  {
    var rest := raw[at..];
    assert CharLen(rest, 0) == CharLen(raw, at);
    var n := CharLen(raw, at);
    assert rest[..n] == raw[at..at + n] && rest[n..] == raw[at + n..];
    assert rest[1..] == raw[at + 1..];
    assert Marks(1) == [QUESTION];
  }

  /** Continuation bytes start nothing, so a broken sequence is replaced byte for byte. */
  lemma {:induction false} Replaced(raw: seq<Byte>, at: nat, n: nat)
    requires at + n <= |raw| && forall k :: at <= k < at + n ==> CharLen(raw, k) == 0
    ensures OneForOne(raw[at..]) == Marks(n) + OneForOne(raw[at + n..])
    decreases n
  {
    hide CharLen, OneForOne;
    if n == 0 {
      assert Marks(0) + OneForOne(raw[at..]) == OneForOne(raw[at..]);
    } else {
      OneForOneStep(raw, at);
      Replaced(raw, at + 1, n - 1);
      MarksJoin(n, OneForOne(raw[at + n..]));
    }
  }

  lemma MarksJoin(n: nat, rest: seq<Byte>)
    requires n > 0
    ensures Marks(1) + (Marks(n - 1) + rest) == Marks(n) + rest
  {
    assert Marks(1) == [QUESTION];
  }

  lemma ContinuationStartsNone(raw: seq<Byte>, k: nat)
    requires k < |raw| && IsContinuation(raw[k])
    ensures CharLen(raw, k) == 0
  {
  }

  /** The end of the run of characters that starts at `from`. */
  method ValidRun(raw: seq<Byte>, from: nat) returns (end: nat)
    requires from <= |raw|
    ensures from <= end <= |raw| && (end < |raw| ==> CharLen(raw, end) == 0)
    ensures OneForOne(raw[from..]) == raw[from..end] + OneForOne(raw[end..])
  {
    hide CharLen, OneForOne;
    end := from;
    assert raw[from..from] + OneForOne(raw[from..]) == OneForOne(raw[from..]);
    while end < |raw| && CharLen(raw, end) > 0
      invariant from <= end <= |raw|
      invariant OneForOne(raw[from..]) == raw[from..end] + OneForOne(raw[end..])
      decreases |raw| - end
    {
      var n := CharLen(raw, end);
      OneForOneStep(raw, end);
      SliceJoin(raw, from, end, end + n, OneForOne(raw[end + n..]));
      end := end + n;
    }
  }

  lemma SliceJoin(raw: seq<Byte>, x: nat, y: nat, z: nat, rest: seq<Byte>)
    requires x <= y <= z <= |raw|
    ensures raw[x..y] + (raw[y..z] + rest) == raw[x..z] + rest
  {
  }

  /** The bytes `utf8_chunks` reports after a run: all that was begun, or the one that begins nothing. */
  function InvalidLen(raw: seq<Byte>, at: nat): nat {
    if Begun(raw, at) == 0 then 1 else Begun(raw, at)
  }

  lemma Broken(raw: seq<Byte>, at: nat)
    requires at < |raw| && CharLen(raw, at) == 0
    ensures at + InvalidLen(raw, at) <= |raw|
    ensures OneForOne(raw[at..]) == Marks(InvalidLen(raw, at)) + OneForOne(raw[at + InvalidLen(raw, at)..])
  {
    hide OneForOne;
    var n := InvalidLen(raw, at);
    forall k | at <= k < at + n ensures CharLen(raw, k) == 0 {
      if k > at { ContinuationStartsNone(raw, k); }
    }
    Replaced(raw, at, n);
  }

  /**
   `one_for_one`: bytes that are UTF-8 as they are; else runs of characters, each followed by the
   longest beginning of a sequence that could not be finished (or one byte that begins none).
   */
  method Widen(raw: seq<Byte>) returns (text: seq<Byte>)
    ensures text == OneForOne(raw)
  {
    hide CharLen, OneForOne, InvalidLen, Valid, Marks, Begun, Widened;
    OneForOneKeepsText(raw);
    if Valid(raw) { return raw; }
    text := [];
    var at := 0;
    NothingWidened(raw);
    while at < |raw|
      invariant at <= |raw|
      invariant Widened(text, raw, at)
      decreases |raw| - at
    {
      var end := ValidRun(raw, at);
      ValidJoins(text, raw, at, end);
      text := text + raw[at..end];
      if end < |raw| {
        BrokenJoins(text, raw, end);
        var invalid := InvalidLen(raw, end);
        text := text + Marks(invalid);
        end := end + invalid;
      }
      at := end;
    }
    AllWidened(text, raw);
  }

  /** `text` is what the bytes before `at` become. */
  ghost predicate Widened(text: seq<Byte>, raw: seq<Byte>, at: nat)
    requires at <= |raw|
  {
    text + OneForOne(raw[at..]) == OneForOne(raw)
  }

  lemma NothingWidened(raw: seq<Byte>)
    ensures Widened([], raw, 0)
  {
    hide OneForOne;
    assert raw[0..] == raw;
  }

  lemma AllWidened(text: seq<Byte>, raw: seq<Byte>)
    requires Widened(text, raw, |raw|)
    ensures text == OneForOne(raw)
  {
    assert raw[|raw|..] == [];
  }

  lemma ValidJoins(text: seq<Byte>, raw: seq<Byte>, at: nat, end: nat)
    requires at <= end <= |raw| && Widened(text, raw, at)
    requires OneForOne(raw[at..]) == raw[at..end] + OneForOne(raw[end..])
    ensures Widened(text + raw[at..end], raw, end)
  {
    hide OneForOne;
    Join(text, raw[at..end], OneForOne(raw[end..]));
  }

  lemma Join(x: seq<Byte>, y: seq<Byte>, z: seq<Byte>)
    ensures x + (y + z) == x + y + z
  {
  }

  lemma BrokenJoins(text: seq<Byte>, raw: seq<Byte>, at: nat)
    requires at < |raw| && CharLen(raw, at) == 0 && Widened(text, raw, at)
    ensures 0 < InvalidLen(raw, at) <= |raw| - at
    ensures Widened(text + Marks(InvalidLen(raw, at)), raw, at + InvalidLen(raw, at))
  {
    hide CharLen, OneForOne, Marks, Begun;
    Broken(raw, at);
    Join(text, Marks(InvalidLen(raw, at)), OneForOne(raw[at + InvalidLen(raw, at)..]));
  }
}
