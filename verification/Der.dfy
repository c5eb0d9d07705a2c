/**
 DER elements with definite, minimal lengths of at most four octets (sections 8.1.3 and 10.1 of
 X.690): the one encoding each body has, and `element`, which accepts that one and no other.
 */
module Der {
  import opened Bytes

  const SEQUENCE: Byte := 0x30
  const IA5_STRING: Byte := 0x16
  const OCTET_STRING: Byte := 0x04

  /** Lengths that four octets hold. */
  const MAX_LENGTH: nat := 0x1_0000_0000

  // ----- encoding -----

  /** A number in as few octets as hold it, most significant first. */
  function BigEndian(n: nat): (octets: seq<Byte>)
    ensures octets != []
    decreases n
  {
    if n < 256 then [n] else BigEndian(n / 256) + [n % 256]
  }

  function EncodeLength(n: nat): (s: seq<Byte>)
    requires n < MAX_LENGTH
    ensures s != []
  {
    if n < 0x80 then [n]
    else
      BigEndianFits(n);
      [0x80 + |BigEndian(n)|] + BigEndian(n)
  }

  function Tlv(tag: Byte, body: seq<Byte>): (s: seq<Byte>)
    requires |body| < MAX_LENGTH
  {
    [tag] + EncodeLength(|body|) + body
  }

  /** Below 128 a length is one octet; from there on, how many octets follow, and those, the highest first. */
  lemma LengthForms(b1: Byte, b2: Byte, b3: Byte, b4: Byte)
    requires b1 > 0
    ensures EncodeLength(b1) == if b1 < 0x80 then [b1] else [0x81, b1]
    ensures EncodeLength(0x100 * (b1 as int) + b2) == [0x82, b1, b2]
    ensures EncodeLength(0x100 * (0x100 * (b1 as int) + b2) + b3) == [0x83, b1, b2, b3]
    ensures EncodeLength(0x100 * (0x100 * (0x100 * (b1 as int) + b2) + b3) + b4) == [0x84, b1, b2, b3, b4]
  {
    var n2 := 0x100 * (b1 as int) + b2;
    var n3 := 0x100 * n2 + b3;
    OneOctetMore(b1, b2);
    OneOctetMore(n2, b3);
    OneOctetMore(n3, b4);
    assert BigEndian(b1) == [b1];
  }

  lemma OneOctetMore(n: nat, b: Byte)
    requires n > 0
    ensures BigEndian(0x100 * n + b) == BigEndian(n) + [b]
  {
  }

  // ----- what octets stand for -----

  function Value(octets: seq<Byte>): nat
    decreases |octets|
  {
    if octets == [] then 0 else Value(octets[..|octets| - 1]) * 256 + octets[|octets| - 1]
  }

  lemma {:induction false} ValueOfBigEndian(n: nat)
    ensures Value(BigEndian(n)) == n
    ensures n > 0 ==> BigEndian(n)[0] != 0
    decreases n
  {
    var octets := BigEndian(n);
    if n >= 256 {
      ValueOfBigEndian(n / 256);
      assert octets[..|octets| - 1] == BigEndian(n / 256);
      assert octets[0] == BigEndian(n / 256)[0];
    } else {
      assert octets[..0] == [];
    }
  }

  lemma {:induction false} BigEndianOfValue(octets: seq<Byte>)
    requires octets != [] && octets[0] != 0
    ensures BigEndian(Value(octets)) == octets && Value(octets) > 0
    decreases |octets|
  {
    var n := |octets| - 1;
    if n == 0 {
      assert octets[..0] == [];
      assert octets == [octets[0]];
    } else {
      var front := octets[..n];
      BigEndianOfValue(front);
      var v := Value(front) * 256 + octets[n];
      assert v / 256 == Value(front) && v % 256 == octets[n];
      assert octets == front + [octets[n]];
    }
  }

  lemma {:induction false} ValueIsBounded(octets: seq<Byte>)
    ensures |octets| <= 4 ==> Value(octets) < MAX_LENGTH
    ensures |octets| <= 3 ==> Value(octets) < 0x100_0000
    ensures |octets| <= 2 ==> Value(octets) < 0x1_0000
    ensures |octets| <= 1 ==> Value(octets) < 0x100
    decreases |octets|
  {
    if octets != [] { ValueIsBounded(octets[..|octets| - 1]); }
  }

  lemma BigEndianFits(n: nat)
    requires n < MAX_LENGTH
    ensures |BigEndian(n)| <= 4
  {
    var a, b, c := n / 256, n / 256 / 256, n / 256 / 256 / 256;
    assert a < 0x100_0000 && b < 0x1_0000 && c < 0x100;
    assert |BigEndian(c)| == 1;
    assert |BigEndian(b)| <= 1 + |BigEndian(c)|;
    assert |BigEndian(a)| <= 1 + |BigEndian(b)|;
  }

  // ----- element -----

  /** The length that starts a length field's octets, and how many octets it took; `None` when refused. */
  function ReadLength(input: seq<Byte>): Option<(nat, nat)> {
    if input == [] then None
    else if input[0] < 0x80 then Some((input[0], 1))
    else
      var k := input[0] - 0x80;
      if 1 + k > |input| then None
      else
        var octets := input[1..1 + k];
        if !(1 <= k <= 4) || octets[0] == 0 || Value(octets) < 0x80 then None
        else Some((Value(octets), 1 + k))
  }

  /** The body at the front of `input`, and what follows it. */
  function Element(input: seq<Byte>, tag: Byte): Option<(seq<Byte>, seq<Byte>)> {
    if |input| < 2 || input[0] != tag then None
    else
      match ReadLength(input[1..])
      case None => None
      case Some(read) =>
        Split(input, 1 + read.1, read.0)
  }

  function Split(input: seq<Byte>, start: nat, size: nat): Option<(seq<Byte>, seq<Byte>)> {
    if start + size > |input| then None else Some((input[start..start + size], input[start + size..]))
  }

  /** A length is read exactly from its one encoding. */
  lemma LengthIsCanonical(input: seq<Byte>, n: nat, used: nat)
    ensures ReadLength(input) == Some((n, used))
            <==> n < MAX_LENGTH && used == |EncodeLength(n)| <= |input| && input[..used] == EncodeLength(n)
  {
    if ReadLength(input) == Some((n, used)) {
      LengthReadIsCanonical(input, n, used);
    }
    if n < MAX_LENGTH && used == |EncodeLength(n)| <= |input| && input[..used] == EncodeLength(n) {
      CanonicalLengthIsRead(input, n, used);
    }
  }

  lemma LengthReadIsCanonical(input: seq<Byte>, n: nat, used: nat)
    requires ReadLength(input) == Some((n, used))
    ensures n < MAX_LENGTH && used == |EncodeLength(n)| <= |input| && input[..used] == EncodeLength(n)
  {
    if input[0] < 0x80 {
      assert input[..1] == [input[0]];
    } else {
      var octets := input[1..used];
      BigEndianOfValue(octets);
      ValueIsBounded(octets);
      assert input[..used] == [input[0]] + octets;
    }
  }

  lemma CanonicalLengthIsRead(input: seq<Byte>, n: nat, used: nat)
    requires n < MAX_LENGTH && used == |EncodeLength(n)| <= |input| && input[..used] == EncodeLength(n)
    ensures ReadLength(input) == Some((n, used))
  {
    assert input[0] == input[..used][0];
    if n >= 0x80 {
      BigEndianFits(n);
      ValueOfBigEndian(n);
      assert input[1..used] == input[..used][1..];
      assert input[1..used] == BigEndian(n);
    }
  }

  /** `element` accepts exactly one encoding of each body, and stops right behind it. */
  lemma ElementIsCanonical(input: seq<Byte>, tag: Byte, body: seq<Byte>, rest: seq<Byte>)
    ensures Element(input, tag) == Some((body, rest))
            <==> |body| < MAX_LENGTH && input == Tlv(tag, body) + rest
  {
    hide ReadLength, EncodeLength;
    if Element(input, tag) == Some((body, rest)) {
      var (n, used) := ReadLength(input[1..]).value;
      LengthIsCanonical(input[1..], n, used);
      assert input == [input[0]] + input[1..][..used] + body + rest;
    }
    if |body| < MAX_LENGTH && input == Tlv(tag, body) + rest {
      var used := |EncodeLength(|body|)|;
      Regions(tag, EncodeLength(|body|), body, rest);
      LengthIsCanonical(input[1..], |body|, used);
    }
  }

  lemma Regions(tag: Byte, length: seq<Byte>, body: seq<Byte>, rest: seq<Byte>)
    ensures var s := [tag] + length + body + rest;
            && s[0] == tag
            && s[1..][..|length|] == length
            && s[1 + |length|..1 + |length| + |body|] == body
            && s[1 + |length| + |body|..] == rest
  {
  }

  lemma ShortLength(input: seq<Byte>)
    requires |input| >= 2 && input[1] < 0x80
    ensures ReadLength(input[1..]) == Some((input[1], 1))
  {
  }

  lemma LongLength(input: seq<Byte>, k: nat)
    requires |input| >= 2 && input[1] == 0x80 + k
    ensures ReadLength(input[1..])
            == if 2 + k > |input| then None
               else
                 var octets := input[2..2 + k];
                 if !(1 <= k <= 4) || octets[0] == 0 || Value(octets) < 0x80 then None else Some((Value(octets), 1 + k))
  {
    hide Value;
    if 2 + k <= |input| { SliceOfDrop(input, 1, 1, 1 + k); }
  }

  lemma NoOctets(octets: seq<Byte>)
    ensures Value(octets[..0]) == 0
  {
  }

  /** One more octet of a length. */
  lemma ValueGrows(octets: seq<Byte>, j: nat)
    requires j < |octets|
    ensures Value(octets[..j + 1]) == Value(octets[..j]) * 256 + octets[j]
  {
    assert octets[..j + 1][..j] == octets[..j];
  }

  /** `element`: the body at the front of the slice, which is advanced past it, or left as it was. */
  method TakeElement(input: seq<Byte>, expected: Byte) returns (body: Option<seq<Byte>>, rest: seq<Byte>)
    ensures match Element(input, expected)
            case Some(found) => body == Some(found.0) && rest == found.1
            case None => body == None && rest == input
  {
    hide Value, ReadLength;
    body, rest := None, input;
    if |input| < 2 || input[0] != expected { return; }
    var first := input[1];
    var size := 0;
    var start := 2;
    if first < 0x80 {
      ShortLength(input);
      size := first;
    } else {
      var k := first - 0x80;
      LongLength(input, k);
      if 2 + k > |input| { return; }
      var octets := input[2..2 + k];
      if !(1 <= k <= 4) || octets[0] == 0 { return; }
      var j := 0;
      NoOctets(octets);
      while j < k
        invariant 0 <= j <= k
        invariant size == Value(octets[..j])
      {
        ValueGrows(octets, j);
        size := size * 256 + octets[j];
        j := j + 1;
      }
      assert octets[..j] == octets;
      if size < 0x80 { return; }
      start := 2 + k;
    }
    if start + size > |input| { return; }
    body, rest := Some(input[start..start + size]), input[start + size..];
  }
}
