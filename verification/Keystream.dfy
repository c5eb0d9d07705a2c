/**
 RC4 as it is published: two indices, a permutation changed by one swap at a time, and for each byte
 the value at the sum of the two values just swapped. Said here of what each index holds after so
 many swaps, and proved to be what the cipher of `Rc4` puts out, bit by bit.
 */
module Keystream {
  import opened Bytes
  import opened Rc4

  // ----- the key schedule -----

  /** What index `x` holds after `n` of the 256 swaps: swap `k` is of index `k` and the sum so far. */
  function Scheduled(key: seq<Byte>, n: nat, x: Byte): Byte
    requires key != [] && n <= 256
    decreases n, 1
  {
    if n == 0 then x
    else
      var i, j := n - 1, ScheduleSum(key, n) % 256;
      Scheduled(key, n - 1, if x == i then j else if x == j then i else x)
  }

  /** Of every index in turn, the value it holds then, and the key's byte there, the key repeated. */
  function ScheduleSum(key: seq<Byte>, n: nat): nat
    requires key != [] && n <= 256
    decreases n, 0
  {
    if n == 0 then 0
    else ScheduleSum(key, n - 1) + Scheduled(key, n - 1, n - 1) + key[(n - 1) % |key|]
  }

  // ----- the keystream -----

  /** What index `x` holds once `n` bytes are out: the `n`th swap is of `n` modulo 256 and the sum so far. */
  function Held(key: seq<Byte>, n: nat, x: Byte): Byte
    decreases n, 1
  {
    if n == 0 then (if key == [] then x else Scheduled(key, 256, x))
    else
      var i, j := n % 256, IndexSum(key, n) % 256;
      Held(key, n - 1, if x == i then j else if x == j then i else x)
  }

  function IndexSum(key: seq<Byte>, n: nat): nat
    decreases n, 0
  {
    if n == 0 then 0 else IndexSum(key, n - 1) + Held(key, n - 1, n % 256)
  }

  /** The `n`th byte of the keystream, from one on. */
  function KeyByte(key: seq<Byte>, n: nat): Byte {
    var i, j := n % 256, IndexSum(key, n) % 256;
    Held(key, n, (Held(key, n, i) + Held(key, n, j)) % 256)
  }

  // ----- the cipher follows it -----

  lemma SumsReduce(a: nat, b: nat, c: nat)
    ensures (a % 256 + b) % 256 == (a + b) % 256
    ensures ((a % 256 + b) % 256 + c) % 256 == (a + b + c) % 256
  {
    SumReduces(a, b);
    SumReduces(a + b, c);
  }

  lemma SumReduces(a: nat, b: nat)
    ensures (a % 256 + b) % 256 == (a + b) % 256
  {
  }

  /** One swap, seen index by index. */
  lemma Swapped(s: seq<Byte>, i: Byte, j: Byte)
    requires |s| == 256
    ensures forall x: Byte :: Swap(s, i, j)[x] == s[if x == i then j else if x == j then i else x]
  {
  }

  lemma ScheduleStep(key: seq<Byte>, n: nat, s: seq<Byte>, j: Byte)
    requires key != [] && n < 256 && |s| == 256 && j == ScheduleSum(key, n) % 256
    requires forall x: Byte :: s[x] == Scheduled(key, n, x)
    ensures var next := WrappingAdd(WrappingAdd(j, s[n]), key[n % |key|]);
            && next == ScheduleSum(key, n + 1) % 256
            && forall x: Byte :: Swap(s, n, next)[x] == Scheduled(key, n + 1, x)
  {
    hide Swap, ScheduleSum, WrappingAdd;
    NextIndex(key, n, s[n], j);
    Swapped(s, n, ScheduleSum(key, n + 1) % 256);
  }

  lemma NextIndex(key: seq<Byte>, n: nat, held: Byte, j: Byte)
    requires key != [] && n < 256 && j == ScheduleSum(key, n) % 256 && held == Scheduled(key, n, n)
    ensures WrappingAdd(WrappingAdd(j, held), key[n % |key|]) == ScheduleSum(key, n + 1) % 256
  {
    hide Scheduled, ScheduleSum;
    ScheduleSumGrows(key, n);
    SumsReduce(ScheduleSum(key, n), held, key[n % |key|]);
  }

  lemma ScheduleSumGrows(key: seq<Byte>, n: nat)
    requires key != [] && n < 256
    ensures ScheduleSum(key, n + 1) == ScheduleSum(key, n) + Scheduled(key, n, n) + key[n % |key|]
  {
    hide Scheduled;
  }

  lemma {:induction false} SetupIsScheduled(key: seq<Byte>, n: nat)
    requires key != [] && n <= 256
    ensures var (s, j) := Setup(key, n);
            j == ScheduleSum(key, n) % 256 && forall x: Byte :: s[x] == Scheduled(key, n, x)
  {
    if n > 0 {
      hide Setup, Swap, Scheduled, ScheduleSum, WrappingAdd;
      SetupIsScheduled(key, n - 1);
      SetupStep(key, n - 1);
      var (s, j) := Setup(key, n - 1);
      ScheduleStep(key, n - 1, s, j);
    }
  }

  /** The cipher `c` as the published one once `n` bytes are out. */
  ghost predicate Follows(c: Cipher, key: seq<Byte>, n: nat)
    requires |c.state| == 256
  {
    c.i == n % 256 && c.j == IndexSum(key, n) % 256 && forall x: Byte :: c.state[x] == Held(key, n, x)
  }

  lemma StepFollows(c: Cipher, key: seq<Byte>, n: nat)
    requires |c.state| == 256 && Follows(c, key, n)
    ensures Follows(Next(c), key, n + 1)
  {
    hide Swap, IndexSum, WrappingAdd;
    NextIndices(key, n, c.state[(n + 1) % 256]);
    Swapped(c.state, (n + 1) % 256, IndexSum(key, n + 1) % 256);
  }

  lemma NextIndices(key: seq<Byte>, n: nat, held: Byte)
    requires held == Held(key, n, (n + 1) % 256)
    ensures WrappingAdd(n % 256, 1) == (n + 1) % 256
    ensures WrappingAdd(IndexSum(key, n) % 256, held) == IndexSum(key, n + 1) % 256
  {
    hide Held;
    SumReduces(n, 1);
    SumReduces(IndexSum(key, n), held);
  }

  lemma FreshFollows(key: seq<Byte>)
    ensures Follows(Fresh(key), key, 0)
  {
    hide Setup, Scheduled;
    if key != [] { SetupIsScheduled(key, 256); }
  }

  lemma {:induction false} AfterFollows(key: seq<Byte>, n: nat)
    ensures Follows(After(Fresh(key), n), key, n)
  {
    hide Follows, Next, Fresh;
    if n == 0 {
      FreshFollows(key);
    } else {
      AfterFollows(key, n - 1);
      AfterTwice(Fresh(key), n - 1, 1);
      OneByte(After(Fresh(key), n - 1), 0);
      StepFollows(After(Fresh(key), n - 1), key, n - 1);
    }
  }

  // ----- exclusive or -----

  /** Binary digit `k` of `b` is one, counted from the lowest. */
  predicate Bit(b: nat, k: nat)
    decreases k
  {
    if k == 0 then b % 2 == 1 else Bit(b / 2, k - 1)
  }

  /** Every bit is set where exactly one of the two has it set. */
  lemma {:induction false} XorBitsAre(x: nat, y: nat, n: nat, k: nat)
    requires k < n
    ensures Bit(XorBits(x, y, n), k) <==> Bit(x, k) != Bit(y, k)
    decreases n
  {
    XorLowBit(x, y, n);
    if k > 0 {
      XorBitsAre(x / 2, y / 2, n - 1, k - 1);
    }
  }

  /** Each byte of data is changed in exactly the bits that the keystream's byte there has. */
  lemma AppliesTheKeystream(key: seq<Byte>, data: seq<Byte>, n: nat, k: nat)
    requires n < |data| && k < 8
    ensures Bit(Applied(Fresh(key), data)[n], k) <==> Bit(data[n], k) != Bit(KeyByte(key, n + 1), k)
  {
    hide After, Applied, Follows, KeyByte, Next, Output, Xor, Bit;
    var c := Fresh(key);
    Snoc(c, data, n);
    PrefixOfWhole(c, data, n + 1);
    assert Applied(c, data)[..n + 1][n] == Applied(c, data)[n];
    AfterFollows(key, n + 1);
    ByteIsOutput(key, n + 1, After(c, n + 1));
    XorIsBitwise(data[n], Output(After(c, n + 1)), k);
  }

  lemma ByteIsOutput(key: seq<Byte>, n: nat, c: Cipher)
    requires |c.state| == 256 && Follows(c, key, n)
    ensures Output(c) == KeyByte(key, n)
  {
    hide Held, IndexSum;
  }

  lemma XorIsBitwise(x: Byte, y: Byte, k: nat)
    requires k < 8
    ensures Bit(Xor(x, y), k) <==> Bit(x, k) != Bit(y, k)
  {
    hide Bit, XorBits;
    XorBitsAre(x, y, 8, k);
  }
}
