/** Bytes, and the word layouts that the wire formats of the client and the server use. */
module Bytes {

  newtype Byte = b: int | 0 <= b < 256

  const TWO_16: int := 0x1_0000
  const TWO_32: int := 0x1_0000_0000

  function Min(a: int, b: int): int {
    if a <= b then a else b
  }

  function Max(a: int, b: int): int {
    if a <= b then b else a
  }

  /** What is left of `s` without its first `k` elements, or nothing when `s` is shorter. */
  function Drop<T>(s: seq<T>, k: int): seq<T>
    requires 0 <= k
  {
    s[Min(k, |s|)..]
  }

  /** The first `k` elements of `s`, or all of `s` when it is shorter. */
  function Take<T>(s: seq<T>, k: int): seq<T>
    requires 0 <= k
  {
    s[..Min(k, |s|)]
  }

  /** What is taken and what is dropped are the whole, and as much is taken as there is. */
  lemma TakeAndDrop<T>(s: seq<T>, k: int)
    requires 0 <= k
    ensures Take(s, k) + Drop(s, k) == s
    ensures |Take(s, k)| == if k <= |s| then k else |s|
  {
  }

  lemma MinAndMax(a: int, b: int)
    ensures Min(a, b) <= a <= Max(a, b) && Min(a, b) <= b <= Max(a, b)
    ensures Min(a, b) + Max(a, b) == a + b
  {
  }

  /** Digit `i` of `n` in base 256, the least significant one being digit 0. */
  function Digit(n: int, i: nat): Byte
    requires 0 <= n
    decreases i
  {
    if i == 0 then (n % 256) as Byte else Digit(n / 256, i - 1)
  }

  function BigEndian32(n: int): seq<Byte>
    requires 0 <= n < TWO_32
  {
    [Digit(n, 3), Digit(n, 2), Digit(n, 1), Digit(n, 0)]
  }

  function LittleEndian32(n: int): seq<Byte>
    requires 0 <= n < TWO_32
  {
    [Digit(n, 0), Digit(n, 1), Digit(n, 2), Digit(n, 3)]
  }

  function LittleEndian16(n: int): seq<Byte>
    requires 0 <= n < TWO_16
  {
    [Digit(n, 0), Digit(n, 1)]
  }

  function ReadBigEndian32(s: seq<Byte>): (n: int)
    requires |s| == 4
    ensures 0 <= n < TWO_32
  {
    s[0] as int * 0x100_0000 + s[1] as int * 0x1_0000 + s[2] as int * 0x100 + s[3] as int
  }

  function ReadLittleEndian32(s: seq<Byte>): (n: int)
    requires |s| == 4
    ensures 0 <= n < TWO_32
  {
    ReadBigEndian32([s[3], s[2], s[1], s[0]])
  }

  function ReadLittleEndian16(s: seq<Byte>): (n: int)
    requires |s| == 2
    ensures 0 <= n < TWO_16
  {
    s[0] as int + s[1] as int * 0x100
  }

  /** The bytes of a word, most significant first, and the other way round. */
  lemma BytesOfWord(n: int)
    requires 0 <= n < TWO_32
    ensures BigEndian32(n) ==
            [(n / 16777216) as Byte, (n / 65536 % 256) as Byte, (n / 256 % 256) as Byte, (n % 256) as Byte]
    ensures LittleEndian32(n) ==
            [(n % 256) as Byte, (n / 256 % 256) as Byte, (n / 65536 % 256) as Byte, (n / 16777216) as Byte]
    ensures n < TWO_16 ==> LittleEndian16(n) == [(n % 256) as Byte, (n / 256) as Byte]
  {
    assert n / 256 / 256 == n / 65536 && n / 65536 / 256 == n / 16777216 < 256;
    assert Digit(n, 1) == Digit(n / 256, 0);
    assert Digit(n, 2) == Digit(n / 256, 1) == Digit(n / 256 / 256, 0);
    assert Digit(n, 3) == Digit(n / 256, 2) == Digit(n / 256 / 256, 1) == Digit(n / 256 / 256 / 256, 0);
  }

  /** The word that four bytes stand for. */
  lemma WordOfBytes(s: seq<Byte>)
    requires |s| == 4
    ensures ReadBigEndian32(s) == ((s[0] as int * 256 + s[1] as int) * 256 + s[2] as int) * 256 + s[3] as int
    ensures ReadLittleEndian32(s) == ((s[3] as int * 256 + s[2] as int) * 256 + s[1] as int) * 256 + s[0] as int
    ensures ReadLittleEndian16(s[..2]) == s[1] as int * 256 + s[0] as int
  {
  }

  /** One step of the base-256 expansion. */
  lemma DigitStep(n: int) returns (q: int, d: Byte)
    requires 0 <= n
    ensures 0 <= q && n == 256 * q + d as int && Digit(n, 0) == d
    ensures forall i: nat {:trigger Digit(q, i)} :: Digit(n, i + 1) == Digit(q, i)
  {
    q, d := n / 256, (n % 256) as Byte;
  }

  /** The four base-256 digits determine a 32-bit number. */
  lemma DigitsOfWord(n: int)
    requires 0 <= n < TWO_32
    ensures n == Digit(n, 3) as int * 0x100_0000 + Digit(n, 2) as int * 0x1_0000
                 + Digit(n, 1) as int * 0x100 + Digit(n, 0) as int
  {
    hide Digit;
    var q1, d0 := DigitStep(n);
    var q2, d1 := DigitStep(q1);
    var q3, d2 := DigitStep(q2);
    var q4, d3 := DigitStep(q3);
    assert Digit(n, 2) == Digit(q1, 1) == Digit(q2, 0);
    assert Digit(n, 3) == Digit(q1, 2) == Digit(q2, 1) == Digit(q3, 0);
  }

  lemma BigEndianRoundTrip(n: int)
    requires 0 <= n < TWO_32
    ensures ReadBigEndian32(BigEndian32(n)) == n
  {
    DigitsOfWord(n);
  }

  lemma LittleEndianRoundTrip(n: int)
    requires 0 <= n < TWO_32
    ensures ReadLittleEndian32(LittleEndian32(n)) == n
  {
    DigitsOfWord(n);
  }

  lemma LittleEndian16RoundTrip(n: int)
    requires 0 <= n < TWO_16
    ensures ReadLittleEndian16(LittleEndian16(n)) == n
  {
    assert Digit(n, 1) == Digit(n / 256, 0);
  }

  /** Every four bytes are the layout of exactly one word. */
  lemma BigEndianOfRead(s: seq<Byte>)
    requires |s| == 4
    ensures BigEndian32(ReadBigEndian32(s)) == s
  {
    var n := ReadBigEndian32(s);
    var n1 := s[0] as int * 0x1_0000 + s[1] as int * 0x100 + s[2] as int;
    var n2 := s[0] as int * 0x100 + s[1] as int;
    assert n == 256 * n1 + s[3] as int && n1 == 256 * n2 + s[2] as int;
    assert n / 256 == n1 && n1 / 256 == n2 && n2 / 256 == s[0] as int;
    assert Digit(n, 1) == Digit(n1, 0) && Digit(n, 2) == Digit(n1, 1) == Digit(n2, 0);
    assert Digit(n, 3) == Digit(n1, 2) == Digit(n2, 1) == Digit(s[0] as int, 0);
  }
}
