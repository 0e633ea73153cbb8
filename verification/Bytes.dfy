/** Bytes and little-endian integers. */
module Bytes {
  import opened Arithmetic

  type Byte = b: nat | b < 0x100

  type Word = w: nat | w < 0x1_0000

  function Radix(n: nat): (r: int)
    ensures r >= 1
  {
    if n == 0 then 1 else 0x100 * Radix(n - 1)
  }

  /** The n low bytes of a number. */
  function LeBytes(x: nat, n: nat): (bytes: seq<Byte>)
    ensures |bytes| == n
  {
    if n == 0 then [] else [x % 0x100] + LeBytes(x / 0x100, n - 1)
  }

  function FromLe(bytes: seq<Byte>): nat {
    if bytes == [] then 0 else bytes[0] + 0x100 * FromLe(bytes[1..])
  }

  lemma {:induction false} LeRoundTrip(x: nat, n: nat)
    requires x < Radix(n)
    ensures FromLe(LeBytes(x, n)) == x
  {
    if n > 0 {
      LeRoundTrip(x / 0x100, n - 1);
      assert LeBytes(x, n)[1..] == LeBytes(x / 0x100, n - 1);
    }
  }

  lemma {:induction false} LeBytesOfFromLe(bytes: seq<Byte>)
    ensures FromLe(bytes) < Radix(|bytes|)
    ensures LeBytes(FromLe(bytes), |bytes|) == bytes
  {
    if bytes != [] {
      LeBytesOfFromLe(bytes[1..]);
      var high := FromLe(bytes[1..]);
      assert (bytes[0] + 0x100 * high) % 0x100 == bytes[0];
      assert (bytes[0] + 0x100 * high) / 0x100 == high;
      assert bytes == [bytes[0]] + bytes[1..];
    }
  }

  /** Byte i of a number is its digit to the base 256. */
  lemma {:induction false} LeDigits(x: nat, n: nat, i: nat)
    requires i < n
    ensures LeBytes(x, n)[i] == x / Radix(i) % 0x100
  {
    if i > 0 {
      LeDigits(x / 0x100, n - 1, i - 1);
      DivideTwice(x, 0x100, Radix(i - 1));
    }
  }

  lemma DivideTwice(x: int, a: nat, b: nat)
    requires a > 0 && b > 0
    ensures a * b > 0 && x / a / b == x / (a * b)
  {
    var q := x / a / b;
    var low := x / a % b;
    var rest := a * low + x % a;
    MulAssociates(a, b, q);
    MulMonotone(low, b - 1, a);
    MulDistributes(b, 1, a);
    assert x == (a * b) * q + rest && 0 <= rest < a * b;
    QuotientIs(x, a * b, q, rest);
  }

  lemma QuotientIs(x: int, d: nat, q: int, rest: int)
    requires d > 0 && x == d * q + rest && 0 <= rest < d
    ensures x / d == q
  {
    MulDistributes(q, x / d, d);
    if x / d != q {
      MultipleIsLarge(d, q - x / d);
    }
  }

  /** The digits of a number read from bytes are the bytes. */
  lemma FromLeDigits(bytes: seq<Byte>, i: nat)
    requires i < |bytes|
    ensures FromLe(bytes) / Radix(i) % 0x100 == bytes[i]
  {
    LeBytesOfFromLe(bytes);
    LeDigits(FromLe(bytes), |bytes|, i);
  }

  lemma RadixValues()
    ensures Radix(0) == 1 && Radix(1) == 0x100 && Radix(2) == 0x1_0000 && Radix(3) == 0x100_0000
    ensures Radix(4) == 0x1_0000_0000 && Radix(5) == 0x100_0000_0000 && Radix(6) == 0x1_0000_0000_0000
    ensures Radix(7) == 0x100_0000_0000_0000 && Radix(8) == 0x1_0000_0000_0000_0000
  {
    assert Radix(2) == 0x1_0000 && Radix(4) == 0x1_0000_0000 && Radix(6) == 0x1_0000_0000_0000;
  }
}
