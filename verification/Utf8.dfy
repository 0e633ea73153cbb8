/** What text is: the check of the byte reader accepts exactly the encodings of Unicode scalar
    values (RFC 3629, section 3). */
module Utf8 {
  import opened Bytes
  import opened ZclData

  type Scalar = c: nat | c <= 0x10ffff && !(0xd800 <= c <= 0xdfff)

  function Encoded(c: Scalar): (bytes: seq<Byte>)
    ensures 1 <= |bytes| <= 4
  {
    if c < 0x80 then [c]
    else if c < 0x800 then [0xc0 + c / 0x40, 0x80 + c % 0x40]
    else if c < 0x1_0000 then [0xe0 + c / 0x1000, 0x80 + c / 0x40 % 0x40, 0x80 + c % 0x40]
    else [0xf0 + c / 0x4_0000, 0x80 + c / 0x1000 % 0x40, 0x80 + c / 0x40 % 0x40, 0x80 + c % 0x40]
  }

  function Text(scalars: seq<Scalar>): seq<Byte> {
    if scalars == [] then [] else Encoded(scalars[0]) + Text(scalars[1..])
  }

  /** The accepted byte strings are exactly the encoded sequences of scalar values. */
  lemma ValidUtf8Iff(s: seq<Byte>)
    ensures ValidUtf8(s) <==> exists scalars :: Text(scalars) == s
  {
    if ValidUtf8(s) {
      var scalars := Scalars(s);
      assert Text(scalars) == s;
    }
    forall scalars | Text(scalars) == s ensures ValidUtf8(s) {
      TextIsValid(scalars);
    }
  }

  lemma {:induction false} TextIsValid(scalars: seq<Scalar>)
    ensures ValidUtf8(Text(scalars))
  {
    hide Encoded;
    if scalars != [] {
      TextIsValid(scalars[1..]);
      FirstIsValid(scalars[0], Text(scalars[1..]));
    }
  }

  lemma FirstIsValid(c: Scalar, tail: seq<Byte>)
    requires ValidUtf8(tail)
    ensures ValidUtf8(Encoded(c) + tail)
  {
    hide Encoded;
    EncodedBytes(c);
    var n := |Encoded(c)|;
    assert (Encoded(c) + tail)[n..] == tail;
  }

  lemma EncodedBytes(c: Scalar)
    ensures var e := Encoded(c);
            && (forall i :: 0 < i < |e| ==> 0x80 <= e[i] <= 0xbf)
            && (|e| == 1 ==> e[0] <= 0x7f)
            && (|e| == 2 ==> 0xc2 <= e[0] <= 0xdf)
            && (|e| == 3 ==> 0xe0 <= e[0] <= 0xef && (e[0] == 0xe0 ==> e[1] >= 0xa0) && (e[0] == 0xed ==> e[1] <= 0x9f))
            && (|e| == 4 ==> 0xf0 <= e[0] <= 0xf4 && (e[0] == 0xf0 ==> e[1] >= 0x90) && (e[0] == 0xf4 ==> e[1] <= 0x8f))
  {
  }

  lemma {:induction false} Scalars(s: seq<Byte>) returns (scalars: seq<Scalar>)
    requires ValidUtf8(s)
    ensures Text(scalars) == s
  {
    hide Encoded;
    scalars := [];
    if s != [] {
      var c := FirstScalar(s);
      var rest := Scalars(s[|Encoded(c)|..]);
      scalars := [c] + rest;
      assert scalars[1..] == rest;
    }
  }

  lemma FirstScalar(s: seq<Byte>) returns (c: Scalar)
    requires ValidUtf8(s) && s != []
    ensures Encoded(c) <= s && ValidUtf8(s[|Encoded(c)|..])
  {
    hide Encoded, Composed;
    if s[0] <= 0x7f {
      c := Compose(0, 0, 0, s[0]);
    } else if s[0] <= 0xdf {
      c := Compose(0, 0, s[0] - 0xc0, s[1] - 0x80);
    } else if s[0] <= 0xef {
      c := Compose(0, s[0] - 0xe0, s[1] - 0x80, s[2] - 0x80);
    } else {
      c := Compose(s[0] - 0xf0, s[1] - 0x80, s[2] - 0x80, s[3] - 0x80);
    }
  }

  /** The scalar with these digits, and its encoding by the first digit that counts. */
  lemma Compose(w: nat, x: nat, y: nat, z: nat) returns (c: Scalar)
    requires w <= 4 && x < 0x40 && y < 0x40
    requires if w == x == y == 0 then z < 0x80 else z < 0x40
    requires (w == x == 0 && y > 0 ==> y >= 2) && (w == 0 && x == 0xd ==> y < 0x20) && (w == 4 ==> x < 0x10)
    ensures w == x == y == 0 ==> Encoded(c) == [z]
    ensures w == x == 0 && 0 < y < 0x20 ==> Encoded(c) == [0xc0 + y, 0x80 + z]
    ensures w == 0 && x < 0x10 && (x > 0 || y >= 0x20) ==> Encoded(c) == [0xe0 + x, 0x80 + y, 0x80 + z]
    ensures w > 0 || x >= 0x10 ==> Encoded(c) == [0xf0 + w, 0x80 + x, 0x80 + y, 0x80 + z]
  {
    EncodedDigits(w, x, y, z);
    c := Composed(w, x, y, z);
  }

  /** A number from its digits to the base 64. */
  function Composed(w: nat, x: nat, y: nat, z: nat): nat { 0x4_0000 * w + 0x1000 * x + 0x40 * y + z }

  lemma EncodedDigits(w: nat, x: nat, y: nat, z: nat)
    requires w <= 4 && x < 0x40 && y < 0x40
    requires if w == x == y == 0 then z < 0x80 else z < 0x40
    ensures var c := Composed(w, x, y, z);
            c <= 0x10ffff && !(0xd800 <= c <= 0xdfff) ==>
              Encoded(c) ==
                if c < 0x80 then [c]
                else if c < 0x800 then [0xc0 + y, 0x80 + z]
                else if c < 0x1_0000 then [0xe0 + x, 0x80 + y, 0x80 + z]
                else [0xf0 + w, 0x80 + x, 0x80 + y, 0x80 + z]
  {
    if Composed(w, x, y, z) >= 0x80 {
      Digits(w, x, y, z);
      assert Composed(w, x, y, z) < 0x800 ==> w == x == 0;
      assert Composed(w, x, y, z) < 0x1_0000 ==> w == 0 && x < 0x10;
      hide Composed;
    }
  }

  lemma Digits(w: nat, x: nat, y: nat, z: nat)
    requires w <= 4 && x < 0x40 && y < 0x40 && z < 0x40
    ensures var c := Composed(w, x, y, z);
            && c % 0x40 == z && c / 0x40 % 0x40 == y && c / 0x1000 % 0x40 == x && c / 0x4_0000 == w
            && c / 0x40 == 0x1000 * w + 0x40 * x + y && c / 0x1000 == 0x40 * w + x
  {
    var c := Composed(w, x, y, z);
    Digit(0x1000 * w + 0x40 * x + y, z);
    Digit(0x40 * w + x, y);
    Digit(w, x);
    QuotientIs(c, 0x1000, 0x40 * w + x, 0x40 * y + z);
    QuotientIs(c, 0x4_0000, w, 0x1000 * x + 0x40 * y + z);
  }

  lemma Digit(high: nat, low: nat)
    requires low < 0x40
    ensures (0x40 * high + low) / 0x40 == high && (0x40 * high + low) % 0x40 == low
  {
  }
}
