/** The wire form of every kind of value in plain numbers: tags, widths, byte order, length
    prefixes, and what the reader answers to each tag. */
module ZclWire {
  import opened Arithmetic
  import opened Bytes
  import opened Wrappers
  import opened ZclData
  import opened ZclCodec

  // ----- numbers ----------------------------------------------------------------------------

  /** A tag and the n low bytes of a number, lowest first; negative numbers in two's complement. */
  ghost predicate TagThenBytes(bytes: seq<Byte>, tag: Byte, number: int, n: nat) {
    && |bytes| == 1 + n && bytes[0] == tag
    && forall i :: 0 <= i < n ==> bytes[1 + i] == number / Radix(i) % 0x100
  }

  /** The tag carries a number below the limit of its Rust type in n bytes. */
  ghost predicate CarriesUnsigned(tag: Byte, n: nat, limit: nat, bits: nat) {
    var v := Bits(tag, bits);
    && (Representable(v) <==> bits < limit)
    && (bits < limit ==> TagThenBytes(Encode(v), tag, bits, n) && (WellFormed(v) <==> bits < Radix(n)))
  }

  /** Data, bitmaps and unsigned integers of one to eight bytes. */
  lemma UnsignedWireForm(kind: Byte, bits: nat)
    requires kind == 0x08 || kind == 0x18 || kind == 0x20
    ensures CarriesUnsigned(kind, 1, 0x100, bits) && CarriesUnsigned(kind + 1, 2, 0x1_0000, bits)
    ensures CarriesUnsigned(kind + 2, 3, 0x1_0000_0000, bits) && CarriesUnsigned(kind + 3, 4, 0x1_0000_0000, bits)
    ensures CarriesUnsigned(kind + 4, 5, 0x1_0000_0000_0000_0000, bits)
    ensures CarriesUnsigned(kind + 5, 6, 0x1_0000_0000_0000_0000, bits)
    ensures CarriesUnsigned(kind + 6, 7, 0x1_0000_0000_0000_0000, bits)
    ensures CarriesUnsigned(kind + 7, 8, 0x1_0000_0000_0000_0000, bits)
  {
    hide BitsWidth, CarriesUnsigned;
    RadixValues();
    forall n: nat | 1 <= n <= 8 ensures CarriesUnsigned(kind + n - 1, n, Radix(TypeSize(n)), bits) {
      BitsWidthOf(kind, n);
      NumberIsCarried(kind + n - 1, n, TypeSize(n), bits);
    }
    assert CarriesUnsigned(kind + 1 - 1, 1, Radix(TypeSize(1)), bits);
    assert CarriesUnsigned(kind + 2 - 1, 2, Radix(TypeSize(2)), bits);
    assert CarriesUnsigned(kind + 3 - 1, 3, Radix(TypeSize(3)), bits);
    assert CarriesUnsigned(kind + 4 - 1, 4, Radix(TypeSize(4)), bits);
    assert CarriesUnsigned(kind + 5 - 1, 5, Radix(TypeSize(5)), bits);
    assert CarriesUnsigned(kind + 6 - 1, 6, Radix(TypeSize(6)), bits);
    assert CarriesUnsigned(kind + 7 - 1, 7, Radix(TypeSize(7)), bits);
    assert CarriesUnsigned(kind + 8 - 1, 8, Radix(TypeSize(8)), bits);
  }

  /** Enumerations, floats by their bit pattern, the time stamp and the identifiers; no other tag
      carries an unsigned number. */
  lemma OtherNumbersWireForm(bits: nat)
    ensures CarriesUnsigned(0x30, 1, 0x100, bits) && CarriesUnsigned(0x31, 2, 0x1_0000, bits)
    ensures CarriesUnsigned(0x38, 2, 0x1_0000_0000, bits) && CarriesUnsigned(0x39, 4, 0x1_0000_0000, bits)
    ensures CarriesUnsigned(0x3a, 8, 0x1_0000_0000_0000_0000, bits) && CarriesUnsigned(0xe2, 4, 0x1_0000_0000, bits)
    ensures CarriesUnsigned(0xe8, 2, 0x1_0000, bits) && CarriesUnsigned(0xe9, 2, 0x1_0000, bits)
    ensures CarriesUnsigned(0xea, 2, 0x1_0000, bits)
    ensures forall tag: Byte ::
              Representable(Bits(tag, bits)) ==>
                || 0x08 <= tag <= 0x0f || 0x18 <= tag <= 0x1f || 0x20 <= tag <= 0x27
                || tag in [0x30, 0x31, 0x38, 0x39, 0x3a, 0xe2, 0xe8, 0xe9, 0xea]
  {
    hide CarriesUnsigned, Radix, TypeSize;
    RadixValues();
    NumberIsCarried(0x30, 1, 1, bits);
    NumberIsCarried(0x31, 2, 2, bits);
    NumberIsCarried(0x38, 2, 4, bits);
    NumberIsCarried(0x39, 4, 4, bits);
    NumberIsCarried(0x3a, 8, 8, bits);
    NumberIsCarried(0xe2, 4, 4, bits);
    NumberIsCarried(0xe8, 2, 2, bits);
    NumberIsCarried(0xe9, 2, 2, bits);
    NumberIsCarried(0xea, 2, 2, bits);
  }

  lemma BitsWidthOf(kind: Byte, n: nat)
    requires (kind == 0x08 || kind == 0x18 || kind == 0x20) && 1 <= n <= 8
    ensures BitsWidth(kind + n - 1) == Some((n, TypeSize(n)))
  {
    hide TypeSize;
  }

  lemma NumberIsCarried(tag: Byte, n: nat, size: nat, bits: nat)
    requires BitsWidth(tag) == Some((n, size))
    ensures CarriesUnsigned(tag, n, Radix(size), bits)
  {
    hide BitsWidth, LeBytes, Radix;
    forall i | 0 <= i < n ensures LeBytes(bits, n)[i] == bits / Radix(i) % 0x100 {
      LeDigits(bits, n, i);
    }
  }

  /** The tag carries a number between the limits of its Rust type in n bytes; in fewer bytes
      than the type has, negative numbers are lost. */
  ghost predicate CarriesSigned(tag: Byte, n: nat, limit: int, number: int) {
    var v := Signed(tag, number);
    && (Representable(v) <==> -limit <= number < limit)
    && (-limit <= number < limit ==>
          && TagThenBytes(Encode(v), tag, number, n)
          && (WellFormed(v) <==> 2 * limit == Radix(n) || 0 <= number < Radix(n)))
  }

  /** Signed integers of one to eight bytes; no other tag carries one. */
  lemma SignedWireForm(number: int)
    ensures CarriesSigned(0x28, 1, 0x80, number) && CarriesSigned(0x29, 2, 0x8000, number)
    ensures CarriesSigned(0x2a, 3, 0x8000_0000, number) && CarriesSigned(0x2b, 4, 0x8000_0000, number)
    ensures CarriesSigned(0x2c, 5, 0x8000_0000_0000_0000, number)
    ensures CarriesSigned(0x2d, 6, 0x8000_0000_0000_0000, number)
    ensures CarriesSigned(0x2e, 7, 0x8000_0000_0000_0000, number)
    ensures CarriesSigned(0x2f, 8, 0x8000_0000_0000_0000, number)
    ensures forall tag: Byte :: Representable(Signed(tag, number)) ==> 0x28 <= tag <= 0x2f
  {
    hide CarriesSigned, Radix;
    RadixValues();
    SignedIsCarried(0x28, 1, 1, 0x80, number);
    SignedIsCarried(0x29, 2, 2, 0x8000, number);
    SignedIsCarried(0x2a, 3, 4, 0x8000_0000, number);
    SignedIsCarried(0x2b, 4, 4, 0x8000_0000, number);
    SignedIsCarried(0x2c, 5, 8, 0x8000_0000_0000_0000, number);
    SignedIsCarried(0x2d, 6, 8, 0x8000_0000_0000_0000, number);
    SignedIsCarried(0x2e, 7, 8, 0x8000_0000_0000_0000, number);
    SignedIsCarried(0x2f, 8, 8, 0x8000_0000_0000_0000, number);
  }

  lemma SignedIsCarried(tag: Byte, n: nat, size: nat, limit: int, number: int)
    requires SignedWidth(tag) == Some((n, size)) && n <= size && 2 * limit == Radix(size)
    ensures CarriesSigned(tag, n, limit, number)
  {
    hide SignedWidth, LeBytes, Radix;
    if -limit <= number < limit {
      var unsigned := ToUnsigned(number, size);
      RadixGrows(n, size);
      forall i | 0 <= i < n ensures LeBytes(unsigned, n)[i] == number / Radix(i) % 0x100 {
        LeDigits(unsigned, n, i);
        ComplementDigits(number, size, i);
      }
    }
  }

  /** Adding 256 to the power of the size does not change the digits below the size. */
  lemma ComplementDigits(number: int, size: nat, i: nat)
    requires i < size
    ensures (number + Radix(size)) / Radix(i) % 0x100 == number / Radix(i) % 0x100
  {
    hide Radix;
    RadixSplits(i, size - i - 1);
    HigherDigitsAdd(number, Radix(i), Radix(size - i - 1));
  }

  lemma HigherDigitsAdd(number: int, r: nat, high: int)
    requires r > 0
    ensures (number + 0x100 * (r * high)) / r % 0x100 == number / r % 0x100
  {
    var q := number / r;
    MulAssociates(0x100, r, high);
    MulDistributes(q, 0x100 * high, r);
    QuotientIs(number + 0x100 * (r * high), r, q + 0x100 * high, number % r);
    DigitOfSum(q, high);
  }

  lemma DigitOfSum(q: int, high: int)
    ensures (q + 0x100 * high) % 0x100 == q % 0x100
  {
  }

  lemma {:induction false} RadixSplits(i: nat, j: nat)
    ensures Radix(i + 1 + j) == 0x100 * (Radix(i) * Radix(j))
  {
    if i > 0 {
      RadixSplits(i - 1, j);
      assert 0x100 * Radix(i - 1) * Radix(j) == 0x100 * (Radix(i - 1) * Radix(j));
    }
  }

  /** The reader takes the n bytes behind the tag for a number, lowest first. */
  ghost predicate ReadsUnsigned(tag: Byte, n: nat, body: seq<Byte>, depth: nat) {
    depth <= 15 ==>
      var r := Decode([tag] + body, depth);
      if |body| < n then r == Incomplete
      else
        && r.Ok? && r.value.1 == 1 + n && r.value.0.Bits? && r.value.0.tag == tag
        && r.value.0.bits < Radix(n) && TagThenBytes([tag] + body[..n], tag, r.value.0.bits, n)
  }

  /** In fewer bytes than the type has, the missing high bytes are zero. */
  ghost predicate ReadsSigned(tag: Byte, n: nat, limit: int, body: seq<Byte>, depth: nat) {
    depth <= 15 ==>
      var r := Decode([tag] + body, depth);
      if |body| < n then r == Incomplete
      else
        && r.Ok? && r.value.1 == 1 + n && r.value.0.Signed? && r.value.0.tag == tag
        && -limit <= r.value.0.number < limit
        && (2 * limit != Radix(n) ==> 0 <= r.value.0.number < Radix(n))
        && TagThenBytes([tag] + body[..n], tag, r.value.0.number, n)
  }

  /** Data, bitmaps and unsigned integers of n bytes. */
  lemma UnsignedAreRead(n: nat, body: seq<Byte>, depth: nat)
    requires 1 <= n <= 8
    ensures ReadsUnsigned(0x07 + n, n, body, depth)
    ensures ReadsUnsigned(0x17 + n, n, body, depth)
    ensures ReadsUnsigned(0x1f + n, n, body, depth)
  {
    hide ReadsUnsigned, Radix;
    NumberIsRead(0x07 + n, n, body, depth);
    NumberIsRead(0x17 + n, n, body, depth);
    NumberIsRead(0x1f + n, n, body, depth);
  }

  lemma OtherNumbersAreRead(body: seq<Byte>, depth: nat)
    ensures ReadsUnsigned(0x30, 1, body, depth) && ReadsUnsigned(0x31, 2, body, depth)
    ensures ReadsUnsigned(0x38, 2, body, depth) && ReadsUnsigned(0x39, 4, body, depth)
    ensures ReadsUnsigned(0x3a, 8, body, depth) && ReadsUnsigned(0xe2, 4, body, depth)
    ensures ReadsUnsigned(0xe8, 2, body, depth) && ReadsUnsigned(0xe9, 2, body, depth)
    ensures ReadsUnsigned(0xea, 2, body, depth)
  {
    hide ReadsUnsigned, Radix;
    NumberIsRead(0x30, 1, body, depth);
    NumberIsRead(0x31, 2, body, depth);
    NumberIsRead(0x38, 2, body, depth);
    NumberIsRead(0x39, 4, body, depth);
    NumberIsRead(0x3a, 8, body, depth);
    NumberIsRead(0xe2, 4, body, depth);
    NumberIsRead(0xe8, 2, body, depth);
    NumberIsRead(0xe9, 2, body, depth);
    NumberIsRead(0xea, 2, body, depth);
  }

  lemma SignedAreRead(body: seq<Byte>, depth: nat)
    ensures ReadsSigned(0x28, 1, 0x80, body, depth) && ReadsSigned(0x29, 2, 0x8000, body, depth)
    ensures ReadsSigned(0x2a, 3, 0x8000_0000, body, depth) && ReadsSigned(0x2b, 4, 0x8000_0000, body, depth)
    ensures ReadsSigned(0x2c, 5, 0x8000_0000_0000_0000, body, depth)
    ensures ReadsSigned(0x2d, 6, 0x8000_0000_0000_0000, body, depth)
    ensures ReadsSigned(0x2e, 7, 0x8000_0000_0000_0000, body, depth)
    ensures ReadsSigned(0x2f, 8, 0x8000_0000_0000_0000, body, depth)
  {
    hide ReadsSigned, Radix;
    RadixValues();
    SignedIsRead(0x28, 1, 1, 0x80, body, depth);
    SignedIsRead(0x29, 2, 2, 0x8000, body, depth);
    SignedIsRead(0x2a, 3, 4, 0x8000_0000, body, depth);
    SignedIsRead(0x2b, 4, 4, 0x8000_0000, body, depth);
    SignedIsRead(0x2c, 5, 8, 0x8000_0000_0000_0000, body, depth);
    SignedIsRead(0x2d, 6, 8, 0x8000_0000_0000_0000, body, depth);
    SignedIsRead(0x2e, 7, 8, 0x8000_0000_0000_0000, body, depth);
    SignedIsRead(0x2f, 8, 8, 0x8000_0000_0000_0000, body, depth);
  }

  /** Where the reader goes with a tag it does not take for a composite. */
  lemma LeafIsRead(tag: Byte, body: seq<Byte>, depth: nat)
    requires depth <= 15 && tag !in [0x48, 0x4c, 0x50, 0x51]
    ensures var leaf := DecodeLeaf(tag, body);
            Decode([tag] + body, depth) ==
              if leaf.Ok? then Ok((leaf.value.0, leaf.value.1 + 1)) else leaf
  {
    hide DecodeLeaf;
    assert ([tag] + body)[1..] == body;
  }

  lemma NumberIsRead(tag: Byte, n: nat, body: seq<Byte>, depth: nat)
    requires BitsWidth(tag).Some? && BitsWidth(tag).value.0 == n && tag !in [0x48, 0x4c, 0x50, 0x51]
    ensures ReadsUnsigned(tag, n, body, depth)
  {
    hide BitsWidth, FromLe, Radix, Decode;
    if depth <= 15 {
      LeafIsRead(tag, body, depth);
      if |body| >= n {
        LeBytesOfFromLe(body[..n]);
        forall i | 0 <= i < n ensures FromLe(body[..n]) / Radix(i) % 0x100 == body[i] {
          FromLeDigits(body[..n], i);
        }
      }
    }
  }

  lemma SignedIsRead(tag: Byte, n: nat, size: nat, limit: int, body: seq<Byte>, depth: nat)
    requires BitsWidth(tag).None? && SignedWidth(tag) == Some((n, size)) && tag !in [0x48, 0x4c, 0x50, 0x51]
    requires n <= size && 2 * limit == Radix(size)
    ensures ReadsSigned(tag, n, limit, body, depth)
  {
    hide BitsWidth, SignedWidth, FromLe, Radix, Decode;
    if depth <= 15 {
      LeafIsRead(tag, body, depth);
      if |body| >= n {
        var bits := FromLe(body[..n]);
        LeBytesOfFromLe(body[..n]);
        RadixGrows(n, size);
        forall i | 0 <= i < n ensures ToSigned(bits, size) / Radix(i) % 0x100 == body[i] {
          FromLeDigits(body[..n], i);
          ComplementDigits(bits - Radix(size), size, i);
        }
      }
    }
  }

  // ----- everything else that is not a composite ------------------------------------------------

  /** Absent clock fields are written as 0xff. */
  lemma LeafWireForm(v: ZclData)
    requires Representable(v) && !v.Bits? && !v.Signed? && !v.Composite?
    ensures match v
            case Null => Encode(v) == [0x00]
            case Bool(flag) => Encode(v) == [0x10, if flag then 1 else 0]
            case OctetString(octets) => Encode(v) == [0x41, |octets| % 0x100] + octets
            case String(utf8) => Encode(v) == [0x42, |utf8| % 0x100] + utf8
            case LongOctetString(octets) =>
              Encode(v) == [0x43, |octets| % 0x100, |octets| / 0x100 % 0x100] + octets
            case LongString(utf8) => Encode(v) == [0x44, |utf8| % 0x100, |utf8| / 0x100 % 0x100] + utf8
            case Time(hour, minute, second, hundredth) =>
              Encode(v) == [0xe0, if hour.None? then 0xff else hour.value, if minute.None? then 0xff else minute.value,
                            if second.None? then 0xff else second.value,
                            if hundredth.None? then 0xff else hundredth.value]
            case Date(year, month, day, weekday) =>
              Encode(v) == [0xe1, if year.None? then 0xff else year.value, if month.None? then 0xff else month.value,
                            if day.None? then 0xff else day.value, if weekday.None? then 0xff else weekday.value]
            case IeeeAddress(address) => TagThenBytes(Encode(v), 0xf0, address, 8)
            case SecurityKey(key) => Encode(v) == [0xf1] + key && |key| == 16
            case _ => true
  {
    hide ValidUtf8, Radix;
    PrefixBytes(|Encode(v)|);
    match v
    case OctetString(octets) => PrefixBytes(|octets|);
    case String(utf8) => PrefixBytes(|utf8|);
    case LongOctetString(octets) => PrefixBytes(|octets|);
    case LongString(utf8) => PrefixBytes(|utf8|);
    case IeeeAddress(address) =>
      forall i | 0 <= i < 8 ensures LeBytes(address, 8)[i] == address / Radix(i) % 0x100 {
        LeDigits(address, 8, i);
      }
    case _ =>
  }

  lemma PrefixBytes(len: nat)
    ensures LeBytes(len, 1) == [len % 0x100] && LeBytes(len, 2) == [len % 0x100, len / 0x100 % 0x100]
  {
    assert LeBytes(len, 1) == [len % 0x100] + LeBytes(len / 0x100, 0);
  }

  /** The times and dates that survive the round trip. */
  lemma ClockWellFormedIff(v: ZclData)
    requires v.Time? || v.Date?
    ensures v.Time? ==>
              (WellFormed(v) <==>
               && (v.hour.None? || v.hour.value <= 24) && (v.minute.None? || v.minute.value <= 60)
               && (v.second.None? || v.second.value <= 60) && (v.hundredth.None? || v.hundredth.value <= 100))
    ensures v.Date? ==>
              (WellFormed(v) <==>
               && v.year != Some(0xff) && (v.month.None? || v.month.value <= 12)
               && (v.day.None? || v.day.value <= 31) && (v.weekday.None? || v.weekday.value <= 7)
               && (v.month.Some? && v.month.value in [2, 4, 6, 9, 11] ==> v.day.Some? && v.day.value <= 30)
               && (v.month == Some(2) && v.year.Some? && (v.year.value % 4 != 0 || v.year.value in [0, 200]) ==>
                     v.day.value <= 29))
  {
  }

  /** The reader behind a one-octet length, which is indexed unchecked. */
  lemma ShortStringIsRead(tag: Byte, body: seq<Byte>, depth: nat)
    requires depth <= 15 && (tag == 0x41 || tag == 0x42)
    ensures var r := Decode([tag] + body, depth);
            if body == [] then r == Panic
            else if |body| - 1 < body[0] then r == Incomplete
            else
              var content := body[1..1 + body[0]];
              if tag == 0x41 then r == Ok((OctetString(content), 2 + body[0] as nat))
              else if ValidUtf8(content) then r == Ok((String(content), 2 + body[0] as nat))
              else r == BadInput
  {
    hide ValidUtf8, Decode;
    LeafIsRead(tag, body, depth);
    LengthIsRead(body, 1);
  }

  /** The reader behind a two-octet length; a long string becomes a string. */
  lemma LongStringIsRead(tag: Byte, body: seq<Byte>, depth: nat)
    requires depth <= 15 && (tag == 0x43 || tag == 0x44)
    ensures var r := Decode([tag] + body, depth);
            if |body| < 2 || |body| - 2 < body[0] as nat + 0x100 * body[1] as nat then r == Incomplete
            else
              var len := body[0] as nat + 0x100 * body[1] as nat;
              var content := body[2..2 + len];
              if tag == 0x43 then r == Ok((LongOctetString(content), 3 + len))
              else if ValidUtf8(content) then r == Ok((String(content), 3 + len))
              else r == BadInput
  {
    hide ValidUtf8, Decode;
    LeafIsRead(tag, body, depth);
    LengthIsRead(body, 2);
  }

  lemma LengthIsRead(body: seq<Byte>, prefix: nat)
    requires prefix == 1 || prefix == 2
    ensures |body| >= prefix ==>
              FromLe(body[..prefix]) == if prefix == 1 then body[0] else body[0] as nat + 0x100 * body[1] as nat
  {
    if |body| >= prefix {
      OneByte(body[0]);
      OneByte(body[prefix - 1]);
      assert prefix == 1 ==> body[..1] == [body[0]];
      assert prefix == 2 ==> body[..2][1..] == [body[1]];
    }
  }

  lemma OneByte(b: Byte)
    ensures FromLe([b]) == b
  {
    assert [b][1..] == [];
  }

  /** A byte of a clock is a number up to the limit, or absent as 0xff. */
  predicate InClock(b: Byte, limit: nat) { b <= limit || b == 0xff }

  function Absent(b: Byte): (field: Option<Byte>)
    ensures b == 0xff ==> field == None
    ensures b != 0xff ==> field == Some(b)
  {
    if b == 0xff then None else Some(b)
  }

  lemma ClockIsRead(tag: Byte, body: seq<Byte>, depth: nat)
    requires depth <= 15 && (tag == 0xe0 || tag == 0xe1)
    ensures var r := Decode([tag] + body, depth);
            if |body| < 4 then r == Incomplete
            else
              var (a, b, c, d) := (body[0], body[1], body[2], body[3]);
              if tag == 0xe0 then
                r == if InClock(a, 24) && InClock(b, 60) && InClock(c, 60) && InClock(d, 100)
                     then Ok((Time(Absent(a), Absent(b), Absent(c), Absent(d)), 5)) else BadInput
              else
                r == if && InClock(b, 12) && InClock(c, 31) && InClock(d, 7)
                        && (b in [2, 4, 6, 9, 11] ==> c <= 30)
                        && (b == 2 && a != 0xff && (a % 4 != 0 || a in [0, 200]) ==> c <= 29)
                     then Ok((Date(Absent(a), Absent(b), Absent(c), Absent(d)), 5)) else BadInput
  {
    hide Decode;
    LeafIsRead(tag, body, depth);
  }

  /** Null, boolean, address (eight bytes read, four reported) and key; every other tag without a
      reader is an invalid type, nothing is no tag, and the sixteenth level is too deep. */
  lemma FixedIsRead(tag: Byte, body: seq<Byte>, depth: nat)
    requires depth <= 15
    ensures var r := Decode([tag] + body, depth);
            && (tag == 0x00 ==> r == Ok((Null, 1)))
            && (tag == 0x10 ==> r == if body == [] then Incomplete else Ok((Bool(body[0] != 0), 2)))
            && (tag == 0xf0 ==>
                  if |body| < 8 then r == Incomplete
                  else
                    && r.Ok? && r.value.1 == 5 && r.value.0.IeeeAddress? && r.value.0.address < Radix(8)
                    && TagThenBytes([tag] + body[..8], 0xf0, r.value.0.address, 8))
            && (tag == 0xf1 ==> r == if |body| < 16 then Incomplete else Ok((SecurityKey(body[..16]), 17)))
    ensures tag !in [0x00, 0x10, 0x48, 0x4c, 0x50, 0x51, 0xe0, 0xe1, 0xf0, 0xf1] && !(0x41 <= tag <= 0x44)
            && !(0x08 <= tag <= 0x0f) && !(0x18 <= tag <= 0x1f) && !(0x20 <= tag <= 0x31)
            && tag !in [0x38, 0x39, 0x3a, 0xe2, 0xe8, 0xe9, 0xea] ==>
              Decode([tag] + body, depth) == BadInput
    ensures Decode([], depth) == Panic && Decode([tag] + body, 16) == BadInput
  {
    hide FromLe, TypeSize, Radix;
    if tag !in [0x48, 0x4c, 0x50, 0x51] {
      LeafIsRead(tag, body, depth);
    }
    if |body| >= 8 {
      LeBytesOfFromLe(body[..8]);
      forall i | 0 <= i < 8 ensures FromLe(body[..8]) / Radix(i) % 0x100 == body[i] {
        FromLeDigits(body[..8], i);
      }
    }
  }

  // ----- composites ---------------------------------------------------------------------------

  /** The bytes between two offsets are the item's encoding. */
  ghost predicate StandsAt(item: ZclData, bytes: seq<Byte>, start: nat, end: nat) {
    start <= end <= |bytes| && Representable(item) && bytes[start..end] == Encode(item)
  }

  /** The items' encodings stand one behind the other. */
  ghost predicate StandInOrder(items: seq<ZclData>, bytes: seq<Byte>, offsets: seq<nat>) {
    |offsets| == |items| + 1
    && forall i :: 0 <= i < |items| ==> StandsAt(items[i], bytes, offsets[i], offsets[i + 1])
  }

  /** A composite is its tag, the number of its items (the low two bytes of it) and the items. */
  lemma CompositeWireForm(v: ZclData) returns (offsets: seq<nat>)
    requires Representable(v) && v.Composite?
    ensures v.tag in [0x48, 0x4c, 0x50, 0x51] && v.count < 0x1_0000
    ensures Encode(v)[..3] == [v.tag, |v.items| % 0x100, |v.items| / 0x100 % 0x100]
    ensures StandInOrder(v.items, Encode(v), offsets)
    ensures offsets[0] == 3 && offsets[|v.items|] == |Encode(v)|
  {
    PrefixBytes(|v.items|);
    RadixValues();
    var head := [v.tag] + LeBytes(|v.items|, 2);
    offsets := ItemsStandInOrder(head, v.items);
    assert Encode(v) == head + EncodeItems(v.items);
  }

  lemma {:induction false} ItemsStandInOrder(head: seq<Byte>, items: seq<ZclData>) returns (offsets: seq<nat>)
    requires AllRepresentable(items)
    ensures StandInOrder(items, head + EncodeItems(items), offsets)
    ensures offsets[0] == |head| && offsets[|items|] == |head + EncodeItems(items)|
    decreases |items|
  {
    hide Representable, Tag, Payload;
    if items == [] {
      offsets := [|head|];
    } else {
      var first := Encode(items[0]);
      var later := ItemsStandInOrder(head + first, items[1..]);
      assert head + EncodeItems(items) == head + first + EncodeItems(items[1..]);
      offsets := [|head|] + later;
      var bytes := head + EncodeItems(items);
      assert bytes[offsets[0]..offsets[1]] == first;
      forall i | 0 < i < |items| ensures StandsAt(items[i], bytes, offsets[i], offsets[i + 1]) {
        assert items[i] == items[1..][i - 1];
        assert StandsAt(items[1..][i - 1], bytes, later[i - 1], later[i]);
      }
    }
  }

  /** A composite survives the round trip if its count is right and its items survive. */
  lemma CompositeWellFormedIff(v: ZclData)
    requires Representable(v) && v.Composite?
    ensures WellFormed(v) <==>
            && v.count == |v.items|
            && forall i :: 0 <= i < |v.items| ==> Representable(v.items[i]) && WellFormed(v.items[i])
  {
    ItemsWellFormedIff(v.items);
  }

  lemma {:induction false} ItemsWellFormedIff(items: seq<ZclData>)
    requires AllRepresentable(items)
    ensures AllWellFormed(items) <==>
            forall i :: 0 <= i < |items| ==> Representable(items[i]) && WellFormed(items[i])
  {
    hide Representable, WellFormed;
    if items != [] {
      ItemsWellFormedIff(items[1..]);
      assert forall i :: 0 < i < |items| ==> items[i] == items[1..][i - 1];
      assert forall i :: 0 <= i < |items| - 1 ==> items[1..][i] == items[i + 1];
    }
  }

  /** Items are read one behind the other, each one level deeper, up to the count or to the first
      that fails, whose failure is the answer. */
  ghost predicate ReadInOrder(bytes: seq<Byte>, depth: nat, items: seq<ZclData>, offsets: seq<nat>) {
    && |offsets| == |items| + 1 && offsets[|items|] <= |bytes|
    && forall i :: 0 <= i < |items| ==> ReadAt(items[i], bytes, depth, offsets[i], offsets[i + 1])
  }

  ghost predicate ReadAt(item: ZclData, bytes: seq<Byte>, depth: nat, start: nat, end: nat) {
    depth <= 16 && start <= end <= |bytes| && Decode(bytes[start..], depth) == Ok((item, end - start))
  }

  lemma CompositeIsRead(tag: Byte, body: seq<Byte>, depth: nat)
    returns (items: seq<ZclData>, offsets: seq<nat>)
    requires depth <= 15 && tag in [0x48, 0x4c, 0x50, 0x51]
    ensures var r := Decode([tag] + body, depth);
            if |body| < 2 then r == Incomplete
            else
              var count := body[0] as nat + 0x100 * body[1] as nat;
              && ReadInOrder(body, depth + 1, items, offsets) && offsets[0] == 2
              && if |items| == count then r == Ok((Composite(tag, count, items), offsets[count] + 1))
                 else
                   var failed := Decode(body[offsets[|items|]..], depth + 1);
                   |items| < count && !failed.Ok? && r == failed
  {
    hide Decode, DecodeItems, FromLe;
    CompositeReader(tag, body, depth);
    items, offsets := [], [2];
    if |body| >= 2 {
      LengthIsRead(body, 2);
      items, offsets := ItemsAreRead(body, 2, depth + 1, FromLe(body[..2]));
    }
  }

  lemma CompositeReader(tag: Byte, body: seq<Byte>, depth: nat)
    requires depth <= 15 && IsCompositeTag(tag)
    ensures |body| < 2 ==> Decode([tag] + body, depth) == Incomplete
    ensures |body| >= 2 ==>
              var whole := DecodeItems(body[2..], depth + 1, FromLe(body[..2]));
              Decode([tag] + body, depth) ==
              if whole.Ok? then Ok((Composite(tag, FromLe(body[..2]), whole.value.0), whole.value.1 + 3))
              else whole.PropagateFailure()
  {
    hide DecodeItems, FromLe;
    assert ([tag] + body)[1..] == body;
  }

  lemma {:induction false} ItemsAreRead(bytes: seq<Byte>, start: nat, depth: nat, count: nat)
    returns (items: seq<ZclData>, offsets: seq<nat>)
    requires depth <= 16 && start <= |bytes|
    ensures ReadInOrder(bytes, depth, items, offsets) && offsets[0] == start && |items| <= count
    ensures var r := DecodeItems(bytes[start..], depth, count);
            var next := Decode(bytes[offsets[|items|]..], depth);
            if |items| == count then r == Ok((items, offsets[count] - start))
            else !next.Ok? && r == next.PropagateFailure()
    decreases count
  {
    hide Decode, DecodeItems;
    items, offsets := [], [start];
    FirstItemIsRead(bytes, start, depth, count);
    if count > 0 {
      var first := Decode(bytes[start..], depth);
      if first.Ok? {
        var (item, len) := first.value;
        var rest, later := ItemsAreRead(bytes, start + len, depth, count - 1);
        items, offsets := [item] + rest, [start] + later;
        forall i | 0 <= i < |items| ensures ReadAt(items[i], bytes, depth, offsets[i], offsets[i + 1]) {
          assert i > 0 ==> ReadAt(rest[i - 1], bytes, depth, later[i - 1], later[i]);
        }
      }
    }
  }

  lemma FirstItemIsRead(bytes: seq<Byte>, start: nat, depth: nat, count: nat)
    requires depth <= 16 && start <= |bytes|
    ensures count == 0 ==> DecodeItems(bytes[start..], depth, count) == Ok(([], 0))
    ensures count > 0 ==>
              var first := Decode(bytes[start..], depth);
              if !first.Ok? then DecodeItems(bytes[start..], depth, count) == first.PropagateFailure()
              else
                && start + first.value.1 <= |bytes|
                && var rest := DecodeItems(bytes[start + first.value.1..], depth, count - 1);
                   DecodeItems(bytes[start..], depth, count) ==
                   if rest.Ok? then Ok(([first.value.0] + rest.value.0, first.value.1 + rest.value.1)) else rest
  {
    hide Decode;
    var first := Decode(bytes[start..], depth);
    if count > 0 && first.Ok? {
      assert bytes[start..][first.value.1..] == bytes[start + first.value.1..];
    }
  }

  /** A value without items has no levels, and one with items has one more than its deepest item. */
  lemma NestingIsDepth(v: ZclData)
    ensures !v.Composite? || v.items == [] ==> Nesting(v) == 0
    ensures v.Composite? ==> forall i :: 0 <= i < |v.items| ==> Nesting(v.items[i]) < Nesting(v)
    ensures v.Composite? && v.items != [] ==>
              exists i :: 0 <= i < |v.items| && Nesting(v) == 1 + Nesting(v.items[i])
  {
    if v.Composite? && v.items != [] {
      ItemNestingIsMaximum(v.items);
    }
  }

  lemma {:induction false} ItemNestingIsMaximum(items: seq<ZclData>)
    requires items != []
    ensures forall i :: 0 <= i < |items| ==> Nesting(items[i]) <= ItemNesting(items)
    ensures exists i :: 0 <= i < |items| && ItemNesting(items) == Nesting(items[i])
  {
    hide Nesting;
    if |items| > 1 {
      ItemNestingIsMaximum(items[1..]);
      var k :| 0 <= k < |items[1..]| && ItemNesting(items[1..]) == Nesting(items[1..][k]);
      assert items[1..][k] == items[k + 1];
      assert forall i :: 0 < i < |items| ==> items[i] == items[1..][i - 1];
    }
    assert Nesting(items[0]) >= 0;
  }
}
