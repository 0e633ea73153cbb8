/** The wire form of ZCL values: what the writer produces, what the reader accepts, and how the
    two fit together. */
module ZclCodec {
  import opened Bytes
  import opened Wrappers
  import opened ZclData

  const MAX_DEPTH: nat := 15

  // ----- writing ----------------------------------------------------------------------------

  function Tag(v: ZclData): Byte {
    match v
    case Null => 0x00
    case Bits(tag, _) => tag
    case Signed(tag, _) => tag
    case Bool(_) => 0x10
    case OctetString(_) => 0x41
    case String(_) => 0x42
    case LongOctetString(_) => 0x43
    case LongString(_) => 0x44
    case Composite(tag, _, _) => tag
    case Time(_, _, _, _) => 0xe0
    case Date(_, _, _, _) => 0xe1
    case IeeeAddress(_) => 0xf0
    case SecurityKey(_) => 0xf1
  }

  function OrFf(field: Option<Byte>): Byte { if field.None? then 0xff else field.value }

  /** The bytes after the tag; lengths are cast to their prefix, the count field is ignored. */
  function Payload(v: ZclData): seq<Byte>
    requires Representable(v)
    decreases v, 1
  {
    match v
    case Null => []
    case Bits(tag, bits) => LeBytes(bits, BitsWidth(tag).value.0)
    case Signed(tag, number) => LeBytes(ToUnsigned(number, SignedWidth(tag).value.1), SignedWidth(tag).value.0)
    case Bool(flag) => [if flag then 1 else 0]
    case OctetString(octets) => LeBytes(|octets|, 1) + octets
    case String(utf8) => LeBytes(|utf8|, 1) + utf8
    case LongOctetString(octets) => LeBytes(|octets|, 2) + octets
    case LongString(utf8) => LeBytes(|utf8|, 2) + utf8
    case Composite(_, _, items) => LeBytes(|items|, 2) + EncodeItems(items)
    case Time(hour, minute, second, hundredth) => [OrFf(hour), OrFf(minute), OrFf(second), OrFf(hundredth)]
    case Date(year, month, day, weekday) => [OrFf(year), OrFf(month), OrFf(day), OrFf(weekday)]
    case IeeeAddress(address) => LeBytes(address, 8)
    case SecurityKey(key) => key
  }

  function EncodeItems(items: seq<ZclData>): seq<Byte>
    requires AllRepresentable(items)
    decreases items, 0
  {
    if items == [] then [] else [Tag(items[0])] + Payload(items[0]) + EncodeItems(items[1..])
  }

  function Encode(v: ZclData): seq<Byte>
    requires Representable(v)
  {
    [Tag(v)] + Payload(v)
  }

  // ----- reading ----------------------------------------------------------------------------

  function NoneIfFf(b: Byte): Option<Byte> { if b == 0xff then None else Some(b) }

  predicate UpTo(limit: nat, b: Byte) { b <= limit || b == 0xff }

  predicate TimeInRange(hour: Byte, minute: Byte, second: Byte, hundredth: Byte) {
    UpTo(24, hour) && UpTo(60, minute) && UpTo(60, second) && UpTo(100, hundredth)
  }

  /** The reader's range check. An absent day (0xff) counts as a day above 30. */
  predicate DateInRange(year: Byte, month: Byte, day: Byte, weekday: Byte) {
    var leapYear := year % 4 == 0 && year != 0 && year != 200;
    && UpTo(12, month) && UpTo(31, day) && UpTo(7, weekday)
    && !(month in [2, 4, 6, 9, 11] && day > 30)
    && !(year != 0xff && !leapYear && month == 2 && day > 29)
  }

  /** Strings with a length prefix of one or two octets; one octet is indexed unchecked. */
  function DecodePrefixed(body: seq<Byte>, prefix: nat): (r: Outcome<(seq<Byte>, nat)>)
    requires prefix == 1 || prefix == 2
    ensures r.Ok? ==> r.value.1 <= |body|
  {
    if |body| < prefix then if prefix == 1 then Panic else Incomplete
    else
      var len := FromLe(body[..prefix]);
      if |body| - prefix < len then Incomplete else Ok((body[prefix..prefix + len], prefix + len))
  }

  function DecodeText(body: seq<Byte>, prefix: nat): (r: Outcome<(ZclData, nat)>)
    requires prefix == 1 || prefix == 2
    ensures r.Ok? ==> r.value.1 <= |body|
  {
    var (utf8, len) :- DecodePrefixed(body, prefix);
    if ValidUtf8(utf8) then Ok((String(utf8), len)) else BadInput
  }

  function DecodeBits(tag: Byte, body: seq<Byte>): (r: Outcome<(ZclData, nat)>)
    requires BitsWidth(tag).Some?
    ensures r.Ok? ==> r.value.1 <= |body|
  {
    var n := BitsWidth(tag).value.0;
    if |body| < n then Incomplete else Ok((Bits(tag, FromLe(body[..n])), n))
  }

  /** The missing high bytes are zero: odd widths are not sign-extended. */
  function DecodeSigned(tag: Byte, body: seq<Byte>): (r: Outcome<(ZclData, nat)>)
    requires SignedWidth(tag).Some?
    ensures r.Ok? ==> r.value.1 <= |body|
  {
    var (n, size) := SignedWidth(tag).value;
    if |body| < n then Incomplete else Ok((Signed(tag, ToSigned(FromLe(body[..n]), size)), n))
  }

  /** A long string is read as a string. */
  function DecodeString(tag: Byte, body: seq<Byte>): (r: Outcome<(ZclData, nat)>)
    requires 0x41 <= tag <= 0x44
    ensures r.Ok? ==> r.value.1 <= |body|
  {
    if tag == 0x42 then DecodeText(body, 1)
    else if tag == 0x44 then DecodeText(body, 2)
    else
      var (octets, len) :- DecodePrefixed(body, if tag == 0x41 then 1 else 2);
      Ok((if tag == 0x41 then OctetString(octets) else LongOctetString(octets), len))
  }

  function DecodeClock(tag: Byte, body: seq<Byte>): (r: Outcome<(ZclData, nat)>)
    requires tag == 0xe0 || tag == 0xe1
    ensures r.Ok? ==> r.value.1 <= |body|
  {
    if |body| < 4 then Incomplete
    else
      var (a, b, c, d) := (NoneIfFf(body[0]), NoneIfFf(body[1]), NoneIfFf(body[2]), NoneIfFf(body[3]));
      if tag == 0xe0 then
        if TimeInRange(body[0], body[1], body[2], body[3]) then Ok((Time(a, b, c, d), 4)) else BadInput
      else if DateInRange(body[0], body[1], body[2], body[3]) then Ok((Date(a, b, c, d), 4)) else BadInput
  }

  function DecodeFixed(tag: Byte, body: seq<Byte>): (r: Outcome<(ZclData, nat)>)
    ensures r.Ok? ==> r.value.1 <= |body|
  {
    if tag == 0x00 then Ok((Null, 0))
    else if tag == 0x10 then
      if |body| < 1 then Incomplete else Ok((Bool(body[0] != 0), 1))
    else if tag == 0xf0 then
      // Eight bytes are read and four reported.
      if |body| < 8 then Incomplete else Ok((IeeeAddress(FromLe(body[..8])), 4))
    else if tag == 0xf1 then
      if |body| < 16 then Incomplete else Ok((SecurityKey(body[..16]), 16))
    else BadInput
  }

  function DecodeLeaf(tag: Byte, body: seq<Byte>): (r: Outcome<(ZclData, nat)>)
    ensures r.Ok? ==> r.value.1 <= |body|
  {
    if BitsWidth(tag).Some? then DecodeBits(tag, body)
    else if SignedWidth(tag).Some? then DecodeSigned(tag, body)
    else if 0x41 <= tag <= 0x44 then DecodeString(tag, body)
    else if tag == 0xe0 || tag == 0xe1 then DecodeClock(tag, body)
    else DecodeFixed(tag, body)
  }

  /** Reads a value and the number of bytes it reports to have consumed. */
  function Decode(bytes: seq<Byte>, depth: nat): (r: Outcome<(ZclData, nat)>)
    requires depth <= MAX_DEPTH + 1
    ensures r.Ok? ==> 1 <= r.value.1 <= |bytes|
    decreases MAX_DEPTH + 1 - depth, 1
  {
    if depth > MAX_DEPTH then BadInput
    else if bytes == [] then Panic
    else
      var (value, len) :-
        if IsCompositeTag(bytes[0]) then DecodeComposite(bytes[0], bytes[1..], depth)
        else DecodeLeaf(bytes[0], bytes[1..]);
      Ok((value, len + 1))
  }

  function DecodeComposite(tag: Byte, body: seq<Byte>, depth: nat): (r: Outcome<(ZclData, nat)>)
    requires depth <= MAX_DEPTH
    ensures r.Ok? ==> r.value.1 <= |body|
    decreases MAX_DEPTH + 1 - depth, 0
  {
    if |body| < 2 then Incomplete
    else
      var count := FromLe(body[..2]);
      var (items, len) :- DecodeItems(body[2..], depth + 1, count);
      Ok((Composite(tag, count, items), len + 2))
  }

  function DecodeItems(bytes: seq<Byte>, depth: nat, count: nat): (r: Outcome<(seq<ZclData>, nat)>)
    requires depth <= MAX_DEPTH + 1
    ensures r.Ok? ==> r.value.1 <= |bytes| && |r.value.0| == count
    decreases MAX_DEPTH + 1 - depth, 2 + count
  {
    if count == 0 then Ok(([], 0))
    else
      var (item, len) :- Decode(bytes, depth);
      var (items, rest) :- DecodeItems(bytes[len..], depth, count - 1);
      Ok(([item] + items, len + rest))
  }

  // ----- when a value survives the round trip ---------------------------------------------------

  predicate Fits8(field: Option<Byte>) { field != Some(0xff) }

  /** The values the format carries: scalars within their wire width (odd-width integers are
      not negative), lengths within their prefix, times and dates the reader's range check
      admits, counts that are the list's length; no long string, no IEEE address. */
  predicate WellFormed(v: ZclData)
    requires Representable(v)
    decreases v, 1
  {
    match v
    case Null => true
    case Bits(tag, bits) => bits < Radix(BitsWidth(tag).value.0)
    case Signed(tag, number) =>
      var (n, size) := SignedWidth(tag).value;
      n == size || 0 <= number < Radix(n)
    case Bool(_) => true
    case OctetString(octets) => |octets| < 0x100
    case String(utf8) => |utf8| < 0x100
    case LongOctetString(octets) => |octets| < 0x1_0000
    case LongString(_) => false
    case Composite(_, count, items) => count == |items| && AllWellFormed(items)
    case Time(hour, minute, second, hundredth) =>
      && Fits8(hour) && Fits8(minute) && Fits8(second) && Fits8(hundredth)
      && TimeInRange(OrFf(hour), OrFf(minute), OrFf(second), OrFf(hundredth))
    case Date(year, month, day, weekday) =>
      && Fits8(year) && Fits8(month) && Fits8(day) && Fits8(weekday)
      && DateInRange(OrFf(year), OrFf(month), OrFf(day), OrFf(weekday))
    case IeeeAddress(_) => false
    case SecurityKey(_) => true
  }

  predicate AllWellFormed(items: seq<ZclData>)
    requires AllRepresentable(items)
    decreases items, 0
  {
    items != [] ==> WellFormed(items[0]) && AllWellFormed(items[1..])
  }

  /** Reading the written bytes, whatever follows them, gives the value and their length. */
  ghost predicate RoundTrips(v: ZclData, depth: nat)
    requires Representable(v) && depth <= MAX_DEPTH
  {
    forall tail: seq<Byte> :: Decode(Encode(v) + tail, depth) == Ok((v, |Encode(v)|))
  }

  /** A leaf survives exactly if it is well formed. */
  lemma LeafRoundTripsIff(v: ZclData, tail: seq<Byte>)
    requires Representable(v) && !v.Composite?
    ensures DecodeLeaf(Tag(v), Payload(v) + tail) == Ok((v, |Payload(v)|)) <==> WellFormed(v)
  {
    hide BitsWidth, SignedWidth, DecodeBits, DecodeSigned, DecodeString, DecodeClock, DecodeFixed, Payload, WellFormed;
    TagClass(v);
    match v
    case Bits(_, _) => BitsLeafRoundTripsIff(v, tail);
    case Signed(_, _) => SignedLeafRoundTripsIff(v, tail);
    case OctetString(_) => StringRoundTripsIff(v, tail);
    case String(_) => StringRoundTripsIff(v, tail);
    case LongOctetString(_) => StringRoundTripsIff(v, tail);
    case LongString(_) => StringRoundTripsIff(v, tail);
    case Time(_, _, _, _) => ClockRoundTripsIff(v, tail);
    case Date(_, _, _, _) => ClockRoundTripsIff(v, tail);
    case _ => FixedRoundTripsIff(v, tail);
  }

  /** Which reader a leaf's tag selects. */
  lemma TagClass(v: ZclData)
    requires Representable(v) && !v.Composite?
    ensures BitsWidth(Tag(v)).Some? <==> v.Bits?
    ensures SignedWidth(Tag(v)).Some? <==> v.Signed?
    ensures 0x41 <= Tag(v) <= 0x44 <==> v.OctetString? || v.String? || v.LongOctetString? || v.LongString?
    ensures Tag(v) == 0xe0 || Tag(v) == 0xe1 <==> v.Time? || v.Date?
  {
    hide TypeSize, Radix;
  }

  lemma WidthsFit(tag: Byte)
    ensures BitsWidth(tag).Some? ==> 1 <= BitsWidth(tag).value.0 <= BitsWidth(tag).value.1
    ensures SignedWidth(tag).Some? ==>
              1 <= SignedWidth(tag).value.0 <= 8 && SignedWidth(tag).value.1 == TypeSize(SignedWidth(tag).value.0)
              && SignedWidth(tag).value.0 <= SignedWidth(tag).value.1
  {
  }

  lemma BitsLeafRoundTripsIff(v: ZclData, tail: seq<Byte>)
    requires Representable(v) && v.Bits?
    ensures DecodeBits(v.tag, Payload(v) + tail) == Ok((v, |Payload(v)|)) <==> WellFormed(v)
  {
    hide BitsWidth, FromLe, LeBytes;
    assert (Payload(v) + tail)[..|Payload(v)|] == Payload(v);
    BitsRoundTripIff(v.bits, BitsWidth(v.tag).value.0);
  }

  lemma SignedLeafRoundTripsIff(v: ZclData, tail: seq<Byte>)
    requires Representable(v) && v.Signed?
    ensures DecodeSigned(v.tag, Payload(v) + tail) == Ok((v, |Payload(v)|)) <==> WellFormed(v)
  {
    hide SignedWidth, FromLe, LeBytes, TypeSize, Radix;
    assert (Payload(v) + tail)[..|Payload(v)|] == Payload(v);
    WidthsFit(v.tag);
    SignedRoundTripIff(v.number, SignedWidth(v.tag).value.0, SignedWidth(v.tag).value.1);
  }

  lemma StringRoundTripsIff(v: ZclData, tail: seq<Byte>)
    requires Representable(v) && (v.OctetString? || v.String? || v.LongOctetString? || v.LongString?)
    ensures DecodeString(Tag(v), Payload(v) + tail) == Ok((v, |Payload(v)|)) <==> WellFormed(v)
  {
    hide FromLe, LeBytes, DecodePrefixed, ValidUtf8;
    match v
    case OctetString(octets) => PrefixedRoundTripIff(octets, 1, tail);
    case String(utf8) => PrefixedRoundTripIff(utf8, 1, tail);
    case LongOctetString(octets) => PrefixedRoundTripIff(octets, 2, tail);
    case LongString(_) =>
  }

  lemma ClockRoundTripsIff(v: ZclData, tail: seq<Byte>)
    requires v.Time? || v.Date?
    ensures DecodeClock(Tag(v), Payload(v) + tail) == Ok((v, |Payload(v)|)) <==> WellFormed(v)
  {
    hide TimeInRange, DateInRange;
  }

  lemma FixedRoundTripsIff(v: ZclData, tail: seq<Byte>)
    requires Representable(v) && (v.Null? || v.Bool? || v.IeeeAddress? || v.SecurityKey?)
    ensures DecodeFixed(Tag(v), Payload(v) + tail) == Ok((v, |Payload(v)|)) <==> WellFormed(v)
  {
    hide FromLe, LeBytes, Radix;
    assert v.SecurityKey? ==> (Payload(v) + tail)[..|Payload(v)|] == Payload(v);
  }

  lemma BitsRoundTripIff(bits: nat, n: nat)
    ensures FromLe(LeBytes(bits, n)) == bits <==> bits < Radix(n)
  {
    LeBytesOfFromLe(LeBytes(bits, n));
    if bits < Radix(n) { LeRoundTrip(bits, n); }
  }

  lemma SignedRoundTripIff(number: int, n: nat, size: nat)
    requires 1 <= n <= 8 && size == TypeSize(n)
    requires -1 * Radix(size) <= 2 * number < Radix(size)
    ensures ToSigned(FromLe(LeBytes(ToUnsigned(number, size), n)), size) == number
            <==> n == size || 0 <= number < Radix(n)
  {
    RadixGrows(n, size);
    LeBytesOfFromLe(LeBytes(ToUnsigned(number, size), n));
    BitsRoundTripIff(ToUnsigned(number, size), n);
  }

  lemma {:induction false} RadixGrows(n: nat, m: nat)
    requires n <= m
    ensures Radix(n) <= Radix(m) && (n < m ==> 0x100 * Radix(n) <= Radix(m))
  {
    if n < m { RadixGrows(n, m - 1); }
  }

  lemma PrefixedRoundTripIff(content: seq<Byte>, prefix: nat, tail: seq<Byte>)
    requires prefix == 1 || prefix == 2
    ensures var bytes := LeBytes(|content|, prefix) + content;
            DecodePrefixed(bytes + tail, prefix) == Ok((content, |bytes|)) <==> |content| < Radix(prefix)
  {
    var head := LeBytes(|content|, prefix);
    var bytes := head + content + tail;
    assert bytes[..prefix] == head;
    BitsRoundTripIff(|content|, prefix);
    assert bytes[prefix..prefix + |content|] == content;
  }

  lemma TagOfLeaf(v: ZclData)
    requires Representable(v)
    ensures IsCompositeTag(Tag(v)) <==> v.Composite?
  {
  }

  /** A well-formed value within the depth limit is read back, with any bytes behind it. */
  lemma {:induction false} DecodeOfEncode(v: ZclData, depth: nat, tail: seq<Byte>)
    requires Representable(v) && WellFormed(v) && depth + Nesting(v) <= MAX_DEPTH
    ensures Decode(Encode(v) + tail, depth) == Ok((v, |Encode(v)|))
    decreases v, 1
  {
    TagOfLeaf(v);
    assert (Encode(v) + tail)[1..] == Payload(v) + tail;
    if v.Composite? {
      DecodeOfComposite(v, depth, tail);
    } else {
      LeafRoundTripsIff(v, tail);
    }
  }

  lemma {:induction false} DecodeOfComposite(v: ZclData, depth: nat, tail: seq<Byte>)
    requires Representable(v) && WellFormed(v) && v.Composite? && depth + Nesting(v) <= MAX_DEPTH
    ensures DecodeComposite(v.tag, Payload(v) + tail, depth) == Ok((v, |Payload(v)|))
    decreases v, 0
  {
    var body := Payload(v) + tail;
    assert body[..2] == LeBytes(v.count, 2);
    assert body[2..] == EncodeItems(v.items) + tail;
    BitsRoundTripIff(v.count, 2);
    if v.items != [] {
      DecodeOfItems(v.items, depth + 1, tail);
    }
  }

  lemma {:induction false} DecodeOfItems(items: seq<ZclData>, depth: nat, tail: seq<Byte>)
    requires AllRepresentable(items) && AllWellFormed(items) && depth + ItemNesting(items) <= MAX_DEPTH
    ensures DecodeItems(EncodeItems(items) + tail, depth, |items|) == Ok((items, |EncodeItems(items)|))
    decreases items, 0
  {
    hide Decode, Representable, Payload, WellFormed, Tag, Nesting;
    if items != [] {
      var first := Encode(items[0]);
      var rest := EncodeItems(items[1..]) + tail;
      assert EncodeItems(items) + tail == first + rest;
      assert (first + rest)[|first|..] == rest;
      DecodeOfEncode(items[0], depth, rest);
      DecodeOfItems(items[1..], depth, tail);
      assert items == [items[0]] + items[1..];
    }
  }

  /** A value round trips, and so does every value nested in it. */
  ghost predicate RoundTripsThroughout(v: ZclData, depth: nat)
    requires Representable(v) && depth + Nesting(v) <= MAX_DEPTH
    decreases v, 1
  {
    RoundTrips(v, depth)
    && (v.Composite? && v.items != [] ==> ItemsRoundTripThroughout(v.items, depth + 1))
  }

  ghost predicate ItemsRoundTripThroughout(items: seq<ZclData>, depth: nat)
    requires AllRepresentable(items) && depth + ItemNesting(items) <= MAX_DEPTH
    decreases items, 0
  {
    items != [] ==> RoundTripsThroughout(items[0], depth) && ItemsRoundTripThroughout(items[1..], depth)
  }

  /** Well-formedness is exactly what the round trip needs, for every value within the depth
      limit and every value nested in it. */
  lemma {:induction false} RoundTripIffWellFormed(v: ZclData, depth: nat)
    requires Representable(v) && depth + Nesting(v) <= MAX_DEPTH
    ensures RoundTripsThroughout(v, depth) <==> WellFormed(v)
    decreases v, 1
  {
    hide Payload, DecodeLeaf, DecodeComposite;
    if WellFormed(v) {
      forall tail: seq<Byte> ensures Decode(Encode(v) + tail, depth) == Ok((v, |Encode(v)|)) {
        DecodeOfEncode(v, depth, tail);
      }
    }
    if RoundTrips(v, depth) && !v.Composite? {
      LeafRoundTripsIff(v, []);
      assert Decode(Encode(v) + [], depth) == Ok((v, |Encode(v)|));
      assert (Encode(v) + [])[1..] == Payload(v) + [];
      TagOfLeaf(v);
    }
    if RoundTrips(v, depth) && v.Composite? {
      assert Decode(Encode(v) + [], depth) == Ok((v, |Encode(v)|));
      CompositeReadsItsCount(v, depth);
    }
    if v.Composite? && v.items != [] {
      ItemsRoundTripIffWellFormed(v.items, depth + 1);
    }
  }

  lemma CompositeReadsItsCount(v: ZclData, depth: nat)
    requires Representable(v) && v.Composite? && depth <= MAX_DEPTH
    requires Decode(Encode(v) + [], depth) == Ok((v, |Encode(v)|))
    ensures v.count == |v.items|
  {
    assert DecodeComposite(v.tag, (Encode(v) + [])[1..], depth).value.0 == v;
  }

  lemma {:induction false} ItemsRoundTripIffWellFormed(items: seq<ZclData>, depth: nat)
    requires AllRepresentable(items) && depth + ItemNesting(items) <= MAX_DEPTH
    ensures ItemsRoundTripThroughout(items, depth) <==> AllWellFormed(items)
    decreases items, 0
  {
    if items != [] {
      RoundTripIffWellFormed(items[0], depth);
      ItemsRoundTripIffWellFormed(items[1..], depth);
    }
  }

  /** The encoding is prefix-free and injective: two streams that agree start with the same value. */
  lemma EncodingIsPrefixFree(u: ZclData, v: ZclData, afterU: seq<Byte>, afterV: seq<Byte>)
    requires Representable(u) && WellFormed(u) && Nesting(u) <= MAX_DEPTH
    requires Representable(v) && WellFormed(v) && Nesting(v) <= MAX_DEPTH
    requires Encode(u) + afterU == Encode(v) + afterV
    ensures u == v && afterU == afterV
  {
    DecodeOfEncode(u, 0, afterU);
    DecodeOfEncode(v, 0, afterV);
    assert (Encode(u) + afterU)[|Encode(u)|..] == afterU;
    assert (Encode(v) + afterV)[|Encode(v)|..] == afterV;
  }

  /** Accepting a value means accepting its leaf, or its items. */
  lemma AcceptedParts(bytes: seq<Byte>, depth: nat)
    requires depth <= MAX_DEPTH + 1 && Decode(bytes, depth).Ok?
    ensures depth <= MAX_DEPTH && bytes != []
    ensures var tag, body, (v, len) := bytes[0], bytes[1..], Decode(bytes, depth).value;
            if IsCompositeTag(tag) then
              && |body| >= 2 && FromLe(body[..2]) < Radix(2)
              && DecodeItems(body[2..], depth + 1, FromLe(body[..2])).Ok?
              && var (items, n) := DecodeItems(body[2..], depth + 1, FromLe(body[..2])).value;
                 v == Composite(tag, FromLe(body[..2]), items) && len == n + 3
            else
              && DecodeLeaf(tag, body).Ok?
              && DecodeLeaf(tag, body).value == (v, len - 1)
  {
    var tag, body := bytes[0], bytes[1..];
    if IsCompositeTag(tag) {
      assert DecodeComposite(tag, body, depth).Ok?;
      LeBytesOfFromLe(body[..2]);
    }
  }

  // ----- what the reader accepts ------------------------------------------------------------

  /** Every accepted value is representable and nested at most as deep as the limit allows. */
  lemma {:induction false} AcceptedIsRepresentable(bytes: seq<Byte>, depth: nat)
    requires depth <= MAX_DEPTH && Decode(bytes, depth).Ok?
    ensures var v := Decode(bytes, depth).value.0; Representable(v) && depth + Nesting(v) <= 15
    decreases MAX_DEPTH + 1 - depth, 1
  {
    hide Decode;
    AcceptedParts(bytes, depth);
    var tag, body := bytes[0], bytes[1..];
    if IsCompositeTag(tag) {
      AcceptedItemsAreRepresentable(body[2..], depth + 1, FromLe(body[..2]));
    } else {
      AcceptedLeafIsRepresentable(tag, body);
    }
  }

  lemma AcceptedLeafIsRepresentable(tag: Byte, body: seq<Byte>)
    requires !IsCompositeTag(tag) && DecodeLeaf(tag, body).Ok?
    ensures Representable(DecodeLeaf(tag, body).value.0) && !DecodeLeaf(tag, body).value.0.Composite?
  {
    AcceptedLeaf(tag, body);
  }

  /** What an accepted leaf is: representable, under its own tag unless that was the long string's,
      and written as the consumed bytes exactly if the input was canonical. */
  lemma AcceptedLeaf(tag: Byte, body: seq<Byte>)
    requires DecodeLeaf(tag, body).Ok?
    ensures var (v, len) := DecodeLeaf(tag, body).value;
            && Representable(v) && !v.Composite?
            && (Tag(v) == tag && Payload(v) == body[..len] <==> CanonicalLeaf(tag, body))
            && (CanonicalLeaf(tag, body) ==> WellFormed(v))
  {
    hide BitsWidth, SignedWidth, DecodeBits, DecodeSigned, DecodeString, DecodeClock, DecodeFixed;
    hide Representable, Payload, WellFormed, Tag;
    CanonicalTags(tag);
    if BitsWidth(tag).Some? {
      AcceptedBits(tag, body);
    } else if SignedWidth(tag).Some? {
      AcceptedSigned(tag, body);
    } else if 0x41 <= tag <= 0x44 {
      AcceptedString(tag, body);
    } else if tag == 0xe0 || tag == 0xe1 {
      AcceptedClock(tag, body);
    } else {
      AcceptedFixed(tag, body);
    }
  }

  lemma CanonicalTags(tag: Byte)
    ensures BitsWidth(tag).Some? || SignedWidth(tag).Some? ==> tag != 0x44 && tag != 0xf0 && tag != 0x10
  {
    hide TypeSize;
  }

  lemma AcceptedBits(tag: Byte, body: seq<Byte>)
    requires BitsWidth(tag).Some? && DecodeBits(tag, body).Ok?
    ensures var (v, len) := DecodeBits(tag, body).value;
            Representable(v) && !v.Composite? && Tag(v) == tag && Payload(v) == body[..len] && WellFormed(v)
  {
    hide BitsWidth, FromLe, LeBytes, Radix;
    var (n, size) := BitsWidth(tag).value;
    WidthsFit(tag);
    LeBytesOfFromLe(body[..n]);
    RadixGrows(n, size);
  }

  lemma AcceptedSigned(tag: Byte, body: seq<Byte>)
    requires SignedWidth(tag).Some? && DecodeSigned(tag, body).Ok?
    ensures var (v, len) := DecodeSigned(tag, body).value;
            Representable(v) && !v.Composite? && Tag(v) == tag && Payload(v) == body[..len] && WellFormed(v)
  {
    hide SignedWidth, FromLe, LeBytes, Radix, TypeSize;
    var (n, size) := SignedWidth(tag).value;
    WidthsFit(tag);
    LeBytesOfFromLe(body[..n]);
    RadixGrows(n, size);
  }

  lemma AcceptedString(tag: Byte, body: seq<Byte>)
    requires 0x41 <= tag <= 0x44 && DecodeString(tag, body).Ok?
    ensures var (v, len) := DecodeString(tag, body).value;
            && Representable(v) && !v.Composite?
            && Tag(v) == (if tag == 0x44 then 0x42 else tag)
            && (tag != 0x44 ==> Payload(v) == body[..len] && WellFormed(v))
  {
    hide FromLe, LeBytes, DecodePrefixed, ValidUtf8;
    ReencodePrefixed(body, if tag == 0x41 || tag == 0x42 then 1 else 2);
  }

  lemma AcceptedClock(tag: Byte, body: seq<Byte>)
    requires (tag == 0xe0 || tag == 0xe1) && DecodeClock(tag, body).Ok?
    ensures var (v, len) := DecodeClock(tag, body).value;
            Representable(v) && !v.Composite? && Tag(v) == tag && Payload(v) == body[..len] && WellFormed(v)
  {
    hide TimeInRange, DateInRange;
    assert body[..4] == [body[0], body[1], body[2], body[3]];
  }

  lemma AcceptedFixed(tag: Byte, body: seq<Byte>)
    requires DecodeFixed(tag, body).Ok?
    ensures var (v, len) := DecodeFixed(tag, body).value;
            && Representable(v) && !v.Composite? && Tag(v) == tag
            && (tag == 0x10 ==> body != [])
            && (Payload(v) == body[..len] <==> tag != 0xf0 && (tag == 0x10 ==> body[0] <= 1))
            && (tag != 0xf0 ==> WellFormed(v))
  {
    hide FromLe, LeBytes, Radix;
    if tag == 0xf0 {
      LeBytesOfFromLe(body[..8]);
    } else if tag == 0x10 {
      assert body[..1][0] == body[0];
      assert body[0] <= 1 ==> body[..1] == [if body[0] != 0 then 1 else 0];
    }
  }

  lemma {:induction false} AcceptedItemsAreRepresentable(bytes: seq<Byte>, depth: nat, count: nat)
    requires depth <= MAX_DEPTH + 1 && DecodeItems(bytes, depth, count).Ok?
    ensures var items := DecodeItems(bytes, depth, count).value.0;
            AllRepresentable(items) && (items == [] || depth + ItemNesting(items) <= MAX_DEPTH)
    decreases MAX_DEPTH + 1 - depth, 2 + count
  {
    if count > 0 {
      var (item, len) := Decode(bytes, depth).value;
      AcceptedIsRepresentable(bytes, depth);
      AcceptedItemsAreRepresentable(bytes[len..], depth, count - 1);
      var (items, _) := DecodeItems(bytes[len..], depth, count - 1).value;
      assert ([item] + items)[1..] == items;
    }
  }

  /** An accepted input has one spelling per value: no long-string or IEEE-address tag, and
      booleans written as 0 or 1, here and in every nested value. */
  predicate Canonical(bytes: seq<Byte>, depth: nat)
    requires depth <= MAX_DEPTH + 1 && Decode(bytes, depth).Ok?
    decreases MAX_DEPTH + 1 - depth, 1
  {
    AcceptedParts(bytes, depth);
    if IsCompositeTag(bytes[0]) then
      ItemsCanonical(bytes[1..][2..], depth + 1, FromLe(bytes[1..][..2]))
    else CanonicalLeaf(bytes[0], bytes[1..])
  }

  predicate CanonicalLeaf(tag: Byte, body: seq<Byte>) {
    tag != 0x44 && tag != 0xf0 && (tag == 0x10 ==> body != [] && body[0] <= 1)
  }

  predicate ItemsCanonical(bytes: seq<Byte>, depth: nat, count: nat)
    requires depth <= MAX_DEPTH + 1 && DecodeItems(bytes, depth, count).Ok?
    decreases MAX_DEPTH + 1 - depth, 2 + count
  {
    count > 0 ==>
      Canonical(bytes, depth) && ItemsCanonical(bytes[Decode(bytes, depth).value.1..], depth, count - 1)
  }

  /** Re-encoding an accepted leaf gives back the consumed bytes exactly if the input was canonical. */
  lemma LeafReencodesIffCanonical(tag: Byte, body: seq<Byte>)
    requires !IsCompositeTag(tag) && DecodeLeaf(tag, body).Ok?
    ensures var (v, len) := DecodeLeaf(tag, body).value;
            Representable(v) && ([Tag(v)] + Payload(v) == [tag] + body[..len] <==> CanonicalLeaf(tag, body))
    ensures var (v, len) := DecodeLeaf(tag, body).value;
            CanonicalLeaf(tag, body) ==> WellFormed(v)
  {
    hide DecodeLeaf, CanonicalLeaf, Representable, Payload, WellFormed, Tag;
    AcceptedLeaf(tag, body);
    var (v, len) := DecodeLeaf(tag, body).value;
    assert ([Tag(v)] + Payload(v))[1..] == Payload(v) && ([tag] + body[..len])[1..] == body[..len];
  }

  lemma ReencodePrefixed(body: seq<Byte>, prefix: nat)
    requires (prefix == 1 || prefix == 2) && DecodePrefixed(body, prefix).Ok?
    ensures var (content, len) := DecodePrefixed(body, prefix).value;
            |content| < Radix(prefix) && LeBytes(|content|, prefix) + content == body[..len]
  {
    LeBytesOfFromLe(body[..prefix]);
    var (content, len) := DecodePrefixed(body, prefix).value;
    assert body[..len] == body[..prefix] + body[prefix..len];
  }

  /** Re-encoding whatever a canonical input decodes to gives back the consumed bytes. */
  lemma {:induction false} CanonicalReencodes(bytes: seq<Byte>, depth: nat)
    requires depth <= MAX_DEPTH && Decode(bytes, depth).Ok? && Canonical(bytes, depth)
    ensures var (v, len) := Decode(bytes, depth).value;
            Representable(v) && WellFormed(v) && Encode(v) == bytes[..len]
    decreases MAX_DEPTH + 1 - depth, 1
  {
    hide Decode, DecodeItems, DecodeLeaf, CanonicalLeaf;
    AcceptedIsRepresentable(bytes, depth);
    AcceptedParts(bytes, depth);
    var tag, body := bytes[0], bytes[1..];
    var (v, len) := Decode(bytes, depth).value;
    assert bytes[..len] == [tag] + body[..len - 1];
    if IsCompositeTag(tag) {
      var count := FromLe(body[..2]);
      LeBytesOfFromLe(body[..2]);
      CanonicalItemsReencode(body[2..], depth + 1, count);
      assert body[..len - 1] == body[..2] + body[2..][..len - 3];
    } else {
      AcceptedLeaf(tag, body);
    }
  }

  lemma {:induction false} CanonicalItemsReencode(bytes: seq<Byte>, depth: nat, count: nat)
    requires depth <= MAX_DEPTH + 1 && DecodeItems(bytes, depth, count).Ok? && ItemsCanonical(bytes, depth, count)
    ensures var (items, len) := DecodeItems(bytes, depth, count).value;
            AllRepresentable(items) && AllWellFormed(items) && EncodeItems(items) == bytes[..len]
    decreases MAX_DEPTH + 1 - depth, 2 + count
  {
    hide Decode, Representable, Payload, WellFormed, Tag, Canonical;
    hide DecodeLeaf, DecodeComposite, Nesting, ItemNesting, FromLe;
    if count > 0 {
      AcceptedParts(bytes, depth);
      var (item, n) := Decode(bytes, depth).value;
      var (rest, m) := DecodeItems(bytes[n..], depth, count - 1).value;
      CanonicalReencodes(bytes, depth);
      CanonicalItemsReencode(bytes[n..], depth, count - 1);
      assert ([item] + rest)[1..] == rest;
      assert bytes[..n + m] == bytes[..n] + bytes[n..][..m];
    }
  }

  /** A value is written as the bytes it was read from, and so is every value nested in it. */
  ghost predicate ReencodesThroughout(bytes: seq<Byte>, depth: nat)
    requires depth <= MAX_DEPTH + 1 && Decode(bytes, depth).Ok?
    decreases MAX_DEPTH + 1 - depth, 1
  {
    AcceptedParts(bytes, depth);
    var (v, len) := Decode(bytes, depth).value;
    && Representable(v) && Encode(v) == bytes[..len]
    && (IsCompositeTag(bytes[0]) ==>
          ItemsReencodeThroughout(bytes[1..][2..], depth + 1, FromLe(bytes[1..][..2])))
  }

  ghost predicate ItemsReencodeThroughout(bytes: seq<Byte>, depth: nat, count: nat)
    requires depth <= MAX_DEPTH + 1 && DecodeItems(bytes, depth, count).Ok?
    decreases MAX_DEPTH + 1 - depth, 2 + count
  {
    count > 0 ==>
      && ReencodesThroughout(bytes, depth)
      && ItemsReencodeThroughout(bytes[Decode(bytes, depth).value.1..], depth, count - 1)
  }

  /** Canonical input is exactly what re-encoding reproduces, for every accepted value and every
      value nested in it. */
  lemma {:induction false} ReencodesIffCanonical(bytes: seq<Byte>, depth: nat)
    requires depth <= MAX_DEPTH && Decode(bytes, depth).Ok?
    ensures ReencodesThroughout(bytes, depth) <==> Canonical(bytes, depth)
    decreases MAX_DEPTH + 1 - depth, 1
  {
    hide Decode, DecodeItems, DecodeLeaf, CanonicalLeaf, Representable, Payload, Tag, FromLe;
    AcceptedParts(bytes, depth);
    var (v, len) := Decode(bytes, depth).value;
    if Canonical(bytes, depth) {
      CanonicalReencodes(bytes, depth);
    }
    if IsCompositeTag(bytes[0]) {
      ItemsReencodeIffCanonical(bytes[1..][2..], depth + 1, FromLe(bytes[1..][..2]));
    } else {
      LeafReencodesIffCanonical(bytes[0], bytes[1..]);
      assert bytes[..len] == [bytes[0]] + bytes[1..][..len - 1];
    }
  }

  lemma {:induction false} ItemsReencodeIffCanonical(bytes: seq<Byte>, depth: nat, count: nat)
    requires depth <= MAX_DEPTH + 1 && DecodeItems(bytes, depth, count).Ok?
    ensures ItemsReencodeThroughout(bytes, depth, count) <==> ItemsCanonical(bytes, depth, count)
    decreases MAX_DEPTH + 1 - depth, 2 + count
  {
    hide Decode, ReencodesThroughout, Canonical;
    if count > 0 {
      AcceptedParts(bytes, depth);
      ReencodesIffCanonical(bytes, depth);
      ItemsReencodeIffCanonical(bytes[Decode(bytes, depth).value.1..], depth, count - 1);
    }
  }
}
