/** ZCL attribute values (Zigbee Cluster Library specification, section 2.6.2) and their wire
    form. */
module ZclData {
  import opened Bytes
  import opened Wrappers

  /** The result of reading or writing: a value, one of the two errors of the byte library, or
      the panic of an index out of bounds. */
  datatype Outcome<+T> = Ok(value: T) | Incomplete | BadInput | Panic {
    predicate IsFailure() { !Ok? }

    function PropagateFailure<U>(): Outcome<U>
      requires !Ok?
    {
      match this
      case Incomplete => Incomplete
      case BadInput => BadInput
      case Panic => Panic
    }

    function Extract(): T
      requires Ok?
    {
      value
    }
  }

  /** A value. `Bits` stands for the data, bitmap, unsigned, enumeration, identifier and time
      stamp variants and for the floats by their bit pattern; `Signed` for the signed integers;
      `Composite` for array, structure, set and bag, with the count field they carry. */
  datatype ZclData =
    | Null
    | Bits(tag: Byte, bits: nat)
    | Signed(tag: Byte, number: int)
    | Bool(flag: bool)
    | OctetString(octets: seq<Byte>)
    | String(utf8: seq<Byte>)
    | LongOctetString(octets: seq<Byte>)
    | LongString(utf8: seq<Byte>)
    | Composite(tag: Byte, count: nat, items: seq<ZclData>)
    | Time(hour: Option<Byte>, minute: Option<Byte>, second: Option<Byte>, hundredth: Option<Byte>)
    | Date(year: Option<Byte>, month: Option<Byte>, day: Option<Byte>, weekday: Option<Byte>)
    | IeeeAddress(address: nat)
    | SecurityKey(key: seq<Byte>)

  /** How many bytes of a `Bits` value are on the wire, and how many its Rust type has. */
  function BitsWidth(tag: Byte): Option<(nat, nat)> {
    if 0x08 <= tag <= 0x0f then Some((tag - 0x07, TypeSize(tag - 0x07)))
    else if 0x18 <= tag <= 0x1f then Some((tag - 0x17, TypeSize(tag - 0x17)))
    else if 0x20 <= tag <= 0x27 then Some((tag - 0x1f, TypeSize(tag - 0x1f)))
    else if tag == 0x30 then Some((1, 1))
    else if tag == 0x31 then Some((2, 2))
    else if tag == 0x38 then Some((2, 4))
    else if tag == 0x39 then Some((4, 4))
    else if tag == 0x3a then Some((8, 8))
    else if tag == 0xe2 then Some((4, 4))
    else if 0xe8 <= tag <= 0xea then Some((2, 2))
    else None
  }

  function SignedWidth(tag: Byte): Option<(nat, nat)> {
    if 0x28 <= tag <= 0x2f then Some((tag - 0x27, TypeSize(tag - 0x27))) else None
  }

  function TypeSize(width: nat): nat {
    if width <= 1 then 1 else if width <= 2 then 2 else if width <= 4 then 4 else 8
  }

  predicate IsCompositeTag(tag: Byte) { tag == 0x48 || tag == 0x4c || tag == 0x50 || tag == 0x51 }

  /** The values the Rust types can hold. */
  ghost predicate Representable(v: ZclData)
    decreases v, 1
  {
    match v
    case Null => true
    case Bits(tag, bits) => BitsWidth(tag).Some? && bits < Radix(BitsWidth(tag).value.1)
    case Signed(tag, number) =>
      SignedWidth(tag).Some? && -Radix(SignedWidth(tag).value.1) <= 2 * number < Radix(SignedWidth(tag).value.1)
    case Bool(_) => true
    case OctetString(_) => true
    case String(utf8) => ValidUtf8(utf8)
    case LongOctetString(_) => true
    case LongString(utf8) => ValidUtf8(utf8)
    case Composite(tag, count, items) => IsCompositeTag(tag) && count < Radix(2) && AllRepresentable(items)
    case Time(_, _, _, _) => true
    case Date(_, _, _, _) => true
    case IeeeAddress(address) => address < Radix(8)
    case SecurityKey(key) => |key| == 16
  }

  ghost predicate AllRepresentable(items: seq<ZclData>)
    decreases items, 0
  {
    items != [] ==> Representable(items[0]) && AllRepresentable(items[1..])
  }

  /** Levels of composites inside a value; an empty composite has none. */
  function Nesting(v: ZclData): nat
    decreases v, 1
  {
    if v.Composite? && v.items != [] then 1 + ItemNesting(v.items) else 0
  }

  function ItemNesting(items: seq<ZclData>): nat
    decreases items, 0
  {
    if items == [] then 0
    else
      var first, rest := Nesting(items[0]), ItemNesting(items[1..]);
      if first > rest then first else rest
  }

  // ----- UTF-8 (RFC 3629, section 4) ----------------------------------------------------

  predicate Continuation(b: Byte) { 0x80 <= b <= 0xbf }

  predicate ValidUtf8(s: seq<Byte>) {
    if |s| == 0 then true
    else if s[0] <= 0x7f then ValidUtf8(s[1..])
    else if 0xc2 <= s[0] <= 0xdf then |s| >= 2 && Continuation(s[1]) && ValidUtf8(s[2..])
    else if 0xe0 <= s[0] <= 0xef then
      && |s| >= 3 && Continuation(s[1]) && Continuation(s[2])
      && (s[0] == 0xe0 ==> s[1] >= 0xa0) && (s[0] == 0xed ==> s[1] <= 0x9f)
      && ValidUtf8(s[3..])
    else if 0xf0 <= s[0] <= 0xf4 then
      && |s| >= 4 && Continuation(s[1]) && Continuation(s[2]) && Continuation(s[3])
      && (s[0] == 0xf0 ==> s[1] >= 0x90) && (s[0] == 0xf4 ==> s[1] <= 0x8f)
      && ValidUtf8(s[4..])
    else false
  }

  // ----- signed integers ------------------------------------------------------------------

  /** Two's complement in a type of the given size. */
  function ToUnsigned(number: int, size: nat): int { if number < 0 then number + Radix(size) else number }

  function ToSigned(bits: nat, size: nat): int { if 2 * bits >= Radix(size) then bits - Radix(size) else bits }
}
