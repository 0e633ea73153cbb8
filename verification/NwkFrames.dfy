/** The network header (Zigbee specification, section 3.3.1), without source routes and multicast. */
module NwkFrames {
  import opened Wrappers
  import opened AuxHeader
  import BitStruct

  datatype FrameType = Data | NwkCommand | Reserved | InterPan

  datatype FrameControl = FrameControl(
    frameType: FrameType,
    version: bv8,
    discoverRoute: bool,
    multicast: bool,
    security: bool,
    sourceRoute: bool,
    destinationIeee: bool,
    sourceIeee: bool,
    endDeviceInitiator: bool)

  datatype Header = Header(
    control: FrameControl,
    destination: bv16,
    source: bv16,
    radius: bv8,
    sequence: bv8,
    destinationIeee: Option<bv64>,
    sourceIeee: Option<bv64>)

  /** A presence flag for each optional field, and none of the optional parts that are not modelled. */
  predicate Consistent(h: Header) {
    && h.control.version <= 15 && !h.control.multicast && !h.control.sourceRoute
    && (h.control.destinationIeee <==> h.destinationIeee.Some?)
    && (h.control.sourceIeee <==> h.sourceIeee.Some?)
  }

  /** The header of a new frame. */
  function NewHeader(frameType: FrameType, security: bool, routeDiscovery: bool, destination: bv16,
                     destinationIeee: Option<bv64>, source: bv16, sourceIeee: Option<bv64>, radius: bv8,
                     sequence: bv8): (h: Header)
    ensures Consistent(h) && h.control.frameType == frameType && (h.control.security <==> security)
    ensures h.control.version == 2 && (h.control.discoverRoute <==> routeDiscovery) && !h.control.endDeviceInitiator
    ensures h.destination == destination && h.source == source && h.radius == radius && h.sequence == sequence
    ensures h.destinationIeee == destinationIeee && h.sourceIeee == sourceIeee
  {
    var control := FrameControl(frameType, 2, routeDiscovery, false, security, false, destinationIeee.Some?,
                                sourceIeee.Some?, false);
    Header(control, destination, source, radius, sequence, destinationIeee, sourceIeee)
  }

  function TypeBits(t: FrameType): bv8 {
    match t
    case Data => 0
    case NwkCommand => 1
    case Reserved => 2
    case InterPan => 3
  }

  function TypeFromBits(bits: bv8): FrameType
    requires bits <= 3
  {
    match bits
    case 0 => Data
    case 1 => NwkCommand
    case 2 => Reserved
    case _ => InterPan
  }

  function LowOctet(c: FrameControl): bv8 {
    TypeBits(c.frameType) | ((c.version & 0x0f) << 2) | (Flag(c.discoverRoute) << 6)
  }

  function HighOctet(c: FrameControl): bv8 {
    Flag(c.multicast) | (Flag(c.security) << 1) | (Flag(c.sourceRoute) << 2) | (Flag(c.destinationIeee) << 3)
    | (Flag(c.sourceIeee) << 4) | (Flag(c.endDeviceInitiator) << 5)
  }

  /** The reserved values of the route discovery field are rejected. */
  function ControlFromOctets(low: bv8, high: bv8): Option<FrameControl> {
    if (low >> 6) & 3 > 1 then None
    else
      Some(FrameControl(TypeFromBits(low & 3), (low >> 2) & 0x0f, (low >> 6) & 3 == 1, high & 1 == 1,
                        (high >> 1) & 1 == 1, (high >> 2) & 1 == 1, (high >> 3) & 1 == 1, (high >> 4) & 1 == 1,
                        (high >> 5) & 1 == 1))
  }

  lemma ControlRoundTrip(c: FrameControl)
    requires c.version <= 15
    ensures ControlFromOctets(LowOctet(c), HighOctet(c)) == Some(c)
  {
    hide LowOctet, HighOctet, TypeFromBits;
    LowRoundTrip(c);
    HighRoundTrip(c);
  }

  lemma LowRoundTrip(c: FrameControl)
    requires c.version <= 15
    ensures var low := LowOctet(c);
            && TypeFromBits(low & 3) == c.frameType && (low >> 2) & 0x0f == c.version
            && (low >> 6) & 3 == Flag(c.discoverRoute)
  {
  }

  lemma HighRoundTrip(c: FrameControl)
    ensures var high := HighOctet(c);
            && high & 1 == Flag(c.multicast) && (high >> 1) & 1 == Flag(c.security)
            && (high >> 2) & 1 == Flag(c.sourceRoute) && (high >> 3) & 1 == Flag(c.destinationIeee)
            && (high >> 4) & 1 == Flag(c.sourceIeee) && (high >> 5) & 1 == Flag(c.endDeviceInitiator)
  {
  }

  /** The values of the nine fields of the bit structure. */
  function ControlValues(c: FrameControl): (r: seq<bv8>)
    ensures |r| == 9
  {
    [TypeBits(c.frameType), c.version, Flag(c.discoverRoute), Flag(c.multicast), Flag(c.security), Flag(c.sourceRoute),
     Flag(c.destinationIeee), Flag(c.sourceIeee), Flag(c.endDeviceInitiator)]
  }

  lemma FirstOctetIsLow(c: FrameControl)
    ensures BitStruct.Regular(BitStruct.NWK_FRAME_CONTROL, 2)
    ensures BitStruct.WriteFirst(BitStruct.Zeros(2), BitStruct.NWK_FRAME_CONTROL, ControlValues(c), 3)
            == [LowOctet(c), 0]
  {
    hide BitStruct.Place;
    BitStruct.NwkFrameControlFits();
    BitStruct.NwkFirstByte();
    var layout, values, zero := BitStruct.NWK_FRAME_CONTROL, ControlValues(c), BitStruct.Zeros(2);
    var one := BitStruct.WriteFirst(zero, layout, values, 1);
    assert one == BitStruct.WriteField(BitStruct.WriteFirst(zero, layout, values, 0), layout, 0, values[0]);
    var two := BitStruct.WriteFirst(zero, layout, values, 2);
    assert two == BitStruct.WriteField(one, layout, 1, values[1]);
    assert BitStruct.WriteFirst(zero, layout, values, 3) == BitStruct.WriteField(two, layout, 2, values[2]);
  }

  /** The first n flags of the second octet. */
  function Flags(c: FrameControl, n: nat): bv8
    requires n <= 6
  {
    if n == 0 then 0
    else BitStruct.Or(Flags(c, n - 1), BitStruct.Up(ControlValues(c)[n + 2], n - 1))
  }

  lemma {:induction false} SecondOctetIsHigh(c: FrameControl, n: nat)
    requires n <= 6
    ensures BitStruct.Regular(BitStruct.NWK_FRAME_CONTROL, 2)
    ensures BitStruct.WriteFirst(BitStruct.Zeros(2), BitStruct.NWK_FRAME_CONTROL, ControlValues(c), 3 + n)
            == [LowOctet(c), Flags(c, n)]
  {
    hide BitStruct.Place, BitStruct.Up, BitStruct.And, BitStruct.Or, BitStruct.Mask, LowOctet, ControlValues;
    BitStruct.NwkFrameControlFits();
    if n == 0 {
      FirstOctetIsLow(c);
    } else {
      SecondOctetIsHigh(c, n - 1);
      BitStruct.NwkFlags(n + 2);
      OneBit(c, n + 2);
      var before := BitStruct.WriteFirst(BitStruct.Zeros(2), BitStruct.NWK_FRAME_CONTROL, ControlValues(c), 2 + n);
      assert BitStruct.WriteFirst(BitStruct.Zeros(2), BitStruct.NWK_FRAME_CONTROL, ControlValues(c), 3 + n)
             == BitStruct.WriteField(before, BitStruct.NWK_FRAME_CONTROL, n + 2, ControlValues(c)[n + 2]);
    }
  }

  lemma OneBit(c: FrameControl, i: nat)
    requires 3 <= i < 9
    ensures BitStruct.And(ControlValues(c)[i], BitStruct.Mask(1)) == ControlValues(c)[i]
  {
  }

  /** The two octets are what the layout engine writes for this bit structure. */
  lemma ControlIsBitStruct(c: FrameControl)
    ensures BitStruct.Regular(BitStruct.NWK_FRAME_CONTROL, 2)
    ensures BitStruct.WriteAll(BitStruct.Zeros(2), BitStruct.NWK_FRAME_CONTROL, ControlValues(c))
            == [LowOctet(c), HighOctet(c)]
  {
    SecondOctetIsHigh(c, 6);
    FlagsAreHigh(c);
  }

  lemma FlagsAreHigh(c: FrameControl)
    ensures Flags(c, 6) == HighOctet(c)
  {
    hide Flags, Flag;
    NextFlag(c, 1);
    NextFlag(c, 2);
    NextFlag(c, 3);
    NextFlag(c, 4);
    NextFlag(c, 5);
    NextFlag(c, 6);
    NoFlags(c);
  }

  lemma NoFlags(c: FrameControl)
    ensures Flags(c, 0) == 0
  {
  }

  lemma NextFlag(c: FrameControl, n: nat)
    requires 1 <= n <= 6
    ensures Flags(c, n) == Flags(c, n - 1) | BitStruct.Up(ControlValues(c)[n + 2], n - 1)
  {
  }

  function OptionalIeee(address: Option<bv64>): Octets { if address.Some? then Le64(address.value) else [] }

  function HeaderOctets(h: Header): (r: Octets)
    ensures |r| >= 8
  {
    [LowOctet(h.control), HighOctet(h.control)] + Le16(h.destination) + Le16(h.source) + [h.radius, h.sequence]
    + OptionalIeee(h.destinationIeee) + OptionalIeee(h.sourceIeee)
  }

  datatype HeaderRead = Read(header: Header, length: nat) | Malformed | NotModelled

  function ReadHeader(bytes: Octets): (r: HeaderRead)
    ensures r.Read? ==> r.length <= |bytes| && Consistent(r.header) && r.length == |HeaderOctets(r.header)|
  {
    if |bytes| < 2 then Malformed
    else
      var control := ControlFromOctets(bytes[0], bytes[1]);
      if control.None? || |bytes| < 8 then Malformed
      else
        var m: nat := if control.value.destinationIeee then 8 else 0;
        var n: nat := if control.value.sourceIeee then 8 else 0;
        if |bytes| < 8 + m + n then Malformed
        else if control.value.multicast || control.value.sourceRoute then NotModelled
        else
          Read(Header(control.value, From16(bytes[2..4]), From16(bytes[4..6]), bytes[6], bytes[7],
                      if control.value.destinationIeee then Some(From64(bytes[8..16])) else None,
                      if control.value.sourceIeee then Some(From64(bytes[8 + m..16 + m])) else None),
               8 + m + n)
  }

  /** A header is read back from its octets, whatever follows them. */
  lemma HeaderRoundTrip(h: Header, rest: Octets)
    requires Consistent(h)
    ensures ReadHeader(HeaderOctets(h) + rest) == Read(h, |HeaderOctets(h)|)
  {
    hide Le16, Le64, From16, From64, LowOctet, HighOctet, ControlFromOctets;
    var bytes := HeaderOctets(h) + rest;
    ControlRoundTrip(h.control);
    Le16RoundTrip(h.destination);
    Le16RoundTrip(h.source);
    assert bytes[2..4] == Le16(h.destination) && bytes[4..6] == Le16(h.source);
    if h.destinationIeee.Some? {
      Le64RoundTrip(h.destinationIeee.value);
      assert bytes[8..16] == Le64(h.destinationIeee.value);
    }
    if h.sourceIeee.Some? {
      Le64RoundTrip(h.sourceIeee.value);
      var m := if h.destinationIeee.Some? then 8 else 0;
      assert bytes[8 + m..16 + m] == Le64(h.sourceIeee.value);
    }
  }

  /** A frame; a command stands as the bytes it is written as. */
  datatype Frame =
    | DataFrame(header: Header, payload: Octets)
    | CommandFrame(header: Header, command: Octets)
    | BareFrame(header: Header)

  const MAX_NWK_PAYLOAD_SIZE: nat := 127 - 11 - 8

  function Body(f: Frame): Octets {
    match f
    case DataFrame(_, payload) => payload
    case CommandFrame(_, command) => command
    case BareFrame(_) => []
  }

  /** The variant of a frame is the type in its header, the payload fits its buffer, and the command
      is read back from the bytes it is written as. */
  predicate WellTyped(f: Frame, reader: CommandReader) {
    && Consistent(f.header)
    && match f
       case DataFrame(h, payload) => h.control.frameType == Data && |payload| <= MAX_NWK_PAYLOAD_SIZE
       case CommandFrame(h, command) => h.control.frameType == NwkCommand && reader(command) == Some(command)
       case BareFrame(h) => h.control.frameType == Reserved || h.control.frameType == InterPan
  }

  /** The frame a header and the bytes behind it make. */
  function FrameOf(h: Header, body: Octets, reader: CommandReader): Option<Frame> {
    match h.control.frameType
    case Data => if |body| > MAX_NWK_PAYLOAD_SIZE then None else Some(DataFrame(h, body))
    case NwkCommand =>
      var command :- reader(body);
      Some(CommandFrame(h, command))
    case _ => Some(BareFrame(h))
  }
}
