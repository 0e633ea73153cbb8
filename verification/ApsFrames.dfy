/** The application support header (Zigbee specification, section 2.2.5.1), without the extended
    header. */
module ApsFrames {
  import opened Wrappers
  import opened AuxHeader
  import BitStruct

  datatype FrameType = Data | Command | Acknowledgement | InterPan

  datatype DeliveryMode = Unicast | Broadcast | GroupAddressing

  datatype FrameControl = FrameControl(
    frameType: FrameType,
    mode: DeliveryMode,
    ackFormat: bool,
    security: bool,
    ackRequest: bool,
    extendedHeader: bool)

  datatype Header = Header(
    control: FrameControl,
    destinationEndpoint: Option<bv8>,
    group: Option<bv16>,
    cluster: Option<bv16>,
    profile: Option<bv16>,
    sourceEndpoint: Option<bv8>,
    counter: bv8)

  /** Which fields a frame control announces. */
  predicate HasIdentifiers(c: FrameControl) { (c.frameType.Acknowledgement? && !c.ackFormat) || c.frameType.Data? }

  predicate HasEndpoint(c: FrameControl) { HasIdentifiers(c) && (c.frameType.Data? ==> !c.mode.GroupAddressing?) }

  predicate HasGroup(c: FrameControl) { c.frameType.Data? && c.mode.GroupAddressing? }

  predicate ValidEndpoint(e: Option<bv8>) { e.Some? ==> e.value != 0xff }

  predicate Consistent(h: Header) {
    && !h.control.extendedHeader
    && (h.destinationEndpoint.Some? <==> HasEndpoint(h.control))
    && (h.group.Some? <==> HasGroup(h.control))
    && (h.cluster.Some? <==> HasIdentifiers(h.control))
    && (h.profile.Some? <==> HasIdentifiers(h.control))
    && (h.sourceEndpoint.Some? <==> HasIdentifiers(h.control))
    && ValidEndpoint(h.destinationEndpoint) && ValidEndpoint(h.sourceEndpoint)
  }

  function TypeBits(t: FrameType): bv8 {
    match t
    case Data => 0
    case Command => 1
    case Acknowledgement => 2
    case InterPan => 3
  }

  function TypeFromBits(bits: bv8): FrameType
    requires bits <= 3
  {
    match bits
    case 0 => Data
    case 1 => Command
    case 2 => Acknowledgement
    case _ => InterPan
  }

  function ModeBits(m: DeliveryMode): bv8 {
    match m
    case Unicast => 0
    case Broadcast => 2
    case GroupAddressing => 3
  }

  function ControlOctet(c: FrameControl): bv8 {
    TypeBits(c.frameType) | (ModeBits(c.mode) << 2) | (Flag(c.ackFormat) << 4) | (Flag(c.security) << 5)
    | (Flag(c.ackRequest) << 6) | (Flag(c.extendedHeader) << 7)
  }

  /** Delivery mode 1 is reserved and rejected. */
  function ControlFromOctet(b: bv8): Option<FrameControl> {
    var mode := (b >> 2) & 3;
    if mode == 1 then None
    else
      Some(FrameControl(TypeFromBits(b & 3),
                        if mode == 0 then Unicast else if mode == 2 then Broadcast else GroupAddressing,
                        (b >> 4) & 1 == 1, (b >> 5) & 1 == 1, (b >> 6) & 1 == 1, (b >> 7) & 1 == 1))
  }

  lemma ControlRoundTrip(c: FrameControl)
    ensures ControlFromOctet(ControlOctet(c)) == Some(c)
  {
  }

  /** The values of the six fields of the bit structure. */
  function ControlValues(c: FrameControl): (r: seq<bv8>)
    ensures |r| == 6
  {
    [TypeBits(c.frameType), ModeBits(c.mode), Flag(c.ackFormat), Flag(c.security), Flag(c.ackRequest),
     Flag(c.extendedHeader)]
  }

  /** The octet after the first n fields. */
  function Fields(c: FrameControl, n: nat): bv8
    requires n <= 6
  {
    if n == 0 then 0
    else BitStruct.Or(Fields(c, n - 1), BitStruct.Up(ControlValues(c)[n - 1], FieldOffset(n - 1)))
  }

  function FieldOffset(i: nat): nat
    requires i < 6
  {
    if i < 2 then 2 * i else i + 2
  }

  lemma {:induction false} FieldsAreWritten(c: FrameControl, n: nat)
    requires n <= 6
    ensures BitStruct.Regular(BitStruct.APS_FRAME_CONTROL, 1)
    ensures BitStruct.WriteFirst(BitStruct.Zeros(1), BitStruct.APS_FRAME_CONTROL, ControlValues(c), n) == [Fields(c, n)]
  {
    hide BitStruct.Place, BitStruct.Up, BitStruct.And, BitStruct.Or, BitStruct.Mask, ControlValues;
    BitStruct.ApsFrameControlFits();
    if n > 0 {
      FieldsAreWritten(c, n - 1);
      FieldFits(c, n - 1);
      var before := BitStruct.WriteFirst(BitStruct.Zeros(1), BitStruct.APS_FRAME_CONTROL, ControlValues(c), n - 1);
      assert BitStruct.WriteFirst(BitStruct.Zeros(1), BitStruct.APS_FRAME_CONTROL, ControlValues(c), n)
             == BitStruct.WriteField(before, BitStruct.APS_FRAME_CONTROL, n - 1, ControlValues(c)[n - 1]);
    }
  }

  lemma FieldFits(c: FrameControl, i: nat)
    requires i < 6
    ensures BitStruct.Place(BitStruct.APS_FRAME_CONTROL, i) == BitStruct.Cursor(0, FieldOffset(i))
    ensures BitStruct.And(ControlValues(c)[i], BitStruct.Mask(BitStruct.APS_FRAME_CONTROL[i].len))
            == ControlValues(c)[i]
  {
    hide BitStruct.Place;
    BitStruct.ApsFrameControlFits();
  }

  /** The octet is what the layout engine writes for this bit structure. */
  lemma ControlIsBitStruct(c: FrameControl)
    ensures BitStruct.Regular(BitStruct.APS_FRAME_CONTROL, 1)
    ensures BitStruct.WriteAll(BitStruct.Zeros(1), BitStruct.APS_FRAME_CONTROL, ControlValues(c)) == [ControlOctet(c)]
  {
    hide Fields, Flag, TypeBits, ModeBits;
    FieldsAreWritten(c, 6);
    NextField(c, 1);
    NextField(c, 2);
    NextField(c, 3);
    NextField(c, 4);
    NextField(c, 5);
    NextField(c, 6);
  }

  lemma NextField(c: FrameControl, n: nat)
    requires 1 <= n <= 6
    ensures Fields(c, n) == Fields(c, n - 1) | BitStruct.Up(ControlValues(c)[n - 1], FieldOffset(n - 1))
    ensures n == 1 ==> Fields(c, n - 1) == 0
  {
  }

  function Optional8(x: Option<bv8>): Octets { if x.Some? then [x.value] else [] }

  function Optional16(x: Option<bv16>): Octets { if x.Some? then Le16(x.value) else [] }

  function HeaderOctets(h: Header): (r: Octets)
    ensures |r| >= 2
  {
    [ControlOctet(h.control)] + Optional8(h.destinationEndpoint) + Optional16(h.group) + Optional16(h.cluster)
    + Optional16(h.profile) + Optional8(h.sourceEndpoint) + [h.counter]
  }

  /** A field read at an offset if announced, and the offset behind it. */
  function Read8(bytes: Octets, at: nat, present: bool): Option<(Option<bv8>, nat)> {
    if !present then Some((None, at))
    else if at + 1 > |bytes| then None
    else Some((Some(bytes[at]), at + 1))
  }

  function Read16(bytes: Octets, at: nat, present: bool): Option<(Option<bv16>, nat)> {
    if !present then Some((None, at))
    else if at + 2 > |bytes| then None
    else Some((Some(From16(bytes[at..at + 2])), at + 2))
  }

  function ReadEndpoint(bytes: Octets, at: nat, present: bool): Option<(Option<bv8>, nat)> {
    var (e, next) :- Read8(bytes, at, present);
    if ValidEndpoint(e) then Some((e, next)) else None
  }

  datatype HeaderRead = Read(header: Header, length: nat) | Malformed | NotModelled

  function ReadHeader(bytes: Octets): (r: HeaderRead)
    ensures r.Read? ==> 2 <= r.length <= |bytes| && Consistent(r.header)
  {
    if bytes == [] then Malformed
    else
      match ControlFromOctet(bytes[0])
      case None => Malformed
      case Some(c) => ReadFields(c, bytes)
  }

  function ReadFields(c: FrameControl, bytes: Octets): (r: HeaderRead)
    requires bytes != []
    ensures r.Read? ==> 2 <= r.length <= |bytes| && Consistent(r.header)
  {
    match ReadOptional(c, bytes)
    case None => Malformed
    case Some((h, at)) =>
      if at + 1 > |bytes| then Malformed
      else if c.extendedHeader then NotModelled
      else Read(h.(counter := bytes[at]), at + 1)
  }

  /** The fields between the control octet and the counter. */
  function ReadOptional(c: FrameControl, bytes: Octets): (r: Option<(Header, nat)>)
    requires bytes != []
    ensures r.Some? ==> r.value.0.control == c && 1 <= r.value.1 <= |bytes|
                        && (!c.extendedHeader ==> Consistent(r.value.0))
  {
    var (endpoint, a) :- ReadEndpoint(bytes, 1, HasEndpoint(c));
    var (group, b) :- Read16(bytes, a, HasGroup(c));
    var (cluster, d) :- Read16(bytes, b, HasIdentifiers(c));
    var (profile, e) :- Read16(bytes, d, HasIdentifiers(c));
    var (source, f) :- ReadEndpoint(bytes, e, HasIdentifiers(c));
    Some((Header(c, endpoint, group, cluster, profile, source, 0), f))
  }

  lemma Read8Back(before: Octets, x: Option<bv8>, after: Octets)
    requires ValidEndpoint(x)
    ensures Read8(before + Optional8(x) + after, |before|, x.Some?) == Some((x, |before + Optional8(x)|))
    ensures ReadEndpoint(before + Optional8(x) + after, |before|, x.Some?) == Some((x, |before + Optional8(x)|))
  {
  }

  lemma Read16Back(before: Octets, x: Option<bv16>, after: Octets)
    ensures Read16(before + Optional16(x) + after, |before|, x.Some?) == Some((x, |before + Optional16(x)|))
  {
    hide Le16, From16;
    if x.Some? {
      Le16RoundTrip(x.value);
      assert (before + Le16(x.value) + after)[|before|..|before| + 2] == Le16(x.value);
    }
  }

  /** A header is read back from its octets, whatever follows them. */
  lemma HeaderRoundTrip(h: Header, rest: Octets)
    requires Consistent(h)
    ensures ReadHeader(HeaderOctets(h) + rest) == Read(h, |HeaderOctets(h)|)
  {
    hide ControlOctet, ControlFromOctet, Optional8, Optional16, Read16, ReadEndpoint;
    ControlRoundTrip(h.control);
    var bytes := HeaderOctets(h) + rest;
    var tail := [h.counter] + rest;
    var p0 := [ControlOctet(h.control)];
    var p1 := p0 + Optional8(h.destinationEndpoint);
    var p2 := p1 + Optional16(h.group);
    var p3 := p2 + Optional16(h.cluster);
    var p4 := p3 + Optional16(h.profile);
    var p5 := p4 + Optional8(h.sourceEndpoint);
    assert bytes == p5 + tail == p4 + Optional8(h.sourceEndpoint) + tail;
    var t4 := Optional8(h.sourceEndpoint) + tail;
    assert bytes == p3 + Optional16(h.profile) + t4;
    var t3 := Optional16(h.profile) + t4;
    assert bytes == p2 + Optional16(h.cluster) + t3;
    var t2 := Optional16(h.cluster) + t3;
    assert bytes == p1 + Optional16(h.group) + t2;
    var t1 := Optional16(h.group) + t2;
    assert bytes == p0 + Optional8(h.destinationEndpoint) + t1;
    Read8Back(p0, h.destinationEndpoint, t1);
    Read16Back(p1, h.group, t2);
    Read16Back(p2, h.cluster, t3);
    Read16Back(p3, h.profile, t4);
    Read8Back(p4, h.sourceEndpoint, tail);
    assert bytes[|p5|] == h.counter;
  }

  const MAX_APS_PAYLOAD_SIZE: nat := 127 - 11 - 8 - 12

  datatype CommandKind = TransportNetworkKey | TransportOtherKey | OtherCommand

  /** A frame; a command stands as its kind and the bytes it is written as. */
  datatype Frame =
    | DataFrame(header: Header, payload: Octets)
    | CommandFrame(header: Header, kind: CommandKind, command: Octets)
    | AcknowledgementFrame(header: Header)

  function Body(f: Frame): Octets {
    match f
    case DataFrame(_, payload) => payload
    case CommandFrame(_, _, command) => command
    case AcknowledgementFrame(_) => []
  }

  predicate WellTyped(f: Frame, reader: CommandReader) {
    && Consistent(f.header)
    && match f
       case DataFrame(h, payload) => h.control.frameType == Data && |payload| <= MAX_APS_PAYLOAD_SIZE
       case CommandFrame(h, _, command) => h.control.frameType == Command && reader(command) == Some(command)
       case AcknowledgementFrame(h) => h.control.frameType == Acknowledgement
  }
}
