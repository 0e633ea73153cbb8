/** The auxiliary security header (Zigbee specification, sections 4.5.1 and 4.5.2) and the nonce
    made from it. */
module AuxHeader {
  import opened Wrappers
  import BitStruct

  type Octets = seq<bv8>

  /** A command codec: what the command read from some bytes is written as, or none if they are
      refused. */
  type CommandReader = Octets -> Option<Octets>

  // ----- little-endian words ------------------------------------------------------------------

  function Octet16(x: bv16, i: nat): bv8
    requires i < 2
  {
    if i == 0 then (x & 0xff) as bv8 else ((x >> 8) & 0xff) as bv8
  }

  function Octet32(x: bv32, i: nat): bv8
    requires i < 4
  {
    match i
    case 0 => (x & 0xff) as bv8
    case 1 => ((x >> 8) & 0xff) as bv8
    case 2 => ((x >> 16) & 0xff) as bv8
    case 3 => ((x >> 24) & 0xff) as bv8
  }

  function Octet64(x: bv64, i: nat): bv8
    requires i < 8
  {
    match i
    case 0 => (x & 0xff) as bv8
    case 1 => ((x >> 8) & 0xff) as bv8
    case 2 => ((x >> 16) & 0xff) as bv8
    case 3 => ((x >> 24) & 0xff) as bv8
    case 4 => ((x >> 32) & 0xff) as bv8
    case 5 => ((x >> 40) & 0xff) as bv8
    case 6 => ((x >> 48) & 0xff) as bv8
    case 7 => ((x >> 56) & 0xff) as bv8
  }

  function Le16(x: bv16): (r: Octets)
    ensures |r| == 2
  {
    [Octet16(x, 0), Octet16(x, 1)]
  }

  function Le32(x: bv32): (r: Octets)
    ensures |r| == 4
  {
    seq(4, i requires 0 <= i < 4 => Octet32(x, i))
  }

  function Le64(x: bv64): (r: Octets)
    ensures |r| == 8
  {
    seq(8, i requires 0 <= i < 8 => Octet64(x, i))
  }

  function From16(b: Octets): bv16
    requires |b| == 2
  {
    (b[0] as bv16) | ((b[1] as bv16) << 8)
  }

  function From32(b: Octets): bv32
    requires |b| == 4
  {
    (b[0] as bv32) | ((b[1] as bv32) << 8) | ((b[2] as bv32) << 16) | ((b[3] as bv32) << 24)
  }

  function From64(b: Octets): bv64
    requires |b| == 8
  {
    (b[0] as bv64) | ((b[1] as bv64) << 8) | ((b[2] as bv64) << 16) | ((b[3] as bv64) << 24)
    | ((b[4] as bv64) << 32) | ((b[5] as bv64) << 40) | ((b[6] as bv64) << 48) | ((b[7] as bv64) << 56)
  }

  lemma Le16RoundTrip(x: bv16)
    ensures From16(Le16(x)) == x
  {
  }

  lemma Le32RoundTrip(x: bv32)
    ensures From32(Le32(x)) == x
  {
  }

  lemma Le64RoundTrip(x: bv64)
    ensures From64(Le64(x)) == x
  {
  }

  /** A boolean field of a bit structure. */
  function Flag(on: bool): bv8 { if on then 1 else 0 }

  // ----- the header ---------------------------------------------------------------------------

  datatype SecurityLevel = NoSecurity | Mic32 | Mic64 | Mic128 | Enc | EncMic32 | EncMic64 | EncMic128

  function LevelBits(level: SecurityLevel): bv8 {
    match level
    case NoSecurity => 0
    case Mic32 => 1
    case Mic64 => 2
    case Mic128 => 3
    case Enc => 4
    case EncMic32 => 5
    case EncMic64 => 6
    case EncMic128 => 7
  }

  function LevelFromBits(bits: bv8): SecurityLevel
    requires bits <= 7
  {
    match bits
    case 0 => NoSecurity
    case 1 => Mic32
    case 2 => Mic64
    case 3 => Mic128
    case 4 => Enc
    case 5 => EncMic32
    case 6 => EncMic64
    case _ => EncMic128
  }

  function MicLength(level: SecurityLevel): nat {
    match level
    case EncMic32 | Mic32 => 4
    case EncMic64 | Mic64 => 8
    case EncMic128 | Mic128 => 16
    case NoSecurity | Enc => 0
  }

  datatype KeyIdentifier = DataKey | NetworkKey | KeyTransport | KeyLoad

  function KeyBits(id: KeyIdentifier): bv8 {
    match id
    case DataKey => 0
    case NetworkKey => 1
    case KeyTransport => 2
    case KeyLoad => 3
  }

  function KeyFromBits(bits: bv8): KeyIdentifier
    requires bits <= 3
  {
    match bits
    case 0 => DataKey
    case 1 => NetworkKey
    case 2 => KeyTransport
    case _ => KeyLoad
  }

  datatype Control = Control(level: SecurityLevel, keyId: KeyIdentifier, extendedNonce: bool)

  /** The control octet as the bit structure of three, two and one bits lays it out. */
  function ControlOctet(c: Control): bv8 {
    LevelBits(c.level) | (KeyBits(c.keyId) << 3) | (if c.extendedNonce then 0x20 else 0)
  }

  function ControlFromOctet(b: bv8): Control {
    Control(LevelFromBits(b & 7), KeyFromBits((b >> 3) & 3), (b >> 5) & 1 == 1)
  }

  lemma ControlRoundTrip(c: Control)
    ensures ControlFromOctet(ControlOctet(c)) == c
    ensures ControlOctet(c) & 0xf8 == ControlOctet(c.(level := NoSecurity))
    ensures ControlOctet(c.(level := NoSecurity)) | ControlOctet(c) == ControlOctet(c)
  {
  }

  lemma ControlsDiffer(c: Control, d: Control)
    requires ControlOctet(c) == ControlOctet(d)
    ensures c == d
  {
    hide ControlOctet, ControlFromOctet;
    ControlRoundTrip(c);
    ControlRoundTrip(d);
  }

  /** The octet is what the layout engine writes for this bit structure. */
  lemma ControlIsBitStruct(c: Control)
    ensures BitStruct.Regular(BitStruct.SECURITY_CONTROL, 1)
    ensures BitStruct.WriteAll(BitStruct.Zeros(1), BitStruct.SECURITY_CONTROL,
                               [LevelBits(c.level), KeyBits(c.keyId), if c.extendedNonce then 1 else 0])
            == [ControlOctet(c)]
  {
    hide BitStruct.Place;
    BitStruct.SecurityControlFits();
    var values := [LevelBits(c.level), KeyBits(c.keyId), if c.extendedNonce then 1 else 0];
    var layout := BitStruct.SECURITY_CONTROL;
    var zero := BitStruct.Zeros(1);
    var one := BitStruct.WriteFirst(zero, layout, values, 1);
    assert one == BitStruct.WriteField(BitStruct.WriteFirst(zero, layout, values, 0), layout, 0, values[0]);
    var two := BitStruct.WriteFirst(zero, layout, values, 2);
    assert two == BitStruct.WriteField(one, layout, 1, values[1]);
    assert BitStruct.WriteFirst(zero, layout, values, 3) == BitStruct.WriteField(two, layout, 2, values[2]);
  }

  datatype Aux = Aux(control: Control, counter: bv32, source: Option<bv64>, keySequence: Option<bv8>)

  /** The optional fields are there exactly when the control octet announces them. */
  predicate Consistent(aux: Aux) {
    && (aux.source.Some? <==> aux.control.extendedNonce)
    && (aux.keySequence.Some? <==> aux.control.keyId == NetworkKey)
  }

  function AuxTail(aux: Aux): Octets {
    Le32(aux.counter)
    + (if aux.source.Some? then Le64(aux.source.value) else [])
    + (if aux.keySequence.Some? then [aux.keySequence.value] else [])
  }

  function AuxOctets(aux: Aux): (r: Octets)
    ensures |r| >= 5
  {
    [ControlOctet(aux.control)] + AuxTail(aux)
  }

  function ReadAux(bytes: Octets): (r: Option<(Aux, nat)>)
    ensures r.Some? ==> r.value.1 <= |bytes| && Consistent(r.value.0) && r.value.1 == |AuxOctets(r.value.0)|
  {
    if |bytes| < 5 then None
    else
      var control, counter := ControlFromOctet(bytes[0]), From32(bytes[1..5]);
      var n := if control.extendedNonce then 8 else 0;
      if |bytes| < 5 + n then None
      else
        var source := if control.extendedNonce then Some(From64(bytes[5..13])) else None;
        if control.keyId != NetworkKey then Some((Aux(control, counter, source, None), 5 + n))
        else if |bytes| < 6 + n then None
        else Some((Aux(control, counter, source, Some(bytes[5 + n])), 6 + n))
  }

  /** A header is read back from its octets, whatever follows them. */
  lemma AuxRoundTrip(aux: Aux, rest: Octets)
    requires Consistent(aux)
    ensures ReadAux(AuxOctets(aux) + rest) == Some((aux, |AuxOctets(aux)|))
  {
    hide Le32, Le64, From32, From64, ControlOctet, ControlFromOctet;
    var bytes := AuxOctets(aux) + rest;
    ControlRoundTrip(aux.control);
    Le32RoundTrip(aux.counter);
    assert bytes[1..5] == Le32(aux.counter);
    if aux.source.Some? {
      Le64RoundTrip(aux.source.value);
      assert bytes[5..13] == Le64(aux.source.value);
    }
  }

  // ----- the nonce ----------------------------------------------------------------------------

  /** Section 4.5.2.2: source address, frame counter, security control; none without an address. */
  function Nonce(aux: Aux): (r: Option<Octets>)
    ensures r.Some? <==> aux.source.Some?
    ensures r.Some? ==> |r.value| == 13
  {
    if aux.source.None? then None
    else Some(Le64(aux.source.value) + Le32(aux.counter) + [ControlOctet(aux.control)])
  }

  method CreateNonce(aux: Aux) returns (r: Option<Octets>)
    ensures r == Nonce(aux)
  {
    if aux.source.None? {
      return None;
    }
    var source, nonce := aux.source.value, seq(13, _ => 0 as bv8);
    for i := 0 to 8
      invariant |nonce| == 13 && forall j :: 0 <= j < i ==> nonce[j] == Octet64(source, j)
    {
      nonce := nonce[i := Octet64(source, i)];
    }
    for i := 0 to 4
      invariant |nonce| == 13 && forall j :: 0 <= j < 8 ==> nonce[j] == Octet64(source, j)
      invariant forall j :: 0 <= j < i ==> nonce[j + 8] == Octet32(aux.counter, j)
    {
      nonce := nonce[i + 8 := Octet32(aux.counter, i)];
    }
    nonce := nonce[12 := ControlOctet(aux.control)];
    r := Some(nonce);
    NonceIs(aux, nonce);
  }

  lemma NonceIs(aux: Aux, nonce: Octets)
    requires aux.source.Some? && |nonce| == 13 && nonce[12] == ControlOctet(aux.control)
    requires forall j :: 0 <= j < 8 ==> nonce[j] == Octet64(aux.source.value, j)
    requires forall j :: 0 <= j < 4 ==> nonce[j + 8] == Octet32(aux.counter, j)
    ensures Nonce(aux) == Some(nonce)
  {
    hide Octet64, Octet32, ControlOctet;
    assert nonce[..8] == Le64(aux.source.value) && nonce[8..12] == Le32(aux.counter);
    assert nonce[12..] == [ControlOctet(aux.control)];
    assert nonce == nonce[..8] + nonce[8..12] + nonce[12..];
  }

  /** Equal nonces come from equal addresses, counters and control fields. */
  lemma NonceIsInjective(a: Aux, b: Aux)
    requires Nonce(a).Some? && Nonce(a) == Nonce(b)
    ensures a.source == b.source && a.counter == b.counter && a.control == b.control
  {
    hide Le32, Le64, ControlOctet, From32, From64;
    var nonce := Nonce(a).value;
    assert nonce[..8] == Le64(a.source.value) == Le64(b.source.value);
    assert nonce[8..12] == Le32(a.counter) == Le32(b.counter);
    assert nonce[12] == ControlOctet(a.control) == ControlOctet(b.control);
    Le64RoundTrip(a.source.value);
    Le64RoundTrip(b.source.value);
    Le32RoundTrip(a.counter);
    Le32RoundTrip(b.counter);
    ControlsDiffer(a.control, b.control);
  }
}
