/** Secured frames octet by octet: headers, nonce, tag lengths and where everything stands. */
module SecuredWire {
  import opened Wrappers
  import opened AuxHeader
  import opened SecuredFrames
  import ApsFrames
  import NwkFrames

  // ----- words, low octet first -----------------------------------------------------------------

  ghost predicate Stands16(x: bv16, bytes: Octets, at: nat) {
    at + 2 <= |bytes| && bytes[at] == (x & 0xff) as bv8 && bytes[at + 1] == ((x >> 8) & 0xff) as bv8
  }

  ghost predicate Stands32(x: bv32, bytes: Octets, at: nat) {
    && at + 4 <= |bytes|
    && bytes[at] == (x & 0xff) as bv8 && bytes[at + 1] == ((x >> 8) & 0xff) as bv8
    && bytes[at + 2] == ((x >> 16) & 0xff) as bv8 && bytes[at + 3] == ((x >> 24) & 0xff) as bv8
  }

  ghost predicate Stands64(x: bv64, bytes: Octets, at: nat) {
    && at + 8 <= |bytes|
    && bytes[at] == (x & 0xff) as bv8 && bytes[at + 1] == ((x >> 8) & 0xff) as bv8
    && bytes[at + 2] == ((x >> 16) & 0xff) as bv8 && bytes[at + 3] == ((x >> 24) & 0xff) as bv8
    && bytes[at + 4] == ((x >> 32) & 0xff) as bv8 && bytes[at + 5] == ((x >> 40) & 0xff) as bv8
    && bytes[at + 6] == ((x >> 48) & 0xff) as bv8 && bytes[at + 7] == ((x >> 56) & 0xff) as bv8
  }

  lemma Le16Stands(x: bv16, bytes: Octets, at: nat)
    requires at + 2 <= |bytes| && bytes[at..at + 2] == Le16(x)
    ensures Stands16(x, bytes, at)
  {
    assert forall i :: 0 <= i < 2 ==> bytes[at + i] == Octet16(x, i);
  }

  lemma Le32Stands(x: bv32, bytes: Octets, at: nat)
    requires at + 4 <= |bytes| && bytes[at..at + 4] == Le32(x)
    ensures Stands32(x, bytes, at)
  {
    assert forall i :: 0 <= i < 4 ==> bytes[at + i] == Octet32(x, i);
  }

  lemma Le64Stands(x: bv64, bytes: Octets, at: nat)
    requires at + 8 <= |bytes| && bytes[at..at + 8] == Le64(x)
    ensures Stands64(x, bytes, at)
  {
    assert forall i :: 0 <= i < 8 ==> bytes[at + i] == Octet64(x, i);
  }

  // ----- the auxiliary header ---------------------------------------------------------------------

  /** Security levels count from none by tag length, without and with encryption. */
  lemma LevelWireForm(level: SecurityLevel)
    ensures MicLength(level) == [0, 4, 8, 16, 0, 4, 8, 16][LevelBits(level) as nat]
    ensures level == [NoSecurity, Mic32, Mic64, Mic128, Enc, EncMic32, EncMic64, EncMic128][LevelBits(level) as nat]
    ensures LevelBits(level) <= 7
  {
  }

  lemma AuxWireForm(aux: Aux)
    ensures var bytes := AuxOctets(aux);
            && |bytes| == 5 + (if aux.source.Some? then 8 else 0) + (if aux.keySequence.Some? then 1 else 0)
            && bytes[0] & 0x07 == LevelBits(aux.control.level)
            && bytes[0] & 0x18 == (match aux.control.keyId case DataKey => 0x00 case NetworkKey => 0x08
                                                           case KeyTransport => 0x10 case KeyLoad => 0x18)
            && bytes[0] & 0xe0 == (if aux.control.extendedNonce then 0x20 else 0)
            && Stands32(aux.counter, bytes, 1)
            && (aux.source.Some? ==> Stands64(aux.source.value, bytes, 5))
            && (aux.keySequence.Some? ==> bytes[|bytes| - 1] == aux.keySequence.value)
  {
    var bytes := AuxOctets(aux);
    ControlWireForm(aux.control);
    hide Le32, Le64, ControlOctet, Stands32, Stands64;
    assert bytes[1..1 + 4] == Le32(aux.counter);
    Le32Stands(aux.counter, bytes, 1);
    if aux.source.Some? {
      assert bytes[5..5 + 8] == Le64(aux.source.value);
      Le64Stands(aux.source.value, bytes, 5);
    }
  }

  lemma ControlWireForm(c: Control)
    ensures var b := ControlOctet(c);
            && b & 0x07 == LevelBits(c.level)
            && b & 0x18 == (match c.keyId case DataKey => 0x00 case NetworkKey => 0x08
                                          case KeyTransport => 0x10 case KeyLoad => 0x18)
            && b & 0xe0 == (if c.extendedNonce then 0x20 else 0)
  {
  }

  /** The nonce is the address, the counter and the control octet of the auxiliary header. */
  lemma NonceWireForm(aux: Aux)
    requires aux.source.Some?
    ensures Nonce(aux).Some? && |Nonce(aux).value| == 13
    ensures Stands64(aux.source.value, Nonce(aux).value, 0) && Stands32(aux.counter, Nonce(aux).value, 8)
    ensures Nonce(aux).value[12] == AuxOctets(aux)[0]
  {
    hide Le32, Le64, ControlOctet, Stands32, Stands64;
    var nonce := Nonce(aux).value;
    assert nonce[0..0 + 8] == Le64(aux.source.value) && nonce[8..8 + 4] == Le32(aux.counter);
    Le64Stands(aux.source.value, nonce, 0);
    Le32Stands(aux.counter, nonce, 8);
  }

  // ----- the secured frame ------------------------------------------------------------------------

  /** Octets written over a buffer: the first n join the bits that were there. */
  ghost predicate WrittenOver(r: Octets, buf: Octets, at: nat, bytes: Octets, n: nat) {
    && |r| == |bytes| && at + |bytes| <= |buf|
    && forall i :: 0 <= i < |bytes| ==> r[i] == if i < n then buf[at + i] | bytes[i] else bytes[i]
  }

  /** A secured frame over a buffer: the header, the auxiliary header with the low three bits of its
      first octet cleared, and the payload, sealed with the tag of the level or only encrypted where
      the level has none. Sealing authenticates both headers with those bits in place. */
  ghost predicate IsSealed(r: Octets, buf: Octets, c: Cipher, level: SecurityLevel, key: Key, aux: Aux, hdr: Octets,
                           n: nat, payload: Octets)
  {
    exists h, a: Octets ::
      && WrittenOver(h, buf, 0, hdr, n) && WrittenOver(a, buf, |hdr|, AuxOctets(aux), 1) && a != []
      && r == h + [a[0] & 0xf8] + a[1..] + Protected(c, level, key, aux, h + a, payload)
  }

  function Protected(c: Cipher, level: SecurityLevel, key: Key, aux: Aux, headers: Octets, payload: Octets): Octets {
    var nonce := if Nonce(aux).Some? then Nonce(aux).value else [];
    match level
    case NoSecurity => c.stream(key, nonce, payload)
    case Enc => c.stream(key, nonce, payload)
    case Mic32 => c.seal(key, nonce, headers, payload, 4)
    case EncMic32 => c.seal(key, nonce, headers, payload, 4)
    case Mic64 => c.seal(key, nonce, headers, payload, 8)
    case EncMic64 => c.seal(key, nonce, headers, payload, 8)
    case Mic128 => c.seal(key, nonce, headers, payload, 16)
    case EncMic128 => c.seal(key, nonce, headers, payload, 16)
  }

  lemma EncryptProtects(c: Cipher, level: SecurityLevel, key: Key, aux: Aux, headers: Octets, payload: Octets)
    requires aux.source.Some?
    ensures Encrypt(c, level, key, Nonce(aux).value, headers, payload)
            == Protected(c, level, key, aux, headers, payload)
  {
    hide Nonce;
  }

  lemma SealedOverIsSealed(buf: Octets, c: Cipher, level: SecurityLevel, key: Key, aux: Aux, hdr: Octets, n: nat,
                           payload: Octets)
    requires aux.source.Some? && FrameLength(level, hdr, aux, payload) <= |buf|
    ensures IsSealed(SealedOver(buf, c, level, key, aux, hdr, n, payload), buf, c, level, key, aux, hdr, n, payload)
  {
    hide AuxOctets, Nonce, Encrypt, Protected;
    var h, a := Joined(buf, hdr, n), Joined(buf[|hdr|..], AuxOctets(aux), 1);
    assert WrittenOver(h, buf, 0, hdr, n) && WrittenOver(a, buf, |hdr|, AuxOctets(aux), 1);
    EncryptProtects(c, level, key, aux, h + a, payload);
    assert SealedOver(buf, c, level, key, aux, hdr, n, payload)
           == h + [a[0] & 0xf8] + a[1..] + Protected(c, level, key, aux, h + a, payload);
  }

  // ----- the frame headers ------------------------------------------------------------------------

  /** A flag of an octet. */
  predicate Bit(b: bv8, mask: bv8) { b & mask == mask }

  lemma NwkControlWireForm(c: NwkFrames.FrameControl)
    ensures var low, high := NwkFrames.LowOctet(c), NwkFrames.HighOctet(c);
            && low & 0x03 == (match c.frameType case Data => 0 case NwkCommand => 1
                                                case Reserved => 2 case InterPan => 3)
            && (c.version <= 15 ==> low & 0x3c == c.version << 2)
            && low & 0xc0 == (if c.discoverRoute then 0x40 else 0)
            && (Bit(high, 0x01) <==> c.multicast) && (Bit(high, 0x02) <==> c.security)
            && (Bit(high, 0x04) <==> c.sourceRoute) && (Bit(high, 0x08) <==> c.destinationIeee)
            && (Bit(high, 0x10) <==> c.sourceIeee) && (Bit(high, 0x20) <==> c.endDeviceInitiator)
            && high & 0xc0 == 0
  {
  }

  /** The network header: control, destination, source, radius, sequence, and the addresses there are. */
  lemma NwkHeaderWireForm(h: NwkFrames.Header)
    ensures var bytes := NwkFrames.HeaderOctets(h);
            var m: nat := if h.destinationIeee.Some? then 8 else 0;
            && |bytes| == 8 + m + (if h.sourceIeee.Some? then 8 else 0)
            && bytes[0] == NwkFrames.LowOctet(h.control) && bytes[1] == NwkFrames.HighOctet(h.control)
            && Stands16(h.destination, bytes, 2) && Stands16(h.source, bytes, 4)
            && bytes[6] == h.radius && bytes[7] == h.sequence
            && (h.destinationIeee.Some? ==> Stands64(h.destinationIeee.value, bytes, 8))
            && (h.sourceIeee.Some? ==> Stands64(h.sourceIeee.value, bytes, 8 + m))
  {
    hide Le16, Le64, NwkFrames.LowOctet, NwkFrames.HighOctet, Stands16, Stands64;
    var bytes := NwkFrames.HeaderOctets(h);
    var m: nat := if h.destinationIeee.Some? then 8 else 0;
    assert bytes[2..2 + 2] == Le16(h.destination) && bytes[4..4 + 2] == Le16(h.source);
    Le16Stands(h.destination, bytes, 2);
    Le16Stands(h.source, bytes, 4);
    if h.destinationIeee.Some? {
      assert bytes[8..8 + 8] == Le64(h.destinationIeee.value);
      Le64Stands(h.destinationIeee.value, bytes, 8);
    }
    if h.sourceIeee.Some? {
      assert bytes[8 + m..8 + m + 8] == Le64(h.sourceIeee.value);
      Le64Stands(h.sourceIeee.value, bytes, 8 + m);
    }
  }

  lemma ApsControlWireForm(c: ApsFrames.FrameControl)
    ensures var b := ApsFrames.ControlOctet(c);
            && b & 0x03 == (match c.frameType case Data => 0 case Command => 1
                                              case Acknowledgement => 2 case InterPan => 3)
            && b & 0x0c == (match c.mode case Unicast => 0x00 case Broadcast => 0x08 case GroupAddressing => 0x0c)
            && (Bit(b, 0x10) <==> c.ackFormat) && (Bit(b, 0x20) <==> c.security)
            && (Bit(b, 0x40) <==> c.ackRequest) && (Bit(b, 0x80) <==> c.extendedHeader)
  {
  }

  /** The application-support header: a destination endpoint or a group, cluster, profile and source
      endpoint in data frames; the same without the group in acknowledgements of data; control and
      counter alone in everything else. */
  lemma ApsHeaderWireForm(h: ApsFrames.Header)
    requires ApsFrames.Consistent(h)
    ensures !h.control.extendedHeader && h.destinationEndpoint != Some(0xff) && h.sourceEndpoint != Some(0xff)
    ensures var bytes := ApsFrames.HeaderOctets(h);
            && bytes[0] == ApsFrames.ControlOctet(h.control) && bytes[|bytes| - 1] == h.counter
            && if h.control.frameType.Data? && h.control.mode.GroupAddressing? then
                 && |bytes| == 9 && h.destinationEndpoint.None? && h.group.Some? && Stands16(h.group.value, bytes, 1)
                 && Identifies(h, bytes, 3)
               else if h.control.frameType.Data? || (h.control.frameType.Acknowledgement? && !h.control.ackFormat) then
                 && |bytes| == 8 && h.destinationEndpoint == Some(bytes[1]) && h.group.None? && Identifies(h, bytes, 2)
               else
                 && |bytes| == 2 && h.destinationEndpoint.None? && h.group.None? && h.cluster.None?
                 && h.profile.None? && h.sourceEndpoint.None?
  {
    hide Le16, ApsFrames.ControlOctet, Stands16, Identifies;
    var bytes := ApsFrames.HeaderOctets(h);
    if h.group.Some? {
      assert bytes[1..1 + 2] == Le16(h.group.value);
      Le16Stands(h.group.value, bytes, 1);
    }
    if h.cluster.Some? {
      var before := [ApsFrames.ControlOctet(h.control)] + ApsFrames.Optional8(h.destinationEndpoint)
                    + ApsFrames.Optional16(h.group);
      IdentifiersStand(h, before);
    }
  }

  lemma IdentifiersStand(h: ApsFrames.Header, before: Octets)
    requires h.cluster.Some? && h.profile.Some? && h.sourceEndpoint.Some?
    requires before == [ApsFrames.ControlOctet(h.control)] + ApsFrames.Optional8(h.destinationEndpoint)
                       + ApsFrames.Optional16(h.group)
    ensures Identifies(h, ApsFrames.HeaderOctets(h), |before|)
  {
    hide Le16, ApsFrames.ControlOctet, Stands16;
    var bytes, at := ApsFrames.HeaderOctets(h), |before|;
    assert bytes == before + Le16(h.cluster.value) + Le16(h.profile.value) + [h.sourceEndpoint.value, h.counter];
    assert bytes[at..at + 2] == Le16(h.cluster.value) && bytes[at + 2..at + 2 + 2] == Le16(h.profile.value);
    Le16Stands(h.cluster.value, bytes, at);
    Le16Stands(h.profile.value, bytes, at + 2);
  }

  /** Cluster, profile and source endpoint stand at an offset. */
  ghost predicate Identifies(h: ApsFrames.Header, bytes: Octets, at: nat) {
    && h.cluster.Some? && Stands16(h.cluster.value, bytes, at)
    && h.profile.Some? && Stands16(h.profile.value, bytes, at + 2)
    && at + 4 < |bytes| && h.sourceEndpoint == Some(bytes[at + 4])
  }

  // ----- opening ----------------------------------------------------------------------------------

  /** Opening joins the level into the auxiliary header, and opens what is behind it with the tag of
      the level, authenticating everything before; a frame shorter than its tag is a panic. */
  lemma OpenedWireForm(c: Cipher, level: SecurityLevel, key: Key, bytes: Octets, hdrLen: nat, aux: Aux)
    requires aux.source.Some? && hdrLen + |AuxOctets(aux)| <= |bytes|
    ensures var restored := Aux(Control(level, aux.control.keyId, aux.control.extendedNonce), aux.counter, aux.source,
                                aux.keySequence);
            var start := hdrLen + |AuxOctets(aux)|;
            var tag: nat := match level case NoSecurity | Enc => 0 case Mic32 | EncMic32 => 4
                                        case Mic64 | EncMic64 => 8 case Mic128 | EncMic128 => 16;
            var r := Opened(c, level, key, bytes, hdrLen, aux);
            && Nonce(restored).Some?
            && if |bytes| < start + tag then r == Panic
               else if tag == 0 then r == Ok(c.stream(key, Nonce(restored).value, bytes[start..]))
               else
                 exists a: Octets ::
                   && WrittenOver(a, bytes, hdrLen, AuxOctets(restored), 1)
                   && r == match c.open(key, Nonce(restored).value, bytes[..hdrLen] + a, bytes[start..], tag)
                           case None => Err(CcmError)
                           case Some(text) => Ok(text)
  {
    hide AuxOctets, Nonce;
    var restored := WithLevel(aux, level);
    var a := Joined(bytes[hdrLen..], AuxOctets(restored), 1);
    assert WrittenOver(a, bytes, hdrLen, AuxOctets(restored), 1);
  }

  // ----- reading the headers ------------------------------------------------------------------------

  lemma Le16Back(b: Octets)
    requires |b| == 2
    ensures Le16(From16(b)) == b
  {
    assert forall i :: 0 <= i < 2 ==> Octet16(From16(b), i) == b[i];
  }

  lemma Le32Back(b: Octets)
    requires |b| == 4
    ensures Le32(From32(b)) == b
  {
    assert forall i :: 0 <= i < 4 ==> Octet32(From32(b), i) == b[i];
  }

  lemma Le64Back(b: Octets)
    requires |b| == 8
    ensures Le64(From64(b)) == b
  {
    assert forall i :: 0 <= i < 8 ==> Octet64(From64(b), i) == b[i];
  }

  /** The auxiliary header is read exactly if all its octets are there, as its first octet announces
      them, and what is read is written as those octets, without the two reserved bits. */
  lemma AuxIsReadIff(bytes: Octets)
    ensures var n := 5 + (if bytes != [] && Bit(bytes[0], 0x20) then 8 else 0)
                       + (if bytes != [] && bytes[0] & 0x18 == 0x08 then 1 else 0);
            && (ReadAux(bytes).Some? <==> |bytes| >= n)
            && (|bytes| >= n ==>
                  && ReadAux(bytes).value.1 == n
                  && AuxOctets(ReadAux(bytes).value.0) == [bytes[0] & 0x3f] + bytes[1..n])
  {
    hide ControlFromOctet, ControlOctet, Le32, Le64, From32, From64, Bit;
    if |bytes| >= 5 {
      ControlBack(bytes[0]);
      Le32Back(bytes[1..5]);
      var m := if Bit(bytes[0], 0x20) then 13 else 5;
      if m == 13 && |bytes| >= 13 {
        Le64Back(bytes[5..13]);
      }
      if m <= |bytes| {
        assert bytes[1..m] == bytes[1..5] + bytes[5..m];
      }
      if m < |bytes| {
        assert bytes[1..m + 1] == bytes[1..m] + [bytes[m]];
      }
    }
  }

  lemma ControlBack(b: bv8)
    ensures var c := ControlFromOctet(b);
            && ControlOctet(c) == b & 0x3f
            && (c.extendedNonce <==> Bit(b, 0x20)) && (c.keyId == NetworkKey <==> b & 0x18 == 0x08)
  {
  }

  /** A network header is read exactly if its route discovery field is not reserved, all its octets are
      there, and it has neither of the parts that are not modelled; what is read is written as those
      octets, without the two reserved bits. */
  lemma NwkHeaderIsReadIff(bytes: Octets)
    ensures var r := NwkFrames.ReadHeader(bytes);
            if |bytes| < 2 then r == NwkFrames.Malformed
            else
              var n := 8 + (if Bit(bytes[1], 0x08) then 8 else 0) + (if Bit(bytes[1], 0x10) then 8 else 0);
              if |bytes| < n || bytes[0] & 0x80 != 0 then r == NwkFrames.Malformed
              else if bytes[1] & 0x05 != 0 then r == NwkFrames.NotModelled
              else
                && r.Read? && r.length == n
                && NwkFrames.HeaderOctets(r.header) == [bytes[0], bytes[1] & 0x3f] + bytes[2..n]
  {
    hide NwkFrames.ControlFromOctets, NwkFrames.HeaderOctets, From16, From64, Bit;
    if |bytes| >= 2 {
      NwkControlBack(bytes[0], bytes[1]);
      if NwkFrames.ReadHeader(bytes).Read? {
        NwkReadIsWritten(bytes);
      }
    }
  }

  lemma NwkReadIsWritten(bytes: Octets)
    requires NwkFrames.ReadHeader(bytes).Read?
    ensures var r := NwkFrames.ReadHeader(bytes);
            NwkFrames.HeaderOctets(r.header) == [bytes[0], bytes[1] & 0x3f] + bytes[2..r.length]
  {
    hide NwkFrames.ControlFromOctets, NwkFrames.LowOctet, NwkFrames.HighOctet, NwkFrames.OptionalIeee;
    hide NwkFrames.ReadHeader, NwkFrames.HeaderOctets, Le16, From16, Bit;
    NwkControlBack(bytes[0], bytes[1]);
    var r := NwkFrames.ReadHeader(bytes);
    NwkFieldsRead(bytes);
    Le16Back(bytes[2..4]);
    Le16Back(bytes[4..6]);
    NwkParts(bytes, if r.header.control.destinationIeee then 16 else 8, r.length);
    NwkHeaderIs(r.header, bytes[0], bytes[1] & 0x3f, bytes[2..r.length]);
  }

  lemma NwkHeaderIs(h: NwkFrames.Header, low: bv8, high: bv8, rest: Octets)
    requires NwkFrames.LowOctet(h.control) == low && NwkFrames.HighOctet(h.control) == high
    requires rest == Le16(h.destination) + Le16(h.source) + [h.radius, h.sequence]
                     + NwkFrames.OptionalIeee(h.destinationIeee) + NwkFrames.OptionalIeee(h.sourceIeee)
    ensures NwkFrames.HeaderOctets(h) == [low, high] + rest
  {
    hide Le16, NwkFrames.LowOctet, NwkFrames.HighOctet, NwkFrames.OptionalIeee;
  }

  lemma NwkFieldsRead(bytes: Octets)
    requires NwkFrames.ReadHeader(bytes).Read?
    ensures var (h, n) := (NwkFrames.ReadHeader(bytes).header, NwkFrames.ReadHeader(bytes).length);
            var m := if h.control.destinationIeee then 16 else 8;
            && m <= n <= |bytes|
            && NwkFrames.ControlFromOctets(bytes[0], bytes[1]) == Some(h.control)
            && h.destination == From16(bytes[2..4]) && h.source == From16(bytes[4..6])
            && h.radius == bytes[6] && h.sequence == bytes[7]
            && NwkFrames.OptionalIeee(h.destinationIeee) == bytes[8..m]
            && NwkFrames.OptionalIeee(h.sourceIeee) == bytes[m..n]
  {
    hide NwkFrames.ControlFromOctets, NwkFrames.OptionalIeee, From16, From64;
    var (h, n) := (NwkFrames.ReadHeader(bytes).header, NwkFrames.ReadHeader(bytes).length);
    var m := if h.control.destinationIeee then 16 else 8;
    IeeeBack(bytes, 8, m, h.destinationIeee);
    IeeeBack(bytes, m, n, h.sourceIeee);
  }

  lemma NwkParts(bytes: Octets, m: nat, n: nat)
    requires 8 <= m <= n <= |bytes|
    ensures bytes[2..n] == bytes[2..4] + bytes[4..6] + [bytes[6], bytes[7]] + bytes[8..m] + bytes[m..n]
  {
  }

  lemma IeeeBack(bytes: Octets, start: nat, end: nat, address: Option<bv64>)
    requires start <= end <= |bytes|
    requires if address.Some? then end == start + 8 && address.value == From64(bytes[start..end]) else start == end
    ensures NwkFrames.OptionalIeee(address) == bytes[start..end]
  {
    hide Le64, From64;
    if address.Some? {
      Le64Back(bytes[start..end]);
    }
  }

  lemma NwkControlBack(low: bv8, high: bv8)
    ensures NwkFrames.ControlFromOctets(low, high).None? <==> low & 0x80 != 0
    ensures low & 0x80 == 0 ==>
              var c := NwkFrames.ControlFromOctets(low, high).value;
              && NwkFrames.LowOctet(c) == low && NwkFrames.HighOctet(c) == high & 0x3f
              && (c.destinationIeee <==> Bit(high, 0x08)) && (c.sourceIeee <==> Bit(high, 0x10))
              && (c.multicast || c.sourceRoute <==> high & 0x05 != 0)
  {
    hide NwkFrames.LowOctet, NwkFrames.HighOctet;
    if low & 0x80 == 0 {
      LowBack(low, high);
      HighBack(low, high);
    }
  }

  lemma LowBack(low: bv8, high: bv8)
    ensures NwkFrames.ControlFromOctets(low, high).Some? ==>
              NwkFrames.LowOctet(NwkFrames.ControlFromOctets(low, high).value) == low
  {
  }

  lemma HighBack(low: bv8, high: bv8)
    ensures NwkFrames.ControlFromOctets(low, high).Some? ==>
              NwkFrames.HighOctet(NwkFrames.ControlFromOctets(low, high).value) == high & 0x3f
  {
  }

  /** An application-support header is read exactly if its delivery mode is not the reserved one, all its
      octets are there, no endpoint is 0xff, and there is no extended header; what is read is written
      as those octets. */
  lemma ApsHeaderIsReadIff(bytes: Octets)
    ensures var r := ApsFrames.ReadHeader(bytes);
            if bytes == [] || bytes[0] & 0x0c == 0x04 then r == ApsFrames.Malformed
            else
              var data := bytes[0] & 0x03 == 0;
              var identified := data || (bytes[0] & 0x03 == 2 && !Bit(bytes[0], 0x10));
              var grouped := data && bytes[0] & 0x0c == 0x0c;
              var n: nat := if grouped then 9 else if identified then 8 else 2;
              if |bytes| < n || (identified && (bytes[n - 2] == 0xff || (!grouped && bytes[1] == 0xff))) then
                r == ApsFrames.Malformed
              else if Bit(bytes[0], 0x80) then r == ApsFrames.NotModelled
              else r.Read? && r.length == n && ApsFrames.HeaderOctets(r.header) == bytes[..n]
  {
    hide ApsFrames.ControlFromOctet, ApsFrames.HeaderOctets, From16, Bit;
    if bytes != [] {
      ApsControlBack(bytes[0]);
      if ApsFrames.ReadHeader(bytes).Read? {
        ApsReadIsWritten(bytes);
      }
    }
  }

  lemma ApsReadIsWritten(bytes: Octets)
    requires ApsFrames.ReadHeader(bytes).Read?
    ensures var r := ApsFrames.ReadHeader(bytes); ApsFrames.HeaderOctets(r.header) == bytes[..r.length]
  {
    hide ApsFrames.ReadOptional, ApsFrames.ControlFromOctet, ApsFrames.ControlOctet, ApsFrames.Optional8;
    hide ApsFrames.Optional16, Bit;
    ApsControlBack(bytes[0]);
    var c := ApsFrames.ControlFromOctet(bytes[0]).value;
    ApsOptionalIsWritten(c, bytes);
    var (h, at) := ApsFrames.ReadOptional(c, bytes).value;
    assert bytes[..at + 1] == [bytes[0]] + bytes[1..at] + [bytes[at]];
  }

  lemma ApsOptionalIsWritten(c: ApsFrames.FrameControl, bytes: Octets)
    requires bytes != [] && ApsFrames.ReadOptional(c, bytes).Some?
    ensures var (h, at) := ApsFrames.ReadOptional(c, bytes).value;
            ApsFrames.Optional8(h.destinationEndpoint) + ApsFrames.Optional16(h.group) + ApsFrames.Optional16(h.cluster)
            + ApsFrames.Optional16(h.profile) + ApsFrames.Optional8(h.sourceEndpoint) == bytes[1..at]
  {
    hide ApsFrames.Read16, ApsFrames.ReadEndpoint, ApsFrames.Optional8, ApsFrames.Optional16;
    hide ApsFrames.HasEndpoint, ApsFrames.HasGroup, ApsFrames.HasIdentifiers, ApsFrames.Consistent;
    var (endpoint, p) := ApsFrames.ReadEndpoint(bytes, 1, ApsFrames.HasEndpoint(c)).value;
    EndpointBack(bytes, 1, ApsFrames.HasEndpoint(c));
    var (group, q) := ApsFrames.Read16(bytes, p, ApsFrames.HasGroup(c)).value;
    WordBack(bytes, p, ApsFrames.HasGroup(c));
    var (cluster, r) := ApsFrames.Read16(bytes, q, ApsFrames.HasIdentifiers(c)).value;
    WordBack(bytes, q, ApsFrames.HasIdentifiers(c));
    var (profile, s) := ApsFrames.Read16(bytes, r, ApsFrames.HasIdentifiers(c)).value;
    WordBack(bytes, r, ApsFrames.HasIdentifiers(c));
    var (source, t) := ApsFrames.ReadEndpoint(bytes, s, ApsFrames.HasIdentifiers(c)).value;
    EndpointBack(bytes, s, ApsFrames.HasIdentifiers(c));
    assert bytes[1..t] == bytes[1..p] + bytes[p..q] + bytes[q..r] + bytes[r..s] + bytes[s..t];
  }

  lemma EndpointBack(bytes: Octets, at: nat, present: bool)
    requires at <= |bytes| && ApsFrames.ReadEndpoint(bytes, at, present).Some?
    ensures var (e, next) := ApsFrames.ReadEndpoint(bytes, at, present).value;
            at <= next <= |bytes| && ApsFrames.Optional8(e) == bytes[at..next]
  {
  }

  lemma WordBack(bytes: Octets, at: nat, present: bool)
    requires at <= |bytes| && ApsFrames.Read16(bytes, at, present).Some?
    ensures var (w, next) := ApsFrames.Read16(bytes, at, present).value;
            at <= next <= |bytes| && ApsFrames.Optional16(w) == bytes[at..next]
  {
    hide Le16, From16;
    if present {
      Le16Back(bytes[at..at + 2]);
    }
  }

  lemma ApsControlBack(b: bv8)
    ensures ApsFrames.ControlFromOctet(b).None? <==> b & 0x0c == 0x04
    ensures b & 0x0c != 0x04 ==>
              var c := ApsFrames.ControlFromOctet(b).value;
              && ApsFrames.ControlOctet(c) == b
              && (c.frameType.Data? <==> b & 0x03 == 0) && (c.frameType.Acknowledgement? <==> b & 0x03 == 2)
              && (c.ackFormat <==> Bit(b, 0x10)) && (c.mode.GroupAddressing? <==> b & 0x0c == 0x0c)
              && (c.extendedHeader <==> Bit(b, 0x80))
  {
  }
}
