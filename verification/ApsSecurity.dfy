/** Application-support security (Zigbee specification, section 4.4.1): encrypting with a link key
    or a key derived from it, and decrypting with the key the auxiliary header identifies. */
module ApsSecurity {
  import opened Wrappers
  import opened AuxHeader
  import opened SecuredFrames
  import opened ApsFrames
  import opened SecuredWire
  import AesMmo
  import Bytes

  datatype KeyAttribute = ProvisionalKey | UnverifiedKey | VerifiedKey

  datatype LinkKeyType = UniqueLinkKey | GlobalLinkKey

  datatype KeyPair = KeyPair(
    address: bv64,
    attribute: KeyAttribute,
    key: Key,
    outgoing: bv32,
    incoming: bv32,
    keyType: LinkKeyType)

  /** The key a key identifier selects (section 4.5.3): the link key, or its keyed hash of one
      octet. Network keys are never used at this layer. */
  function SelectedKey(encrypt: AesMmo.BlockCipher, link: Key, id: KeyIdentifier): (r: Option<Key>)
    ensures r.None? <==> id == NetworkKey
  {
    match id
    case DataKey => Some(link)
    case NetworkKey => None
    case KeyTransport => Some(DerivedKey(encrypt, link, 0x00))
    case KeyLoad => Some(DerivedKey(encrypt, link, 0x02))
  }

  /** Key transport uses the keyed hash of 0x00, key load that of 0x02, data the link key itself. */
  lemma SelectedKeyIs(encrypt: AesMmo.BlockCipher, link: Key)
    ensures var transport, load := AesMmo.Rfc2104(encrypt, link, [0x00]), AesMmo.Rfc2104(encrypt, link, [0x02]);
            && transport.Hash? && load.Hash?
            && SelectedKey(encrypt, link, KeyTransport) == Some(transport.block)
            && SelectedKey(encrypt, link, KeyLoad) == Some(load.block)
            && SelectedKey(encrypt, link, DataKey) == Some(link)
            && SelectedKey(encrypt, link, NetworkKey) == None
  {
    hide AesMmo.Rfc2104;
    AesMmo.HmacSucceedsIff(encrypt, link, [0x00]);
    AesMmo.HmacSucceedsIff(encrypt, link, [0x02]);
  }

  /** Hashing one octet under a link key always succeeds. */
  function DerivedKey(encrypt: AesMmo.BlockCipher, link: Key, octet: Bytes.Byte): Key {
    AesMmo.HmacSucceedsIff(encrypt, link, [octet]);
    AesMmo.Rfc2104(encrypt, link, [octet]).block
  }

  /** Transported network keys travel under the key-transport key, other transported keys under
      the key-load key, everything else under the link key itself. */
  function IdentifierFor(f: Frame): KeyIdentifier {
    if !f.CommandFrame? then DataKey
    else
      match f.kind
      case TransportNetworkKey => KeyTransport
      case TransportOtherKey => KeyLoad
      case OtherCommand => DataKey
  }

  /** The first usable pair for a destination. */
  function FindPair(pairs: seq<KeyPair>, destination: bv64, i: nat): (r: Option<nat>)
    requires i <= |pairs|
    ensures r.Some? ==> i <= r.value < |pairs| && pairs[r.value].address == destination
                        && (pairs[r.value].attribute.ProvisionalKey? || pairs[r.value].attribute.VerifiedKey?)
    ensures forall j :: i <= j < (if r.Some? then r.value else |pairs|) ==>
              pairs[j].address != destination || pairs[j].attribute.UnverifiedKey?
    ensures r.Some? ==> forall j :: i <= j < r.value ==> !Usable(pairs[j], destination)
    decreases |pairs| - i
  {
    if i == |pairs| then None
    else if Usable(pairs[i], destination) then Some(i)
    else FindPair(pairs, destination, i + 1)
  }

  predicate Usable(p: KeyPair, destination: bv64) {
    p.address == destination && !p.attribute.UnverifiedKey?
  }

  function Secured(h: Header): (r: Header)
    ensures ApsFrames.Consistent(h) ==> ApsFrames.Consistent(r)
  {
    h.(control := h.control.(security := true))
  }

  /** The auxiliary header of an outgoing frame; only with the extended nonce it has an address. */
  function OutgoingAux(p: KeyPair, level: SecurityLevel, f: Frame, extended: bool, address: bv64): (aux: Aux)
    ensures AuxHeader.Consistent(aux)
  {
    Aux(Control(level, IdentifierFor(f), extended), p.outgoing, if extended then Some(address) else None, None)
  }

  /** Commands always carry the extended nonce, data frames only if the sender asks for it. */
  predicate Extended(f: Frame, includeExtendedNonce: bool) { includeExtendedNonce || f.CommandFrame? }

  /** The bytes of a frame under a key pair, in a buffer that was zeroed. */
  function SealedFrame(c: Cipher, encrypt: AesMmo.BlockCipher, p: KeyPair, level: SecurityLevel, f: Frame,
                       address: bv64): Octets
  {
    var aux := OutgoingAux(p, level, f, true, address);
    Sealed(c, level, SelectedKey(encrypt, p.key, IdentifierFor(f)).value, Nonce(aux).value,
           HeaderOctets(Secured(f.header)), AuxOctets(aux), Body(f))
  }

  /** Why encrypting with a key pair fails, if it does. */
  function Refusal(p: KeyPair, f: Frame, level: SecurityLevel, includeExtendedNonce: bool, room: nat)
    : (r: Option<Result<nat>>)
    ensures r.None? ==> p.outgoing != MAX_COUNTER && !f.AcknowledgementFrame? && Extended(f, includeExtendedNonce)
    ensures r.Some? ==> !r.value.Ok?
  {
    var aux := OutgoingAux(p, level, f, Extended(f, includeExtendedNonce), 0);
    if p.outgoing == MAX_COUNTER then Some(Err(InvalidData))
    else if f.AcknowledgementFrame? then Some(Panic)
    else if f.CommandFrame? && |f.command| > MAX_APS_PAYLOAD_SIZE then Some(Err(ParseError))
    else if !Extended(f, includeExtendedNonce) then Some(Err(InvalidData))
    else if FrameLength(level, HeaderOctets(Secured(f.header)), aux, Body(f)) > room then
      Some(NoRoom(room, |HeaderOctets(Secured(f.header))|, 1))
    else None
  }

  lemma LengthWithoutAddress(p: KeyPair, level: SecurityLevel, f: Frame, a: bv64, b: bv64)
    ensures |AuxOctets(OutgoingAux(p, level, f, true, a))| == |AuxOctets(OutgoingAux(p, level, f, true, b))|
  {
  }

  function Used(pairs: seq<KeyPair>, i: nat): (r: seq<KeyPair>)
    requires i < |pairs| && pairs[i].outgoing != MAX_COUNTER
    ensures |r| == |pairs|
  {
    pairs[i := pairs[i].(outgoing := Successor(pairs[i].outgoing))]
  }

  /** What encrypting for a pair answers: a spent counter, an acknowledgement, an overlong command and
      a data frame without the address fail in this order; then the frame must fit, and without a
      single octet for a bit structure its writer panics. */
  ghost predicate AnswersEncrypt(r: Result<nat>, p: KeyPair, f: Frame, level: SecurityLevel, includeExtendedNonce: bool,
                                 room: nat)
  {
    var header := |HeaderOctets(f.header)|;
    if p.outgoing == 0xffff_ffff then r == Err(InvalidData)
    else if f.AcknowledgementFrame? then r == Panic
    else if f.CommandFrame? && |f.command| > 96 then r == Err(ParseError)
    else if f.DataFrame? && !includeExtendedNonce then r == Err(InvalidData)
    else
      var length := header + 13 + |if f.DataFrame? then f.payload else f.command| + MicLength(level);
      if length <= room then r == Ok(length)
      else r == if room == 0 || room == header then Panic else Err(ParseError)
  }

  /** The octets are the frame sealed under a key that its auxiliary header names, with the security
      flag set, the pair's counter and the sender's address. */
  ghost predicate SentUnder(sent: Octets, before: Octets, c: Cipher, level: SecurityLevel, key: Key, id: KeyIdentifier,
                            p: KeyPair, address: bv64, header: Header, payload: Octets)
  {
    IsSealed(sent, before, c, level, key, Aux(Control(level, id, true), p.outgoing, Some(address), None),
             HeaderOctets(header.(control := header.control.(security := true))), 1, payload)
  }

  /** A transported network key goes out under the keyed hash of 0x00, any other transported key
      under that of 0x02, everything else under the link key itself. */
  ghost predicate SentSecurely(sent: Octets, before: Octets, c: Cipher, encrypt: AesMmo.BlockCipher,
                               level: SecurityLevel, p: KeyPair, address: bv64, f: Frame)
  {
    var transport, load := AesMmo.Rfc2104(encrypt, p.key, [0x00]), AesMmo.Rfc2104(encrypt, p.key, [0x02]);
    match f
    case DataFrame(header, payload) => SentUnder(sent, before, c, level, p.key, DataKey, p, address, header, payload)
    case CommandFrame(header, TransportNetworkKey, command) =>
      transport.Hash?
      && SentUnder(sent, before, c, level, transport.block, KeyTransport, p, address, header, command)
    case CommandFrame(header, TransportOtherKey, command) =>
      load.Hash? && SentUnder(sent, before, c, level, load.block, KeyLoad, p, address, header, command)
    case CommandFrame(header, OtherCommand, command) =>
      SentUnder(sent, before, c, level, p.key, DataKey, p, address, header, command)
    case AcknowledgementFrame(_) => false
  }

  /** The first n octets of the buffer are the sealed frame, the others are as they were. */
  ghost predicate LeftInBuffer(after: Octets, before: Octets, c: Cipher, encrypt: AesMmo.BlockCipher,
                               level: SecurityLevel, p: KeyPair, address: bv64, f: Frame, n: nat)
  {
    var aux, hdr := OutgoingAux(p, level, f, true, address), HeaderOctets(Secured(f.header));
    && n == FrameLength(level, hdr, aux, Body(f)) <= |before| == |after|
    && after[..n] == SealedOver(before, c, level, SelectedKey(encrypt, p.key, IdentifierFor(f)).value, aux, hdr, 1,
                                Body(f))
    && after[n..] == before[n..]
  }

  lemma SealedIsSentSecurely(before: Octets, c: Cipher, encrypt: AesMmo.BlockCipher, level: SecurityLevel, p: KeyPair,
                             address: bv64, f: Frame)
    requires !f.AcknowledgementFrame?
    requires FrameLength(level, HeaderOctets(Secured(f.header)), OutgoingAux(p, level, f, true, address), Body(f))
             <= |before|
    ensures SentSecurely(SealedOver(before, c, level, SelectedKey(encrypt, p.key, IdentifierFor(f)).value,
                                    OutgoingAux(p, level, f, true, address), HeaderOctets(Secured(f.header)), 1,
                                    Body(f)),
                         before, c, encrypt, level, p, address, f)
  {
    hide IsSealed, SealedOver, HeaderOctets, AuxOctets, AesMmo.Rfc2104, MicLength;
    AesMmo.HmacSucceedsIff(encrypt, p.key, [0x00]);
    AesMmo.HmacSucceedsIff(encrypt, p.key, [0x02]);
    SealedOverIsSealed(before, c, level, SelectedKey(encrypt, p.key, IdentifierFor(f)).value,
                       OutgoingAux(p, level, f, true, address), HeaderOctets(Secured(f.header)), 1, Body(f));
  }

  lemma RefusalAnswers(p: KeyPair, f: Frame, level: SecurityLevel, includeExtendedNonce: bool, room: nat)
    ensures var refusal := Refusal(p, f, level, includeExtendedNonce, room);
            AnswersEncrypt(if refusal.Some? then refusal.value
                           else Ok(FrameLength(level, HeaderOctets(Secured(f.header)),
                                               OutgoingAux(p, level, f, true, 0), Body(f))),
                           p, f, level, includeExtendedNonce, room)
  {
    hide HeaderOctets, AuxOctets, AuxHeader.ControlOctet;
    AuxWireForm(OutgoingAux(p, level, f, true, 0));
    SecuredLength(f.header);
  }

  lemma SecuredLength(h: Header)
    ensures |HeaderOctets(Secured(h))| == |HeaderOctets(h)|
  {
    hide ApsFrames.ControlOctet, Le16;
  }

  /** The counter of pair i went up by one, and nothing else changed. */
  ghost predicate CountedUp(after: seq<KeyPair>, before: seq<KeyPair>, i: nat) {
    i < |before| && after == before[i := before[i].(outgoing := before[i].outgoing + 1)]
  }

  lemma UsedIsCountedUp(pairs: seq<KeyPair>, i: nat)
    requires i < |pairs| && pairs[i].outgoing != MAX_COUNTER
    ensures CountedUp(Used(pairs, i), pairs, i)
  {
  }

  class LinkKeys {
    var pairs: seq<KeyPair>

    /** Encrypts a frame for a destination. The pair's counter goes up by one exactly if that
        succeeds; otherwise the pairs are unchanged. */
    method EncryptApsFrame(c: Cipher, encrypt: AesMmo.BlockCipher, f: Frame, destination: bv64,
                           includeExtendedNonce: bool, buf: array<bv8>, address: bv64, level: SecurityLevel)
      returns (r: Result<nat>)
      requires Lawful(c)
      modifies this`pairs, buf
      ensures !r.Ok? ==> pairs == old(pairs)
      ensures FindPair(old(pairs), destination, 0).None? ==> r == Err(Unspecified)
      ensures FindPair(old(pairs), destination, 0).Some? ==>
                var p := old(pairs)[FindPair(old(pairs), destination, 0).value];
                var refusal := Refusal(p, f, level, includeExtendedNonce, buf.Length);
                && (if refusal.Some? then r == refusal.value else r.Ok?)
                && AnswersEncrypt(r, p, f, level, includeExtendedNonce, buf.Length)
      ensures r.Ok? ==>
                var i := FindPair(old(pairs), destination, 0).value;
                var p := old(pairs)[i];
                && r.value <= buf.Length && p.outgoing != MAX_COUNTER
                && pairs == Used(old(pairs), i) && CountedUp(pairs, old(pairs), i)
                && LeftInBuffer(buf[..], old(buf[..]), c, encrypt, level, p, address, f, r.value)
                && SentSecurely(buf[..r.value], old(buf[..]), c, encrypt, level, p, address, f)
    {
      hide Lawful, AuxOctets, HeaderOctets, SealedOver, MicLength, FindPair, DerivedKey, SentSecurely, AnswersEncrypt;
      hide Used, Successor, Secured, CountedUp;
      var i := FindPair(pairs, destination, 0);
      if i.None? {
        return Err(Unspecified);
      }
      var p := pairs[i.value];
      var id := IdentifierFor(f);
      var key := SelectedKey(encrypt, p.key, id).value;
      RefusalAnswers(p, f, level, includeExtendedNonce, buf.Length);
      LengthWithoutAddress(p, level, f, address, 0);
      if p.outgoing == MAX_COUNTER {
        return Err(InvalidData);
      }
      var aux := OutgoingAux(p, level, f, Extended(f, includeExtendedNonce), address);
      var header := HeaderOctets(Secured(f.header));
      match f {
        case DataFrame(_, payload) =>
          r := WriteAndEncrypt(c, level, buf, aux, key, header, 1, payload);
        case CommandFrame(_, _, command) =>
          if |command| > MAX_APS_PAYLOAD_SIZE {
            return Err(ParseError);
          }
          r := WriteAndEncrypt(c, level, buf, aux, key, header, 1, command);
        case AcknowledgementFrame(_) =>
          return Panic;
      }
      if r.Ok? {
        SealedIsSentSecurely(old(buf[..]), c, encrypt, level, p, address, f);
        UsedIsCountedUp(pairs, i.value);
        pairs := Used(pairs, i.value);
      }
    }
  }

  lemma SealedInCleanBuffer(buf: Octets, c: Cipher, encrypt: AesMmo.BlockCipher, p: KeyPair, level: SecurityLevel,
                            f: Frame, address: bv64)
    requires var aux, hdr := OutgoingAux(p, level, f, true, address), HeaderOctets(Secured(f.header));
             && FrameLength(level, hdr, aux, Body(f)) <= |buf|
             && Clean(buf, hdr, 1) && Clean(buf[|hdr|..], AuxOctets(aux), 1)
    ensures SealedOver(buf, c, level, SelectedKey(encrypt, p.key, IdentifierFor(f)).value,
                       OutgoingAux(p, level, f, true, address), HeaderOctets(Secured(f.header)), 1, Body(f))
            == SealedFrame(c, encrypt, p, level, f, address)
  {
    hide Joined, Clean, AuxOctets, HeaderOctets, Sealed, SelectedKey;
    var aux, hdr := OutgoingAux(p, level, f, true, address), HeaderOctets(Secured(f.header));
    JoinedIffClean(buf, hdr, 1);
    JoinedIffClean(buf[|hdr|..], AuxOctets(aux), 1);
  }

  // ----- decrypting ---------------------------------------------------------------------------

  /** The pair a received frame is opened with: before authorization the global link key, whoever
      the sender, and then the pair of the sender. */
  function ReceivingPair(pairs: seq<KeyPair>, authorized: bool, source: bv64, i: nat): (r: Option<nat>)
    requires i <= |pairs|
    ensures r.Some? ==> i <= r.value < |pairs|
                        && if authorized then pairs[r.value].address == source
                           else pairs[r.value].keyType == GlobalLinkKey
    ensures forall j :: i <= j < (if r.Some? then r.value else |pairs|) ==>
              if authorized then pairs[j].address != source else pairs[j].keyType == UniqueLinkKey
    decreases |pairs| - i
  {
    if i == |pairs| then None
    else if (if authorized then pairs[i].address == source else pairs[i].keyType.GlobalLinkKey?) then Some(i)
    else ReceivingPair(pairs, authorized, source, i + 1)
  }

  /** Header, body and the pair used; or an error, a panic, or a part that is not modelled. */
  datatype Decrypted =
    | Frame(header: Header, body: Octets, pair: Option<nat>)
    | Error(error: SecurityError)
    | Overflow
    | OutOfModel

  /** Payloads over the capacity of their buffer and inter-PAN frames make the reader panic, and a
      command must be readable. */
  function Finish(h: Header, body: Octets, reader: CommandReader, pair: Option<nat>): Decrypted {
    match h.control.frameType
    case Data => if |body| > MAX_APS_PAYLOAD_SIZE then Overflow else Frame(h, body, pair)
    case Command =>
      var command := reader(body);
      if command.None? then Error(ParseError) else Frame(h, command.value, pair)
    case Acknowledgement => Frame(h, [], pair)
    case InterPan => Overflow
  }

  /** Only pairs of a unique link key keep counters: a frame below the pair's counter is refused. */
  predicate CounterRefused(p: KeyPair, counter: bv32) { p.keyType.UniqueLinkKey? && Below(counter, p.incoming) }

  function DecryptedFrame(c: Cipher, encrypt: AesMmo.BlockCipher, pairs: seq<KeyPair>, authorized: bool,
                          level: SecurityLevel, reader: CommandReader, bytes: Octets): Decrypted
  {
    if |bytes| < MicLength(level) then Error(ParseError)
    else
      match ReadHeader(bytes)
      case Malformed => Error(ParseError)
      case NotModelled => OutOfModel
      case Read(h, n) =>
        if !h.control.security then Finish(h, bytes[n..], reader, None)
        else
          match ReadAux(bytes[n..])
          case None => Error(ParseError)
          case Some((aux, m)) =>
            if aux.counter == MAX_COUNTER then Error(InvalidData)
            else if aux.source.None? then Error(Unspecified)
            else OpenedFrame(c, encrypt, pairs, authorized, level, reader, bytes, h, n, aux)
  }

  /** The part of decrypting that needs a key. */
  function OpenedFrame(c: Cipher, encrypt: AesMmo.BlockCipher, pairs: seq<KeyPair>, authorized: bool,
                       level: SecurityLevel, reader: CommandReader, bytes: Octets, h: Header, n: nat, aux: Aux)
    : Decrypted
    requires aux.source.Some? && n + |AuxOctets(aux)| <= |bytes|
  {
    var i := ReceivingPair(pairs, authorized, aux.source.value, 0);
    if i.None? then Error(Unspecified)
    else
      var key := SelectedKey(encrypt, pairs[i.value].key, aux.control.keyId);
      if key.None? then Error(InvalidData)
      else if CounterRefused(pairs[i.value], aux.counter) then Error(Unspecified)
      else Delivered(Opened(c, level, key.value, bytes, n, aux), h, reader, i)
  }

  function Delivered(body: Result<Octets>, h: Header, reader: CommandReader, pair: Option<nat>): Decrypted {
    match body
    case Ok(text) => Finish(h, text, reader, pair)
    case Err(e) => Error(e)
    case Panic => Overflow
  }

  /** Whoever selects a pair with the sender's link key gets header and body back, exactly if that
      pair exists and its counter does not refuse the frame: both sides derive the same key. */
  lemma DecryptsIff(c: Cipher, encrypt: AesMmo.BlockCipher, p: KeyPair, pairs: seq<KeyPair>, authorized: bool,
                    level: SecurityLevel, f: ApsFrames.Frame, address: bv64, reader: CommandReader)
    requires Lawful(c) && WellTyped(f, reader) && !f.AcknowledgementFrame? && p.outgoing != MAX_COUNTER
    requires var i := ReceivingPair(pairs, authorized, address, 0); i.Some? ==> pairs[i.value].key == p.key
    ensures var i := ReceivingPair(pairs, authorized, address, 0);
            DecryptedFrame(c, encrypt, pairs, authorized, level, reader, SealedFrame(c, encrypt, p, level, f, address))
            == Frame(Secured(f.header), Body(f), i)
            <==> i.Some? && !(pairs[i.value].keyType == UniqueLinkKey && Below(p.outgoing, pairs[i.value].incoming))
  {
    hide Lawful, HeaderOctets, AuxOctets, ReadHeader, ReadAux, Opened, Nonce, Below;
    hide ReceivingPair, SelectedKey, Sealed, MicLength;
    var aux := OutgoingAux(p, level, f, true, address);
    var hdr, bytes := HeaderOctets(Secured(f.header)), SealedFrame(c, encrypt, p, level, f, address);
    OpenedSealed(c, SelectedKey(encrypt, p.key, IdentifierFor(f)).value, hdr, aux, Body(f));
    assert bytes == hdr + bytes[|hdr|..];
    HeaderRoundTrip(Secured(f.header), bytes[|hdr|..]);
  }

  /** End to end: what the sender leaves in a zeroed buffer, the receiver decrypts to the frame. */
  lemma SentFrameIsReceivedIff(buf: Octets, c: Cipher, encrypt: AesMmo.BlockCipher, p: KeyPair, pairs: seq<KeyPair>,
                               authorized: bool, level: SecurityLevel, f: ApsFrames.Frame, address: bv64,
                               reader: CommandReader)
    requires Lawful(c) && WellTyped(f, reader) && !f.AcknowledgementFrame? && p.outgoing != MAX_COUNTER
    requires var i := ReceivingPair(pairs, authorized, address, 0); i.Some? ==> pairs[i.value].key == p.key
    requires forall i :: 0 <= i < |buf| ==> buf[i] == 0
    requires FrameLength(level, HeaderOctets(Secured(f.header)), OutgoingAux(p, level, f, true, address), Body(f))
             <= |buf|
    ensures var i := ReceivingPair(pairs, authorized, address, 0);
            var sent := SealedOver(buf, c, level, SelectedKey(encrypt, p.key, IdentifierFor(f)).value,
                                   OutgoingAux(p, level, f, true, address), HeaderOctets(Secured(f.header)), 1,
                                   Body(f));
            DecryptedFrame(c, encrypt, pairs, authorized, level, reader, sent) == Frame(Secured(f.header), Body(f), i)
            <==> i.Some? && !(pairs[i.value].keyType == UniqueLinkKey && Below(p.outgoing, pairs[i.value].incoming))
  {
    hide Lawful, DecryptedFrame, SealedOver, SealedFrame, Clean, HeaderOctets, AuxOctets, SelectedKey, ReceivingPair;
    var hdr, aux := HeaderOctets(Secured(f.header)), OutgoingAux(p, level, f, true, address);
    ZeroedIsClean(buf, hdr, 1);
    ZeroedIsClean(buf[|hdr|..], AuxOctets(aux), 1);
    SealedInCleanBuffer(buf, c, encrypt, p, level, f, address);
    DecryptsIff(c, encrypt, p, pairs, authorized, level, f, address, reader);
  }

  /** What is delivered of a header and the octets behind it. */
  ghost predicate Delivers(r: Decrypted, h: Header, body: Octets, reader: CommandReader, pair: Option<nat>) {
    match h.control.frameType
    case Data => r == if |body| > 96 then Overflow else Frame(h, body, pair)
    case Command =>
      r == (match reader(body) case None => Error(ParseError) case Some(command) => Frame(h, command, pair))
    case Acknowledgement => r == Frame(h, [], pair)
    case InterPan => r == Overflow
  }

  ghost predicate OpensUnder(r: Decrypted, c: Cipher, level: SecurityLevel, key: Key, bytes: Octets, n: nat, aux: Aux,
                             h: Header, reader: CommandReader, pair: nat)
    requires aux.source.Some? && n + |AuxOctets(aux)| <= |bytes|
  {
    match Opened(c, level, key, bytes, n, aux)
    case Ok(body) => Delivers(r, h, body, reader, Some(pair))
    case Err(e) => r == Error(e)
    case Panic => r == Overflow
  }

  /** A secured frame with an address is opened under the key its auxiliary header names, from the
      pair of the sender, or before authorization from the first global pair: the link key itself,
      its keyed hash of 0x00 for key transport, that of 0x02 for key load. */
  ghost predicate AnswersSecured(r: Decrypted, c: Cipher, encrypt: AesMmo.BlockCipher, pairs: seq<KeyPair>,
                                 authorized: bool, level: SecurityLevel, reader: CommandReader, bytes: Octets,
                                 h: Header, n: nat, aux: Aux)
    requires aux.source.Some? && n + |AuxOctets(aux)| <= |bytes|
  {
    match ReceivingPair(pairs, authorized, aux.source.value, 0)
    case None => r == Error(Unspecified)
    case Some(i) =>
      var p := pairs[i];
      if aux.control.keyId == NetworkKey then r == Error(InvalidData)
      else if p.keyType == UniqueLinkKey && Below(aux.counter, p.incoming) then r == Error(Unspecified)
      else
        var transport, load := AesMmo.Rfc2104(encrypt, p.key, [0x00]), AesMmo.Rfc2104(encrypt, p.key, [0x02]);
        match aux.control.keyId
        case KeyTransport => transport.Hash? && OpensUnder(r, c, level, transport.block, bytes, n, aux, h, reader, i)
        case KeyLoad => load.Hash? && OpensUnder(r, c, level, load.block, bytes, n, aux, h, reader, i)
        case _ => OpensUnder(r, c, level, p.key, bytes, n, aux, h, reader, i)
  }

  /** What decrypting answers: the tag must fit and the headers be readable; an unsecured frame is
      delivered as it is; a spent counter and a header without the address are refused. */
  ghost predicate AnswersDecrypt(r: Decrypted, c: Cipher, encrypt: AesMmo.BlockCipher, pairs: seq<KeyPair>,
                                 authorized: bool, level: SecurityLevel, reader: CommandReader, bytes: Octets)
  {
    if |bytes| < MicLength(level) then r == Error(ParseError)
    else
      match ReadHeader(bytes)
      case Malformed => r == Error(ParseError)
      case NotModelled => r == OutOfModel
      case Read(h, n) =>
        if !h.control.security then Delivers(r, h, bytes[n..], reader, None)
        else
          match ReadAux(bytes[n..])
          case None => r == Error(ParseError)
          case Some((aux, _)) =>
            if aux.counter == 0xffff_ffff then r == Error(InvalidData)
            else if aux.source.None? then r == Error(Unspecified)
            else AnswersSecured(r, c, encrypt, pairs, authorized, level, reader, bytes, h, n, aux)
  }

  lemma DecryptedFrameAnswers(c: Cipher, encrypt: AesMmo.BlockCipher, pairs: seq<KeyPair>, authorized: bool,
                              level: SecurityLevel, reader: CommandReader, bytes: Octets)
    ensures AnswersDecrypt(DecryptedFrame(c, encrypt, pairs, authorized, level, reader, bytes),
                           c, encrypt, pairs, authorized, level, reader, bytes)
  {
    hide ReadHeader, ReadAux, AuxOctets, OpenedFrame, AnswersSecured;
    match ReadHeader(bytes) {
      case Read(h, n) =>
        match ReadAux(bytes[n..]) {
          case Some((aux, _)) =>
            if aux.source.Some? {
              OpenedFrameAnswers(c, encrypt, pairs, authorized, level, reader, bytes, h, n, aux);
            }
          case None =>
        }
      case _ =>
    }
  }

  lemma DeliveredOpens(c: Cipher, level: SecurityLevel, key: Key, bytes: Octets, n: nat, aux: Aux, h: Header,
                       reader: CommandReader, pair: nat)
    requires aux.source.Some? && n + |AuxOctets(aux)| <= |bytes|
    ensures OpensUnder(Delivered(Opened(c, level, key, bytes, n, aux), h, reader, Some(pair)),
                       c, level, key, bytes, n, aux, h, reader, pair)
  {
    hide Opened, AuxOctets;
  }

  lemma OpenedFrameAnswers(c: Cipher, encrypt: AesMmo.BlockCipher, pairs: seq<KeyPair>, authorized: bool,
                           level: SecurityLevel, reader: CommandReader, bytes: Octets, h: Header, n: nat, aux: Aux)
    requires aux.source.Some? && n + |AuxOctets(aux)| <= |bytes|
    ensures AnswersSecured(OpenedFrame(c, encrypt, pairs, authorized, level, reader, bytes, h, n, aux),
                           c, encrypt, pairs, authorized, level, reader, bytes, h, n, aux)
  {
    hide Opened, ReceivingPair, AuxOctets, AesMmo.Rfc2104, Delivered, OpensUnder, SelectedKey, Below;
    var i := ReceivingPair(pairs, authorized, aux.source.value, 0);
    if i.Some? {
      SelectedKeyIs(encrypt, pairs[i.value].key);
      var key := SelectedKey(encrypt, pairs[i.value].key, aux.control.keyId);
      if key.Some? {
        DeliveredOpens(c, level, key.value, bytes, n, aux, h, reader, i.value);
      }
    }
  }

  /** Decrypts in place and computes `DecryptedFrame`. */
  method DecryptApsFrame(c: Cipher, encrypt: AesMmo.BlockCipher, pairs: seq<KeyPair>, authorized: bool,
                         level: SecurityLevel, reader: CommandReader, buf: array<bv8>) returns (r: Decrypted)
    modifies buf
    ensures r == DecryptedFrame(c, encrypt, pairs, authorized, level, reader, old(buf[..]))
    ensures AnswersDecrypt(r, c, encrypt, pairs, authorized, level, reader, old(buf[..]))
  {
    hide ReadHeader, ReadAux, Opened, ReceivingPair, SelectedKey, Finish, MicLength, AnswersDecrypt;
    DecryptedFrameAnswers(c, encrypt, pairs, authorized, level, reader, buf[..]);
    if buf.Length < MicLength(level) {
      return Error(ParseError);
    }
    var header := ReadHeader(buf[..]);
    if header.Malformed? {
      return Error(ParseError);
    }
    if header.NotModelled? {
      return OutOfModel;
    }
    var (h, n) := (header.header, header.length);
    if !h.control.security {
      return Finish(h, buf[..][n..], reader, None);
    }
    var auxRead := ReadAux(buf[..][n..]);
    if auxRead.None? {
      return Error(ParseError);
    }
    var (aux, m) := auxRead.value;
    if aux.counter == MAX_COUNTER {
      return Error(InvalidData);
    }
    if aux.source.None? {
      return Error(Unspecified);
    }
    var i := ReceivingPair(pairs, authorized, aux.source.value, 0);
    if i.None? {
      return Error(Unspecified);
    }
    var key := SelectedKey(encrypt, pairs[i.value].key, aux.control.keyId);
    if key.None? {
      return Error(InvalidData);
    }
    if CounterRefused(pairs[i.value], aux.counter) {
      return Error(Unspecified);
    }
    var body := OpenInPlace(c, level, buf, n, aux, key.value);
    r := Delivered(body, h, reader, i);
  }
}
