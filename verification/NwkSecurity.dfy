/** Network-layer security (Zigbee specification, section 4.3.1): encrypting with the active
    network key and its frame counter, and decrypting with the key a frame names. */
module NwkSecurity {
  import opened Wrappers
  import opened AuxHeader
  import opened SecuredFrames
  import opened NwkFrames
  import opened SecuredWire

  datatype Descriptor = Descriptor(sequence: bv8, outgoing: bv32, incoming: seq<(bv64, bv32)>, key: Key)

  /** The first key with a sequence number. */
  function FindKey(keys: seq<Descriptor>, sequence: bv8): (r: Option<nat>)
    ensures r.Some? ==> r.value < |keys| && keys[r.value].sequence == sequence
    ensures r.Some? ==> forall i :: 0 <= i < r.value ==> keys[i].sequence != sequence
    ensures r.None? ==> forall i :: 0 <= i < |keys| ==> keys[i].sequence != sequence
  {
    FindFrom(keys, sequence, 0)
  }

  function FindFrom(keys: seq<Descriptor>, sequence: bv8, i: nat): (r: Option<nat>)
    requires i <= |keys|
    ensures r.Some? ==> i <= r.value < |keys| && keys[r.value].sequence == sequence
    ensures r.Some? ==> forall j :: i <= j < r.value ==> keys[j].sequence != sequence
    ensures r.None? ==> forall j :: i <= j < |keys| ==> keys[j].sequence != sequence
    decreases |keys| - i
  {
    if i == |keys| then None
    else if keys[i].sequence == sequence then Some(i)
    else FindFrom(keys, sequence, i + 1)
  }

  /** The auxiliary header of an outgoing frame. */
  function OutgoingAux(d: Descriptor, level: SecurityLevel, address: bv64): (aux: Aux)
    ensures AuxHeader.Consistent(aux) && aux.source == Some(address)
  {
    Aux(Control(level, NetworkKey, true), d.outgoing, Some(address), Some(d.sequence))
  }

  /** The bytes of a frame under a descriptor, in a buffer that was zeroed. */
  function SealedFrame(c: Cipher, d: Descriptor, level: SecurityLevel, address: bv64, f: Frame): Octets {
    var aux := OutgoingAux(d, level, address);
    Sealed(c, level, d.key, Nonce(aux).value, HeaderOctets(f.header), AuxOctets(aux), Body(f))
  }

  /** The buffer holds no bit that the bit structures of the frame would join. */
  ghost predicate CleanFor(buf: Octets, f: Frame, aux: Aux) {
    && Clean(buf, HeaderOctets(f.header), 2)
    && (|HeaderOctets(f.header)| <= |buf| ==> Clean(buf[|HeaderOctets(f.header)|..], AuxOctets(aux), 1))
  }

  lemma SealedInCleanBuffer(buf: Octets, c: Cipher, d: Descriptor, level: SecurityLevel, address: bv64, f: Frame)
    requires var aux := OutgoingAux(d, level, address);
             FrameLength(level, HeaderOctets(f.header), aux, Body(f)) <= |buf| && CleanFor(buf, f, aux)
    ensures SealedOver(buf, c, level, d.key, OutgoingAux(d, level, address), HeaderOctets(f.header), 2, Body(f))
            == SealedFrame(c, d, level, address, f)
  {
    hide Joined, Clean, AuxOctets, HeaderOctets, Sealed;
    var aux := OutgoingAux(d, level, address);
    JoinedIffClean(buf, HeaderOctets(f.header), 2);
    JoinedIffClean(buf[|HeaderOctets(f.header)|..], AuxOctets(aux), 1);
  }

  /** The keys after descriptor i has been used once. */
  function Used(keys: seq<Descriptor>, i: nat): (r: seq<Descriptor>)
    requires i < |keys| && keys[i].outgoing != MAX_COUNTER
    ensures |r| == |keys|
  {
    keys[i := keys[i].(outgoing := Successor(keys[i].outgoing))]
  }

  /** The counter of key i went up by one, and nothing else changed. */
  ghost predicate CountedUp(after: seq<Descriptor>, before: seq<Descriptor>, i: nat) {
    i < |before| && after == before[i := before[i].(outgoing := before[i].outgoing + 1)]
  }

  lemma UsedIsCountedUp(keys: seq<Descriptor>, i: nat)
    requires i < |keys| && keys[i].outgoing != MAX_COUNTER
    ensures CountedUp(Used(keys, i), keys, i)
  {
  }

  /** What encrypting under a key answers: a spent counter and a frame without a body fail; then the
      frame must fit, and without the octets of a bit structure its writer panics. */
  ghost predicate AnswersEncrypt(r: Result<nat>, d: Descriptor, f: NwkFrames.Frame, level: SecurityLevel, room: nat) {
    var header := |HeaderOctets(f.header)|;
    if d.outgoing == 0xffff_ffff || f.BareFrame? then r == Err(InvalidData)
    else
      var length := header + 14 + |if f.DataFrame? then f.payload else f.command| + MicLength(level);
      if length <= room then r == Ok(length)
      else r == if room < 2 || room == header then Panic else Err(ParseError)
  }

  lemma EncryptAnswers(r: Result<nat>, d: Descriptor, f: NwkFrames.Frame, level: SecurityLevel, address: bv64,
                       room: nat)
    requires var length := FrameLength(level, HeaderOctets(f.header), OutgoingAux(d, level, address), Body(f));
             if d.outgoing == MAX_COUNTER || f.BareFrame? then r == Err(InvalidData)
             else if length > room then r == NoRoom(room, |HeaderOctets(f.header)|, 2)
             else r == Ok(length)
    ensures AnswersEncrypt(r, d, f, level, room)
  {
    hide HeaderOctets, AuxOctets, ControlOctet;
    AuxWireForm(OutgoingAux(d, level, address));
  }

  /** The octets are the frame sealed under the key, whose sequence number and counter its auxiliary
      header carries along with the sender's address. */
  ghost predicate SentUnder(sent: Octets, before: Octets, c: Cipher, level: SecurityLevel, d: Descriptor, address: bv64,
                            f: NwkFrames.Frame)
  {
    !f.BareFrame?
    && IsSealed(sent, before, c, level, d.key,
                Aux(Control(level, NetworkKey, true), d.outgoing, Some(address), Some(d.sequence)),
                HeaderOctets(f.header), 2, if f.DataFrame? then f.payload else f.command)
  }

  /** The first n octets of the buffer are the sealed frame, the others are as they were. */
  ghost predicate LeftInBuffer(after: Octets, before: Octets, c: Cipher, level: SecurityLevel, d: Descriptor,
                               address: bv64, f: NwkFrames.Frame, n: nat)
  {
    var aux, hdr := OutgoingAux(d, level, address), HeaderOctets(f.header);
    && n == FrameLength(level, hdr, aux, Body(f)) <= |before| == |after|
    && after[..n] == SealedOver(before, c, level, d.key, aux, hdr, 2, Body(f))
    && after[n..] == before[n..]
  }

  lemma LeftIsSentUnder(after: Octets, before: Octets, c: Cipher, level: SecurityLevel, d: Descriptor, address: bv64,
                        f: NwkFrames.Frame, n: nat)
    requires !f.BareFrame? && LeftInBuffer(after, before, c, level, d, address, f, n)
    ensures n <= |after| && SentUnder(after[..n], before, c, level, d, address, f)
  {
    hide IsSealed, SealedOver, HeaderOctets, AuxOctets, MicLength;
    SealedOverIsSealed(before, c, level, d.key, OutgoingAux(d, level, address), HeaderOctets(f.header), 2, Body(f));
  }

  /** The key set and the active sequence number that the stack and its tasks share. */
  class KeyStore {
    var keys: seq<Descriptor>
    var active: bv8

    /** Encrypts a data or command frame with the active key. The counter goes up by one exactly if
        that succeeds; otherwise the keys are unchanged. */
    method MakeEncryptedFrame(c: Cipher, f: Frame, buf: array<bv8>, address: bv64, level: SecurityLevel)
      returns (r: Result<nat>)
      requires Lawful(c)
      modifies this`keys, buf
      ensures !r.Ok? ==> keys == old(keys)
      ensures FindKey(old(keys), active).None? ==> r == Err(KeyNotFound)
      ensures FindKey(old(keys), active).Some? ==>
                var d := old(keys)[FindKey(old(keys), active).value];
                && AnswersEncrypt(r, d, f, level, buf.Length)
                && (r.Ok? <==> && d.outgoing != MAX_COUNTER && !f.BareFrame?
                               && FrameLength(level, HeaderOctets(f.header), OutgoingAux(d, level, address), Body(f))
                                  <= buf.Length)
      ensures r.Ok? ==>
                var i := FindKey(old(keys), active).value;
                && r.value <= buf.Length && old(keys)[i].outgoing != MAX_COUNTER
                && keys == Used(old(keys), i) && CountedUp(keys, old(keys), i)
                && LeftInBuffer(buf[..], old(buf[..]), c, level, old(keys)[i], address, f, r.value)
                && SentUnder(buf[..r.value], old(buf[..]), c, level, old(keys)[i], address, f)
    {
      hide Lawful, HeaderOctets, SealedOver, FrameLength, NoRoom, OutgoingAux, FindKey, Used, CountedUp;
      hide AnswersEncrypt, SentUnder;
      var i := FindKey(keys, active);
      if i.None? {
        return Err(KeyNotFound);
      }
      var d := keys[i.value];
      if d.outgoing == MAX_COUNTER {
        r := Err(InvalidData);
        EncryptAnswers(r, d, f, level, address, buf.Length);
        return;
      }
      var aux := OutgoingAux(d, level, address);
      match f {
        case DataFrame(header, payload) =>
          r := WriteAndEncrypt(c, level, buf, aux, d.key, HeaderOctets(header), 2, payload);
        case CommandFrame(header, command) =>
          r := WriteAndEncrypt(c, level, buf, aux, d.key, HeaderOctets(header), 2, command);
        case BareFrame(_) =>
          r := Err(InvalidData);
      }
      EncryptAnswers(r, d, f, level, address, buf.Length);
      if r.Ok? {
        LeftIsSentUnder(buf[..], old(buf[..]), c, level, d, address, f, r.value);
        UsedIsCountedUp(keys, i.value);
        keys := Used(keys, i.value);
      }
    }
  }

  // ----- decrypting ---------------------------------------------------------------------------

  /** The first counter stored for a sender refuses the frames below it. */
  function Refused(incoming: seq<(bv64, bv32)>, source: bv64, counter: bv32): bool {
    if incoming == [] then false
    else if incoming[0].0 == source then Below(counter, incoming[0].1)
    else Refused(incoming[1..], source, counter)
  }

  /** The counter that counts is the first one stored for the sender. */
  lemma {:induction false} RefusedIff(incoming: seq<(bv64, bv32)>, source: bv64, counter: bv32)
    ensures Refused(incoming, source, counter) <==>
            exists k :: 0 <= k < |incoming| && incoming[k].0 == source && Below(counter, incoming[k].1)
                        && forall j :: 0 <= j < k ==> incoming[j].0 != source
  {
    hide Below;
    if incoming != [] && incoming[0].0 != source {
      RefusedIff(incoming[1..], source, counter);
      if Refused(incoming[1..], source, counter) {
        var k :| 0 <= k < |incoming[1..]| && incoming[1..][k].0 == source && Below(counter, incoming[1..][k].1)
                 && forall j :: 0 <= j < k ==> incoming[1..][j].0 != source;
        assert incoming[k + 1] == incoming[1..][k];
        assert forall j :: 0 < j < k + 1 ==> incoming[j] == incoming[1..][j - 1];
      }
      forall k | 0 < k < |incoming| ensures incoming[k] == incoming[1..][k - 1] {}
    }
  }

  datatype Decrypted =
    | Frame(frame: NwkFrames.Frame, secured: bool)
    | Error(error: SecurityError)
    | Overflow
    | OutOfModel

  function Finish(h: Header, body: Octets, reader: CommandReader, secured: bool): Decrypted {
    var f := FrameOf(h, body, reader);
    if f.None? then Error(ParseError) else Frame(f.value, secured)
  }

  function DecryptedFrame(c: Cipher, keys: seq<Descriptor>, level: SecurityLevel, reader: CommandReader,
                          bytes: Octets): Decrypted
  {
    match ReadHeader(bytes)
    case Malformed => Error(ParseError)
    case NotModelled => OutOfModel
    case Read(h, n) =>
      if !h.control.security then Finish(h, bytes[n..], reader, false)
      else if |bytes| < MicLength(level) then Error(ParseError)
      else
        match ReadAux(bytes[n..])
        case None => Error(ParseError)
        case Some((aux, m)) =>
          if aux.counter == MAX_COUNTER then Error(InvalidData)
          else
            var i := if aux.keySequence.None? then None else FindKey(keys, aux.keySequence.value);
            if i.None? then Error(Unspecified)
            else if aux.source.None? then Error(InvalidData)
            else if Refused(keys[i.value].incoming, aux.source.value, aux.counter) then Error(InvalidData)
            else
              Delivered(Opened(c, level, keys[i.value].key, bytes, n, aux), h, reader)
  }

  function Delivered(body: Result<Octets>, h: Header, reader: CommandReader): Decrypted {
    match body
    case Ok(text) => Finish(h, text, reader, true)
    case Err(e) => Error(e)
    case Panic => Overflow
  }

  /** Whoever holds the sender's key under the same sequence number gets the frame back, exactly if
      the header announces security and no stored counter refuses the frame. */
  lemma DecryptsIff(c: Cipher, d: Descriptor, keys: seq<Descriptor>, level: SecurityLevel, address: bv64,
                    f: NwkFrames.Frame, reader: CommandReader)
    requires Lawful(c) && WellTyped(f, reader) && !f.BareFrame? && d.outgoing != MAX_COUNTER
    requires FindKey(keys, d.sequence).Some? ==> keys[FindKey(keys, d.sequence).value].key == d.key
    ensures DecryptedFrame(c, keys, level, reader, SealedFrame(c, d, level, address, f)) == Frame(f, true)
            <==> && f.header.control.security
                 && FindKey(keys, d.sequence).Some?
                 && !Refused(keys[FindKey(keys, d.sequence).value].incoming, address, d.outgoing)
  {
    hide Lawful, HeaderOctets, AuxOctets, ReadHeader, ReadAux, Opened, Nonce, FindKey, Refused, Sealed, MicLength;
    var aux := OutgoingAux(d, level, address);
    var hdr, bytes := HeaderOctets(f.header), SealedFrame(c, d, level, address, f);
    OpenedSealed(c, d.key, hdr, aux, Body(f));
    assert bytes == hdr + bytes[|hdr|..];
    HeaderRoundTrip(f.header, bytes[|hdr|..]);
  }

  /** End to end: what the sender leaves in a zeroed buffer, the receiver decrypts to the frame. */
  lemma SentFrameIsReceivedIff(buf: Octets, c: Cipher, d: Descriptor, keys: seq<Descriptor>, level: SecurityLevel,
                               address: bv64, f: NwkFrames.Frame, reader: CommandReader)
    requires Lawful(c) && WellTyped(f, reader) && !f.BareFrame? && d.outgoing != MAX_COUNTER
    requires FindKey(keys, d.sequence).Some? ==> keys[FindKey(keys, d.sequence).value].key == d.key
    requires forall i :: 0 <= i < |buf| ==> buf[i] == 0
    requires FrameLength(level, HeaderOctets(f.header), OutgoingAux(d, level, address), Body(f)) <= |buf|
    ensures DecryptedFrame(c, keys, level, reader, SealedOver(buf, c, level, d.key, OutgoingAux(d, level, address),
                                                      HeaderOctets(f.header), 2, Body(f)))
            == Frame(f, true)
            <==> && f.header.control.security
                 && FindKey(keys, d.sequence).Some?
                 && !Refused(keys[FindKey(keys, d.sequence).value].incoming, address, d.outgoing)
  {
    hide Lawful, DecryptedFrame, SealedOver, SealedFrame, Clean, HeaderOctets, AuxOctets;
    var aux := OutgoingAux(d, level, address);
    ZeroedIsClean(buf, HeaderOctets(f.header), 2);
    ZeroedIsClean(buf[|HeaderOctets(f.header)|..], AuxOctets(aux), 1);
    SealedInCleanBuffer(buf, c, d, level, address, f);
    DecryptsIff(c, d, keys, level, address, f, reader);
  }

  /** What is delivered of a header and the octets behind it. */
  ghost predicate Delivers(r: Decrypted, h: Header, body: Octets, reader: CommandReader, secured: bool) {
    match h.control.frameType
    case Data => r == if |body| > 108 then Error(ParseError) else Frame(DataFrame(h, body), secured)
    case NwkCommand =>
      r == (match reader(body)
            case None => Error(ParseError)
            case Some(command) => Frame(CommandFrame(h, command), secured))
    case _ => r == Frame(BareFrame(h), secured)
  }

  /** A secured frame is opened under the first key with the sequence number it carries; a spent
      counter, a missing address and a counter below the one stored for the sender are refused. */
  ghost predicate AnswersSecured(r: Decrypted, c: Cipher, keys: seq<Descriptor>, level: SecurityLevel,
                                 reader: CommandReader, bytes: Octets, h: Header, n: nat, aux: Aux)
    requires n + |AuxOctets(aux)| <= |bytes|
  {
    if aux.counter == 0xffff_ffff then r == Error(InvalidData)
    else if aux.keySequence.None? || FindKey(keys, aux.keySequence.value).None? then r == Error(Unspecified)
    else
      var d := keys[FindKey(keys, aux.keySequence.value).value];
      if aux.source.None? || Refused(d.incoming, aux.source.value, aux.counter) then r == Error(InvalidData)
      else
        match Opened(c, level, d.key, bytes, n, aux)
        case Ok(body) => Delivers(r, h, body, reader, true)
        case Err(e) => r == Error(e)
        case Panic => r == Overflow
  }

  /** What decrypting answers: unreadable headers and a frame shorter than its tag fail, and an
      unsecured frame is delivered as it is. */
  ghost predicate AnswersDecrypt(r: Decrypted, c: Cipher, keys: seq<Descriptor>, level: SecurityLevel,
                                 reader: CommandReader, bytes: Octets)
  {
    match ReadHeader(bytes)
    case Malformed => r == Error(ParseError)
    case NotModelled => r == OutOfModel
    case Read(h, n) =>
      if !h.control.security then Delivers(r, h, bytes[n..], reader, false)
      else if |bytes| < MicLength(level) || ReadAux(bytes[n..]).None? then r == Error(ParseError)
      else AnswersSecured(r, c, keys, level, reader, bytes, h, n, ReadAux(bytes[n..]).value.0)
  }

  lemma DecryptedFrameAnswers(c: Cipher, keys: seq<Descriptor>, level: SecurityLevel, reader: CommandReader,
                              bytes: Octets)
    ensures AnswersDecrypt(DecryptedFrame(c, keys, level, reader, bytes), c, keys, level, reader, bytes)
  {
    hide ReadHeader, ReadAux, AuxOctets, Opened, FindKey, Refused;
  }

  /** Decrypts in place and computes `DecryptedFrame`. */
  method DecryptFrame(c: Cipher, keys: seq<Descriptor>, level: SecurityLevel, reader: CommandReader, buf: array<bv8>)
    returns (r: Decrypted)
    modifies buf
    ensures r == DecryptedFrame(c, keys, level, reader, old(buf[..]))
    ensures AnswersDecrypt(r, c, keys, level, reader, old(buf[..]))
  {
    hide ReadHeader, ReadAux, Opened, FindKey, Refused, Finish, MicLength, AnswersDecrypt;
    DecryptedFrameAnswers(c, keys, level, reader, buf[..]);
    var header := ReadHeader(buf[..]);
    if header.Malformed? {
      return Error(ParseError);
    }
    if header.NotModelled? {
      return OutOfModel;
    }
    var (h, n) := (header.header, header.length);
    if !h.control.security {
      return Finish(h, buf[..][n..], reader, false);
    }
    if buf.Length < MicLength(level) {
      return Error(ParseError);
    }
    var auxRead := ReadAux(buf[..][n..]);
    if auxRead.None? {
      return Error(ParseError);
    }
    var (aux, m) := auxRead.value;
    if aux.counter == MAX_COUNTER {
      return Error(InvalidData);
    }
    var i := if aux.keySequence.None? then None else FindKey(keys, aux.keySequence.value);
    if i.None? {
      return Error(Unspecified);
    }
    if aux.source.None? {
      return Error(InvalidData);
    }
    if Refused(keys[i.value].incoming, aux.source.value, aux.counter) {
      return Error(InvalidData);
    }
    var body := OpenInPlace(c, level, buf, n, aux, keys[i.value].key);
    r := Delivered(body, h, reader);
  }
}
