/** Securing a frame in a buffer and opening it again, around an abstract cipher. */
module SecuredFrames {
  import opened Wrappers
  import opened AuxHeader
  import AesMmo

  type Key = AesMmo.Block

  /** CCM with a given tag length, which appends the tag, and the counter-mode stream. */
  datatype Cipher = Cipher(
    seal: (Key, Octets, Octets, Octets, nat) -> Octets,
    open: (Key, Octets, Octets, Octets, nat) -> Option<Octets>,
    stream: (Key, Octets, Octets) -> Octets)

  /** Opening what was sealed with the same key, nonce and additional data gives the plaintext
      back, and so does applying the stream twice. */
  ghost predicate Lawful(c: Cipher) {
    && (forall key, nonce, aad, text, mic: nat ::
          && |c.seal(key, nonce, aad, text, mic)| == |text| + mic
          && c.open(key, nonce, aad, c.seal(key, nonce, aad, text, mic), mic) == Some(text))
    && (forall key, nonce, text ::
          && |c.stream(key, nonce, text)| == |text|
          && c.stream(key, nonce, c.stream(key, nonce, text)) == text)
  }

  const MAX_COUNTER: bv32 := 0xffff_ffff

  /** The next frame counter. */
  function Successor(counter: bv32): bv32 { counter + 1 }

  predicate Below(x: bv32, y: bv32) { x < y }

  lemma BelowSuccessor(x: bv32, y: bv32)
    ensures y != MAX_COUNTER ==> Below(y, Successor(y))
    ensures Below(x, y) && y != MAX_COUNTER ==> Below(x, Successor(y))
    ensures !Below(x, x)
  {
  }

  datatype SecurityError = InvalidData | ParseError | CcmError | KeyNotFound | Unspecified

  datatype Result<+T> = Ok(value: T) | Err(error: SecurityError) | Panic

  /** Levels without a tag only encrypt. */
  function Encrypt(c: Cipher, level: SecurityLevel, key: Key, nonce: Octets, aad: Octets, text: Octets): Octets {
    if MicLength(level) == 0 then c.stream(key, nonce, text) else c.seal(key, nonce, aad, text, MicLength(level))
  }

  function Decrypt(c: Cipher, mic: nat, key: Key, nonce: Octets, aad: Octets, text: Octets): Option<Octets> {
    if mic == 0 then Some(c.stream(key, nonce, text)) else c.open(key, nonce, aad, text, mic)
  }

  lemma DecryptEncrypt(c: Cipher, level: SecurityLevel, key: Key, nonce: Octets, aad: Octets, text: Octets)
    requires Lawful(c)
    ensures |Encrypt(c, level, key, nonce, aad, text)| == |text| + MicLength(level)
    ensures Decrypt(c, MicLength(level), key, nonce, aad, Encrypt(c, level, key, nonce, aad, text)) == Some(text)
  {
  }

  // ----- bytes written over a buffer ------------------------------------------------------------

  /** Bit structures are written by disjunction: the first n bytes join what the buffer held. */
  function Joined(old': Octets, bytes: Octets, n: nat): (r: Octets)
    requires |bytes| <= |old'|
    ensures |r| == |bytes|
  {
    seq(|bytes|, i requires 0 <= i < |bytes| => if i < n then old'[i] | bytes[i] else bytes[i])
  }

  /** The buffer has no bit where the first n bytes have none. */
  predicate Clean(old': Octets, bytes: Octets, n: nat) {
    forall i :: 0 <= i < n && i < |bytes| && i < |old'| ==> old'[i] | bytes[i] == bytes[i]
  }

  lemma JoinedIffClean(old': Octets, bytes: Octets, n: nat)
    requires |bytes| <= |old'|
    ensures Joined(old', bytes, n) == bytes <==> Clean(old', bytes, n)
  {
    if Joined(old', bytes, n) == bytes {
      forall i | 0 <= i < n && i < |bytes| ensures old'[i] | bytes[i] == bytes[i] {
        assert Joined(old', bytes, n)[i] == bytes[i];
      }
    }
  }

  lemma ZeroedIsClean(old': Octets, bytes: Octets, n: nat)
    requires forall i :: 0 <= i < |old'| ==> old'[i] == 0
    ensures Clean(old', bytes, n)
  {
  }

  /** The buffer after bytes are written over it at an offset. */
  function Over(buf: Octets, start: nat, bytes: Octets, n: nat): (r: Octets)
    requires start + |bytes| <= |buf|
    ensures |r| == |buf|
  {
    buf[..start] + Joined(buf[start..], bytes, n) + buf[start + |bytes|..]
  }

  /** Why bytes do not fit where `room` is left: a bit structure indexes its octets unchecked. */
  function Misfit(room: nat, n: nat): Result<nat> { if room < n then Panic else Err(ParseError) }

  /** How securing fails without enough room: in the bit structure of the header or the auxiliary
      header, or anywhere else. */
  function NoRoom(room: nat, hdrLength: nat, n: nat): Result<nat> {
    if room < hdrLength then Misfit(room, n) else Misfit(room - hdrLength, 1)
  }

  method Put(buf: array<bv8>, start: nat, bytes: Octets, n: nat) returns (ok: bool)
    requires start <= buf.Length
    modifies buf
    ensures ok <==> start + |bytes| <= buf.Length
    ensures ok ==> buf[..] == Over(old(buf[..]), start, bytes, n)
  {
    ok := |bytes| <= buf.Length - start;
    if ok {
      for i := 0 to |bytes|
        invariant forall k :: 0 <= k < i ==>
                    buf[start + k] == if k < n then old(buf[start + k]) | bytes[k] else bytes[k]
        invariant forall k :: 0 <= k < buf.Length && !(start <= k < start + i) ==> buf[k] == old(buf[k])
      {
        buf[start + i] := if i < n then buf[start + i] | bytes[i] else bytes[i];
      }
      assert buf[..] == Over(old(buf[..]), start, bytes, n);
    }
  }

  // ----- securing -----------------------------------------------------------------------------

  /** The auxiliary header on the wire has its security level cleared. */
  function WithoutLevel(auxBytes: Octets): (r: Octets)
    requires auxBytes != []
    ensures |r| == |auxBytes|
  {
    [auxBytes[0] & 0xf8] + auxBytes[1..]
  }

  /** Header, auxiliary header without level, and the payload encrypted under both headers. */
  function Sealed(c: Cipher, level: SecurityLevel, key: Key, nonce: Octets, hdr: Octets, auxBytes: Octets,
                  payload: Octets): Octets
    requires auxBytes != []
  {
    hdr + WithoutLevel(auxBytes) + Encrypt(c, level, key, nonce, hdr + auxBytes, payload)
  }

  function FrameLength(level: SecurityLevel, hdr: Octets, aux: Aux, payload: Octets): nat {
    |hdr| + |AuxOctets(aux)| + |payload| + MicLength(level)
  }

  /** The frame that securing leaves in a buffer, given what the buffer held. */
  function SealedOver(buf: Octets, c: Cipher, level: SecurityLevel, key: Key, aux: Aux, hdr: Octets, n: nat,
                      payload: Octets): Octets
    requires aux.source.Some? && FrameLength(level, hdr, aux, payload) <= |buf|
  {
    Sealed(c, level, key, Nonce(aux).value, Joined(buf, hdr, n), Joined(buf[|hdr|..], AuxOctets(aux), 1), payload)
  }

  /** Writes header, auxiliary header, payload and room for the tag, and encrypts in place. The
      first n header bytes and the security control are bit structures. */
  method WriteAndEncrypt(c: Cipher, level: SecurityLevel, buf: array<bv8>, aux: Aux, key: Key, hdr: Octets, n: nat,
                         payload: Octets)
    returns (r: Result<nat>)
    requires Lawful(c)
    modifies buf
    ensures r.Ok? <==> aux.source.Some? && FrameLength(level, hdr, aux, payload) <= buf.Length
    ensures !r.Ok? ==> r == if aux.source.None? then Err(InvalidData) else NoRoom(buf.Length, |hdr|, n)
    ensures r.Ok? ==> r.value == FrameLength(level, hdr, aux, payload)
                      && buf[..r.value] == SealedOver(old(buf[..]), c, level, key, aux, hdr, n, payload)
                      && buf[r.value..] == old(buf[r.value..])
  {
    hide AuxOctets, Nonce, Lawful, Encrypt, Joined, Blank, MicLength;
    var nonce := CreateNonce(aux);
    if nonce.None? {
      return Err(InvalidData);
    }
    ghost var before := buf[..];
    var len := LayOut(level, buf, AuxOctets(aux), hdr, n, payload);
    if !len.Ok? {
      return len;
    }
    ghost var H, A := Joined(before, hdr, n), Joined(before[|hdr|..], AuxOctets(aux), 1);
    var payloadOffset := |hdr| + |AuxOctets(aux)|;
    ghost var laidOut := buf[..];
    PartsOf(laidOut, H, A, payload, Blank(MicLength(level)), before[len.value..]);
    EncryptFrom(c, level, buf, payloadOffset, len.value, nonce.value, key);
    ghost var text := Encrypt(c, level, key, nonce.value, H + A, payload);
    ghost var encrypted := buf[..];
    ClearedLevel(encrypted, H, A, text, before[len.value..]);
    buf[|hdr|] := buf[|hdr|] & 0xf8;
    assert buf[..] == encrypted[|H| := A[0] & 0xf8];
    r := Ok(len.value);
  }

  lemma ClearedLevel(buf: Octets, h: Octets, a: Octets, text: Octets, rest: Octets)
    requires a != [] && buf == h + a + text + rest
    ensures var r := buf[|h| := a[0] & 0xf8];
            var len := |h| + |a| + |text|;
            buf[|h|] == a[0] && r[..len] == h + WithoutLevel(a) + text && r[len..] == rest
  {
  }

  lemma PartsOf(buf: Octets, h: Octets, a: Octets, payload: Octets, room: Octets, rest: Octets)
    requires buf == h + a + payload + room + rest
    ensures var m, k := |h| + |a|, |h| + |a| + |payload|;
            buf[..m] == h + a && buf[m..k] == payload && buf[k + |room|..] == rest
  {
  }

  lemma OverAppend(old': Octets, prefix: Octets, bytes: Octets, n: nat)
    requires |prefix| + |bytes| <= |old'|
    ensures Over(prefix + old'[|prefix|..], |prefix|, bytes, n)
            == prefix + Joined(old'[|prefix|..], bytes, n) + old'[|prefix + bytes|..]
  {
    assert (prefix + old'[|prefix|..])[|prefix|..] == old'[|prefix|..];
  }

  lemma JoinedNone(old': Octets, bytes: Octets)
    requires |bytes| <= |old'|
    ensures Joined(old', bytes, 0) == bytes
  {
  }

  function Blank(n: nat): (r: Octets)
    ensures |r| == n
  {
    seq(n, _ => 0)
  }

  /** Writes the parts one behind the other, and zeros for the tag. */
  method LayOut(level: SecurityLevel, buf: array<bv8>, auxBytes: Octets, hdr: Octets, n: nat, payload: Octets)
    returns (r: Result<nat>)
    requires auxBytes != []
    modifies buf
    ensures r.Ok? <==> |hdr| + |auxBytes| + |payload| + MicLength(level) <= buf.Length
    ensures !r.Ok? ==> r == NoRoom(buf.Length, |hdr|, n)
    ensures r.Ok? ==>
              && r.value == |hdr| + |auxBytes| + |payload| + MicLength(level)
              && buf[..] == Joined(old(buf[..]), hdr, n) + Joined(old(buf[|hdr|..]), auxBytes, 1) + payload
                            + Blank(MicLength(level)) + old(buf[r.value..])
  {
    hide Joined, Over, MicLength, Blank;
    var blank := Blank(MicLength(level));
    ghost var before := buf[..];
    var ok := Put(buf, 0, hdr, n);
    if !ok {
      return Misfit(buf.Length, n);
    }
    ok := Put(buf, |hdr|, auxBytes, 1);
    if !ok {
      return Misfit(buf.Length - |hdr|, 1);
    }
    ok := Put(buf, |hdr| + |auxBytes|, payload, 0);
    if !ok {
      return Err(ParseError);
    }
    ok := Put(buf, |hdr| + |auxBytes| + |payload|, blank, 0);
    if !ok {
      return Err(ParseError);
    }
    LaidOut(before, hdr, n, auxBytes, payload, blank);
    assert before[|hdr|..] == old(buf[|hdr|..]);
    r := Ok(|hdr| + |auxBytes| + |payload| + |blank|);
    assert before[r.value..] == old(buf[r.value..]);
  }

  lemma LaidOut(old': Octets, hdr: Octets, n: nat, auxBytes: Octets, payload: Octets, blank: Octets)
    requires |hdr| + |auxBytes| + |payload| + |blank| <= |old'|
    ensures Over(Over(Over(Over(old', 0, hdr, n), |hdr|, auxBytes, 1), |hdr| + |auxBytes|, payload, 0),
                 |hdr| + |auxBytes| + |payload|, blank, 0)
            == Joined(old', hdr, n) + Joined(old'[|hdr|..], auxBytes, 1) + payload + blank
               + old'[|hdr| + |auxBytes| + |payload| + |blank|..]
  {
    hide Joined, Over;
    assert old'[0..] == old' == [] + old'[0..];
    OverAppend(old', [], hdr, n);
    var h := Joined(old', hdr, n);
    assert [] + h == h;
    OverAppend(old', h, auxBytes, 1);
    var ha := h + Joined(old'[|hdr|..], auxBytes, 1);
    OverAppend(old', ha, payload, 0);
    JoinedNone(old'[|ha|..], payload);
    var hap := ha + payload;
    OverAppend(old', hap, blank, 0);
    JoinedNone(old'[|hap|..], blank);
  }

  /** Encrypts the bytes up to the room for the tag, with all bytes before them as additional data. */
  method EncryptFrom(c: Cipher, level: SecurityLevel, buf: array<bv8>, start: nat, end: nat, nonce: Octets, key: Key)
    requires Lawful(c) && start + MicLength(level) <= end <= buf.Length
    modifies buf
    ensures buf[..] == old(buf[..start])
                       + Encrypt(c, level, key, nonce, old(buf[..start]), old(buf[start..end - MicLength(level)]))
                       + old(buf[end..])
  {
    var text := Encrypt(c, level, key, nonce, buf[..start], buf[start..end - MicLength(level)]);
    var ok := Put(buf, start, text, 0);
    assert Joined(old(buf[start..]), text, 0) == text;
  }

  // ----- opening ------------------------------------------------------------------------------

  function WithLevel(aux: Aux, level: SecurityLevel): (r: Aux)
    ensures r.source == aux.source && |AuxOctets(r)| == |AuxOctets(aux)|
    ensures Consistent(r) <==> Consistent(aux)
  {
    aux.(control := aux.control.(level := level))
  }

  /** Restores the security level in the auxiliary header and decrypts what follows it. A frame
      too short for its tag makes the subtraction overflow. */
  function Opened(c: Cipher, level: SecurityLevel, key: Key, bytes: Octets, hdrLen: nat, aux: Aux): Result<Octets>
    requires aux.source.Some? && hdrLen + |AuxOctets(aux)| <= |bytes|
  {
    var auxBytes := Joined(bytes[hdrLen..], AuxOctets(WithLevel(aux, level)), 1);
    var start := hdrLen + |auxBytes|;
    if |bytes| - start < MicLength(level) then Panic
    else
      match Decrypt(c, MicLength(level), key, Nonce(WithLevel(aux, level)).value,
                    bytes[..hdrLen] + auxBytes, bytes[start..])
      case None => Err(CcmError)
      case Some(text) => Ok(text)
  }

  /** What was sealed under a header carrying the level is opened again by whoever restores it. */
  lemma OpenedSealed(c: Cipher, key: Key, hdr: Octets, aux: Aux, payload: Octets)
    requires Lawful(c) && Consistent(aux) && aux.source.Some?
    ensures var level := aux.control.level;
            var bytes := Sealed(c, level, key, Nonce(aux).value, hdr, AuxOctets(aux), payload);
            var onWire := WithLevel(aux, NoSecurity);
            && |bytes| == FrameLength(level, hdr, aux, payload)
            && bytes[..|hdr|] == hdr
            && ReadAux(bytes[|hdr|..]) == Some((onWire, |AuxOctets(aux)|))
            && Opened(c, level, key, bytes, |hdr|, onWire) == Ok(payload)
  {
    hide Lawful, Encrypt, Decrypt, Nonce, ControlOctet, MicLength, ReadAux, AuxTail, Joined;
    var level := aux.control.level;
    var auxBytes := AuxOctets(aux);
    var bytes := Sealed(c, level, key, Nonce(aux).value, hdr, auxBytes, payload);
    var onWire := WithLevel(aux, NoSecurity);
    var text := Encrypt(c, level, key, Nonce(aux).value, hdr + auxBytes, payload);
    DecryptEncrypt(c, level, key, Nonce(aux).value, hdr + auxBytes, payload);
    LevelIsCleared(aux);
    assert bytes[..|hdr|] == hdr && bytes[|hdr|..] == AuxOctets(onWire) + text;
    AuxRoundTrip(onWire, text);
    assert WithLevel(onWire, level) == aux;
    LevelIsRestored(aux, bytes[|hdr|..]);
    assert bytes[|hdr| + |auxBytes|..] == text;
  }

  lemma LevelIsCleared(aux: Aux)
    ensures WithoutLevel(AuxOctets(aux)) == AuxOctets(WithLevel(aux, NoSecurity))
  {
    hide Le32, Le64, ControlOctet;
    ControlRoundTrip(aux.control);
    assert AuxTail(aux) == AuxTail(WithLevel(aux, NoSecurity));
  }

  lemma LevelIsRestored(aux: Aux, bytes: Octets)
    requires |AuxOctets(aux)| <= |bytes| && bytes[0] == ControlOctet(aux.control.(level := NoSecurity))
    ensures Joined(bytes, AuxOctets(aux), 1) == AuxOctets(aux)
  {
    hide AuxTail, ControlOctet;
    ControlRoundTrip(aux.control);
    assert Clean(bytes, AuxOctets(aux), 1);
    JoinedIffClean(bytes, AuxOctets(aux), 1);
  }

  /** Opens a frame in place. */
  method OpenInPlace(c: Cipher, level: SecurityLevel, buf: array<bv8>, hdrLen: nat, aux: Aux, key: Key)
    returns (r: Result<Octets>)
    requires aux.source.Some? && hdrLen + |AuxOctets(aux)| <= buf.Length
    modifies buf
    ensures r == Opened(c, level, key, old(buf[..]), hdrLen, aux)
    ensures r.Ok? ==> buf[..hdrLen] == old(buf[..hdrLen])
  {
    hide Joined, AuxOctets, Nonce, Decrypt, MicLength;
    var restored := WithLevel(aux, level);
    var ok := Put(buf, hdrLen, AuxOctets(restored), 1);
    var start := hdrLen + |AuxOctets(aux)|;
    ghost var auxBytes := Joined(old(buf[hdrLen..]), AuxOctets(restored), 1);
    assert buf[..start] == old(buf[..hdrLen]) + auxBytes && buf[start..] == old(buf[start..]);
    if buf.Length - start < MicLength(level) {
      return Panic;
    }
    var nonce := CreateNonce(restored);
    var text := Decrypt(c, MicLength(level), key, nonce.value, buf[..start], buf[start..]);
    r := if text.None? then Err(CcmError) else Ok(text.value);
    SameParts(old(buf[..]), old(buf[..hdrLen]), old(buf[hdrLen..]), old(buf[start..]), hdrLen, start);
  }

  lemma SameParts(bytes: Octets, a: Octets, b: Octets, d: Octets, m: nat, k: nat)
    requires m <= |bytes| && k <= |bytes|
    requires |a| == m && |b| == |bytes| - m && |d| == |bytes| - k
    requires forall i :: 0 <= i < |a| ==> a[i] == bytes[i]
    requires forall i :: 0 <= i < |b| ==> b[i] == bytes[m + i]
    requires forall i :: 0 <= i < |d| ==> d[i] == bytes[k + i]
    ensures a == bytes[..m] && b == bytes[m..] && d == bytes[k..]
  {
  }
}
