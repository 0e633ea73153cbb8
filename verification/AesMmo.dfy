/** The AES-MMO hash (Zigbee specification, annex B.6) around an abstract block cipher, and the
    keyed hash built on it (RFC 2104, section 2). */
module AesMmo {
  import opened Bytes

  type Block = b: seq<Byte> | |b| == 16 witness seq(16, _ => 0)

  type BlockCipher = (Block, Block) -> Block

  /** A hash, the error of a message over the threshold, or the panic on a pad offset below zero. */
  datatype Hash = Hash(block: Block) | InvalidData | Panic {
    predicate IsFailure() { !Hash? }

    function PropagateFailure(): Hash
      requires !Hash?
    {
      this
    }

    function Extract(): Block
      requires Hash?
    {
      block
    }
  }

  const PADDING_THRESHOLD: nat := 0x1_0000

  function Zeros(n: nat): (r: seq<Byte>)
    ensures |r| == n && forall i :: 0 <= i < n ==> r[i] == 0
  {
    seq(n, _ => 0)
  }

  function ZeroBlock(): Block { Zeros(16) }

  function ToBits(a: Byte): bv8 { a as bv8 }

  function XorBits(x: bv8, y: bv8): bv8 { x ^ y }

  function XorByte(a: Byte, b: Byte): Byte { XorBits(ToBits(a), ToBits(b)) as nat }

  /** Exclusive or works on the binary digits one by one. */
  lemma XorIsDigitwise(x: bv8, y: bv8)
    ensures XorByte(x as nat, y as nat) / 2 == XorByte((x >> 1) as nat, (y >> 1) as nat)
    ensures XorByte(x as nat, y as nat) % 2 == if x & 1 == y & 1 then 0 else 1
    ensures XorByte(0, 0) == 0
  {
    hide ToBits, XorBits;
    BitsBack(x);
    BitsBack(y);
    BitsBack(x >> 1);
    BitsBack(y >> 1);
    XorParts(x, y);
    Halves(XorBits(x, y));
    XorParts(ToBits(0), ToBits(0));
  }

  lemma BitsBack(x: bv8)
    ensures ToBits(x as nat) == x
  {
  }

  lemma Halves(x: bv8)
    ensures (x >> 1) as nat == x as nat / 2 && (x & 1) as nat == x as nat % 2
  {
  }

  lemma XorParts(x: bv8, y: bv8)
    ensures XorBits(x, y) >> 1 == XorBits(x >> 1, y >> 1)
    ensures XorBits(x, y) & 1 == if x & 1 == y & 1 then 0 else 1
    ensures XorBits(x, x) == 0
  {
  }

  function Xor(a: Block, b: Block): Block {
    seq(16, i requires 0 <= i < 16 => XorByte(a[i], b[i]))
  }

  // ----- padding ------------------------------------------------------------------------------

  /** Rust's remainder, which takes the sign of the dividend. */
  function TruncatedRemainder(a: int, b: int): int
    requires b > 0
  {
    if a >= 0 then a % b else -(-a % b)
  }

  /** Where the length field goes in the pad; below zero for messages of residue 15. */
  function PadOffset(length: nat): int { TruncatedRemainder(14 - length % 16, 16) }

  /** The bit length cast to sixteen bits, high byte first. */
  function LengthField(length: nat): (r: seq<Byte>)
    ensures |r| == 2
  {
    var bits := length * 8 % 0x1_0000;
    [bits / 0x100, bits % 0x100]
  }

  /** The pad as the code leaves it: 0x80 is written first, the length field over it. */
  function Pad(length: nat): (r: seq<Byte>)
    requires PadOffset(length) >= 0
    ensures |r| == PadOffset(length) + 2
  {
    var first := [0x80] + Zeros(17);
    first[..PadOffset(length)] + LengthField(length)
  }

  function Padded(data: seq<Byte>): seq<Byte>
    requires PadOffset(|data|) >= 0
  {
    data + Pad(|data|)
  }

  lemma PadOffsetIs(length: nat)
    ensures PadOffset(length) == 14 - length % 16
    ensures PadOffset(length) < 0 <==> length % 16 == 15
  {
  }

  /** The pad in plain numbers: a one bit and zeros as far as there is room, then the length in bits. */
  function PlainPad(length: nat): seq<Byte>
    requires length % 16 != 15
  {
    (if length % 16 == 14 then [] else [0x80] + Zeros(13 - length % 16))
    + [length * 8 / 0x100 % 0x100, length * 8 % 0x100]
  }

  lemma PadIsPlain(length: nat)
    requires length % 16 != 15
    ensures PadOffset(length) >= 0 && Pad(length) == PlainPad(length)
  {
    hide TruncatedRemainder;
    PadOffsetIs(length);
    LowBytes(length * 8);
  }

  lemma LowBytes(bits: nat)
    ensures bits % 0x1_0000 / 0x100 == bits / 0x100 % 0x100 && bits % 0x1_0000 % 0x100 == bits % 0x100
  {
  }

  /** The padded message is a whole number of blocks, one more than the message has in full, and
      ends with the length field. */
  lemma PaddedIsWhole(data: seq<Byte>)
    requires PadOffset(|data|) >= 0
    ensures |Padded(data)| == 16 * (|data| / 16 + 1)
    ensures Padded(data)[|Padded(data)| - 2..] == LengthField(|data|)
    ensures Padded(data)[..|data|] == data
  {
    PadOffsetIs(|data|);
  }

  /** A number as four bytes, high byte first. */
  function BigEndian32(x: nat): (r: seq<Byte>)
    ensures |r| == 4
  {
    [x / 0x100_0000 % 0x100, x / 0x1_0000 % 0x100, x / 0x100 % 0x100, x % 0x100]
  }

  /** Annex B.6. Below 2^16 bits: a one bit, as few zero bits as fill the block up to its last two
      bytes, and the length in bits. From there on: a one bit, as few zero bits as fill the block up
      to its last six bytes, the length in 32 bits, and two zero bytes. */
  ghost predicate IsStandardPad(length: nat, pad: seq<Byte>) {
    if length * 8 < 0x1_0000 then
      exists k: nat ::
        && k < 16 && (length + 1 + k) % 16 == 14
        && pad == [0x80] + Zeros(k) + LengthField(length)
    else
      exists k: nat ::
        && k < 16 && (length + 1 + k) % 16 == 10
        && pad == [0x80] + Zeros(k) + BigEndian32(length * 8) + [0, 0]
  }

  /** Of all messages the code accepts, it pads exactly those as annex B.6 does that are shorter
      than 8192 bytes and of a length of at most 13 modulo 16. */
  lemma PadIsStandardIff(length: nat)
    requires length < PADDING_THRESHOLD
    ensures PadOffset(length) >= 0 && IsStandardPad(length, Pad(length)) <==> length < 0x2000 && length % 16 <= 13
  {
    PadOffsetIs(length);
    if length >= 0x2000 {
      LongPadIsNotStandard(length);
    } else if length % 16 <= 13 {
      var k := 13 - length % 16;
      assert Pad(length) == [0x80] + Zeros(k) + LengthField(length);
    } else if length % 16 == 14 {
      assert |Pad(length)| == 2;
    }
  }

  /** From 8192 bytes on the high half of the length is missing. */
  lemma LongPadIsNotStandard(length: nat)
    requires 0x2000 <= length < PADDING_THRESHOLD
    ensures PadOffset(length) >= 0 ==> !IsStandardPad(length, Pad(length))
  {
    hide LengthField, TruncatedRemainder, BigEndian32;
    PadOffsetIs(length);
    if PadOffset(length) >= 0 {
      forall k: nat | k < 16 && (length + 1 + k) % 16 == 10
        ensures Pad(length) != [0x80] + Zeros(k) + BigEndian32(length * 8) + [0, 0]
      {
        var standard := [0x80] + Zeros(k) + BigEndian32(length * 8) + [0, 0];
        ZerosOfLongPad(length, k);
        if |Pad(length)| == |standard| {
          HighHalfIsNotZero(length * 8);
          assert standard[k + 2] == BigEndian32(length * 8)[1];
          assert Pad(length)[k + 2] == 0;
        }
      }
    }
  }

  lemma ZerosOfLongPad(length: nat, k: nat)
    requires k < 16 && (length + 1 + k) % 16 == 10
    ensures length % 16 <= 9 ==> k == 9 - length % 16
    ensures length % 16 > 9 ==> k + 7 != 16 - length % 16
  {
  }

  lemma HighHalfIsNotZero(bits: nat)
    requires 0x1_0000 <= bits < 0x8_0000
    ensures BigEndian32(bits)[1] != 0
  {
  }

  lemma LengthFieldDetermines(m: nat, n: nat)
    requires LengthField(m) == LengthField(n)
    ensures m % 0x2000 == n % 0x2000
  {
    var a, b := m * 8 % 0x1_0000, n * 8 % 0x1_0000;
    assert LengthField(m)[0] == a / 0x100 && LengthField(m)[1] == a % 0x100;
    assert LengthField(n)[0] == b / 0x100 && LengthField(n)[1] == b % 0x100;
    BitLength(m);
    BitLength(n);
  }

  lemma BitLength(m: nat)
    ensures m * 8 % 0x1_0000 == 8 * (m % 0x2000)
  {
    var q, r := m / 0x2000, m % 0x2000;
    assert m * 8 == 0x1_0000 * q + 8 * r;
  }

  /** Padding never makes two messages equal. */
  lemma PaddingIsInjective(a: seq<Byte>, b: seq<Byte>)
    requires PadOffset(|a|) >= 0 && PadOffset(|b|) >= 0
    requires Padded(a) == Padded(b)
    ensures a == b
  {
    PaddedIsWhole(a);
    PaddedIsWhole(b);
    LengthFieldDetermines(|a|, |b|);
    SameLength(|a|, |b|);
  }

  lemma SameLength(m: nat, n: nat)
    requires m / 16 == n / 16 && m % 0x2000 == n % 0x2000
    ensures m == n
  {
    assert m % 16 == (m % 0x2000) % 16 && n % 16 == (n % 0x2000) % 16;
  }

  // ----- hashing ------------------------------------------------------------------------------

  /** One step of the Matyas-Meyer-Oseas construction. */
  function Step(encrypt: BlockCipher, state: Block, block: Block): Block {
    Xor(encrypt(state, block), block)
  }

  /** The steps over the blocks of a message, in order. */
  function Fold(encrypt: BlockCipher, state: Block, data: seq<Byte>): Block
    requires |data| % 16 == 0
  {
    if data == [] then state
    else Step(encrypt, Fold(encrypt, state, data[..|data| - 16]), data[|data| - 16..])
  }

  /** The hash continued from a state over one message. */
  function Hashed(encrypt: BlockCipher, state: Block, data: seq<Byte>): Hash {
    if |data| >= PADDING_THRESHOLD then InvalidData
    else if PadOffset(|data|) < 0 then Panic
    else
      PaddedIsWhole(data);
      Hash(Fold(encrypt, state, Padded(data)))
  }

  function Digest(encrypt: BlockCipher, data: seq<Byte>): Hash { Hashed(encrypt, ZeroBlock(), data) }

  lemma HashedIff(encrypt: BlockCipher, state: Block, data: seq<Byte>)
    ensures Hashed(encrypt, state, data).Hash? <==> |data| < 0x1_0000 && |data| % 16 != 15
  {
    PadOffsetIs(|data|);
  }

  /** The bytes of block i of a message. */
  function BlockAt(whole: seq<Byte>, i: nat): Block
    requires 16 * i + 16 <= |whole|
  {
    whole[16 * i..16 * i + 16]
  }

  /** The states run from the first to the last, one for every block: each is the block encrypted
      under the state before it, and the block joined in by exclusive or. */
  ghost predicate Chain(encrypt: BlockCipher, states: seq<Block>, whole: seq<Byte>) {
    && |states| == |whole| / 16 + 1
    && forall i, j :: 0 <= i < |whole| / 16 && 0 <= j < 16 ==>
         states[i + 1][j] == XorByte(encrypt(states[i], BlockAt(whole, i))[j], BlockAt(whole, i)[j])
  }

  ghost predicate Chained(encrypt: BlockCipher, start: Block, whole: seq<Byte>, end: Block) {
    exists states :: Chain(encrypt, states, whole) && states[0] == start && states[|states| - 1] == end
  }

  lemma {:induction false} FoldIsChained(encrypt: BlockCipher, start: Block, whole: seq<Byte>)
    requires |whole| % 16 == 0
    ensures Chained(encrypt, start, whole, Fold(encrypt, start, whole))
    decreases |whole|
  {
    if whole == [] {
      assert Chain(encrypt, [start], whole);
    } else {
      var n := |whole| - 16;
      var head, block := whole[..n], whole[n..];
      FoldIsChained(encrypt, start, head);
      var states :| Chain(encrypt, states, head) && states[0] == start
                    && states[|states| - 1] == Fold(encrypt, start, head);
      ChainGrows(encrypt, states, whole);
      var longer := states + [Step(encrypt, states[|states| - 1], block)];
      assert longer[0] == start && longer[|longer| - 1] == Fold(encrypt, start, whole);
    }
  }

  lemma ChainGrows(encrypt: BlockCipher, states: seq<Block>, whole: seq<Byte>)
    requires |whole| % 16 == 0 && whole != [] && Chain(encrypt, states, whole[..|whole| - 16])
    ensures Chain(encrypt, states + [Step(encrypt, states[|states| - 1], whole[|whole| - 16..])], whole)
  {
    hide XorByte;
    var head, m := whole[..|whole| - 16], |whole| / 16 - 1;
    var longer := states + [Step(encrypt, states[|states| - 1], whole[|whole| - 16..])];
    forall i, j | 0 <= i <= m && 0 <= j < 16
      ensures longer[i + 1][j] == XorByte(encrypt(longer[i], BlockAt(whole, i))[j], BlockAt(whole, i)[j])
    {
      assert i < m ==> BlockAt(whole, i) == BlockAt(head, i);
      assert BlockAt(whole, m) == whole[|whole| - 16..];
    }
  }

  /** What hashing a message from a state gives: the end of the chain over the padded message,
      or the failure for its length. */
  ghost predicate IsHash(encrypt: BlockCipher, start: Block, data: seq<Byte>, h: Hash) {
    if |data| >= 0x1_0000 then h == InvalidData
    else if |data| % 16 == 15 then h == Panic
    else h.Hash? && Chained(encrypt, start, data + PlainPad(|data|), h.block)
  }

  lemma HashedIsHash(encrypt: BlockCipher, start: Block, data: seq<Byte>)
    ensures IsHash(encrypt, start, data, Hashed(encrypt, start, data))
  {
    hide Pad, Fold, Chained, PlainPad;
    PadOffsetIs(|data|);
    if |data| % 16 != 15 {
      PadIsPlain(|data|);
      PaddedIsWhole(data);
      FoldIsChained(encrypt, start, Padded(data));
    }
  }

  class Aes128Mmo {
    const encrypt: BlockCipher
    var state: Block

    constructor (encrypt: BlockCipher)
      ensures this.encrypt == encrypt && state == ZeroBlock()
    {
      this.encrypt := encrypt;
      state := ZeroBlock();
    }

    /** Pads the message and folds it into the state. The outcome is the new state, or the failure
        that left the state as it was. */
    method Update(data: seq<Byte>) returns (outcome: Hash)
      modifies this`state
      ensures outcome == Hashed(encrypt, old(state), data)
      ensures IsHash(encrypt, old(state), data, outcome)
      ensures state == if outcome.Hash? then outcome.block else old(state)
    {
      hide Padded, Fold, PadOffset, IsHash;
      HashedIsHash(encrypt, state, data);
      if |data| >= PADDING_THRESHOLD {
        return InvalidData;
      }
      if PadOffset(|data|) < 0 {
        return Panic;
      }
      PaddedIsWhole(data);
      Absorb(Padded(data));
      outcome := Hash(state);
    }

    /** Folds the bytes of one iterator, the message and its pad, block by block into the state. */
    method Absorb(whole: seq<Byte>)
      requires |whole| % 16 == 0
      modifies this`state
      ensures state == Fold(encrypt, old(state), whole)
      ensures Chained(encrypt, old(state), whole, state)
    {
      FoldIsChained(encrypt, state, whole);
      assert Fold(encrypt, state, whole[..0]) == state;
      hide Fold, Step, Zeros, Chained;
      var i := 0;
      while i < |whole|
        invariant i <= |whole| && i % 16 == 0
        invariant state == Fold(encrypt, old(state), whole[..i])
      {
        BlocksFit(i, |whole|);
        FoldStep(encrypt, old(state), whole, i);
        var block;
        block, i := NextBlock(whole, i);
        state := MixBlock(encrypt, state, block);
      }
      assert whole[..i] == whole;
    }
  }

  /** Takes up to sixteen bytes from the iterator, which stands at `start`. */
  method NextBlock(whole: seq<Byte>, start: nat) returns (block: Block, i: nat)
    requires start <= |whole|
    ensures i == if start + 16 <= |whole| then start + 16 else |whole|
    ensures block == whole[start..i] + Zeros(16 - (i - start))
    ensures i == start + 16 ==> block == whole[start..i]
  {
    var bytes: seq<Byte> := Zeros(16);
    i := start;
    for b := 0 to 16
      invariant i == if start + b <= |whole| then start + b else |whole|
      invariant bytes == whole[start..i] + Zeros(16 - (i - start))
    {
      if i < |whole| {
        bytes := bytes[b := whole[i]];
        i := i + 1;
      }
    }
    block := bytes;
  }

  method MixBlock(encrypt: BlockCipher, state: Block, block: Block) returns (next: Block)
    ensures next == Step(encrypt, state, block)
  {
    hide XorByte;
    var encrypted := encrypt(state, block);
    var bytes: seq<Byte> := state;
    for b := 0 to 16
      invariant |bytes| == 16 && forall j :: 0 <= j < b ==> bytes[j] == XorByte(encrypted[j], block[j])
    {
      bytes := bytes[b := XorByte(encrypted[b], block[b])];
    }
    next := bytes;
  }

  lemma BlocksFit(i: nat, n: nat)
    requires i % 16 == 0 && n % 16 == 0 && i < n
    ensures i + 16 <= n && (i + 16) % 16 == 0
  {
  }

  lemma FoldStep(encrypt: BlockCipher, state: Block, whole: seq<Byte>, start: nat)
    requires start + 16 <= |whole| && start % 16 == 0
    ensures Fold(encrypt, state, whole[..start + 16])
            == Step(encrypt, Fold(encrypt, state, whole[..start]), whole[start..start + 16])
  {
    hide Step;
    var head := whole[..start + 16];
    assert head[..|head| - 16] == whole[..start] && head[|head| - 16..] == whole[start..start + 16];
  }

  // ----- the keyed hash -----------------------------------------------------------------------

  const IPAD: Byte := 0x36
  const OPAD: Byte := 0x5c

  function Repeated(b: Byte): Block { seq(16, _ => b) }

  /** RFC 2104, section 2, for a block length of 16 bytes and a key of at least that length. */
  function Rfc2104(encrypt: BlockCipher, key: seq<Byte>, data: seq<Byte>): Hash
    requires |key| >= 16
  {
    var k :- if |key| == 16 then Hash(key) else Digest(encrypt, key);
    var inner :- Digest(encrypt, Xor(k, Repeated(IPAD)) + data);
    Digest(encrypt, Xor(k, Repeated(OPAD)) + inner)
  }

  ghost predicate Joined(pad: Block, key: Block, b: Byte) {
    forall j :: 0 <= j < 16 ==> pad[j] == XorByte(key[j], b)
  }

  /** The keyed hash in plain numbers: the key joined with 0x36 before the message, the hash of that
      behind the key joined with 0x5c, each hashed from the zero state. */
  ghost predicate IsKeyedHash(encrypt: BlockCipher, key: Block, data: seq<Byte>, r: Hash) {
    exists ipad, opad, inner ::
      && Joined(ipad, key, 0x36) && Joined(opad, key, 0x5c)
      && IsHash(encrypt, Zeros(16), ipad + data, inner)
      && if inner.Hash? then IsHash(encrypt, Zeros(16), opad + inner.block, r) else r == inner
  }

  lemma Rfc2104IsKeyedHash(encrypt: BlockCipher, key: Block, data: seq<Byte>)
    ensures IsKeyedHash(encrypt, key, data, Rfc2104(encrypt, key, data))
  {
    hide IsHash, Hashed, XorByte;
    var ipad, opad := Xor(key, Repeated(IPAD)), Xor(key, Repeated(OPAD));
    HashedIsHash(encrypt, Zeros(16), ipad + data);
    assert Joined(ipad, key, 0x36) && Joined(opad, key, 0x5c);
    var inner := Digest(encrypt, ipad + data);
    if inner.Hash? {
      HashedIsHash(encrypt, Zeros(16), opad + inner.block);
    }
  }

  /** The keyed hash is that of RFC 2104; a key shorter than a block is hashed first, where the
      standard would extend it with zeros. */
  method Hmac(encrypt: BlockCipher, key: seq<Byte>, data: seq<Byte>) returns (r: Hash)
    ensures |key| >= 16 ==> r == Rfc2104(encrypt, key, data)
    ensures |key| < 16 && Digest(encrypt, key).Hash? ==> r == Rfc2104(encrypt, Digest(encrypt, key).block, data)
    ensures |key| < 16 && !Digest(encrypt, key).Hash? ==> r == Digest(encrypt, key)
    ensures |key| == 16 ==> IsKeyedHash(encrypt, key, data, r)
    ensures |key| != 16 ==>
              exists hashed :: IsHash(encrypt, Zeros(16), key, hashed)
                               && if hashed.Hash? then IsKeyedHash(encrypt, hashed.block, data, r) else r == hashed
  {
    hide Digest, Xor, IsHash, IsKeyedHash;
    if |key| == 16 {
      r := HmacBlock(encrypt, key, data);
      return;
    }
    var hashed := RunDigest(encrypt, key);
    if !hashed.Hash? {
      return hashed;
    }
    r := HmacBlock(encrypt, hashed.block, data);
  }

  method RunDigest(encrypt: BlockCipher, data: seq<Byte>) returns (r: Hash)
    ensures r == Digest(encrypt, data) && IsHash(encrypt, Zeros(16), data, r)
  {
    hide Hashed, IsHash;
    var hasher := new Aes128Mmo(encrypt);
    r := hasher.Update(data);
  }

  method HmacBlock(encrypt: BlockCipher, key: Block, data: seq<Byte>) returns (r: Hash)
    ensures r == Rfc2104(encrypt, key, data) && IsKeyedHash(encrypt, key, data, r)
  {
    hide Digest, XorByte, IsHash, IsKeyedHash;
    Rfc2104IsKeyedHash(encrypt, key, data);
    var ipad: seq<Byte>, opad: seq<Byte> := Repeated(IPAD), Repeated(OPAD);
    for i := 0 to 16
      invariant |ipad| == |opad| == 16
      invariant forall j :: 0 <= j < i ==> ipad[j] == XorByte(key[j], IPAD) && opad[j] == XorByte(key[j], OPAD)
      invariant forall j :: i <= j < 16 ==> ipad[j] == IPAD && opad[j] == OPAD
    {
      ipad := ipad[i := XorByte(key[i], ipad[i])];
      opad := opad[i := XorByte(key[i], opad[i])];
    }
    assert ipad == Xor(key, Repeated(IPAD)) && opad == Xor(key, Repeated(OPAD));
    var inner := RunDigest(encrypt, ipad + data);
    if !inner.Hash? {
      return inner;
    }
    r := RunDigest(encrypt, opad + inner.block);
  }

  /** A 16-byte key and a message always hash, unless the block of key material and the message
      together are too long or leave the residue the padding cannot handle. */
  lemma HmacSucceedsIff(encrypt: BlockCipher, key: Block, data: seq<Byte>)
    ensures Rfc2104(encrypt, key, data).Hash? <==> |data| + 16 < 0x1_0000 && |data| % 16 != 15
  {
    hide Hashed, Xor;
    var message := Xor(key, Repeated(IPAD)) + data;
    HashedIff(encrypt, ZeroBlock(), message);
    var inner := Digest(encrypt, message);
    if inner.Hash? {
      HashedIff(encrypt, ZeroBlock(), Xor(key, Repeated(OPAD)) + inner.block);
    }
  }
}
