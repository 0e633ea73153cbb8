/** The code behind derived bit structures: one reader and one writer over an arbitrary list of
    fields, each given by the bits skipped before it and its length. */
module BitStruct {
  import opened Arithmetic

  datatype Field = Field(skip: nat, len: nat)

  type Layout = seq<Field>

  datatype Cursor = Cursor(byte: nat, bit: nat)

  /** Skipping crosses at most one byte boundary. */
  function Skip(c: Cursor, n: nat): Cursor {
    if c.bit + n >= 8 then Cursor(c.byte + 1, c.bit + n - 8) else Cursor(c.byte, c.bit + n)
  }

  /** A field that reaches the end of its byte, or would pass it, is followed by the next byte. */
  function Advance(c: Cursor, n: nat): Cursor {
    if c.bit + n >= 8 then Cursor(c.byte + 1, 0) else Cursor(c.byte, c.bit + n)
  }

  /** The cursor after the first i fields. */
  function After(layout: Layout, i: nat): Cursor
    requires i <= |layout|
    decreases i, 0
  {
    if i == 0 then Cursor(0, 0) else Advance(Place(layout, i - 1), layout[i - 1].len)
  }

  /** Where field i starts. */
  function Place(layout: Layout, i: nat): Cursor
    requires i < |layout|
    decreases i, 1
  {
    Skip(After(layout, i), layout[i].skip)
  }

  /** No shift is out of range and no index beyond the bytes; otherwise the generated code panics. */
  predicate Regular(layout: Layout, size: nat) {
    forall i :: 0 <= i < |layout| ==>
      1 <= layout[i].len <= 8 && Place(layout, i).bit < 8 && Place(layout, i).byte < size
  }

  predicate Fits(layout: Layout, i: nat)
    requires i < |layout|
  {
    Place(layout, i).bit + layout[i].len <= 8
  }

  // ----- bits of one byte ---------------------------------------------------------------------

  /** The n low bits. */
  function Mask(n: nat): bv8
    requires n <= 8
  {
    match n
    case 0 => 0x00
    case 1 => 0x01
    case 2 => 0x03
    case 3 => 0x07
    case 4 => 0x0f
    case 5 => 0x1f
    case 6 => 0x3f
    case 7 => 0x7f
    case 8 => 0xff
  }

  function Up(x: bv8, n: nat): bv8
    requires n < 8
  {
    match n
    case 0 => x
    case 1 => x << 1
    case 2 => x << 2
    case 3 => x << 3
    case 4 => x << 4
    case 5 => x << 5
    case 6 => x << 6
    case 7 => x << 7
  }

  function Down(x: bv8, n: nat): bv8
    requires n < 8
  {
    match n
    case 0 => x
    case 1 => x >> 1
    case 2 => x >> 2
    case 3 => x >> 3
    case 4 => x >> 4
    case 5 => x >> 5
    case 6 => x >> 6
    case 7 => x >> 7
  }

  function And(x: bv8, y: bv8): bv8 { x & y }

  function Or(x: bv8, y: bv8): bv8 { x | y }

  /** The bits of a byte that a field covers; those past the byte are lost. */
  function Window(off: nat, len: nat): bv8
    requires off < 8 && len <= 8
  {
    Up(Mask(len), off)
  }

  /** What a field holds within a byte, and a byte with a value put in by disjunction. */
  function Get(b: bv8, off: nat, len: nat): bv8
    requires off < 8 && len <= 8
  {
    Down(And(b, Window(off, len)), off)
  }

  function Put(b: bv8, off: nat, len: nat, v: bv8): bv8
    requires off < 8 && len <= 8
  {
    Or(b, Up(And(v, Mask(len)), off))
  }

  /** What is left of a value in a field: the bits within its length and within the byte. */
  function Kept(off: nat, len: nat, v: bv8): bv8
    requires off < 8 && len <= 8
  {
    And(v, Mask(Min(len, 8 - off)))
  }

  lemma WindowIsBetween(off: nat, len: nat)
    requires off < 8 && 1 <= len <= 8
    ensures And(Window(off, len), Mask(off)) == 0
    ensures And(Window(off, len), Mask(Min(off + len, 8))) == Window(off, len)
  {
    assert off == 0 || off == 1 || off == 2 || off == 3 || off == 4 || off == 5 || off == 6 || off == 7;
  }

  lemma MasksNest(a: nat, b: nat)
    requires a <= b <= 8
    ensures And(Mask(a), Mask(b)) == Mask(a) == And(Mask(b), Mask(a))
  {
  }

  lemma WindowsApart(off: nat, len: nat, off': nat, len': nat)
    requires off + len <= off' < 8 && 1 <= len && 1 <= len' <= 8
    ensures And(Window(off, len), Window(off', len')) == 0 == And(Window(off', len'), Window(off, len))
  {
    hide Window, Mask, And;
    WindowIsBetween(off, len);
    WindowIsBetween(off', len');
    MasksNest(off + len, off');
    Apart(Window(off, len), Window(off', len'), Mask(off + len), Mask(off'));
  }

  lemma Apart(x: bv8, y: bv8, lower: bv8, upper: bv8)
    requires And(x, lower) == x && And(lower, upper) == lower && And(y, upper) == 0
    ensures And(x, y) == 0 == And(y, x)
  {
  }

  lemma UpAnd(x: bv8, y: bv8, off: nat)
    requires off < 8
    ensures And(Up(And(x, y), off), Up(y, off)) == Up(And(x, y), off)
  {
    match off
    case 0 | 1 | 2 | 3 =>
    case 4 | 5 | 6 | 7 =>
  }

  lemma DownOr(x: bv8, y: bv8, off: nat)
    requires off < 8
    ensures Down(Or(x, y), off) == Or(Down(x, off), Down(y, off))
  {
    match off
    case 0 | 1 | 2 | 3 =>
    case 4 | 5 | 6 | 7 =>
  }

  lemma DownUpMask(x: bv8, off: nat)
    requires off < 8
    ensures Down(Up(x, off), off) == And(x, Mask(8 - off))
  {
    match off
    case 0 | 1 | 2 | 3 =>
    case 4 | 5 | 6 | 7 =>
  }

  lemma AndAssociates(x: bv8, y: bv8, z: bv8)
    ensures And(And(x, y), z) == And(x, And(y, z))
  {
  }

  lemma DownUp(off: nat, len: nat, v: bv8)
    requires off < 8 && 1 <= len <= 8
    ensures Down(Up(And(v, Mask(len)), off), off) == Kept(off, len, v)
  {
    hide Up, Down, And, Mask;
    DownUpMask(And(v, Mask(len)), off);
    if len <= 8 - off { MasksNest(len, 8 - off); } else { MasksNest(8 - off, len); }
    AndAssociates(v, Mask(len), Mask(8 - off));
  }

  lemma OrWithin(b: bv8, x: bv8, w: bv8)
    requires And(x, w) == x
    ensures And(Or(b, x), w) == Or(And(b, w), x)
  {
  }

  /** Reading back a field gives what was there before, joined with what is kept of the value. */
  lemma GetPut(b: bv8, off: nat, len: nat, v: bv8)
    requires off < 8 && 1 <= len <= 8
    ensures Get(Put(b, off, len, v), off, len) == Or(Get(b, off, len), Kept(off, len, v))
  {
    hide Up, Down, Mask, And, Or;
    var x, w := Up(And(v, Mask(len)), off), Window(off, len);
    UpAnd(v, Mask(len), off);
    OrWithin(b, x, w);
    DownOr(And(b, w), x, off);
    DownUp(off, len, v);
  }

  lemma UpDown(x: bv8, m: bv8, off: nat)
    requires off < 8
    ensures Up(And(Down(And(x, Up(m, off)), off), m), off) == And(x, Up(m, off))
  {
    match off
    case 0 | 1 | 2 | 3 =>
    case 4 | 5 | 6 | 7 =>
  }

  /** Putting back what a field held reproduces exactly the bits it covers. */
  lemma PutGet(b: bv8, c: bv8, off: nat, len: nat)
    requires off < 8 && 1 <= len <= 8
    ensures Put(b, off, len, Get(c, off, len)) == Or(b, And(c, Window(off, len)))
  {
    hide Up, Down, Mask, And, Or;
    UpDown(c, Mask(len), off);
  }

  /** A field is untouched by a value put into a field beside it. */
  lemma PutElsewhere(b: bv8, off: nat, len: nat, off': nat, len': nat, v: bv8)
    requires off < 8 && 1 <= len <= 8 && off' < 8 && 1 <= len' <= 8
    requires off + len <= off' || off' + len' <= off
    ensures Get(Put(b, off, len, v), off', len') == Get(b, off', len')
  {
    hide Window, Mask, Up, Down, And, Or;
    if off + len <= off' {
      WindowsApart(off, len, off', len');
    } else {
      WindowsApart(off', len', off, len);
    }
    UpWithin(off, len, v);
    DisjointBits(b, Up(And(v, Mask(len)), off), Window(off, len), Window(off', len'));
  }

  lemma UpWithin(off: nat, len: nat, v: bv8)
    requires off < 8 && 1 <= len <= 8
    ensures And(Up(And(v, Mask(len)), off), Window(off, len)) == Up(And(v, Mask(len)), off)
  {
    hide Up, And, Mask;
    UpAnd(v, Mask(len), off);
  }

  lemma DisjointBits(b: bv8, x: bv8, w: bv8, w': bv8)
    requires And(x, w) == x && And(w, w') == 0
    ensures And(Or(b, x), w') == And(b, w')
  {
  }

  // ----- whole structures ---------------------------------------------------------------------

  function ReadField(bytes: seq<bv8>, layout: Layout, i: nat): bv8
    requires Regular(layout, |bytes|) && i < |layout|
  {
    var c := Place(layout, i);
    Get(bytes[c.byte], c.bit, layout[i].len)
  }

  function ReadAll(bytes: seq<bv8>, layout: Layout): seq<bv8>
    requires Regular(layout, |bytes|)
  {
    seq(|layout|, i requires 0 <= i < |layout| => ReadField(bytes, layout, i))
  }

  function WriteField(bytes: seq<bv8>, layout: Layout, i: nat, v: bv8): (r: seq<bv8>)
    requires Regular(layout, |bytes|) && i < |layout|
    ensures |r| == |bytes|
  {
    var c := Place(layout, i);
    bytes[c.byte := Put(bytes[c.byte], c.bit, layout[i].len, v)]
  }

  /** The bytes after the first n fields are written into them. */
  function WriteFirst(bytes: seq<bv8>, layout: Layout, values: seq<bv8>, n: nat): (r: seq<bv8>)
    requires Regular(layout, |bytes|) && n <= |layout| == |values|
    ensures |r| == |bytes|
  {
    if n == 0 then bytes
    else WriteField(WriteFirst(bytes, layout, values, n - 1), layout, n - 1, values[n - 1])
  }

  function WriteAll(bytes: seq<bv8>, layout: Layout, values: seq<bv8>): (r: seq<bv8>)
    requires Regular(layout, |bytes|) && |layout| == |values|
    ensures |r| == |bytes|
  {
    WriteFirst(bytes, layout, values, |layout|)
  }

  function Zeros(size: nat): (r: seq<bv8>)
    ensures |r| == size
  {
    seq(size, _ => 0)
  }

  /** Field i ends where, or before, field k starts. */
  predicate Before(layout: Layout, i: nat, k: nat)
    requires i < |layout| && k < |layout|
  {
    var p, q := Place(layout, i), Place(layout, k);
    p.byte < q.byte || (p.byte == q.byte && p.bit + layout[i].len <= q.bit)
  }

  lemma {:induction false} AfterIsBehind(layout: Layout, size: nat, i: nat, k: nat)
    requires Regular(layout, size) && i < k <= |layout|
    ensures var p, c := Place(layout, i), After(layout, k);
            p.byte < c.byte || (p.byte == c.byte && p.bit + layout[i].len <= c.bit)
  {
    if i < k - 1 {
      AfterIsBehind(layout, size, i, k - 1);
    }
  }

  /** The position of field i, counted in bits over all bytes. */
  function BitPosition(layout: Layout, i: nat): nat
    requires i < |layout|
  {
    8 * Place(layout, i).byte + Place(layout, i).bit
  }

  /** Each field starts its skip behind the end of the one before, or behind the end of that one's byte if
      it does not fit; the first starts at its own skip. */
  lemma PositionsFollow(layout: Layout, size: nat, i: nat)
    requires Regular(layout, size) && i < |layout|
    ensures BitPosition(layout, 0) == layout[0].skip
    ensures i > 0 ==>
              BitPosition(layout, i) == layout[i].skip
                                        + if Fits(layout, i - 1) then BitPosition(layout, i - 1) + layout[i - 1].len
                                          else 8 * (BitPosition(layout, i - 1) / 8 + 1)
  {
    PositionInByte(layout, size, 0);
    PositionInByte(layout, size, i);
    if i > 0 {
      PositionInByte(layout, size, i - 1);
    }
  }

  lemma PositionInByte(layout: Layout, size: nat, i: nat)
    requires Regular(layout, size) && i < |layout|
    ensures BitPosition(layout, i) / 8 == Place(layout, i).byte && BitPosition(layout, i) % 8 == Place(layout, i).bit
  {
  }

  /** A field reads as the byte at its position, shifted down to it and cut to its length. */
  lemma FieldIsRead(bytes: seq<bv8>, layout: Layout, i: nat)
    requires Regular(layout, |bytes|) && i < |layout|
    ensures ReadField(bytes, layout, i)
            == And(Down(bytes[BitPosition(layout, i) / 8], BitPosition(layout, i) % 8), Mask(layout[i].len))
  {
    hide Place, Up, Down, And, Mask;
    PositionInByte(layout, |bytes|, i);
    DownWindow(bytes[Place(layout, i).byte], Mask(layout[i].len), Place(layout, i).bit);
  }

  lemma DownWindow(b: bv8, m: bv8, off: nat)
    requires off < 8
    ensures Down(And(b, Up(m, off)), off) == And(Down(b, off), m)
  {
  }

  /** Fields never overlap, whether they fit or not. */
  lemma FieldsAreApart(layout: Layout, size: nat, i: nat, k: nat)
    requires Regular(layout, size) && i < k < |layout|
    ensures Before(layout, i, k)
  {
    AfterIsBehind(layout, size, i, k);
  }

  /** Field i after the first n fields are written: joined with its own value once that is written,
      and untouched by the others. */
  lemma {:induction false} ReadAfterWrite(bytes: seq<bv8>, layout: Layout, values: seq<bv8>, n: nat, i: nat)
    requires Regular(layout, |bytes|) && n <= |layout| == |values| && i < |layout|
    ensures ReadField(WriteFirst(bytes, layout, values, n), layout, i) ==
            if i < n then Or(ReadField(bytes, layout, i), Kept(Place(layout, i).bit, layout[i].len, values[i]))
            else ReadField(bytes, layout, i)
  {
    hide Place, Get, Put, Or, Kept;
    if n > 0 {
      ReadAfterWrite(bytes, layout, values, n - 1, i);
      var before := WriteFirst(bytes, layout, values, n - 1);
      var p, q := Place(layout, n - 1), Place(layout, i);
      if i == n - 1 {
        GetPut(before[p.byte], p.bit, layout[i].len, values[i]);
      } else {
        if i < n - 1 {
          FieldsAreApart(layout, |bytes|, i, n - 1);
        } else {
          FieldsAreApart(layout, |bytes|, n - 1, i);
        }
        if p.byte == q.byte {
          PutElsewhere(before[p.byte], p.bit, layout[n - 1].len, q.bit, layout[i].len, values[n - 1]);
        }
      }
    }
  }

  predicate InRange(layout: Layout, values: seq<bv8>) {
    |values| == |layout| &&
    forall i :: 0 <= i < |layout| ==> layout[i].len <= 8 && And(values[i], Mask(layout[i].len)) == values[i]
  }

  ghost predicate RoundTrips(layout: Layout, size: nat, values: seq<bv8>)
    requires Regular(layout, size) && |values| == |layout|
  {
    ReadAll(WriteAll(Zeros(size), layout, values), layout) == values
  }

  predicate AllFit(layout: Layout) {
    forall i :: 0 <= i < |layout| ==> Fits(layout, i)
  }

  lemma ZeroFieldsReadZero(layout: Layout, size: nat, i: nat)
    requires Regular(layout, size) && i < |layout|
    ensures ReadField(Zeros(size), layout, i) == 0
  {
    var off := Place(layout, i).bit;
    assert off == 0 || off == 1 || off == 2 || off == 3 || off == 4 || off == 5 || off == 6 || off == 7;
  }

  lemma ReadBack(layout: Layout, size: nat, values: seq<bv8>, i: nat)
    requires Regular(layout, size) && i < |layout| == |values|
    ensures ReadAll(WriteAll(Zeros(size), layout, values), layout)[i]
            == Kept(Place(layout, i).bit, layout[i].len, values[i])
  {
    hide Place, Get, Kept, WriteFirst;
    ReadAfterWrite(Zeros(size), layout, values, |layout|, i);
    ZeroFieldsReadZero(layout, size, i);
    OrZero(Kept(Place(layout, i).bit, layout[i].len, values[i]));
  }

  lemma OrZero(x: bv8)
    ensures Or(0, x) == x == Or(x, 0)
  {
  }

  lemma KeptIff(off: nat, len: nat)
    requires off < 8 && 1 <= len <= 8
    ensures Kept(off, len, Mask(len)) == Mask(len) <==> off + len <= 8
    ensures And(Mask(len), Mask(len)) == Mask(len) && And(0, Mask(len)) == 0
  {
  }

  /** Every tuple of values that fit their lengths is read back from zeroed bytes exactly if
      every field of the layout fits in its byte. */
  lemma RoundTripIffAllFit(layout: Layout, size: nat)
    requires Regular(layout, size)
    ensures (forall values :: InRange(layout, values) ==> RoundTrips(layout, size, values)) <==> AllFit(layout)
  {
    hide Place, Get, ReadAll, WriteAll, And, Mask;
    if AllFit(layout) {
      forall values | InRange(layout, values) ensures RoundTrips(layout, size, values) {
        FittingIsReadBack(layout, size, values);
      }
    } else {
      var i: nat :| i < |layout| && !Fits(layout, i);
      var values := seq(|layout|, j requires 0 <= j < |layout| => Mask(layout[j].len));
      forall j | 0 <= j < |layout| ensures And(values[j], Mask(layout[j].len)) == values[j] {
        KeptIff(Place(layout, j).bit, layout[j].len);
      }
      assert InRange(layout, values);
      ReadBack(layout, size, values, i);
      KeptIff(Place(layout, i).bit, layout[i].len);
      assert !RoundTrips(layout, size, values);
    }
  }

  /** Given values round trip exactly if each is kept within its length and its byte. */
  lemma RoundTripsIffKept(layout: Layout, size: nat, values: seq<bv8>)
    requires Regular(layout, size) && |values| == |layout|
    ensures RoundTrips(layout, size, values)
            <==> forall i :: 0 <= i < |layout| ==> Kept(Place(layout, i).bit, layout[i].len, values[i]) == values[i]
  {
    hide Place, Kept, WriteAll, ReadField;
    forall i | 0 <= i < |layout|
      ensures ReadAll(WriteAll(Zeros(size), layout, values), layout)[i]
              == Kept(Place(layout, i).bit, layout[i].len, values[i])
    {
      ReadBack(layout, size, values, i);
    }
  }

  lemma FittingIsReadBack(layout: Layout, size: nat, values: seq<bv8>)
    requires Regular(layout, size) && AllFit(layout) && InRange(layout, values)
    ensures RoundTrips(layout, size, values)
  {
    hide Place, Get, WriteAll, And, Mask, ReadField;
    forall i | 0 <= i < |layout|
      ensures ReadAll(WriteAll(Zeros(size), layout, values), layout)[i] == values[i]
    {
      ReadBack(layout, size, values, i);
      assert Fits(layout, i);
    }
  }

  /** Writing joins with what the bytes held: into bytes that are not zeroed, a value is read back
      exactly if it has every bit its field had before. */
  lemma DirtyFieldReadsBackIff(bytes: seq<bv8>, layout: Layout, values: seq<bv8>, i: nat)
    requires Regular(layout, |bytes|) && AllFit(layout) && InRange(layout, values) && i < |layout|
    ensures ReadField(WriteAll(bytes, layout, values), layout, i) == values[i]
            <==> And(ReadField(bytes, layout, i), values[i]) == ReadField(bytes, layout, i)
  {
    hide Place, Get, Mask;
    ReadAfterWrite(bytes, layout, values, |layout|, i);
    assert Fits(layout, i);
    OrIsIff(ReadField(bytes, layout, i), values[i]);
  }

  lemma OrIsIff(x: bv8, y: bv8)
    ensures Or(x, y) == y <==> And(x, y) == x
  {
  }

  /** The bits of byte b that the first n fields cover. */
  function Coverage(layout: Layout, n: nat, b: nat): bv8
    requires n <= |layout| && (forall i :: 0 <= i < |layout| ==> Place(layout, i).bit < 8 && layout[i].len <= 8)
  {
    if n == 0 then 0
    else
      var c := Place(layout, n - 1);
      Or(Coverage(layout, n - 1, b), if c.byte == b then Window(c.bit, layout[n - 1].len) else 0)
  }

  /** Writing what was read reproduces exactly the bits that are not skipped, in every layout. */
  lemma {:induction false} WriteAfterRead(bytes: seq<bv8>, layout: Layout, n: nat, b: nat)
    requires Regular(layout, |bytes|) && n <= |layout| && b < |bytes|
    ensures WriteFirst(Zeros(|bytes|), layout, ReadAll(bytes, layout), n)[b] == And(bytes[b], Coverage(layout, n, b))
  {
    hide Place, Get, Put, Window, And, Or;
    if n == 0 {
      AndZero(bytes[b], 0);
    } else {
      WriteAfterRead(bytes, layout, n - 1, b);
      var before := WriteFirst(Zeros(|bytes|), layout, ReadAll(bytes, layout), n - 1);
      var c := Place(layout, n - 1);
      if c.byte == b {
        PutGet(before[b], bytes[b], c.bit, layout[n - 1].len);
        AndDistributes(bytes[b], Coverage(layout, n - 1, b), Window(c.bit, layout[n - 1].len));
      } else {
        OrZero(Coverage(layout, n - 1, b));
      }
    }
  }

  lemma AndZero(x: bv8, zero: bv8)
    requires zero == 0
    ensures And(x, zero) == 0
  {
  }

  lemma AndDistributes(x: bv8, y: bv8, z: bv8)
    ensures And(x, Or(y, z)) == Or(And(x, y), And(x, z))
  {
  }

  // ----- the generated code -------------------------------------------------------------------

  method Read(bytes: array<bv8>, layout: Layout) returns (values: seq<bv8>)
    requires Regular(layout, bytes.Length)
    ensures values == ReadAll(bytes[..], layout)
  {
    hide Place, Get, Up, Down, Mask;
    values := [];
    var byteOffset, bitOffset: nat := 0, 0;
    for i := 0 to |layout|
      invariant After(layout, i) == Cursor(byteOffset, bitOffset)
      invariant |values| == i && forall j :: 0 <= j < i ==> values[j] == ReadField(bytes[..], layout, j)
    {
      CursorStep(layout, i);
      bitOffset := bitOffset + layout[i].skip;
      if bitOffset >= 8 {
        bitOffset := bitOffset - 8;
        byteOffset := byteOffset + 1;
      }
      assert Place(layout, i) == Cursor(byteOffset, bitOffset);
      var mask := Up(Mask(layout[i].len), bitOffset);
      var value := Down(And(bytes[byteOffset], mask), bitOffset);
      GetIs(bytes[byteOffset], bitOffset, layout[i].len);
      assert value == ReadField(bytes[..], layout, i);
      values := values + [value];
      bitOffset := bitOffset + layout[i].len;
      if bitOffset >= 8 {
        bitOffset := 0;
        byteOffset := byteOffset + 1;
      }
    }
  }

  lemma GetIs(b: bv8, off: nat, len: nat)
    requires off < 8 && len <= 8
    ensures Get(b, off, len) == Down(And(b, Up(Mask(len), off)), off)
  {
    hide Up, Down, And, Mask;
  }

  lemma CursorStep(layout: Layout, i: nat)
    requires i < |layout|
    ensures Place(layout, i) == Skip(After(layout, i), layout[i].skip)
    ensures After(layout, i + 1) == Advance(Place(layout, i), layout[i].len)
  {
  }

  method Write(bytes: array<bv8>, layout: Layout, values: seq<bv8>)
    requires Regular(layout, bytes.Length) && |values| == |layout|
    modifies bytes
    ensures bytes[..] == WriteAll(old(bytes[..]), layout, values)
  {
    hide Place, Up, Mask, And, Or;
    var byteOffset, bitOffset: nat := 0, 0;
    for i := 0 to |layout|
      invariant After(layout, i) == Cursor(byteOffset, bitOffset)
      invariant bytes[..] == WriteFirst(old(bytes[..]), layout, values, i)
    {
      CursorStep(layout, i);
      bitOffset := bitOffset + layout[i].skip;
      if bitOffset >= 8 {
        bitOffset := bitOffset - 8;
        byteOffset := byteOffset + 1;
      }
      assert Place(layout, i) == Cursor(byteOffset, bitOffset);
      ghost var before := bytes[..];
      bytes[byteOffset] := Or(bytes[byteOffset], Up(And(values[i], Mask(layout[i].len)), bitOffset));
      assert bytes[..] == WriteField(before, layout, i, values[i]);
      bitOffset := bitOffset + layout[i].len;
      if bitOffset >= 8 {
        bitOffset := 0;
        byteOffset := byteOffset + 1;
      }
    }
  }

  // ----- the layouts of the stack -------------------------------------------------------------

  const NETWORK_PARAMETERS: Layout := [Field(0, 5), Field(0, 4), Field(2, 1), Field(0, 4), Field(0, 1)]
  const NWK_FRAME_CONTROL: Layout :=
    [Field(0, 2), Field(0, 4), Field(0, 2),
     Field(0, 1), Field(0, 1), Field(0, 1), Field(0, 1), Field(0, 1), Field(0, 1)]
  const APS_FRAME_CONTROL: Layout := [Field(0, 2), Field(0, 2), Field(0, 1), Field(0, 1), Field(0, 1), Field(0, 1)]
  const SECURITY_CONTROL: Layout := [Field(0, 3), Field(0, 2), Field(0, 1)]

  lemma NetworkParameterPlaces()
    ensures Regular(NETWORK_PARAMETERS, 2)
    ensures Place(NETWORK_PARAMETERS, 0) == Cursor(0, 0) && Place(NETWORK_PARAMETERS, 1) == Cursor(0, 5)
    ensures Place(NETWORK_PARAMETERS, 2) == Cursor(1, 2) && Place(NETWORK_PARAMETERS, 3) == Cursor(1, 3)
    ensures Place(NETWORK_PARAMETERS, 4) == Cursor(1, 7)
  {
    var l := NETWORK_PARAMETERS;
    assert Place(l, 0) == Cursor(0, 0);
    assert Place(l, 1) == Cursor(0, 5);
    assert Place(l, 2) == Cursor(1, 2);
    assert Place(l, 3) == Cursor(1, 3);
    assert Place(l, 4) == Cursor(1, 7);
  }

  /** The network parameters of a beacon round trip exactly for protocol versions below 8. */
  lemma NetworkParametersRoundTripIff(values: seq<bv8>)
    requires InRange(NETWORK_PARAMETERS, values)
    ensures Regular(NETWORK_PARAMETERS, 2)
    ensures RoundTrips(NETWORK_PARAMETERS, 2, values) <==> values[1] < 8
  {
    hide Place, RoundTrips, And, Mask, Kept;
    NetworkParameterPlaces();
    RoundTripsIffKept(NETWORK_PARAMETERS, 2, values);
    FittingIsKept(0, 5, values[0]);
    ProtocolVersionIsKeptIff(values[1]);
    FittingIsKept(2, 1, values[2]);
    FittingIsKept(3, 4, values[3]);
    FittingIsKept(7, 1, values[4]);
  }

  lemma FittingIsKept(off: nat, len: nat, v: bv8)
    requires off < 8 && 1 <= len && off + len <= 8 && And(v, Mask(len)) == v
    ensures Kept(off, len, v) == v
  {
  }

  lemma ProtocolVersionIsKeptIff(v: bv8)
    requires And(v, Mask(4)) == v
    ensures Kept(5, 4, v) == v <==> v < 8
  {
  }

  /** A beacon of stack profile 2 with protocol version 8 is read back with version 0. */
  lemma ProtocolVersion8IsLost()
    ensures Regular(NETWORK_PARAMETERS, 2)
    ensures InRange(NETWORK_PARAMETERS, [2, 8, 1, 0, 1]) && !RoundTrips(NETWORK_PARAMETERS, 2, [2, 8, 1, 0, 1])
    ensures ReadAll(WriteAll(Zeros(2), NETWORK_PARAMETERS, [2, 8, 1, 0, 1]), NETWORK_PARAMETERS)[1] == 0
  {
    hide Place, RoundTrips, ReadAll, WriteAll;
    NetworkParameterPlaces();
    NetworkParametersRoundTripIff([2, 8, 1, 0, 1]);
    ReadBack(NETWORK_PARAMETERS, 2, [2, 8, 1, 0, 1], 1);
  }

  /** The protocol version of a beacon is the one field that does not fit: its fourth bit is lost. */
  lemma NetworkParametersDoNotFit()
    ensures Regular(NETWORK_PARAMETERS, 2)
    ensures forall i :: 0 <= i < 5 ==> (Fits(NETWORK_PARAMETERS, i) <==> i != 1)
    ensures exists values :: InRange(NETWORK_PARAMETERS, values) && !RoundTrips(NETWORK_PARAMETERS, 2, values)
  {
    hide Place, InRange, RoundTrips;
    NetworkParameterPlaces();
    ProtocolVersion8IsLost();
  }

  // As derived: of two attributes on a field only the first is used, so the skip is lost.
  const LINK_STATUS: Layout := [Field(0, 3), Field(0, 3)]
  // As the second attribute declares it.
  const LINK_STATUS_DECLARED: Layout := [Field(0, 3), Field(1, 3)]

  /** The octet of a link status entry is the declared one exactly for an outgoing cost of zero, and
      the cost 8 of an unknown link is written as zero. */
  lemma LinkStatusIsAsDeclaredIff(incoming: bv8, outgoing: bv8)
    requires incoming < 8 && outgoing < 8
    ensures Regular(LINK_STATUS, 1) && Regular(LINK_STATUS_DECLARED, 1)
    ensures WriteAll(Zeros(1), LINK_STATUS, [incoming, outgoing])
            == WriteAll(Zeros(1), LINK_STATUS_DECLARED, [incoming, outgoing])
            <==> outgoing == 0
    ensures And(8, Mask(3)) == 0
  {
    var l, d := LINK_STATUS, LINK_STATUS_DECLARED;
    assert Place(l, 0) == Cursor(0, 0) && Place(l, 1) == Cursor(0, 3);
    assert Place(d, 0) == Cursor(0, 0) && Place(d, 1) == Cursor(0, 4);
    hide Place;
    var values := [incoming, outgoing];
    var first := WriteFirst(Zeros(1), l, values, 1);
    assert first == WriteField(WriteFirst(Zeros(1), l, values, 0), l, 0, incoming);
    assert WriteFirst(Zeros(1), d, values, 1) == WriteField(WriteFirst(Zeros(1), d, values, 0), d, 0, incoming);
    assert first == [incoming] == WriteFirst(Zeros(1), d, values, 1);
    assert WriteAll(Zeros(1), l, values) == [incoming | (outgoing << 3)];
    assert WriteAll(Zeros(1), d, values) == [incoming | (outgoing << 4)];
    ShiftsDiffer(incoming, outgoing);
  }

  lemma ShiftsDiffer(incoming: bv8, outgoing: bv8)
    requires incoming < 8 && outgoing < 8
    ensures incoming | (outgoing << 3) == incoming | (outgoing << 4) <==> outgoing == 0
  {
  }

  lemma NwkFirstByte()
    ensures Place(NWK_FRAME_CONTROL, 0) == Cursor(0, 0) && Place(NWK_FRAME_CONTROL, 1) == Cursor(0, 2)
    ensures Place(NWK_FRAME_CONTROL, 2) == Cursor(0, 6) && Place(NWK_FRAME_CONTROL, 3) == Cursor(1, 0)
  {
    assert Place(NWK_FRAME_CONTROL, 0) == Cursor(0, 0);
    assert Place(NWK_FRAME_CONTROL, 1) == Cursor(0, 2);
    assert Place(NWK_FRAME_CONTROL, 2) == Cursor(0, 6);
  }

  lemma {:induction false} NwkFlags(i: nat)
    requires 3 <= i < 9
    ensures Place(NWK_FRAME_CONTROL, i) == Cursor(1, i - 3)
  {
    if i == 3 {
      NwkFirstByte();
    } else {
      NwkFlags(i - 1);
    }
  }

  lemma NwkFrameControlFits()
    ensures Regular(NWK_FRAME_CONTROL, 2) && AllFit(NWK_FRAME_CONTROL)
  {
    hide Place;
    NwkFirstByte();
    forall i | 3 <= i < 9 ensures Place(NWK_FRAME_CONTROL, i) == Cursor(1, i - 3) {
      NwkFlags(i);
    }
  }

  lemma ApsFrameControlFits()
    ensures Regular(APS_FRAME_CONTROL, 1) && AllFit(APS_FRAME_CONTROL)
    ensures forall i :: 0 <= i < 6 ==> Place(APS_FRAME_CONTROL, i) == Cursor(0, if i < 2 then 2 * i else i + 2)
  {
    var a := APS_FRAME_CONTROL;
    assert Place(a, 0) == Cursor(0, 0) && Place(a, 1) == Cursor(0, 2) && Place(a, 2) == Cursor(0, 4);
    assert Place(a, 3) == Cursor(0, 5) && Place(a, 4) == Cursor(0, 6) && Place(a, 5) == Cursor(0, 7);
  }

  lemma SecurityControlFits()
    ensures Regular(SECURITY_CONTROL, 1) && AllFit(SECURITY_CONTROL)
    ensures Place(SECURITY_CONTROL, 0) == Cursor(0, 0)
    ensures Place(SECURITY_CONTROL, 1) == Cursor(0, 3)
    ensures Place(SECURITY_CONTROL, 2) == Cursor(0, 5)
  {
    var s := SECURITY_CONTROL;
    assert Place(s, 0) == Cursor(0, 0) && Place(s, 1) == Cursor(0, 3) && Place(s, 2) == Cursor(0, 5);
  }
}
