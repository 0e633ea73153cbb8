/** The codec as the source runs it: a writer into a byte buffer with a moving offset, and a
    reader that collects the items of a composite one by one. */
module ZclBuffer {
  import opened Bytes
  import opened ZclData
  import opened ZclCodec

  /** A buffer with the given bytes written over it at an offset. */
  function Patch(buf: seq<Byte>, start: nat, bytes: seq<Byte>): (r: seq<Byte>)
    requires start + |bytes| <= |buf|
    ensures |r| == |buf| && r[..start] == buf[..start] && r[start..start + |bytes|] == bytes
    ensures r[start + |bytes|..] == buf[start + |bytes|..]
  {
    buf[..start] + bytes + buf[start + |bytes|..]
  }

  lemma PatchTwice(buf: seq<Byte>, start: nat, first: seq<Byte>, second: seq<Byte>)
    requires start + |first| + |second| <= |buf|
    ensures Patch(Patch(buf, start, first), start + |first|, second) == Patch(buf, start, first + second)
  {
  }

  /** Copies bytes to an offset of the buffer if they fit behind it. */
  method Put(buf: array<Byte>, start: nat, bytes: seq<Byte>) returns (ok: bool)
    requires start <= buf.Length
    modifies buf
    ensures ok <==> start + |bytes| <= buf.Length
    ensures buf[..] == if ok then Patch(old(buf[..]), start, bytes) else old(buf[..])
  {
    ok := |bytes| <= buf.Length - start;
    if ok {
      for i := 0 to |bytes|
        invariant forall k :: 0 <= k < i ==> buf[start + k] == bytes[k]
        invariant forall k :: 0 <= k < buf.Length && !(start <= k < start + i) ==> buf[k] == old(buf[k])
      {
        buf[start + i] := bytes[i];
      }
      assert buf[..] == Patch(old(buf[..]), start, bytes);
    }
  }

  // ----- writing ----------------------------------------------------------------------------

  /** What is in the buffer after i items of a composite. */
  function Written(v: ZclData, i: nat): seq<Byte>
    requires v.Composite? && i <= |v.items| && AllRepresentable(v.items[..i])
  {
    [Tag(v)] + LeBytes(|v.items|, 2) + EncodeItems(v.items[..i])
  }

  lemma {:induction false} ItemsSplit(items: seq<ZclData>, i: nat)
    requires AllRepresentable(items) && i < |items|
    ensures AllRepresentable(items[..i]) && AllRepresentable(items[..i + 1]) && Representable(items[i])
    ensures EncodeItems(items[..i + 1]) == EncodeItems(items[..i]) + Encode(items[i])
    ensures |EncodeItems(items[..i + 1])| <= |EncodeItems(items)|
    ensures Nesting(items[i]) <= ItemNesting(items)
  {
    hide Representable, Tag, Payload, Nesting;
    assert items[..i + 1][1..] == items[1..][..i];
    if i > 0 {
      ItemsSplit(items[1..], i - 1);
      assert items[..i][1..] == items[1..][..i - 1];
      assert items[1..][i - 1] == items[i];
    }
  }

  lemma WrittenGrows(v: ZclData, i: nat)
    requires Representable(v) && v.Composite? && i < |v.items|
    ensures AllRepresentable(v.items[..i]) && AllRepresentable(v.items[..i + 1]) && Representable(v.items[i])
    ensures Written(v, i + 1) == Written(v, i) + Encode(v.items[i])
    ensures |Written(v, i + 1)| <= |Encode(v)|
    ensures 1 + Nesting(v.items[i]) <= Nesting(v)
  {
    ItemsSplit(v.items, i);
  }

  lemma {:induction false} ItemsNestWithin(items: seq<ZclData>, limit: nat)
    requires forall i :: 0 <= i < |items| ==> Nesting(items[i]) <= limit
    ensures ItemNesting(items) <= limit
  {
    if items != [] {
      ItemsNestWithin(items[1..], limit);
    }
  }

  lemma AllWritten(v: ZclData, depth: nat)
    requires Representable(v) && v.Composite? && depth <= MAX_DEPTH
    requires forall j :: 0 <= j < |v.items| ==> depth + 1 + Nesting(v.items[j]) <= MAX_DEPTH
    ensures AllRepresentable(v.items[..|v.items|]) && Written(v, |v.items|) == Encode(v)
    ensures depth + Nesting(v) <= MAX_DEPTH
  {
    assert v.items[..|v.items|] == v.items;
    if v.items != [] {
      ItemsNestWithin(v.items, MAX_DEPTH - depth - 1);
    }
  }

  /** Writing succeeds exactly for a value within the depth limit whose encoding fits, and then
      the buffer holds the encoding at `start` and is unchanged around it. */
  method TryWrite(buf: array<Byte>, start: nat, v: ZclData, depth: nat) returns (r: Outcome<nat>)
    requires start <= buf.Length && Representable(v) && depth <= 16
    modifies buf
    ensures r.Ok? <==> depth + Nesting(v) <= 15 && start + |Encode(v)| <= buf.Length
    ensures r.Ok? ==> r.value == |Encode(v)| && buf[..] == Patch(old(buf[..]), start, Encode(v))
    ensures r.BadInput? ==> depth + Nesting(v) > 15
    ensures r.Incomplete? ==> start + |Encode(v)| > buf.Length
    ensures !r.Panic? && buf[..start] == old(buf[..start])
    decreases v, 1
  {
    if depth > MAX_DEPTH {
      return BadInput;
    }
    var ok := Put(buf, start, [Tag(v)]);
    if !ok {
      return Incomplete;
    }
    if v.Composite? {
      CountIsWritten(old(buf[..]), start, v);
      ok := Put(buf, start + 1, LeBytes(|v.items|, 2));
      if !ok {
        return Incomplete;
      }
      r := WriteItems(buf, start, v, depth, old(buf[..]));
    } else {
      ok := Put(buf, start + 1, Payload(v));
      if ok {
        PatchTwice(old(buf[..]), start, [Tag(v)], Payload(v));
      }
      r := if ok then Ok(1 + |Payload(v)|) else Incomplete;
    }
  }

  lemma CountIsWritten(before: seq<Byte>, start: nat, v: ZclData)
    requires Representable(v) && v.Composite?
    ensures AllRepresentable(v.items[..0]) && |Written(v, 0)| == 3 <= |Encode(v)|
    ensures start + 3 <= |before| ==>
              Patch(Patch(before, start, [Tag(v)]), start + 1, LeBytes(|v.items|, 2))
              == Patch(before, start, Written(v, 0))
  {
    if start + 3 <= |before| {
      PatchTwice(before, start, [Tag(v)], LeBytes(|v.items|, 2));
    }
  }

  method WriteItems(buf: array<Byte>, start: nat, v: ZclData, depth: nat, ghost before: seq<Byte>)
    returns (r: Outcome<nat>)
    requires Representable(v) && v.Composite? && depth <= MAX_DEPTH
    requires AllRepresentable(v.items[..0]) && start + 3 == start + |Written(v, 0)| <= buf.Length == |before|
    requires buf[..] == Patch(before, start, Written(v, 0))
    modifies buf
    ensures r.Ok? <==> depth + Nesting(v) <= MAX_DEPTH && start + |Encode(v)| <= buf.Length
    ensures r.Ok? ==> r.value == |Encode(v)| && buf[..] == Patch(before, start, Encode(v))
    ensures r.BadInput? ==> depth + Nesting(v) > MAX_DEPTH
    ensures r.Incomplete? ==> start + |Encode(v)| > buf.Length
    ensures !r.Panic? && buf[..start] == before[..start]
    decreases v, 0
  {
    hide Patch, Encode, Written, Nesting, AllRepresentable, Representable;
    var offset := start + 3;
    for i := 0 to |v.items|
      invariant AllRepresentable(v.items[..i])
      invariant offset == start + |Written(v, i)| <= buf.Length
      invariant buf[..] == Patch(before, start, Written(v, i))
      invariant forall j :: 0 <= j < i ==> depth + 1 + Nesting(v.items[j]) <= MAX_DEPTH
    {
      WrittenGrows(v, i);
      var n := TryWrite(buf, offset, v.items[i], depth + 1);
      if !n.Ok? {
        assert buf[..start] == buf[..offset][..start] == before[..start];
        return n;
      }
      PatchTwice(before, start, Written(v, i), Encode(v.items[i]));
      offset := offset + n.value;
    }
    AllWritten(v, depth);
    r := Ok(offset - start);
  }

  // ----- reading ----------------------------------------------------------------------------

  /** The result of reading on after `items` were read from the first n bytes. */
  function ReadOn(items: seq<ZclData>, n: nat, rest: Outcome<(seq<ZclData>, nat)>): Outcome<(seq<ZclData>, nat)> {
    if rest.Ok? then Ok((items + rest.value.0, n + rest.value.1)) else rest
  }

  lemma ReadOnStep(bytes: seq<Byte>, n: nat, depth: nat, count: nat, items: seq<ZclData>)
    requires n <= |bytes| && depth <= MAX_DEPTH + 1 && count > 0
    ensures var item := Decode(bytes[n..], depth);
            var whole := ReadOn(items, n, DecodeItems(bytes[n..], depth, count));
            if item.Ok? then
              whole == ReadOn(items + [item.value.0], n + item.value.1,
                              DecodeItems(bytes[n + item.value.1..], depth, count - 1))
            else whole == item.PropagateFailure()
  {
    hide Decode, DecodeComposite;
    var item := Decode(bytes[n..], depth);
    if item.Ok? {
      var (v, len) := item.value;
      assert bytes[n..][len..] == bytes[n + len..];
      var rest := DecodeItems(bytes[n + len..], depth, count - 1);
      if rest.Ok? {
        assert items + ([v] + rest.value.0) == items + [v] + rest.value.0;
      }
    }
  }

  /** The reader computes `Decode`, for every input. */
  method TryRead(bytes: seq<Byte>, depth: nat) returns (r: Outcome<(ZclData, nat)>)
    requires depth <= MAX_DEPTH + 1
    ensures r == Decode(bytes, depth)
    decreases MAX_DEPTH + 1 - depth, 1
  {
    if depth > MAX_DEPTH {
      return BadInput;
    }
    if bytes == [] {
      return Panic;
    }
    var body;
    if IsCompositeTag(bytes[0]) {
      body := ReadItems(bytes[0], bytes[1..], depth);
    } else {
      body := DecodeLeaf(bytes[0], bytes[1..]);
    }
    r := if body.Ok? then Ok((body.value.0, body.value.1 + 1)) else body;
  }

  method ReadItems(tag: Byte, body: seq<Byte>, depth: nat) returns (r: Outcome<(ZclData, nat)>)
    requires depth <= MAX_DEPTH
    ensures r == DecodeComposite(tag, body, depth)
    decreases MAX_DEPTH + 1 - depth, 0
  {
    hide FromLe, Decode, DecodeItems, DecodeLeaf;
    if |body| < 2 {
      return Incomplete;
    }
    var count := FromLe(body[..2]);
    var bytes := body[2..];
    var idx: nat := 0;
    var items := [];
    ghost var whole := DecodeItems(bytes, depth + 1, count);
    CompositeOfItems(tag, body, depth);
    hide DecodeComposite;
    NothingRead(bytes, whole);
    for i := 0 to count
      invariant idx <= |bytes|
      invariant whole == ReadOn(items, idx, DecodeItems(bytes[idx..], depth + 1, count - i))
    {
      ReadOnStep(bytes, idx, depth + 1, count - i, items);
      var item := TryRead(bytes[idx..], depth + 1);
      if !item.Ok? {
        return item;
      }
      items := items + [item.value.0];
      idx := idx + item.value.1;
    }
    NothingLeft(bytes[idx..], depth + 1, items, idx);
    r := Ok((Composite(tag, count, items), idx + 2));
  }

  lemma CompositeOfItems(tag: Byte, body: seq<Byte>, depth: nat)
    requires depth <= MAX_DEPTH && |body| >= 2
    ensures var whole := DecodeItems(body[2..], depth + 1, FromLe(body[..2]));
            DecodeComposite(tag, body, depth) ==
            if whole.Ok? then Ok((Composite(tag, FromLe(body[..2]), whole.value.0), whole.value.1 + 2))
            else whole.PropagateFailure()
  {
    hide DecodeItems, FromLe;
  }

  lemma NothingRead(bytes: seq<Byte>, whole: Outcome<(seq<ZclData>, nat)>)
    ensures ReadOn([], 0, whole) == whole && bytes[0..] == bytes
  {
    if whole.Ok? {
      assert [] + whole.value.0 == whole.value.0;
    }
  }

  lemma NothingLeft(bytes: seq<Byte>, depth: nat, items: seq<ZclData>, n: nat)
    requires depth <= MAX_DEPTH + 1
    ensures ReadOn(items, n, DecodeItems(bytes, depth, 0)) == Ok((items, n))
  {
    assert items + [] == items;
  }
}
