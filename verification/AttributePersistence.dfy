/** Storing the attributes of an application as bytes and loading them back: each value in its
    wire form and, for a reported attribute, the two reporting intervals. */
module AttributePersistence {
  import opened Bytes
  import opened Wrappers
  import opened ZclData
  import opened ZclCodec
  import opened ZclBuffer
  import opened ZclWire
  import opened AttributeStore

  // ----- reporting intervals ------------------------------------------------------------------

  /** Sets the intervals. The pair (0xffff, 0) asks for the defaults, but they are overwritten
      with the pair itself. */
  function SetValues(current: Intervals, min: Word, max: Word, change: Option<ZclData>): (Status, Intervals) {
    if min > max && !(max == 0 && min == 0xffff) then (InvalidValue, current)
    else (Success, Intervals(min, max, change))
  }

  method SetReportingConfig(cluster: Cluster, k: nat, min: Word, max: Word, change: Option<ZclData>)
    returns (status: Status)
    requires cluster.Valid() && k < |cluster.definitions| && cluster.definitions[k].reported.Some?
    modifies cluster`attributes
    ensures cluster.Valid()
    ensures var (s, report) := SetValues(old(cluster.attributes[k].report.value), min, max, change);
            && status == s
            && cluster.attributes
               == old(cluster.attributes)[k := Attribute(old(cluster.attributes[k].value), Some(report))]
    ensures if min <= max || (min == 0xffff && max == 0) then
              && status == Success
              && cluster.attributes
                 == old(cluster.attributes)[k := Attribute(old(cluster.attributes[k].value),
                                                           Some(Intervals(min, max, change)))]
            else status == InvalidValue && cluster.attributes == old(cluster.attributes)
  {
    hide Representable, Tag, Lawful;
    var config := cluster.attributes[k].report.value;
    if max == 0 && min == 0xffff {
      config := cluster.definitions[k].reported.value;
    } else if min > max {
      assert cluster.attributes[k] == Attribute(cluster.attributes[k].value, Some(config));
      return InvalidValue;
    }
    config := config.(min := min, max := max, change := change);
    cluster.attributes := cluster.attributes[k := cluster.attributes[k].(report := Some(config))];
    status := Success;
  }

  /** The intervals after any number of configuration requests, starting from the defaults. */
  function Configured(defaults: Intervals, requests: seq<Intervals>): Intervals {
    if requests == [] then defaults
    else
      var last := requests[|requests| - 1];
      SetValues(Configured(defaults, requests[..|requests| - 1]), last.min, last.max, last.change).1
  }

  /** What loading can restore: the pairs `SetValues` accepts, and the default pair. */
  predicate Restorable(defaults: Intervals, current: Intervals) {
    || current.min <= current.max
    || (current.min == 0xffff && current.max == 0)
    || (current.min == defaults.min && current.max == defaults.max)
  }

  /** No run of configuration requests leaves the restorable pairs. */
  lemma {:induction false} ConfiguredIsRestorable(defaults: Intervals, requests: seq<Intervals>)
    ensures Restorable(defaults, Configured(defaults, requests))
  {
    if requests != [] {
      ConfiguredIsRestorable(defaults, requests[..|requests| - 1]);
    }
  }

  // ----- one attribute ------------------------------------------------------------------------

  function StoredIntervals(attr: Attribute): seq<Byte> {
    if attr.report.None? then [] else LeBytes(attr.report.value.min, 2) + LeBytes(attr.report.value.max, 2)
  }

  function Stored(attr: Attribute): seq<Byte>
    requires Representable(attr.value)
  {
    Encode(attr.value) + StoredIntervals(attr)
  }

  /** Minimum and maximum behind the value, each with the low byte first. */
  lemma StoredWireForm(attr: Attribute)
    requires Representable(attr.value)
    ensures Stored(attr) == Encode(attr.value)
            + match attr.report
              case None => []
              case Some(report) => [report.min % 0x100, report.min / 0x100, report.max % 0x100, report.max / 0x100]
  {
    hide Representable, Encode;
    if attr.report.Some? {
      TwoBytes(attr.report.value.min);
      TwoBytes(attr.report.value.max);
    }
  }

  lemma TwoBytes(w: Word)
    ensures LeBytes(w, 2) == [w % 0x100, w / 0x100]
  {
    assert LeBytes(w / 0x100, 1) == [w / 0x100] + LeBytes(0, 0);
  }

  /** The intervals read behind the n bytes of the value. Loading ignores a rejected pair, which
      leaves the defaults. */
  function ReloadIntervals(def: Definition, bytes: seq<Byte>, n: nat): (r: Outcome<(Option<Intervals>, nat)>)
    requires n <= |bytes|
    ensures r.Ok? ==> r.value.1 <= |bytes|
  {
    match def.reported
    case None => Ok((None, n))
    case Some(defaults) =>
      if |bytes| - n < 4 then Incomplete
      else
        LeBytesOfFromLe(bytes[n..n + 2]);
        LeBytesOfFromLe(bytes[n + 2..n + 4]);
        assert Radix(2) == 0x1_0000;
        Ok((Some(SetValues(defaults, FromLe(bytes[n..n + 2]), FromLe(bytes[n + 2..n + 4]), defaults.change).1), n + 4))
  }

  function Reload(def: Definition, bytes: seq<Byte>): (r: Outcome<(Attribute, nat)>)
    ensures r.Ok? ==> r.value.1 <= |bytes|
  {
    var (value, n) :- Decode(bytes, 0);
    var (report, len) :- ReloadIntervals(def, bytes, n);
    if Tag(value) != def.tag then BadInput
    else
      match def.convert(value)
      case None => BadInput
      case Some(converted) => Ok((Attribute(converted, report), len))
  }

  /** What loading one attribute answers: the value must be readable, the four bytes of the intervals be
      there if the attribute is reported, and the value be of the variant and convert, in this order.
      A pair that no request could set leaves the defaults. */
  ghost predicate Loads(def: Definition, bytes: seq<Byte>, r: Outcome<(Attribute, nat)>) {
    match Decode(bytes, 0)
    case Ok((value, n)) =>
      if def.reported.Some? && |bytes| < n + 4 then r == Incomplete
      else if Tag(value) != def.tag || def.convert(value).None? then r == BadInput
      else
        && r.Ok? && r.value.0.value == def.convert(value).value
        && if def.reported.None? then r.value.0.report.None? && r.value.1 == n
           else LoadsIntervals(def.reported.value, bytes, n, r.value.0.report) && r.value.1 == n + 4
    case failure => r == failure.PropagateFailure()
  }

  ghost predicate LoadsIntervals(defaults: Intervals, bytes: seq<Byte>, n: nat, report: Option<Intervals>)
    requires n + 4 <= |bytes|
  {
    var min, max := bytes[n] as nat + 0x100 * bytes[n + 1] as nat, bytes[n + 2] as nat + 0x100 * bytes[n + 3] as nat;
    report == Some(if min <= max || (min == 0xffff && max == 0) then Intervals(min, max, defaults.change) else defaults)
  }

  lemma ReloadLoads(def: Definition, bytes: seq<Byte>)
    ensures Loads(def, bytes, Reload(def, bytes))
  {
    hide Decode, Tag, LoadsIntervals;
    if Decode(bytes, 0).Ok? {
      ReloadLoadsIntervals(def, bytes, Decode(bytes, 0).value.1);
      hide ReloadIntervals;
    }
  }

  lemma ReloadLoadsIntervals(def: Definition, bytes: seq<Byte>, n: nat)
    requires n <= |bytes|
    ensures var r := ReloadIntervals(def, bytes, n);
            if def.reported.None? then r == Ok((None, n))
            else if |bytes| < n + 4 then r == Incomplete
            else r.Ok? && LoadsIntervals(def.reported.value, bytes, n, r.value.0) && r.value.1 == n + 4
  {
    hide FromLe;
    if n + 4 <= |bytes| {
      LengthIsRead(bytes[n..], 2);
      LengthIsRead(bytes[n + 2..], 2);
      assert bytes[n..][..2] == bytes[n..n + 2] && bytes[n + 2..][..2] == bytes[n + 2..n + 4];
    }
  }

  /** The attribute as loading leaves it: the reportable change is not stored. */
  function Restored(def: Definition, attr: Attribute): Attribute
    requires attr.report.Some? ==> def.reported.Some?
  {
    if attr.report.None? then attr
    else attr.(report := Some(attr.report.value.(change := def.reported.value.change)))
  }

  predicate Recoverable(def: Definition, attr: Attribute)
    requires Representable(attr.value) && (attr.report.Some? ==> def.reported.Some?)
  {
    WellFormed(attr.value) && (attr.report.Some? ==> Restorable(def.reported.value, attr.report.value))
  }

  /** A conversion that loses nothing, as for integers, strings and enumerations. */
  ghost predicate Exact(def: Definition) {
    forall d: ZclData :: def.convert(d).Some? ==> def.convert(d).value == d
  }

  /** A stored attribute is restored, and its bytes are consumed, if its value is well formed and
      its intervals are restorable. */
  lemma StoredIsRestored(def: Definition, attr: Attribute, tail: seq<Byte>)
    requires Lawful(def) && Sound(def, attr) && Recoverable(def, attr)
    ensures Reload(def, Stored(attr) + tail) == Ok((Restored(def, attr), |Stored(attr)|))
  {
    hide Tag, Decode, Representable, WellFormed, ReloadIntervals;
    LeafHasNoNesting(def, attr);
    assert Stored(attr) + tail == Encode(attr.value) + (StoredIntervals(attr) + tail);
    DecodeOfEncode(attr.value, 0, StoredIntervals(attr) + tail);
    IntervalsRestoredIff(def, attr, tail);
  }

  lemma LeafHasNoNesting(def: Definition, attr: Attribute)
    requires Lawful(def) && Sound(def, attr)
    ensures !attr.value.Composite? && Nesting(attr.value) == 0
  {
  }

  lemma IntervalsRestoredIff(def: Definition, attr: Attribute, tail: seq<Byte>)
    requires Representable(attr.value) && (attr.report.Some? <==> def.reported.Some?)
    ensures ReloadIntervals(def, Stored(attr) + tail, |Encode(attr.value)|)
            == Ok((Restored(def, attr).report, |Stored(attr)|))
            <==> (attr.report.Some? ==> Restorable(def.reported.value, attr.report.value))
  {
    hide FromLe, LeBytes, Encode;
    if attr.report.Some? {
      var n, bytes := |Encode(attr.value)|, Stored(attr) + tail;
      assert bytes[n..n + 2] == LeBytes(attr.report.value.min, 2);
      assert bytes[n + 2..n + 4] == LeBytes(attr.report.value.max, 2);
      assert Radix(2) == 0x1_0000;
      LeRoundTrip(attr.report.value.min, 2);
      LeRoundTrip(attr.report.value.max, 2);
    }
  }

  /** With an exact conversion these conditions are also necessary. */
  lemma RestoredIffRecoverable(def: Definition, attr: Attribute, tail: seq<Byte>)
    requires Lawful(def) && Sound(def, attr) && Exact(def)
    ensures Reload(def, Stored(attr) + tail) == Ok((Restored(def, attr), |Stored(attr)|)) <==> Recoverable(def, attr)
  {
    hide Decode, Representable, WellFormed, ReloadIntervals, Encode, Tag;
    if Recoverable(def, attr) {
      StoredIsRestored(def, attr, tail);
    } else if Reload(def, Stored(attr) + tail) == Ok((Restored(def, attr), |Stored(attr)|)) {
      LeafHasNoNesting(def, attr);
      var (value, n) := Decode(Stored(attr) + tail, 0).value;
      assert value == attr.value;
      IntervalsLength(def, attr, tail, n);
      IntervalsRestoredIff(def, attr, tail);
      assert Stored(attr) + tail == Encode(attr.value) + (StoredIntervals(attr) + tail);
      LeafReadBack(attr.value, StoredIntervals(attr) + tail, Stored(attr) + tail);
    }
  }

  lemma IntervalsLength(def: Definition, attr: Attribute, tail: seq<Byte>, n: nat)
    requires Representable(attr.value) && (attr.report.Some? <==> def.reported.Some?)
    requires n <= |Stored(attr) + tail| && ReloadIntervals(def, Stored(attr) + tail, n).Ok?
    requires ReloadIntervals(def, Stored(attr) + tail, n).value.1 == |Stored(attr)|
    ensures n == |Encode(attr.value)|
  {
    hide Encode, FromLe;
  }

  lemma LeafReadBack(v: ZclData, rest: seq<Byte>, bytes: seq<Byte>)
    requires Representable(v) && !v.Composite? && bytes == Encode(v) + rest
    requires Decode(bytes, 0) == Ok((v, |Encode(v)|))
    ensures WellFormed(v)
  {
    hide Payload, DecodeLeaf, WellFormed, Representable;
    TagOfLeaf(v);
    assert bytes[1..] == Payload(v) + rest;
    LeafRoundTripsIff(v, rest);
  }

  // ----- clusters and applications ------------------------------------------------------------

  ghost predicate AllRecoverable(defs: seq<Definition>, attrs: seq<Attribute>) {
    && AllSound(defs, attrs)
    && forall i :: 0 <= i < |defs| ==> Recoverable(defs[i], attrs[i])
  }

  function StoredAll(attrs: seq<Attribute>): seq<Byte>
    requires forall i :: 0 <= i < |attrs| ==> Representable(attrs[i].value)
  {
    if attrs == [] then [] else StoredAll(attrs[..|attrs| - 1]) + Stored(attrs[|attrs| - 1])
  }

  /** Loads the attributes from the i-th on; those before a failure stay loaded. */
  function ReloadFrom(defs: seq<Definition>, attrs: seq<Attribute>, i: nat, bytes: seq<Byte>, offset: nat)
    : (r: (seq<Attribute>, Outcome<nat>))
    requires |defs| == |attrs| && i <= |defs| && offset <= |bytes|
    ensures |r.0| == |attrs|
    ensures r.1.Ok? ==> r.1.value <= |bytes|
    decreases |defs| - i
  {
    if i == |defs| then (attrs, Ok(offset))
    else
      var item := Reload(defs[i], bytes[offset..]);
      if item.Ok? then ReloadFrom(defs, attrs[i := item.value.0], i + 1, bytes, offset + item.value.1)
      else (attrs, item.PropagateFailure())
  }

  /** The attributes are loaded one behind the other, up to the first that fails, whose failure is the
      answer; that one and the later ones keep what they held. */
  ghost predicate LoadedInOrder(defs: seq<Definition>, before: seq<Attribute>, after: seq<Attribute>, bytes: seq<Byte>,
                                start: nat, r: Outcome<nat>, offsets: seq<nat>)
  {
    && |defs| == |before| == |after| && 1 <= |offsets| <= |defs| + 1 && offsets[0] == start
    && (forall i :: 0 <= i < |offsets| ==> offsets[i] <= |bytes|)
    && (forall i :: 0 <= i < |offsets| - 1 ==> LoadedAt(defs[i], after[i], bytes, offsets[i], offsets[i + 1]))
    && (forall i :: |offsets| - 1 <= i < |defs| ==> after[i] == before[i])
    && if |offsets| == |defs| + 1 then r == Ok(offsets[|defs|])
       else
         var failed := Reload(defs[|offsets| - 1], bytes[offsets[|offsets| - 1]..]);
         !failed.Ok? && r == failed.PropagateFailure()
  }

  ghost predicate LoadedAt(def: Definition, attr: Attribute, bytes: seq<Byte>, start: nat, end: nat) {
    start <= end <= |bytes| && Reload(def, bytes[start..]) == Ok((attr, end - start))
  }

  lemma {:induction false} ReloadsInOrder(defs: seq<Definition>, attrs: seq<Attribute>, i: nat, bytes: seq<Byte>,
                                          offset: nat)
    returns (offsets: seq<nat>)
    requires |defs| == |attrs| && i <= |defs| && offset <= |bytes|
    ensures var (after, r) := ReloadFrom(defs, attrs, i, bytes, offset);
            && after[..i] == attrs[..i]
            && LoadedInOrder(defs[i..], attrs[i..], after[i..], bytes, offset, r, offsets)
    decreases |defs| - i
  {
    hide Reload;
    offsets := [offset];
    if i < |defs| {
      var item := Reload(defs[i], bytes[offset..]);
      if item.Ok? {
        var (attr, n) := item.value;
        var (after, r) := ReloadFrom(defs, attrs, i, bytes, offset);
        var later := ReloadsInOrder(defs, attrs[i := attr], i + 1, bytes, offset + n);
        offsets := offsets + later;
        LoadedNext(defs, attrs, attr, i, bytes, offset, n, after, r, later);
      }
    }
  }

  lemma LoadedNext(defs: seq<Definition>, attrs: seq<Attribute>, attr: Attribute, i: nat, bytes: seq<Byte>, offset: nat,
                   n: nat, after: seq<Attribute>, r: Outcome<nat>, later: seq<nat>)
    requires |defs| == |attrs| == |after| && i < |defs| && offset + n <= |bytes|
    requires Reload(defs[i], bytes[offset..]) == Ok((attr, n)) && after[..i + 1] == attrs[i := attr][..i + 1]
    requires LoadedInOrder(defs[i + 1..], attrs[i := attr][i + 1..], after[i + 1..], bytes, offset + n, r, later)
    ensures after[..i] == attrs[..i]
    ensures LoadedInOrder(defs[i..], attrs[i..], after[i..], bytes, offset, r, [offset] + later)
  {
    hide Reload;
    assert after[i] == after[..i + 1][i] == attr;
    assert after[..i] == after[..i + 1][..i];
    assert attrs[i := attr][i + 1..] == attrs[i + 1..];
    var offsets := [offset] + later;
    forall j | 0 <= j < |offsets| - 1 ensures LoadedAt(defs[i..][j], after[i..][j], bytes, offsets[j], offsets[j + 1]) {
      assert j > 0 ==> LoadedAt(defs[i + 1..][j - 1], after[i + 1..][j - 1], bytes, later[j - 1], later[j]);
    }
    forall j | |offsets| - 1 <= j < |defs[i..]| ensures after[i..][j] == attrs[i..][j] {
      assert after[i + 1..][j - 1] == attrs[i + 1..][j - 1];
    }
  }

  /** Loading a cluster in plain terms. */
  lemma ClusterIsLoadedInOrder(defs: seq<Definition>, attrs: seq<Attribute>, bytes: seq<Byte>, start: nat)
    requires |defs| == |attrs| && start <= |bytes|
    ensures exists offsets ::
              LoadedInOrder(defs, attrs, ReloadFrom(defs, attrs, 0, bytes, start).0, bytes, start,
                            ReloadFrom(defs, attrs, 0, bytes, start).1, offsets)
  {
    hide LoadedInOrder, ReloadFrom;
    var offsets := ReloadsInOrder(defs, attrs, 0, bytes, start);
    var after := ReloadFrom(defs, attrs, 0, bytes, start).0;
    assert defs[0..] == defs && attrs[0..] == attrs && after[0..] == after;
  }

  function AllRestored(defs: seq<Definition>, attrs: seq<Attribute>): seq<Attribute>
    requires |defs| == |attrs| && forall i :: 0 <= i < |defs| ==> attrs[i].report.Some? ==> defs[i].reported.Some?
  {
    seq(|defs|, i requires 0 <= i < |defs| => Restored(defs[i], attrs[i]))
  }

  lemma {:induction false} StoredSplit(attrs: seq<Attribute>, i: nat)
    requires (forall j :: 0 <= j < |attrs| ==> Representable(attrs[j].value)) && i < |attrs|
    ensures |StoredAll(attrs[..i])| + |Stored(attrs[i])| <= |StoredAll(attrs)|
    ensures StoredAll(attrs)[|StoredAll(attrs[..i])|..][..|Stored(attrs[i])|] == Stored(attrs[i])
    ensures StoredAll(attrs[..i + 1]) == StoredAll(attrs[..i]) + Stored(attrs[i])
  {
    hide Stored, Representable;
    var init := attrs[..|attrs| - 1];
    assert attrs[..i + 1][..i] == attrs[..i];
    if i < |attrs| - 1 {
      StoredSplit(init, i);
      assert init[..i] == attrs[..i] && init[i] == attrs[i];
      var n, m := |StoredAll(attrs[..i])|, |Stored(attrs[i])|;
      assert StoredAll(attrs)[n..][..m] == StoredAll(init)[n..][..m];
    } else {
      assert attrs[..i] == init && attrs[..i + 1] == attrs;
    }
  }

  lemma SliceOfSlice(bytes: seq<Byte>, offset: nat, part: seq<Byte>, n: nat, len: nat)
    requires offset + |part| <= |bytes| && bytes[offset..offset + |part|] == part && n + len <= |part|
    ensures bytes[offset + n..][..len] == part[n..][..len]
  {
    assert bytes[offset + n..][..len] == bytes[offset..offset + |part|][n..][..len];
  }

  lemma RestoreNext(defs: seq<Definition>, attrs: seq<Attribute>, current: seq<Attribute>, i: nat)
    requires |defs| == |attrs| == |current| && i < |defs|
    requires forall k :: 0 <= k < |defs| ==> attrs[k].report.Some? ==> defs[k].reported.Some?
    requires current[..i] == AllRestored(defs, attrs)[..i]
    ensures current[i := Restored(defs[i], attrs[i])][..i + 1] == AllRestored(defs, attrs)[..i + 1]
  {
    hide Restored;
  }

  lemma AttributeIsReloaded(defs: seq<Definition>, attrs: seq<Attribute>, i: nat, bytes: seq<Byte>, offset: nat)
    requires AllRecoverable(defs, attrs) && i < |defs|
    requires offset + |StoredAll(attrs)| <= |bytes|
    requires bytes[offset..offset + |StoredAll(attrs)|] == StoredAll(attrs)
    ensures var n := |StoredAll(attrs[..i])|;
            && n + |Stored(attrs[i])| == |StoredAll(attrs[..i + 1])| <= |StoredAll(attrs)|
            && Reload(defs[i], bytes[offset + n..]) == Ok((Restored(defs[i], attrs[i]), |Stored(attrs[i])|))
  {
    hide Stored, StoredAll, Representable, Restored, Reload, Lawful, Tag;
    StoredSplit(attrs, i);
    var n, len := |StoredAll(attrs[..i])|, |Stored(attrs[i])|;
    var rest := bytes[offset + n..];
    SliceOfSlice(bytes, offset, StoredAll(attrs), n, len);
    assert rest == Stored(attrs[i]) + rest[len..];
    StoredIsRestored(defs[i], attrs[i], rest[len..]);
  }

  /** A cluster is restored attribute by attribute, whatever it held, and the offset ends behind
      its bytes. */
  lemma {:induction false} ClusterIsRestored(defs: seq<Definition>, attrs: seq<Attribute>, current: seq<Attribute>,
                                             i: nat, bytes: seq<Byte>, offset: nat)
    requires AllRecoverable(defs, attrs) && |current| == |defs| && i <= |defs|
    requires offset + |StoredAll(attrs)| <= |bytes|
    requires bytes[offset..offset + |StoredAll(attrs)|] == StoredAll(attrs)
    requires |StoredAll(attrs[..i])| <= |StoredAll(attrs)|
    requires current[..i] == AllRestored(defs, attrs)[..i]
    ensures ReloadFrom(defs, current, i, bytes, offset + |StoredAll(attrs[..i])|)
            == (AllRestored(defs, attrs), Ok(offset + |StoredAll(attrs)|))
    decreases |defs| - i
  {
    hide Stored, Representable, Recoverable, Restored, Reload, Lawful, Tag;
    if i == |defs| {
      assert attrs[..i] == attrs;
      assert current[..i] == current && AllRestored(defs, attrs)[..i] == AllRestored(defs, attrs);
    } else {
      AttributeIsReloaded(defs, attrs, i, bytes, offset);
      hide StoredAll, AllRestored;
      var next := current[i := Restored(defs[i], attrs[i])];
      RestoreNext(defs, attrs, current, i);
      ClusterIsRestored(defs, attrs, next, i + 1, bytes, offset);
    }
  }

  ghost predicate SameShape(defss: seq<seq<Definition>>, attrss: seq<seq<Attribute>>) {
    |defss| == |attrss| && forall j :: 0 <= j < |defss| ==> |defss[j]| == |attrss[j]|
  }

  ghost predicate ApplicationRecoverable(defss: seq<seq<Definition>>, attrss: seq<seq<Attribute>>) {
    |defss| == |attrss| && forall j :: 0 <= j < |defss| ==> AllRecoverable(defss[j], attrss[j])
  }

  ghost predicate AllRepresentableIn(attrss: seq<seq<Attribute>>) {
    forall j, i :: 0 <= j < |attrss| && 0 <= i < |attrss[j]| ==> Representable(attrss[j][i].value)
  }

  ghost function StoredApplication(attrss: seq<seq<Attribute>>): seq<Byte>
    requires AllRepresentableIn(attrss)
  {
    if attrss == [] then [] else StoredAll(attrss[0]) + StoredApplication(attrss[1..])
  }

  /** Loads cluster after cluster with one offset; a failure ends the loading. */
  ghost function ReloadApplication(defss: seq<seq<Definition>>, attrss: seq<seq<Attribute>>, bytes: seq<Byte>,
                                   offset: nat)
    : (r: (seq<seq<Attribute>>, Outcome<nat>))
    requires SameShape(defss, attrss) && offset <= |bytes|
    ensures SameShape(defss, r.0)
    decreases defss
  {
    if defss == [] then ([], Ok(offset))
    else
      var (attrs, end) := ReloadFrom(defss[0], attrss[0], 0, bytes, offset);
      if end.Ok? then
        var (rest, last) := ReloadApplication(defss[1..], attrss[1..], bytes, end.value);
        ([attrs] + rest, last)
      else ([attrs] + attrss[1..], end)
  }

  ghost function ApplicationRestored(defss: seq<seq<Definition>>, attrss: seq<seq<Attribute>>): seq<seq<Attribute>>
    requires ApplicationRecoverable(defss, attrss)
  {
    seq(|defss|, j requires 0 <= j < |defss| => AllRestored(defss[j], attrss[j]))
  }

  /** Loading the stored bytes of an application, with anything behind them, into any state of it
      restores every value and every interval pair of all its clusters. */
  lemma {:induction false} ApplicationIsRestored(defss: seq<seq<Definition>>, attrss: seq<seq<Attribute>>,
                                                 current: seq<seq<Attribute>>, before: seq<Byte>, tail: seq<Byte>)
    requires ApplicationRecoverable(defss, attrss) && SameShape(defss, current)
    ensures ReloadApplication(defss, current, before + StoredApplication(attrss) + tail, |before|)
            == (ApplicationRestored(defss, attrss), Ok(|before + StoredApplication(attrss)|))
    decreases defss
  {
    hide StoredAll, ReloadFrom, AllRestored, Recoverable;
    var bytes := before + StoredApplication(attrss) + tail;
    if defss == [] {
      assert StoredApplication(attrss) == [] && ApplicationRestored(defss, attrss) == [];
    } else {
      var first := StoredAll(attrss[0]);
      assert bytes == (before + first) + StoredApplication(attrss[1..]) + tail;
      FirstClusterIsRestored(defss[0], attrss[0], current[0], before, StoredApplication(attrss[1..]) + tail, bytes);
      ApplicationIsRestored(defss[1..], attrss[1..], current[1..], before + first, tail);
      assert [AllRestored(defss[0], attrss[0])] + ApplicationRestored(defss[1..], attrss[1..])
             == ApplicationRestored(defss, attrss);
    }
  }

  lemma FirstClusterIsRestored(defs: seq<Definition>, attrs: seq<Attribute>, current: seq<Attribute>,
                               before: seq<Byte>, after: seq<Byte>, bytes: seq<Byte>)
    requires AllRecoverable(defs, attrs) && |current| == |defs| && bytes == before + StoredAll(attrs) + after
    ensures ReloadFrom(defs, current, 0, bytes, |before|)
            == (AllRestored(defs, attrs), Ok(|before| + |StoredAll(attrs)|))
  {
    hide Recoverable, Restored, Sound, Representable, ReloadFrom;
    assert StoredAll(attrs[..0]) == [];
    assert AllSound(defs, attrs);
    RestoredShape(defs, attrs);
    assert current[..0] == AllRestored(defs, attrs)[..0];
    ClusterIsRestored(defs, attrs, current, 0, bytes, |before|);
  }

  lemma RestoredShape(defs: seq<Definition>, attrs: seq<Attribute>)
    requires AllSound(defs, attrs)
    ensures forall i :: 0 <= i < |defs| ==> attrs[i].report.Some? ==> defs[i].reported.Some?
    ensures forall i :: 0 <= i < |attrs| ==> Representable(attrs[i].value)
  {
    hide Representable, Lawful, Tag;
  }

  // ----- the methods --------------------------------------------------------------------------

  /** Writes an attribute at an offset; succeeds exactly if its bytes fit. */
  method WriteAttribute(attr: Attribute, buf: array<Byte>, start: nat) returns (r: Outcome<nat>)
    requires start <= buf.Length && Representable(attr.value) && !attr.value.Composite?
    modifies buf
    ensures r.Ok? <==> start + |Stored(attr)| <= buf.Length
    ensures r.Ok? ==> r.value == start + |Stored(attr)| && buf[..] == Patch(old(buf[..]), start, Stored(attr))
  {
    hide Representable, Encode, LeBytes, Patch;
    var n := TryWrite(buf, start, attr.value, 0);
    if !n.Ok? {
      return n;
    }
    var offset := start + n.value;
    if attr.report.None? {
      assert Encode(attr.value) == Stored(attr);
      return Ok(offset);
    }
    r := WriteIntervals(attr, buf, offset);
    if r.Ok? {
      PatchTwice(old(buf[..]), start, Encode(attr.value), StoredIntervals(attr));
    }
  }

  method WriteIntervals(attr: Attribute, buf: array<Byte>, start: nat) returns (r: Outcome<nat>)
    requires start <= buf.Length && attr.report.Some?
    modifies buf
    ensures r.Ok? <==> start + |StoredIntervals(attr)| <= buf.Length
    ensures r.Ok? ==> r.value == start + |StoredIntervals(attr)|
                      && buf[..] == Patch(old(buf[..]), start, StoredIntervals(attr))
  {
    hide LeBytes, Patch;
    var min, max := LeBytes(attr.report.value.min, 2), LeBytes(attr.report.value.max, 2);
    var ok := Put(buf, start, min);
    if ok {
      ok := Put(buf, start + 2, max);
    }
    if !ok {
      return Incomplete;
    }
    PatchTwice(old(buf[..]), start, min, max);
    r := Ok(start + 4);
  }

  /** Writes the attributes of a cluster in order. */
  method WriteWith(cluster: Cluster, buf: array<Byte>, start: nat) returns (r: Outcome<nat>)
    requires cluster.Valid() && start <= buf.Length
    requires forall i :: 0 <= i < |cluster.attributes| ==> Representable(cluster.attributes[i].value)
    modifies buf
    ensures r.Ok? <==> start + |StoredAll(cluster.attributes)| <= buf.Length
    ensures r.Ok? ==> r.value == start + |StoredAll(cluster.attributes)|
                      && buf[..] == Patch(old(buf[..]), start, StoredAll(cluster.attributes))
  {
    hide Representable, Stored, Patch, Tag, Lawful;
    var attrs := cluster.attributes;
    var offset := start;
    NothingStored(old(buf[..]), start, attrs);
    hide StoredAll;
    for i := 0 to |attrs|
      invariant forall j :: 0 <= j < |attrs| ==> Representable(attrs[j].value)
      invariant offset == start + |StoredAll(attrs[..i])| <= buf.Length
      invariant buf[..] == Patch(old(buf[..]), start, StoredAll(attrs[..i]))
    {
      StoredSplit(attrs, i);
      LeafHasNoNesting(cluster.definitions[i], attrs[i]);
      var end := WriteAttribute(attrs[i], buf, offset);
      if !end.Ok? {
        return end;
      }
      PatchTwice(old(buf[..]), start, StoredAll(attrs[..i]), Stored(attrs[i]));
      offset := end.value;
    }
    assert attrs[..|attrs|] == attrs;
    r := Ok(offset);
  }

  lemma NothingStored(buf: seq<Byte>, start: nat, attrs: seq<Attribute>)
    requires start <= |buf|
    ensures StoredAll(attrs[..0]) == [] && Patch(buf, start, []) == buf
  {
    assert attrs[..0] == [];
  }

  /** Loads the attributes of a cluster in order, in place; those read before a failure are kept. */
  method ReadWith(cluster: Cluster, bytes: seq<Byte>, start: nat) returns (r: Outcome<nat>)
    requires cluster.Valid() && start <= |bytes|
    modifies cluster`attributes
    ensures cluster.Valid()
    ensures (cluster.attributes, r) == ReloadFrom(cluster.definitions, old(cluster.attributes), 0, bytes, start)
  {
    hide Reload, Decode, Representable, Tag, Lawful, Loads;
    var offset: nat := start;
    for i := 0 to |cluster.definitions|
      invariant cluster.Valid() && offset <= |bytes|
      invariant ReloadFrom(cluster.definitions, old(cluster.attributes), 0, bytes, start)
                == ReloadFrom(cluster.definitions, cluster.attributes, i, bytes, offset)
    {
      var item := ReadAttribute(cluster.definitions[i], bytes[offset..]);
      if !item.Ok? {
        return item.PropagateFailure();
      }
      ReloadIsSound(cluster.definitions[i], bytes[offset..]);
      cluster.attributes := cluster.attributes[i := item.value.0];
      offset := offset + item.value.1;
    }
    r := Ok(offset);
  }

  lemma ReloadIsSound(def: Definition, bytes: seq<Byte>)
    requires Lawful(def) && Reload(def, bytes).Ok?
    ensures Sound(def, Reload(def, bytes).value.0)
  {
    hide Decode, Representable, Tag;
    AcceptedIsRepresentable(bytes, 0);
  }

  method ReadAttribute(def: Definition, bytes: seq<Byte>) returns (r: Outcome<(Attribute, nat)>)
    ensures r == Reload(def, bytes) && Loads(def, bytes, r)
  {
    ReloadLoads(def, bytes);
    hide Decode, ReloadIntervals, Tag, Loads;
    var data := TryRead(bytes, 0);
    if !data.Ok? {
      return data.PropagateFailure();
    }
    var (value, n) := data.value;
    var intervals := ReloadIntervals(def, bytes, n);
    if !intervals.Ok? {
      return intervals.PropagateFailure();
    }
    if Tag(value) != def.tag {
      return BadInput;
    }
    var converted := def.convert(value);
    if converted.None? {
      return BadInput;
    }
    r := Ok((Attribute(converted.value, intervals.value.0), intervals.value.1));
  }

  /** The attribute lists of the clusters of an application. */
  ghost function AttributesOf(app: seq<Cluster>): seq<seq<Attribute>>
    reads app
  {
    seq(|app|, j requires 0 <= j < |app| reads app => app[j].attributes)
  }

  ghost function DefinitionsOf(app: seq<Cluster>): seq<seq<Definition>> {
    seq(|app|, j requires 0 <= j < |app| => app[j].definitions)
  }

  ghost predicate ValidApplication(app: seq<Cluster>)
    reads app
  {
    && (forall j :: 0 <= j < |app| ==> app[j].Valid())
    && (forall i, j :: 0 <= i < j < |app| ==> app[i] != app[j])
  }

  /** Loads all clusters in order from one offset, in place. */
  method Load(app: seq<Cluster>, bytes: seq<Byte>) returns (r: Outcome<nat>)
    requires ValidApplication(app)
    modifies app
    ensures ValidApplication(app)
    ensures (AttributesOf(app), r) == ReloadApplication(DefinitionsOf(app), old(AttributesOf(app)), bytes, 0)
  {
    r := LoadFrom(app, bytes, 0);
  }

  method LoadFrom(app: seq<Cluster>, bytes: seq<Byte>, start: nat) returns (r: Outcome<nat>)
    requires ValidApplication(app) && start <= |bytes|
    modifies app
    ensures ValidApplication(app)
    ensures (AttributesOf(app), r) == ReloadApplication(DefinitionsOf(app), old(AttributesOf(app)), bytes, start)
    decreases |app|
  {
    hide ReloadFrom, AllSound;
    if app == [] {
      return Ok(start);
    }
    ghost var attrss := AttributesOf(app);
    var end := ReadWith(app[0], bytes, start);
    assert AttributesOf(app[1..]) == attrss[1..];
    assert DefinitionsOf(app[1..]) == DefinitionsOf(app)[1..];
    if !end.Ok? {
      assert AttributesOf(app) == [app[0].attributes] + attrss[1..];
      return end;
    }
    r := LoadFrom(app[1..], bytes, end.value);
    assert AttributesOf(app) == [app[0].attributes] + AttributesOf(app[1..]);
  }

  /** Writes all clusters in order; succeeds exactly if their bytes fit. */
  method StoreFrom(app: seq<Cluster>, buf: array<Byte>, start: nat) returns (r: Outcome<nat>)
    requires ValidApplication(app) && start <= buf.Length
    requires AllRepresentableIn(AttributesOf(app))
    modifies buf
    ensures r.Ok? <==> start + |StoredApplication(AttributesOf(app))| <= buf.Length
    ensures r.Ok? ==> r.value == start + |StoredApplication(AttributesOf(app))|
                      && buf[..] == Patch(old(buf[..]), start, StoredApplication(AttributesOf(app)))
    decreases |app|
  {
    hide StoredAll, AllSound, Representable, Patch;
    if app == [] {
      NothingStored(buf[..], start, []);
      return Ok(start);
    }
    assert AttributesOf(app)[0] == app[0].attributes;
    assert AttributesOf(app[1..]) == AttributesOf(app)[1..];
    var end := WriteWith(app[0], buf, start);
    if !end.Ok? {
      return end;
    }
    r := StoreFrom(app[1..], buf, end.value);
    if r.Ok? {
      PatchTwice(old(buf[..]), start, StoredAll(app[0].attributes), StoredApplication(AttributesOf(app[1..])));
    }
  }
}
