/** The attributes of a cluster and the commands that write and discover them (Zigbee Cluster
    Library specification, sections 2.5.3 to 2.5.5 and 2.5.13). */
module AttributeStore {
  import opened Bytes
  import opened Wrappers
  import opened ZclData
  import opened ZclCodec

  datatype Status = Success | UnsupportedAttribute | ReadOnly | InvalidDataType | InvalidValue

  /** What an attribute is declared with: its identifier and variant, write access, the
      conversion to its Rust type and the range check on it, and the reporting defaults. A value
      of the Rust type stands here as the ZCL value it is reported as. */
  datatype Definition = Definition(
    identifier: Word,
    tag: Byte,
    writable: bool,
    convert: ZclData -> Option<ZclData>,
    inRange: ZclData -> bool,
    reported: Option<Intervals>)

  datatype Intervals = Intervals(min: Word, max: Word, change: Option<ZclData>)

  datatype Attribute = Attribute(value: ZclData, report: Option<Intervals>)

  datatype Record = Record(identifier: Word, data: ZclData)

  const MAX_COMMAND_ITEMS: nat := 64
  const MAX_ATTRIBUTES: nat := 32

  /** Converting gives a value of the type, and converting that again changes nothing. The macro
      only takes variants with a single field, so no composites. */
  ghost predicate Lawful(def: Definition) {
    && !IsCompositeTag(def.tag)
    && forall d: ZclData :: Representable(d) && Tag(d) == def.tag && def.convert(d).Some? ==>
      var value := def.convert(d).value;
      Representable(value) && Tag(value) == def.tag && def.convert(value) == Some(value)
  }

  /** The attribute holds a value of its type, and intervals if it is declared with them. */
  ghost predicate Sound(def: Definition, attr: Attribute) {
    && Representable(attr.value) && Tag(attr.value) == def.tag && def.convert(attr.value) == Some(attr.value)
    && (attr.report.Some? <==> def.reported.Some?)
  }

  ghost predicate AllSound(defs: seq<Definition>, attrs: seq<Attribute>) {
    && |attrs| == |defs| <= MAX_ATTRIBUTES
    && (forall i :: 0 <= i < |defs| ==> Lawful(defs[i]))
    && (forall i :: 0 <= i < |defs| ==> Sound(defs[i], attrs[i]))
  }

  ghost predicate RepresentableRecords(cmd: seq<Record>) {
    forall i :: 0 <= i < |cmd| ==> Representable(cmd[i].data)
  }

  // ----- one record -------------------------------------------------------------------------

  predicate Names(defs: seq<Definition>, id: Word, k: nat) {
    k < |defs| && defs[k].identifier == id && forall i :: k < i < |defs| ==> defs[i].identifier != id
  }

  /** The attribute an identifier names: the last declared with it. */
  function Find(defs: seq<Definition>, id: Word): (r: Option<nat>)
    ensures r.Some? ==> Names(defs, id, r.value)
    ensures r.None? ==> forall i :: 0 <= i < |defs| ==> defs[i].identifier != id
  {
    if defs == [] then None
    else if defs[|defs| - 1].identifier == id then Some(|defs| - 1)
    else Find(defs[..|defs| - 1], id)
  }

  function Validate(def: Definition, data: ZclData): Status {
    if Tag(data) != def.tag then InvalidDataType
    else
      match def.convert(data)
      case None => InvalidValue
      case Some(value) => if def.inRange(value) then Success else InvalidValue
  }

  /** The status a record gets, whatever the attributes hold. */
  function Verdict(defs: seq<Definition>, record: Record): (r: Status)
    ensures r == UnsupportedAttribute <==> Find(defs, record.identifier).None?
  {
    match Find(defs, record.identifier)
    case None => UnsupportedAttribute
    case Some(k) => if defs[k].writable then Validate(defs[k], record.data) else ReadOnly
  }

  function Verdicts(defs: seq<Definition>, cmd: seq<Record>): seq<(Word, Status)> {
    seq(|cmd|, i requires 0 <= i < |cmd| => (cmd[i].identifier, Verdict(defs, cmd[i])))
  }

  /** The value of the record's type, as the attribute would hold it. */
  predicate Suits(def: Definition, data: ZclData) {
    Tag(data) == def.tag && def.convert(data).Some? && def.inRange(def.convert(data).value)
  }

  /** A record writes an attribute it names, if that may be written and the value suits it. */
  predicate Writes(defs: seq<Definition>, record: Record, k: nat) {
    Names(defs, record.identifier, k) && defs[k].writable && Suits(defs[k], record.data)
  }

  /** The status a record deserves: it must name an attribute, that must be writable, the types must
      agree, and the value must convert into the range. */
  ghost predicate Deserves(defs: seq<Definition>, record: Record, status: Status) {
    && (status == UnsupportedAttribute <==> forall k :: 0 <= k < |defs| ==> defs[k].identifier != record.identifier)
    && forall k: nat :: Names(defs, record.identifier, k) ==>
         && (status == ReadOnly <==> !defs[k].writable)
         && (status == InvalidDataType <==> defs[k].writable && Tag(record.data) != defs[k].tag)
         && (status == InvalidValue <==>
             && defs[k].writable && Tag(record.data) == defs[k].tag
             && (defs[k].convert(record.data).None? || !defs[k].inRange(defs[k].convert(record.data).value)))
         && (status == Success <==> Writes(defs, record, k))
  }

  /** Every record is answered under its identifier with the status it deserves. */
  ghost predicate Answered(defs: seq<Definition>, cmd: seq<Record>, r: seq<(Word, Status)>) {
    && |r| == |cmd|
    && forall i :: 0 <= i < |cmd| ==> r[i].0 == cmd[i].identifier && Deserves(defs, cmd[i], r[i].1)
  }

  lemma VerdictIsDeserved(defs: seq<Definition>, record: Record)
    ensures Deserves(defs, record, Verdict(defs, record))
  {
    hide Tag, Find;
    forall k: nat | Names(defs, record.identifier, k) ensures Find(defs, record.identifier) == Some(k) {
      assert defs[k].identifier == record.identifier;
    }
  }

  lemma WritesIffSuccess(defs: seq<Definition>, record: Record, k: nat)
    ensures Writes(defs, record, k) <==> Verdict(defs, record) == Success && Find(defs, record.identifier) == Some(k)
  {
    hide Tag;
  }

  lemma VerdictsAnswer(defs: seq<Definition>, cmd: seq<Record>)
    ensures Answered(defs, cmd, Verdicts(defs, cmd))
  {
    hide Deserves, Verdict;
    forall i | 0 <= i < |cmd| ensures Deserves(defs, cmd[i], Verdict(defs, cmd[i])) {
      VerdictIsDeserved(defs, cmd[i]);
    }
  }

  lemma WritersAre(defs: seq<Definition>, record: Record, k: nat)
    requires Writes(defs, record, k)
    ensures k < |defs| && defs[k].writable && defs[k].convert(record.data).Some?
    ensures defs[k].inRange(defs[k].convert(record.data).value)
  {
  }

  function Applied(defs: seq<Definition>, attrs: seq<Attribute>, record: Record): (r: seq<Attribute>)
    requires |attrs| == |defs|
    ensures |r| == |defs|
  {
    if Verdict(defs, record) == Success then
      var k := Find(defs, record.identifier).value;
      attrs[k := attrs[k].(value := defs[k].convert(record.data).value)]
    else attrs
  }

  /** The attributes after the records are written one after the other. */
  function WrittenBy(defs: seq<Definition>, attrs: seq<Attribute>, cmd: seq<Record>): (r: seq<Attribute>)
    requires |attrs| == |defs|
    ensures |r| == |defs|
  {
    if cmd == [] then attrs
    else Applied(defs, WrittenBy(defs, attrs, cmd[..|cmd| - 1]), cmd[|cmd| - 1])
  }

  lemma WriteStep(defs: seq<Definition>, attrs: seq<Attribute>, cmd: seq<Record>, i: nat)
    requires |attrs| == |defs| && i < |cmd|
    ensures WrittenBy(defs, attrs, cmd[..i + 1]) == Applied(defs, WrittenBy(defs, attrs, cmd[..i]), cmd[i])
  {
    assert cmd[..i + 1][..i] == cmd[..i];
  }

  predicate AllSucceed(defs: seq<Definition>, cmd: seq<Record>) {
    forall i :: 0 <= i < |cmd| ==> Verdict(defs, cmd[i]) == Success
  }

  // ----- what a sequence of records does ------------------------------------------------------

  /** An attribute no record writes keeps its value. */
  lemma {:induction false} UnwrittenStays(defs: seq<Definition>, attrs: seq<Attribute>, cmd: seq<Record>, k: nat)
    requires |attrs| == |defs| && k < |defs|
    requires forall j :: 0 <= j < |cmd| ==> !Writes(defs, cmd[j], k)
    ensures WrittenBy(defs, attrs, cmd)[k] == attrs[k]
  {
    hide Writes, Verdict, Find;
    if cmd != [] {
      WritesIffSuccess(defs, cmd[|cmd| - 1], k);
      UnwrittenStays(defs, attrs, cmd[..|cmd| - 1], k);
    }
  }

  /** The last record that writes an attribute decides its value; its intervals are untouched. */
  lemma {:induction false} LastWriteWins(defs: seq<Definition>, attrs: seq<Attribute>, cmd: seq<Record>, j: nat, k: nat)
    requires |attrs| == |defs| && j < |cmd| && k < |defs| && Writes(defs, cmd[j], k)
    requires forall i :: j < i < |cmd| ==> !Writes(defs, cmd[i], k)
    ensures defs[k].convert(cmd[j].data).Some?
    ensures WrittenBy(defs, attrs, cmd)[k] == Attribute(defs[k].convert(cmd[j].data).value, attrs[k].report)
  {
    hide Writes, Verdict, Find;
    var before := cmd[..|cmd| - 1];
    WritesIffSuccess(defs, cmd[|cmd| - 1], k);
    WritersAre(defs, cmd[j], k);
    if j < |before| {
      LastWriteWins(defs, attrs, before, j, k);
    } else {
      ReportsStay(defs, attrs, before, k);
    }
  }

  lemma {:induction false} ReportsStay(defs: seq<Definition>, attrs: seq<Attribute>, cmd: seq<Record>, k: nat)
    requires |attrs| == |defs| && k < |defs|
    ensures WrittenBy(defs, attrs, cmd)[k].report == attrs[k].report
  {
    if cmd != [] {
      ReportsStay(defs, attrs, cmd[..|cmd| - 1], k);
    }
  }

  /** The last of the records that write attribute k, if there is one. */
  function LastWriter(defs: seq<Definition>, cmd: seq<Record>, k: nat): (r: Option<nat>)
    ensures r.Some? ==> r.value < |cmd| && Writes(defs, cmd[r.value], k)
                        && forall i :: r.value < i < |cmd| ==> !Writes(defs, cmd[i], k)
    ensures r.None? ==> forall i :: 0 <= i < |cmd| ==> !Writes(defs, cmd[i], k)
  {
    if cmd == [] then None
    else if Writes(defs, cmd[|cmd| - 1], k) then Some(|cmd| - 1)
    else LastWriter(defs, cmd[..|cmd| - 1], k)
  }

  /** Writing a command forgets every earlier write to the attributes it writes; in particular
      sending it again changes nothing. */
  lemma RepeatingChangesNothing(defs: seq<Definition>, attrs: seq<Attribute>, cmd: seq<Record>)
    requires |attrs| == |defs|
    ensures WrittenBy(defs, WrittenBy(defs, attrs, cmd), cmd) == WrittenBy(defs, attrs, cmd)
  {
    hide WrittenBy, Writes;
    var once := WrittenBy(defs, attrs, cmd);
    forall k | 0 <= k < |defs| ensures WrittenBy(defs, once, cmd)[k] == once[k] {
      match LastWriter(defs, cmd, k)
      case None => UnwrittenStays(defs, once, cmd, k);
      case Some(j) =>
        LastWriteWins(defs, attrs, cmd, j, k);
        LastWriteWins(defs, once, cmd, j, k);
    }
  }

  /** Every attribute holds the value of the last record that writes it, converted, or its old one;
      only writable attributes change, and only into their range. */
  ghost predicate Effect(defs: seq<Definition>, before: seq<Attribute>, after: seq<Attribute>, cmd: seq<Record>) {
    && |after| == |before| == |defs|
    && forall k :: 0 <= k < |defs| ==> EffectOn(defs, before[k], after[k], cmd, k)
  }

  ghost predicate EffectOn(defs: seq<Definition>, before: Attribute, after: Attribute, cmd: seq<Record>, k: nat)
    requires k < |defs|
  {
    && (match LastWriter(defs, cmd, k)
        case None => after == before
        case Some(j) => defs[k].convert(cmd[j].data).Some?
                        && after == Attribute(defs[k].convert(cmd[j].data).value, before.report))
    && (!defs[k].writable ==> after == before)
    && (after.value != before.value ==> defs[k].inRange(after.value))
  }

  lemma WrittenByHasEffect(defs: seq<Definition>, attrs: seq<Attribute>, cmd: seq<Record>)
    requires |attrs| == |defs|
    ensures Effect(defs, attrs, WrittenBy(defs, attrs, cmd), cmd)
  {
    hide WrittenBy, EffectOn;
    forall k | 0 <= k < |defs| ensures EffectOn(defs, attrs[k], WrittenBy(defs, attrs, cmd)[k], cmd, k) {
      HasEffectOn(defs, attrs, cmd, k);
    }
  }

  lemma HasEffectOn(defs: seq<Definition>, attrs: seq<Attribute>, cmd: seq<Record>, k: nat)
    requires |attrs| == |defs| && k < |defs|
    ensures EffectOn(defs, attrs[k], WrittenBy(defs, attrs, cmd)[k], cmd, k)
  {
    hide WrittenBy, Writes, Suits;
    match LastWriter(defs, cmd, k) {
      case None => UnwrittenStays(defs, attrs, cmd, k);
      case Some(j) =>
        LastWriteWins(defs, attrs, cmd, j, k);
        WritersAre(defs, cmd[j], k);
    }
  }

  lemma {:induction false} WritingKeepsSound(defs: seq<Definition>, attrs: seq<Attribute>, cmd: seq<Record>)
    requires AllSound(defs, attrs) && RepresentableRecords(cmd)
    ensures AllSound(defs, WrittenBy(defs, attrs, cmd))
  {
    hide Tag, Representable;
    if cmd != [] {
      var before := cmd[..|cmd| - 1];
      assert RepresentableRecords(before);
      WritingKeepsSound(defs, attrs, before);
      assert Representable(cmd[|cmd| - 1].data);
      OneWriteKeepsSound(defs, WrittenBy(defs, attrs, before), cmd[|cmd| - 1]);
    }
  }

  lemma OneWriteKeepsSound(defs: seq<Definition>, attrs: seq<Attribute>, record: Record)
    requires AllSound(defs, attrs) && Representable(record.data)
    ensures AllSound(defs, Applied(defs, attrs, record))
  {
    hide Tag, Representable, Lawful;
    if Verdict(defs, record) == Success {
      ConversionIsLawful(defs[Find(defs, record.identifier).value], record.data);
    }
  }

  lemma ConversionIsLawful(def: Definition, data: ZclData)
    requires Lawful(def) && Representable(data) && Validate(def, data) == Success
    ensures var value := def.convert(data).value;
            Representable(value) && Tag(value) == def.tag && def.convert(value) == Some(value)
  {
    hide Tag, Representable;
  }

  // ----- discovery --------------------------------------------------------------------------

  predicate Ascending(keys: seq<Word>) {
    forall i, j :: 0 <= i < j < |keys| ==> keys[i] < keys[j]
  }

  function Insert(keys: seq<Word>, id: Word): seq<Word> {
    if keys == [] then [id]
    else if id < keys[0] then [id] + keys
    else if id == keys[0] then keys
    else [keys[0]] + Insert(keys[1..], id)
  }

  /** The identifiers of the attributes, sorted. */
  function SortedKeys(defs: seq<Definition>): seq<Word> {
    if defs == [] then [] else Insert(SortedKeys(defs[..|defs| - 1]), defs[|defs| - 1].identifier)
  }

  lemma {:induction false} InsertSorts(keys: seq<Word>, id: Word)
    requires Ascending(keys)
    ensures Ascending(Insert(keys, id)) && |Insert(keys, id)| <= |keys| + 1
    ensures forall x :: x in Insert(keys, id) <==> x == id || x in keys
  {
    if keys != [] && id > keys[0] {
      InsertSorts(keys[1..], id);
      assert keys == [keys[0]] + keys[1..];
      assert forall x :: x in Insert(keys[1..], id) ==> keys[0] < x;
    }
  }

  /** The index lists exactly the identifiers that name an attribute, in ascending order. */
  lemma {:induction false} KeysAreSorted(defs: seq<Definition>)
    ensures Ascending(SortedKeys(defs)) && |SortedKeys(defs)| <= |defs|
    ensures forall id: Word :: id in SortedKeys(defs) <==> Find(defs, id).Some?
  {
    if defs != [] {
      KeysAreSorted(defs[..|defs| - 1]);
      InsertSorts(SortedKeys(defs[..|defs| - 1]), defs[|defs| - 1].identifier);
    }
  }

  function From(keys: seq<Word>, start: nat): seq<Word> {
    if keys == [] then []
    else From(keys[..|keys| - 1], start) + if keys[|keys| - 1] >= start then [keys[|keys| - 1]] else []
  }

  /** One answer to a discovery command. */
  function Page(keys: seq<Word>, start: nat, maximum: nat): seq<Word> {
    var rest := From(keys, start);
    if |rest| <= maximum then rest else rest[..maximum]
  }

  lemma PageStep(keys: seq<Word>, i: nat, start: nat, maximum: nat)
    requires i < |keys|
    ensures var page := Page(keys[..i], start, maximum);
            Page(keys[..i + 1], start, maximum) ==
            page + if keys[i] >= start && |page| < maximum then [keys[i]] else []
  {
    assert keys[..i + 1][..i] == keys[..i];
  }

  /** The answers to repeated discovery, each starting one past the last identifier seen. */
  function Pages(keys: seq<Word>, start: nat, maximum: nat): seq<Word>
    requires Ascending(keys) && maximum >= 1
    decreases 0x1_0000 - start
  {
    FromIsSuffix(keys, start);
    var page := Page(keys, start, maximum);
    if page == [] then []
    else
      assert Last(page) in From(keys, start);
      if Last(page) == 0xffff then page else page + Pages(keys, Last(page) + 1, maximum)
  }

  function Last(keys: seq<Word>): nat
    requires keys != []
  {
    keys[|keys| - 1]
  }

  lemma HeadIsMember(keys: seq<Word>)
    ensures keys != [] ==> keys[0] in keys
  {
  }

  lemma {:induction false} FromMembers(keys: seq<Word>, start: nat)
    ensures forall id :: id in From(keys, start) <==> id in keys && id >= start
  {
    if keys != [] {
      FromMembers(keys[..|keys| - 1], start);
      assert keys == keys[..|keys| - 1] + [keys[|keys| - 1]];
    }
  }

  lemma {:induction false} FromIsSuffix(keys: seq<Word>, start: nat)
    requires Ascending(keys)
    ensures |From(keys, start)| <= |keys| && From(keys, start) == keys[|keys| - |From(keys, start)|..]
    ensures forall id :: id in From(keys, start) <==> id in keys && id >= start
  {
    FromMembers(keys, start);
    if keys != [] && Last(keys) < start {
      NothingFrom(keys, start);
    } else if keys != [] {
      AscendingInit(keys);
      hide Ascending;
      FromIsSuffix(keys[..|keys| - 1], start);
      SuffixGrows(keys, |keys| - 1 - |From(keys[..|keys| - 1], start)|);
    }
  }

  lemma AscendingInit(keys: seq<Word>)
    requires Ascending(keys) && keys != []
    ensures Ascending(keys[..|keys| - 1])
  {
  }

  lemma SuffixGrows(keys: seq<Word>, n: nat)
    requires n < |keys|
    ensures keys[n..] == keys[..|keys| - 1][n..] + [keys[|keys| - 1]]
  {
  }

  lemma NothingFrom(keys: seq<Word>, start: nat)
    requires Ascending(keys) && (keys != [] ==> keys[|keys| - 1] < start)
    ensures From(keys, start) == []
  {
    hide From;
    FromMembers(keys, start);
    HeadIsMember(From(keys, start));
  }

  /** The identifiers after the last of a page are those the page leaves over. */
  lemma FromAfterPage(keys: seq<Word>, start: nat, maximum: nat)
    requires Ascending(keys) && maximum >= 1 && From(keys, start) != []
    ensures var page := Page(keys, start, maximum);
            page != [] && From(keys, start) == page + From(keys, Last(page) + 1)
  {
    hide From;
    var rest, page := From(keys, start), Page(keys, start, maximum);
    var later := From(keys, Last(page) + 1);
    FromIsSuffix(keys, start);
    FromIsSuffix(keys, Last(page) + 1);
    var n := |keys| - |rest| + |page|;
    SuffixesAgree(keys, n, |keys| - |later|, Last(page) + 1);
    assert rest == page + keys[n..];
  }

  lemma SuffixesAgree(keys: seq<Word>, m: nat, n: nat, start: nat)
    requires Ascending(keys) && 0 < m <= |keys| && n <= |keys| && start == Last(keys[..m]) + 1
    requires forall id :: id in keys[n..] <==> id in keys && id >= start
    ensures m == n
  {
    InSuffix(keys, n, m - 1);
    if m < |keys| {
      InSuffix(keys, n, m);
    }
  }

  lemma InSuffix(keys: seq<Word>, n: nat, m: nat)
    requires Ascending(keys) && n <= |keys| && m < |keys|
    ensures keys[m] in keys && (keys[m] in keys[n..] <==> n <= m)
  {
    if n <= m {
      assert keys[n..][m - n] == keys[m];
    } else {
      assert forall k :: 0 <= k < |keys[n..]| ==> keys[n..][k] == keys[n + k] > keys[m];
    }
  }

  lemma PageOf(keys: seq<Word>, start: nat, maximum: nat)
    requires Ascending(keys) && maximum >= 1
    ensures var page := Page(keys, start, maximum);
            && (page == [] <==> From(keys, start) == [])
            && (page != [] ==> start <= Last(page) < 0x1_0000)
  {
    hide From;
    FromIsSuffix(keys, start);
    var page := Page(keys, start, maximum);
    assert page != [] ==> page[|page| - 1] in From(keys, start);
  }

  lemma NothingAfterLast(keys: seq<Word>)
    requires Ascending(keys)
    ensures From(keys, 0x1_0000) == []
  {
    NothingFrom(keys, 0x1_0000);
  }

  /** Paging enumerates every identifier from `start` on, each once and in order. */
  lemma {:induction false} PagingEnumerates(keys: seq<Word>, start: nat, maximum: nat)
    requires Ascending(keys) && maximum >= 1
    ensures Pages(keys, start, maximum) == From(keys, start)
    ensures start == 0 ==> Pages(keys, start, maximum) == keys
    decreases 0x1_0000 - start
  {
    hide From, Ascending, Page;
    FromIsSuffix(keys, start);
    var page := Page(keys, start, maximum);
    PageOf(keys, start, maximum);
    if page != [] {
      FromAfterPage(keys, start, maximum);
      if Last(page) == 0xffff {
        NothingAfterLast(keys);
      } else {
        PagingEnumerates(keys, Last(page) + 1, maximum);
      }
    }
    if start == 0 {
      EveryKeyIsFromZero(keys);
    }
  }

  lemma {:induction false} EveryKeyIsFromZero(keys: seq<Word>)
    ensures From(keys, 0) == keys
  {
    if keys != [] {
      EveryKeyIsFromZero(keys[..|keys| - 1]);
      assert keys == keys[..|keys| - 1] + [keys[|keys| - 1]];
    }
  }

  /** The type of the attribute an identifier names. */
  function TypeOf(defs: seq<Definition>, id: Word): Byte {
    match Find(defs, id)
    case None => 0
    case Some(k) => defs[k].tag
  }

  function Described(defs: seq<Definition>, page: seq<Word>): seq<(Word, Byte)> {
    seq(|page|, i requires 0 <= i < |page| => (page[i], TypeOf(defs, page[i])))
  }

  lemma KeysAreFew(defs: seq<Definition>)
    ensures |SortedKeys(defs)| <= |defs|
  {
    KeysAreSorted(defs);
  }

  lemma DescribedStep(defs: seq<Definition>, i: nat, start: nat, maximum: nat)
    requires i < |SortedKeys(defs)|
    ensures var keys := SortedKeys(defs);
            var r := Described(defs, Page(keys[..i], start, maximum));
            && Find(defs, keys[i]).Some?
            && Described(defs, Page(keys[..i + 1], start, maximum)) ==
               r + if keys[i] >= start && |r| < maximum then [(keys[i], defs[Find(defs, keys[i]).value].tag)] else []
  {
    hide Find, Page, SortedKeys;
    var keys := SortedKeys(defs);
    KeysAreSorted(defs);
    PageStep(keys, i, start, maximum);
    assert keys[i] in keys;
  }

  /** A page: ascending identifiers from the start on, at most as many as asked for, each with the type
      of the attribute it names; an attribute is left out only if the page is full of smaller ones. */
  ghost predicate IsPage(defs: seq<Definition>, start: nat, maximum: nat, r: seq<(Word, Byte)>) {
    && |r| <= maximum
    && (forall i, j :: 0 <= i < j < |r| ==> r[i].0 < r[j].0)
    && (forall i :: 0 <= i < |r| ==> Describes(defs, r[i]) && r[i].0 >= start)
    && forall k :: 0 <= k < |defs| && defs[k].identifier >= start ==>
         || (exists i :: 0 <= i < |r| && r[i].0 == defs[k].identifier)
         || (|r| == maximum && forall i :: 0 <= i < |r| ==> r[i].0 < defs[k].identifier)
  }

  ghost predicate Describes(defs: seq<Definition>, entry: (Word, Byte)) {
    exists k: nat :: Names(defs, entry.0, k) && defs[k].tag == entry.1
  }

  lemma DescribedIsPage(defs: seq<Definition>, start: nat, maximum: nat)
    ensures IsPage(defs, start, maximum, Described(defs, Page(SortedKeys(defs), start, maximum)))
  {
    hide SortedKeys, From, Find, Names;
    var keys := SortedKeys(defs);
    KeysAreSorted(defs);
    FromIsSuffix(keys, start);
    var rest, page := From(keys, start), Page(keys, start, maximum);
    var r := Described(defs, page);
    forall i | 0 <= i < |page| ensures Describes(defs, r[i]) && page[i] >= start {
      assert page[i] in rest;
      assert Names(defs, page[i], Find(defs, page[i]).value);
    }
    forall k | 0 <= k < |defs| && defs[k].identifier >= start
      ensures || (exists i :: 0 <= i < |r| && r[i].0 == defs[k].identifier)
              || (|r| == maximum && forall i :: 0 <= i < |r| ==> r[i].0 < defs[k].identifier)
    {
      assert defs[k].identifier in rest;
      var m :| 0 <= m < |rest| && rest[m] == defs[k].identifier;
      assert m < |page| ==> r[m].0 == defs[k].identifier;
    }
  }

  // ----- the cluster ------------------------------------------------------------------------

  class Cluster {
    const definitions: seq<Definition>
    var attributes: seq<Attribute>

    ghost predicate Valid()
      reads this
    {
      AllSound(definitions, attributes)
    }

    /** A new cluster holds the declared defaults. */
    constructor (definitions: seq<Definition>, defaults: seq<Attribute>)
      requires AllSound(definitions, defaults)
      ensures Valid() && this.definitions == definitions && attributes == defaults
    {
      this.definitions := definitions;
      attributes := defaults;
    }

    /** The lookup table the commands work on: an identifier declared twice names the later one. */
    method GetAttributes() returns (table: map<Word, nat>)
      requires Valid()
      ensures forall id: Word :: id in table <==> Find(definitions, id).Some?
      ensures forall id: Word :: id in table ==> Find(definitions, id) == Some(table[id])
    {
      table := map[];
      for i := 0 to |definitions|
        invariant forall id: Word :: id in table <==> Find(definitions[..i], id).Some?
        invariant forall id: Word :: id in table ==> Find(definitions[..i], id) == Some(table[id])
      {
        assert definitions[..i + 1][..i] == definitions[..i];
        table := table[definitions[i].identifier := i];
      }
      assert definitions[..|definitions|] == definitions;
    }

    /** Converts and validates, and stores only if both succeed. */
    method SetFromZclData(k: nat, data: ZclData) returns (status: Status)
      requires Valid() && k < |definitions| && Representable(data)
      modifies this`attributes
      ensures Valid() && status == Validate(definitions[k], data)
      ensures status == Success <==> Suits(definitions[k], data)
      ensures status == InvalidDataType <==> Tag(data) != definitions[k].tag
      ensures status in [Success, InvalidDataType, InvalidValue]
      ensures attributes == if status == Success
                            then old(attributes)[k := old(attributes)[k].(value := definitions[k].convert(data).value)]
                            else old(attributes)
    {
      hide Tag, Representable, Lawful;
      if Tag(data) != definitions[k].tag {
        return InvalidDataType;
      }
      var value := definitions[k].convert(data);
      if value.None? || !definitions[k].inRange(value.value) {
        return InvalidValue;
      }
      ConversionIsLawful(definitions[k], data);
      attributes := attributes[k := attributes[k].(value := value.value)];
      status := Success;
    }

    /** What the plain write does for one record. */
    method WriteRecord(table: map<Word, nat>, record: Record) returns (status: Status)
      requires Valid() && Representable(record.data)
      requires record.identifier in table <==> Find(definitions, record.identifier).Some?
      requires record.identifier in table ==> Find(definitions, record.identifier) == Some(table[record.identifier])
      modifies this`attributes
      ensures Valid() && |attributes| == |definitions| == |old(attributes)|
      ensures status == Verdict(definitions, record) && attributes == Applied(definitions, old(attributes), record)
    {
      assert |attributes| == |definitions|;
      hide Tag, Representable, Validate, Lawful, Sound, Find;
      if record.identifier !in table {
        return UnsupportedAttribute;
      }
      if !definitions[table[record.identifier]].writable {
        return ReadOnly;
      }
      status := SetFromZclData(table[record.identifier], record.data);
    }

    method WriteAttributes(cmd: seq<Record>) returns (r: seq<(Word, Status)>)
      requires Valid() && RepresentableRecords(cmd) && |cmd| <= MAX_COMMAND_ITEMS
      modifies this`attributes
      ensures Valid() && r == Verdicts(definitions, cmd)
      ensures attributes == WrittenBy(definitions, old(attributes), cmd)
      ensures Answered(definitions, cmd, r) && Effect(definitions, old(attributes), attributes, cmd)
    {
      assert |attributes| == |definitions|;
      hide Tag, Representable, Validate, Lawful, Sound, AllSound, Find, Answered, Effect, Applied, Verdict, Names;
      assert WrittenBy(definitions, attributes, cmd[..0]) == attributes;
      hide WrittenBy;
      r := [];
      var table := GetAttributes();
      for i := 0 to |cmd|
        invariant Valid() && |r| == i
        invariant forall j :: 0 <= j < i ==> r[j] == (cmd[j].identifier, Verdict(definitions, cmd[j]))
        invariant attributes == WrittenBy(definitions, old(attributes), cmd[..i])
      {
        WriteStep(definitions, old(attributes), cmd, i);
        var id := cmd[i].identifier;
        var status := WriteRecord(table, cmd[i]);
        r := r + [(id, status)];
      }
      assert cmd[..|cmd|] == cmd;
      VerdictsAnswer(definitions, cmd);
      WrittenByHasEffect(definitions, old(attributes), cmd);
    }

    /** All or nothing: if every record succeeds the attributes are those of the plain write, and
        otherwise they are unchanged. The statuses are those of the plain write either way. */
    method WriteAttributesUndivided(cmd: seq<Record>) returns (r: seq<(Word, Status)>)
      requires Valid() && RepresentableRecords(cmd) && |cmd| <= MAX_COMMAND_ITEMS
      modifies this`attributes
      ensures Valid() && r == Verdicts(definitions, cmd)
      ensures AllSucceed(definitions, cmd) ==> attributes == WrittenBy(definitions, old(attributes), cmd)
      ensures !AllSucceed(definitions, cmd) ==> attributes == old(attributes)
      ensures Answered(definitions, cmd, r)
      ensures if forall i :: 0 <= i < |cmd| ==> r[i].1 == Success
              then Effect(definitions, old(attributes), attributes, cmd) else attributes == old(attributes)
    {
      assert |attributes| == |definitions|;
      WrittenByHasEffect(definitions, attributes, cmd);
      hide Answered, Effect;
      var table := GetAttributes();
      var shouldWrite;
      r, shouldWrite := CheckRecords(table, cmd);
      if shouldWrite {
        ApplyRecords(table, cmd);
      }
    }

    /** The first loop: the status of every record, and whether all succeed. */
    method CheckRecords(table: map<Word, nat>, cmd: seq<Record>) returns (r: seq<(Word, Status)>, shouldWrite: bool)
      requires forall id: Word :: id in table <==> Find(definitions, id).Some?
      requires forall id: Word :: id in table ==> Find(definitions, id) == Some(table[id])
      ensures r == Verdicts(definitions, cmd) && (shouldWrite <==> AllSucceed(definitions, cmd))
      ensures Answered(definitions, cmd, r) && (shouldWrite <==> forall i :: 0 <= i < |cmd| ==> r[i].1 == Success)
    {
      VerdictsAnswer(definitions, cmd);
      hide Tag, Validate, Find, Answered;
      r := [];
      shouldWrite := true;
      for i := 0 to |cmd|
        invariant |r| == i && forall j :: 0 <= j < i ==> r[j] == (cmd[j].identifier, Verdict(definitions, cmd[j]))
        invariant shouldWrite <==> forall j :: 0 <= j < i ==> Verdict(definitions, cmd[j]) == Success
      {
        var id := cmd[i].identifier;
        var status := UnsupportedAttribute;
        if id in table {
          status := if definitions[table[id]].writable then Validate(definitions[table[id]], cmd[i].data) else ReadOnly;
        }
        assert status == Verdict(definitions, cmd[i]);
        if status != Success {
          shouldWrite := false;
        }
        r := r + [(id, status)];
      }
    }

    /** The second loop: neither the lookup nor the write of any record fails. */
    method ApplyRecords(table: map<Word, nat>, cmd: seq<Record>)
      requires Valid() && RepresentableRecords(cmd) && AllSucceed(definitions, cmd)
      requires forall id: Word :: id in table <==> Find(definitions, id).Some?
      requires forall id: Word :: id in table ==> Find(definitions, id) == Some(table[id])
      modifies this`attributes
      ensures Valid() && attributes == WrittenBy(definitions, old(attributes), cmd)
    {
      assert |attributes| == |definitions|;
      hide Tag, Representable, Validate, Lawful, Sound, AllSound, Find;
      assert WrittenBy(definitions, attributes, cmd[..0]) == attributes;
      hide WrittenBy;
      for i := 0 to |cmd|
        invariant Valid() && attributes == WrittenBy(definitions, old(attributes), cmd[..i])
      {
        WriteStep(definitions, old(attributes), cmd, i);
        assert Verdict(definitions, cmd[i]) == Success;
        assert cmd[i].identifier in table;
        var status := SetFromZclData(table[cmd[i].identifier], cmd[i].data);
        assert status == Success;
      }
      assert cmd[..|cmd|] == cmd;
    }

    /** The identifiers of the page, each with the type of its attribute. */
    method DiscoverAttributes(start: Word, maximum: Byte) returns (r: seq<(Word, Byte)>)
      requires Valid()
      ensures r == Described(definitions, Page(SortedKeys(definitions), start, maximum))
      ensures |r| <= MAX_COMMAND_ITEMS && IsPage(definitions, start, maximum, r)
    {
      DescribedIsPage(definitions, start, maximum);
      hide IsPage;
      assert |definitions| <= MAX_ATTRIBUTES;
      hide Tag, Representable, AllSound, SortedKeys, Find, TypeOf;
      var table := GetAttributes();
      var keys := SortedKeys(definitions);
      KeysAreFew(definitions);
      assert Page([], start, maximum) == [] == keys[..0];
      r := [];
      hide Page, Described, Ascending;
      for i := 0 to |keys|
        invariant r == Described(definitions, Page(keys[..i], start, maximum)) && |r| <= i
      {
        DescribedStep(definitions, i, start, maximum);
        if keys[i] >= start && |r| < maximum {
          r := r + [(keys[i], definitions[table[keys[i]]].tag)];
        }
      }
      assert keys[..|keys|] == keys;
    }
  }
}
