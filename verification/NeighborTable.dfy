/** The neighbor table of a router: joining, rejoining and leaving devices, over any run. */
module NeighborTable {
  import opened Bytes
  import opened Wrappers

  datatype DeviceType = Coordinator | Router | EndDevice

  datatype Relationship = Parent | Child | UnauthenticatedChild | OtherRelationship

  datatype LinkCost = Cost1 | Cost2 | Cost3 | Cost4 | Cost5 | Cost6 | Cost7 | UnknownCost

  datatype Neighbor = Neighbor(
    extended: Option<nat>,
    address: Word,
    deviceType: DeviceType,
    relationship: Relationship,
    expiration: nat,
    incomingCost: LinkCost,
    outgoingCost: LinkCost)

  type Table = seq<Neighbor>

  const MAX_ENTRIES: nat := 32
  const MAX_NON_BROADCAST: Word := 0xfff6
  const LAST_UNICAST: Word := 0xfff7

  /** A new entry expires after the default timeout; its costs are the default cost of one. */
  function NewNeighbor(extended: nat, address: Word, deviceType: DeviceType, relationship: Relationship,
                       expiration: nat): Neighbor
  {
    Neighbor(Some(extended), address, deviceType, relationship, expiration, Cost1, Cost1)
  }

  // ----- distinct entries ---------------------------------------------------------------------

  /** Two entries for the same device, and two entries under the same network address. */
  predicate SameExtended(a: Neighbor, b: Neighbor) { a.extended.Some? && a.extended == b.extended }

  predicate SameShort(a: Neighbor, b: Neighbor) { a.address == b.address }

  ghost predicate DistinctExtended(t: Table) {
    forall i, j :: 0 <= i < j < |t| ==> !SameExtended(t[i], t[j])
  }

  ghost predicate DistinctShort(t: Table) {
    forall i, j :: 0 <= i < j < |t| ==> !SameShort(t[i], t[j])
  }

  // ----- lookups and in-place updates -----------------------------------------------------------

  /** The entries a test keeps, in order. */
  function Retain(t: Table, keep: Neighbor -> bool): (r: Table)
    ensures |r| <= |t| && forall nb :: nb in r <==> nb in t && keep(nb)
  {
    if t == [] then []
    else
      assert t == t[..|t| - 1] + [t[|t| - 1]];
      Retain(t[..|t| - 1], keep) + if keep(t[|t| - 1]) then [t[|t| - 1]] else []
  }

  lemma RetainKeepsDistinct(t: Table, keep: Neighbor -> bool)
    ensures DistinctExtended(t) ==> DistinctExtended(Retain(t, keep))
    ensures DistinctShort(t) ==> DistinctShort(Retain(t, keep))
  {
    if DistinctExtended(t) { RetainKeepsExtended(t, keep); }
    if DistinctShort(t) { RetainKeepsShort(t, keep); }
  }

  lemma {:induction false} RetainKeepsExtended(t: Table, keep: Neighbor -> bool)
    requires DistinctExtended(t)
    ensures DistinctExtended(Retain(t, keep))
  {
    if t != [] {
      var init := t[..|t| - 1];
      RetainKeepsExtended(init, keep);
      forall i | 0 <= i < |Retain(init, keep)| ensures !SameExtended(Retain(init, keep)[i], t[|t| - 1]) {
        assert Retain(init, keep)[i] in init;
      }
    }
  }

  lemma {:induction false} RetainKeepsShort(t: Table, keep: Neighbor -> bool)
    requires DistinctShort(t)
    ensures DistinctShort(Retain(t, keep))
  {
    if t != [] {
      var init := t[..|t| - 1];
      RetainKeepsShort(init, keep);
      forall i | 0 <= i < |Retain(init, keep)| ensures !SameShort(Retain(init, keep)[i], t[|t| - 1]) {
        assert Retain(init, keep)[i] in init;
      }
    }
  }

  /** The table is what a test keeps of another: the entries at the positions it accepts, in order. */
  ghost predicate Kept(before: Table, after: Table, keep: Neighbor -> bool) {
    exists positions :: KeptAt(before, after, keep, positions)
  }

  ghost predicate KeptAt(before: Table, after: Table, keep: Neighbor -> bool, positions: seq<nat>) {
    && |positions| == |after|
    && (forall i, j :: 0 <= i < j < |positions| ==> positions[i] < positions[j])
    && (forall i :: 0 <= i < |positions| ==> positions[i] < |before| && after[i] == before[positions[i]])
    && forall k: nat :: k < |before| ==> (keep(before[k]) <==> k in positions)
  }

  ghost function Positions(t: Table, keep: Neighbor -> bool): (r: seq<nat>)
    ensures forall k :: k in r <==> 0 <= k < |t| && keep(t[k])
  {
    if t == [] then []
    else Positions(t[..|t| - 1], keep) + if keep(t[|t| - 1]) then [|t| - 1] else []
  }

  lemma {:induction false} RetainIsKept(t: Table, keep: Neighbor -> bool)
    ensures KeptAt(t, Retain(t, keep), keep, Positions(t, keep))
  {
    if t != [] {
      var init := t[..|t| - 1];
      RetainIsKept(init, keep);
      var positions := Positions(init, keep);
      forall i | 0 <= i < |positions| ensures positions[i] < |init| {
        assert positions[i] in positions;
      }
    }
  }

  lemma RetainAppended(t: Table, nb: Neighbor, keep: Neighbor -> bool)
    ensures Retain(t + [nb], keep) == if keep(nb) then Retain(t, keep) + [nb] else Retain(t, keep)
  {
    assert (t + [nb])[..|t|] == t;
  }

  function Both(first: Neighbor -> bool, second: Neighbor -> bool): Neighbor -> bool {
    (nb: Neighbor) => first(nb) && second(nb)
  }

  lemma {:induction false} RetainTwice(t: Table, first: Neighbor -> bool, second: Neighbor -> bool)
    ensures Retain(Retain(t, first), second) == Retain(t, Both(first, second))
  {
    if t != [] {
      var init, last := t[..|t| - 1], t[|t| - 1];
      RetainTwice(init, first, second);
      assert t == init + [last];
      RetainAppended(init, last, first);
      RetainAppended(init, last, Both(first, second));
      RetainAppended(Retain(init, first), last, second);
      hide Retain;
    }
  }

  lemma KeptAlike(before: Table, after: Table, keep: Neighbor -> bool, alike: Neighbor -> bool)
    requires after == Retain(before, keep) && forall nb :: keep(nb) <==> alike(nb)
    ensures Kept(before, after, alike)
  {
    RetainIsKept(before, keep);
    assert KeptAt(before, after, alike, Positions(before, keep));
  }

  function Cleanup(t: Table, now: nat): Table { Retain(t, (nb: Neighbor) => nb.expiration > now) }

  /** The first entry that a test accepts. */
  function Find(t: Table, accept: Neighbor -> bool): (r: Option<nat>)
    ensures r.Some? ==> r.value < |t| && accept(t[r.value]) && forall i :: 0 <= i < r.value ==> !accept(t[i])
    ensures r.None? ==> forall i :: 0 <= i < |t| ==> !accept(t[i])
  {
    if t == [] then None
    else if Find(t[..|t| - 1], accept).Some? then Find(t[..|t| - 1], accept)
    else if accept(t[|t| - 1]) then Some(|t| - 1)
    else None
  }

  /** Appends an entry unless the table is full. */
  function Push(t: Table, nb: Neighbor): Option<Table> {
    if |t| < MAX_ENTRIES then Some(t + [nb]) else None
  }

  // ----- addresses ----------------------------------------------------------------------------

  function Addresses(t: Table): set<Word> { set nb | nb in t :: nb.address }

  /** Draws addresses until one is neither in the table nor otherwise in use. */
  method AssignChildAddress(t: Table, inUse: set<Word>, draws: seq<Word>) returns (r: Option<Word>)
    requires forall i :: 0 <= i < |draws| ==> 1 <= draws[i] < MAX_NON_BROADCAST
    ensures r.Some? ==> r.value in draws && 1 <= r.value < MAX_NON_BROADCAST
    ensures r.Some? ==> r.value !in inUse && r.value !in Addresses(t)
    ensures r.Some? ==> exists k :: 0 <= k < |draws| && draws[k] == r.value
                                    && forall i :: 0 <= i < k ==> draws[i] in inUse || draws[i] in Addresses(t)
    ensures r.None? <==> forall i :: 0 <= i < |draws| ==> draws[i] in inUse || draws[i] in Addresses(t)
  {
    for k := 0 to |draws|
      invariant forall i :: 0 <= i < k ==> draws[i] in inUse || draws[i] in Addresses(t)
    {
      var held := Find(t, (nb: Neighbor) => nb.address == draws[k]);
      if draws[k] !in inUse && held.None? {
        assert draws[k] !in Addresses(t);
        return Some(draws[k]);
      }
      assert held.Some? ==> t[held.value] in t;
    }
    r := None;
  }

  /** The conflict check of a rejoin. Of the entry under the address, it reports a conflict if that
      entry belongs to the rejoining device, and none if it belongs to another. */
  function IsAddressConflict(t: Table, own: Word, addressMap: map<Word, nat>, address: Word, extended: nat): bool {
    if own == address then true
    else if address in addressMap then addressMap[address] != extended
    else
      var held := Find(t, (nb: Neighbor) => nb.address == address);
      held.Some? && t[held.value].extended == Some(extended)
  }

  // ----- the steps ----------------------------------------------------------------------------

  datatype Event =
    | Associate(extended: nat, deviceType: DeviceType, relationship: Relationship, address: Word, now: nat,
                timeout: nat)
    | Rejoin(extended: nat, deviceType: DeviceType, address: Word, now: nat, timeout: nat)
    | DirectJoin(extended: nat, deviceType: DeviceType, address: Word, now: nat, timeout: nat)
    | Leave(source: Word)
    | ParentChanged(source: Word)
    | Announced(extended: nat)
    | Expire(now: nat)
    | Refreshed(index: nat, expiration: nat, outgoingCost: LinkCost)
    | Sorted(now: nat)

  /** The entry of a joining device; a device known under another type is forgotten first. */
  function Joined(t: Table, nb: Neighbor): (r: (Table, bool))
    requires nb.extended.Some?
  {
    var others := Retain(t, (x: Neighbor) => x.extended != nb.extended);
    match Push(others, nb)
    case Some(r) => (r, true)
    case None => (others, false)
  }

  function FindDevice(t: Table, extended: nat, deviceType: DeviceType): Option<nat> {
    Find(t, (nb: Neighbor) => nb.extended == Some(extended) && nb.deviceType == deviceType)
  }

  function Step(t: Table, e: Event): Table {
    match e
    case Associate(extended, deviceType, relationship, address, now, timeout) =>
      var live := Cleanup(t, now);
      if FindDevice(live, extended, deviceType).Some? then live
      else Joined(live, NewNeighbor(extended, address, deviceType, relationship, now + timeout)).0
    case Rejoin(extended, deviceType, address, now, timeout) =>
      var live := Cleanup(t, now);
      var known := FindDevice(live, extended, deviceType);
      if known.Some? then live[known.value := live[known.value].(address := address)]
      else Joined(live, NewNeighbor(extended, address, deviceType, Child, now + timeout)).0
    case DirectJoin(extended, deviceType, address, now, timeout) =>
      if Find(t, (nb: Neighbor) => nb.extended == Some(extended)).Some? then t
      else
        var live := Cleanup(t, now);
        var r := Push(live, NewNeighbor(extended, address, deviceType, Child, now + timeout));
        if r.Some? then r.value else live
    case Leave(source) => Retain(t, (nb: Neighbor) => nb.address != source)
    case ParentChanged(source) =>
      var i := Find(t, (nb: Neighbor) => nb.address == source && nb.deviceType == EndDevice);
      if i.None? then t else t[..i.value] + t[i.value + 1..]
    case Announced(extended) => Retain(t, (nb: Neighbor) => nb.extended != Some(extended))
    case Expire(now) => Cleanup(t, now)
    case Refreshed(i, expiration, outgoingCost) =>
      if i >= |t| then t else t[i := t[i].(expiration := expiration, outgoingCost := outgoingCost)]
    case Sorted(now) => SortByAddress(Cleanup(t, now))
  }

  // ----- sorting ------------------------------------------------------------------------------

  predicate Ascending(t: Table) {
    forall i, j :: 0 <= i < j < |t| ==> t[i].address <= t[j].address
  }

  function InsertByAddress(t: Table, nb: Neighbor): (r: Table)
    ensures |r| == |t| + 1 && forall x :: x in r <==> x == nb || x in t
  {
    if t == [] || t[|t| - 1].address <= nb.address then t + [nb]
    else
      assert t == t[..|t| - 1] + [t[|t| - 1]];
      InsertByAddress(t[..|t| - 1], nb) + [t[|t| - 1]]
  }

  /** The stable sort by network address. */
  function SortByAddress(t: Table): (r: Table)
    ensures |r| == |t| && forall x :: x in r <==> x in t
  {
    if t == [] then []
    else
      assert t == t[..|t| - 1] + [t[|t| - 1]];
      InsertByAddress(SortByAddress(t[..|t| - 1]), t[|t| - 1])
  }

  lemma {:induction false} InsertKeepsAscending(t: Table, nb: Neighbor)
    requires Ascending(t)
    ensures Ascending(InsertByAddress(t, nb))
  {
    if t != [] && t[|t| - 1].address > nb.address {
      var init, last := t[..|t| - 1], t[|t| - 1];
      InsertKeepsAscending(init, nb);
      forall i | 0 <= i < |init| + 1 ensures InsertByAddress(init, nb)[i].address <= last.address {
        assert InsertByAddress(init, nb)[i] in InsertByAddress(init, nb);
      }
    }
  }

  lemma {:induction false} InsertAddsOne(t: Table, nb: Neighbor)
    ensures multiset(InsertByAddress(t, nb)) == multiset(t) + multiset{nb}
  {
    if t != [] && t[|t| - 1].address > nb.address {
      InsertAddsOne(t[..|t| - 1], nb);
      assert t == t[..|t| - 1] + [t[|t| - 1]];
    }
  }

  lemma {:induction false} SortSorts(t: Table)
    ensures Ascending(SortByAddress(t)) && multiset(SortByAddress(t)) == multiset(t)
  {
    hide InsertByAddress, Ascending;
    if t == [] {
      EmptyIsAscending();
    } else {
      var init, last := t[..|t| - 1], t[|t| - 1];
      SortSorts(init);
      InsertKeepsAscending(SortByAddress(init), last);
      InsertAddsOne(SortByAddress(init), last);
      assert t == init + [last];
    }
  }

  /** Entries drawn from a table at some positions, by address and then by position. */
  ghost predicate Arranged(src: Table, t: Table, positions: seq<nat>) {
    && |positions| == |t|
    && (forall i :: 0 <= i < |t| ==> positions[i] < |src| && t[i] == src[positions[i]])
    && forall i, j :: 0 <= i < j < |t| ==>
         t[i].address < t[j].address || (t[i].address == t[j].address && positions[i] < positions[j])
  }

  /** The stable sort: all entries of a table, by address and then by position. */
  ghost predicate IsStableSort(src: Table, t: Table) {
    |t| == |src| && exists positions :: Arranged(src, t, positions)
  }

  lemma SortIsStable(t: Table)
    ensures IsStableSort(t, SortByAddress(t))
  {
    var positions := Arrange(t);
  }

  lemma {:induction false} Arrange(t: Table) returns (positions: seq<nat>)
    ensures Arranged(t, SortByAddress(t), positions)
  {
    positions := [];
    if t != [] {
      var init := t[..|t| - 1];
      positions := Arrange(init);
      positions := ArrangeInserted(t, SortByAddress(init), positions, |init|);
    }
  }

  lemma {:induction false} ArrangeInserted(src: Table, t: Table, positions: seq<nat>, m: nat) returns (r: seq<nat>)
    requires Arranged(src, t, positions) && m < |src| && forall k :: k in positions ==> k < m
    ensures Arranged(src, InsertByAddress(t, src[m]), r)
    ensures forall k :: k in r ==> k == m || k in positions
    decreases |t|
  {
    hide Arranged;
    InitArranged(src, t, positions);
    assert t != [] ==> positions[|t| - 1] in positions;
    if t == [] || t[|t| - 1].address <= src[m].address {
      AppendArranged(src, t, positions, m);
      r := positions + [m];
    } else {
      var n := |t| - 1;
      assert forall k :: k in positions[..n] ==> k in positions;
      var init := ArrangeInserted(src, t[..n], positions[..n], m);
      LastStaysLast(src, t, positions, m, InsertByAddress(t[..n], src[m]), init);
      AppendArranged(src, InsertByAddress(t[..n], src[m]), init, positions[n]);
      r := init + [positions[n]];
    }
  }

  lemma InitArranged(src: Table, t: Table, positions: seq<nat>)
    requires Arranged(src, t, positions)
    ensures |positions| == |t|
    ensures t != [] ==> var n := |t| - 1;
                        Arranged(src, t[..n], positions[..n]) && positions[n] < |src| && src[positions[n]] == t[n]
  {
  }

  /** An entry may follow if its place is behind that of the last. */
  lemma AppendArranged(src: Table, t: Table, positions: seq<nat>, m: nat)
    requires Arranged(src, t, positions) && m < |src| && |positions| == |t|
    requires t != [] ==> var last, k := t[|t| - 1], positions[|t| - 1];
                         last.address < src[m].address || (last.address == src[m].address && k < m)
    ensures Arranged(src, t + [src[m]], positions + [m])
  {
  }

  lemma LastStaysLast(src: Table, t: Table, positions: seq<nat>, m: nat, inserted: Table, places: seq<nat>)
    requires Arranged(src, t, positions) && m < |src| && t != [] && t[|t| - 1].address > src[m].address
    requires Arranged(src, inserted, places) && inserted != []
    requires forall k :: k in places ==> k == m || k in positions[..|t| - 1]
    ensures |places| == |inserted|
    ensures var last, k := inserted[|inserted| - 1], places[|inserted| - 1];
            last.address < t[|t| - 1].address || (last.address == t[|t| - 1].address && k < positions[|t| - 1])
  {
    var k := places[|inserted| - 1];
    assert k in places;
    if k != m {
      var h :| 0 <= h < |t| - 1 && positions[..|t| - 1][h] == k;
      assert t[h] == src[positions[h]];
    }
  }

  lemma EmptyIsAscending()
    ensures Ascending([])
  {
  }

  lemma {:induction false} InsertKeepsDistinct(t: Table, nb: Neighbor)
    ensures DistinctExtended(t) && (forall x :: x in t ==> !SameExtended(x, nb)) ==>
              DistinctExtended(InsertByAddress(t, nb))
    ensures DistinctShort(t) && (forall x :: x in t ==> !SameShort(x, nb)) ==> DistinctShort(InsertByAddress(t, nb))
  {
    if t != [] && t[|t| - 1].address > nb.address {
      var init, last := t[..|t| - 1], t[|t| - 1];
      InsertKeepsDistinct(init, nb);
      var r := InsertByAddress(init, nb);
      forall i | 0 <= i < |r| ensures r[i] == nb || exists k :: 0 <= k < |init| && t[k] == r[i] {
        assert r[i] in r;
      }
      assert last in t;
    }
  }

  lemma {:induction false} SortKeepsDistinct(t: Table)
    ensures DistinctExtended(t) ==> DistinctExtended(SortByAddress(t))
    ensures DistinctShort(t) ==> DistinctShort(SortByAddress(t))
  {
    if t != [] {
      var init := t[..|t| - 1];
      SortKeepsDistinct(init);
      InsertKeepsDistinct(SortByAddress(init), t[|t| - 1]);
      forall x | x in init ensures exists k :: 0 <= k < |init| && t[k] == x {
        var k :| 0 <= k < |init| && init[k] == x;
        assert t[k] == x;
      }
    }
  }

  // ----- what every run keeps -------------------------------------------------------------------

  lemma JoinedKeepsExtended(t: Table, nb: Neighbor)
    requires DistinctExtended(t) && |t| <= MAX_ENTRIES && nb.extended.Some?
    ensures DistinctExtended(Joined(t, nb).0) && |Joined(t, nb).0| <= MAX_ENTRIES
  {
    var keep := (x: Neighbor) => x.extended != nb.extended;
    var others := Retain(t, keep);
    RetainKeepsDistinct(t, keep);
    forall i | 0 <= i < |others| ensures !SameExtended(others[i], nb) {
      assert others[i] in others;
    }
  }

  /** Every step keeps known extended addresses pairwise distinct and the table within its capacity. */
  lemma StepKeepsExtended(t: Table, e: Event)
    requires DistinctExtended(t) && |t| <= MAX_ENTRIES
    ensures DistinctExtended(Step(t, e)) && |Step(t, e)| <= MAX_ENTRIES
  {
    hide Retain, Find, SortByAddress, Joined;
    match e
    case Associate(extended, deviceType, relationship, address, now, timeout) =>
      RetainKeepsDistinct(t, (nb: Neighbor) => nb.expiration > now);
      JoinedKeepsExtended(Cleanup(t, now), NewNeighbor(extended, address, deviceType, relationship, now + timeout));
    case Rejoin(extended, deviceType, address, now, timeout) =>
      RetainKeepsDistinct(t, (nb: Neighbor) => nb.expiration > now);
      JoinedKeepsExtended(Cleanup(t, now), NewNeighbor(extended, address, deviceType, Child, now + timeout));
    case DirectJoin(extended, deviceType, address, now, timeout) =>
      RetainKeepsDistinct(t, (nb: Neighbor) => nb.expiration > now);
      if Find(t, (nb: Neighbor) => nb.extended == Some(extended)).None? {
        DirectJoinIsNew(t, extended, now);
      }
    case Leave(source) => RetainKeepsDistinct(t, (nb: Neighbor) => nb.address != source);
    case ParentChanged(source) =>
    case Announced(extended) => RetainKeepsDistinct(t, (nb: Neighbor) => nb.extended != Some(extended));
    case Expire(now) => RetainKeepsDistinct(t, (nb: Neighbor) => nb.expiration > now);
    case Refreshed(i, expiration, outgoingCost) =>
    case Sorted(now) =>
      RetainKeepsDistinct(t, (nb: Neighbor) => nb.expiration > now);
      SortKeepsDistinct(Cleanup(t, now));
  }

  lemma DirectJoinIsNew(t: Table, extended: nat, now: nat)
    requires Find(t, (nb: Neighbor) => nb.extended == Some(extended)).None?
    ensures forall i :: 0 <= i < |Cleanup(t, now)| ==> Cleanup(t, now)[i].extended != Some(extended)
  {
    forall i | 0 <= i < |Cleanup(t, now)| ensures Cleanup(t, now)[i].extended != Some(extended) {
      assert Cleanup(t, now)[i] in t;
    }
  }

  function Run(t: Table, events: seq<Event>): Table {
    if events == [] then t else Step(Run(t, events[..|events| - 1]), events[|events| - 1])
  }

  /** No run of joins, rejoins, leaves, removals, expiries and refreshes lets one device have two
      entries or the table outgrow its capacity. */
  lemma {:induction false} RunKeepsExtended(t: Table, events: seq<Event>)
    requires DistinctExtended(t) && |t| <= MAX_ENTRIES
    ensures DistinctExtended(Run(t, events)) && |Run(t, events)| <= MAX_ENTRIES
  {
    hide Step, DistinctExtended;
    if events != [] {
      RunKeepsExtended(t, events[..|events| - 1]);
      StepKeepsExtended(Run(t, events[..|events| - 1]), events[|events| - 1]);
    }
  }

  /** What the address of a joining device must satisfy: fresh, as `AssignChildAddress` ensures, for
      an association or direct join; free among the entries that survive, for a rejoin. */
  ghost predicate AddressIsFree(t: Table, e: Event) {
    match e
    case Associate(_, _, _, address, _, _) => address !in Addresses(t)
    case DirectJoin(_, _, address, _, _) => address !in Addresses(t)
    case Rejoin(extended, _, address, now, _) => !HeldByAnother(Cleanup(t, now), extended, address)
    case _ => true
  }

  ghost predicate HeldByAnother(t: Table, extended: nat, address: Word) {
    exists i :: 0 <= i < |t| && t[i].address == address && t[i].extended != Some(extended)
  }

  lemma JoinedKeepsShortIff(t: Table, nb: Neighbor)
    requires DistinctShort(t) && nb.extended.Some?
    ensures Joined(t, nb).1 ==> (DistinctShort(Joined(t, nb).0) <==> !HeldByAnother(t, nb.extended.value, nb.address))
    ensures !Joined(t, nb).1 ==> DistinctShort(Joined(t, nb).0)
  {
    var keep := (x: Neighbor) => x.extended != nb.extended;
    var others := Retain(t, keep);
    RetainKeepsDistinct(t, keep);
    forall i | 0 <= i < |others|
      ensures others[i].address == nb.address ==> HeldByAnother(t, nb.extended.value, nb.address)
    {
      assert others[i] in others;
    }
    if HeldByAnother(t, nb.extended.value, nb.address) {
      var i :| 0 <= i < |t| && t[i].address == nb.address && t[i].extended != nb.extended;
      assert t[i] in others;
      var k :| 0 <= k < |others| && others[k] == t[i];
      assert |others| < MAX_ENTRIES ==> SameShort((others + [nb])[k], (others + [nb])[|others|]);
    }
  }

  /** A rejoin that finds or makes an entry keeps network addresses distinct exactly if no other
      surviving entry holds the address it ends up with. */
  lemma RejoinKeepsShortIff(t: Table, e: Event)
    requires DistinctExtended(t) && DistinctShort(t) && e.Rejoin?
    ensures AddressIsFree(t, e) ==> DistinctShort(Step(t, e))
    ensures DistinctShort(Step(t, e)) ==>
              AddressIsFree(t, e)
              || (FindDevice(Cleanup(t, e.now), e.extended, e.deviceType).None?
                  && !Joined(Cleanup(t, e.now),
                             NewNeighbor(e.extended, e.address, e.deviceType, Child, e.now + e.timeout)).1)
  {
    hide Retain, Find, Joined;
    RetainKeepsDistinct(t, (nb: Neighbor) => nb.expiration > e.now);
    var live := Cleanup(t, e.now);
    JoinedKeepsShortIff(live, NewNeighbor(e.extended, e.address, e.deviceType, Child, e.now + e.timeout));
    var known := FindDevice(live, e.extended, e.deviceType);
    if known.Some? {
      RenameKeepsShortIff(live, known.value, e.address, e.extended);
    }
  }

  lemma RenameKeepsShortIff(t: Table, k: nat, address: Word, extended: nat)
    requires DistinctExtended(t) && DistinctShort(t) && k < |t| && t[k].extended == Some(extended)
    ensures DistinctShort(t[k := t[k].(address := address)]) <==> !HeldByAnother(t, extended, address)
  {
    var r := t[k := t[k].(address := address)];
    if HeldByAnother(t, extended, address) {
      var i :| 0 <= i < |t| && t[i].address == address && t[i].extended != Some(extended);
      assert SameShort(r[i], r[k]);
      assert if i < k then SameShort(r[i], r[k]) else SameShort(r[k], r[i]);
    } else {
      forall i | 0 <= i < |t| && i != k ensures r[i].address != address {
        assert if i < k then !SameExtended(t[i], t[k]) else !SameExtended(t[k], t[i]);
      }
    }
  }

  lemma StepKeepsShort(t: Table, e: Event)
    requires DistinctExtended(t) && DistinctShort(t) && AddressIsFree(t, e)
    ensures DistinctShort(Step(t, e))
  {
    hide Retain, Find, SortByAddress, Joined;
    match e
    case Associate(extended, deviceType, relationship, address, now, timeout) =>
      RetainKeepsDistinct(t, (nb: Neighbor) => nb.expiration > now);
      FreshSurvives(t, address, now);
      JoinedKeepsShortIff(Cleanup(t, now), NewNeighbor(extended, address, deviceType, relationship, now + timeout));
    case Rejoin(extended, deviceType, address, now, timeout) => RejoinKeepsShortIff(t, e);
    case DirectJoin(extended, deviceType, address, now, timeout) =>
      RetainKeepsDistinct(t, (nb: Neighbor) => nb.expiration > now);
      FreshSurvives(t, address, now);
    case Leave(source) => RetainKeepsDistinct(t, (nb: Neighbor) => nb.address != source);
    case ParentChanged(source) =>
    case Announced(extended) => RetainKeepsDistinct(t, (nb: Neighbor) => nb.extended != Some(extended));
    case Expire(now) => RetainKeepsDistinct(t, (nb: Neighbor) => nb.expiration > now);
    case Refreshed(i, expiration, outgoingCost) =>
    case Sorted(now) =>
      RetainKeepsDistinct(t, (nb: Neighbor) => nb.expiration > now);
      SortKeepsDistinct(Cleanup(t, now));
  }

  lemma FreshSurvives(t: Table, address: Word, now: nat)
    requires address !in Addresses(t)
    ensures forall i :: 0 <= i < |Cleanup(t, now)| ==> Cleanup(t, now)[i].address != address
  {
    forall i | 0 <= i < |Cleanup(t, now)| ensures Cleanup(t, now)[i].address != address {
      assert Cleanup(t, now)[i] in t;
    }
  }

  ghost predicate AddressesAreFree(t: Table, events: seq<Event>) {
    forall i :: 0 <= i < |events| ==> AddressIsFree(Run(t, events[..i]), events[i])
  }

  /** Network addresses stay distinct in every run whose joining addresses are free. */
  lemma {:induction false} RunKeepsShort(t: Table, events: seq<Event>)
    requires DistinctExtended(t) && DistinctShort(t) && |t| <= MAX_ENTRIES && AddressesAreFree(t, events)
    ensures DistinctShort(Run(t, events))
  {
    hide Step, DistinctExtended, DistinctShort, AddressIsFree;
    if events != [] {
      var before := events[..|events| - 1];
      assert forall i :: 0 <= i < |before| ==> before[..i] == events[..i];
      RunKeepsShort(t, before);
      RunKeepsExtended(t, before);
      assert AddressIsFree(Run(t, before), events[|events| - 1]);
      StepKeepsShort(Run(t, before), events[|events| - 1]);
    }
  }

  /** The address a rejoining device ends up with: its own, or an assigned one if the check reports
      a conflict. */
  function RejoinAddress(t: Table, own: Word, addressMap: map<Word, nat>, requested: Word, extended: nat,
                         drawn: Word): Word
  {
    if IsAddressConflict(t, own, addressMap, requested, extended) then drawn else requested
  }

  /** A rejoin ends up with a free address exactly if it asked for the router's own, or for one that
      the address map gives to another device, or for one that no other surviving entry holds: of
      the entries in the table the check does not refuse those of other devices. */
  lemma RejoinAddressIsFreeIff(t: Table, own: Word, addressMap: map<Word, nat>, requested: Word, extended: nat,
                               drawn: Word, deviceType: DeviceType, now: nat, timeout: nat)
    requires drawn !in Addresses(t) && DistinctShort(t)
    ensures var address := RejoinAddress(t, own, addressMap, requested, extended, drawn);
            AddressIsFree(t, Rejoin(extended, deviceType, address, now, timeout))
            <==> || own == requested
                 || (requested in addressMap && addressMap[requested] != extended)
                 || !HeldByAnother(Cleanup(t, now), extended, requested)
  {
    hide Retain, Cleanup;
    var live := Cleanup(t, now);
    CleanupIsSubset(t, now);
    forall i | 0 <= i < |live| ensures live[i].address != drawn {
      assert live[i] in t;
    }
    if own != requested && requested !in addressMap
       && IsAddressConflict(t, own, addressMap, requested, extended) {
      var held := Find(t, (nb: Neighbor) => nb.address == requested);
      forall i | 0 <= i < |live| && live[i].address == requested ensures live[i].extended == Some(extended) {
        assert live[i] in t;
        var k :| 0 <= k < |t| && t[k] == live[i];
        assert k == held.value || SameShort(t[k], t[held.value]);
      }
    }
  }

  /** A device that rejoins under the address of its own entry is given another, unless the address
      map knows it under that address. */
  lemma RejoinRenamesIff(t: Table, own: Word, addressMap: map<Word, nat>, requested: Word, extended: nat,
                         drawn: Word, k: nat)
    requires drawn !in Addresses(t) && DistinctShort(t)
    requires k < |t| && t[k].address == requested && t[k].extended == Some(extended)
    ensures RejoinAddress(t, own, addressMap, requested, extended, drawn) == requested
            <==> own != requested && requested in addressMap && addressMap[requested] == extended
  {
    assert t[k] in t;
    var held := Find(t, (nb: Neighbor) => nb.address == requested);
    assert held.Some? && (held.value == k || SameShort(t[held.value], t[k]));
  }

  lemma CleanupIsSubset(t: Table, now: nat)
    ensures forall nb :: nb in Cleanup(t, now) ==> nb in t
  {
  }

  /** Associations and direct joins add nothing but the joining device under the given address. */
  lemma JoinsAddOnlyTheDevice(t: Table, e: Event)
    requires e.Associate? || e.DirectJoin?
    ensures forall nb :: nb in Step(t, e) ==> nb in t || (nb.address == e.address && nb.extended == Some(e.extended))
  {
    hide Find;
  }

  lemma RetainOne(nb: Neighbor, keep: Neighbor -> bool)
    requires keep(nb)
    ensures Retain([nb], keep) == [nb]
  {
    assert [nb][..0] == [];
  }

  /** A rejoin can make two entries share a network address: device 2 asks for the address under
      which device 1 is known, and the check sees no conflict. */
  lemma RejoinCanDuplicate()
    ensures var t := [NewNeighbor(1, 0x10, EndDevice, Child, 5)];
            && DistinctExtended(t) && DistinctShort(t) && !IsAddressConflict(t, 0, map[], 0x10, 2)
            && !DistinctShort(Step(t, Rejoin(2, EndDevice, 0x10, 0, 1)))
  {
    hide Retain, Step;
    var nb := NewNeighbor(1, 0x10, EndDevice, Child, 5);
    var e := Rejoin(2, EndDevice, 0x10, 0, 1);
    RetainOne(nb, (x: Neighbor) => x.expiration > 0);
    RetainOne(nb, (x: Neighbor) => x.extended != Some(2));
    assert Cleanup([nb], 0) == [nb];
    assert HeldByAnother([nb], 2, 0x10) by {
      assert [nb][0].address == 0x10;
    }
    RejoinKeepsShortIff([nb], e);
    JoinedAlone(nb, NewNeighbor(2, 0x10, EndDevice, Child, 1));
  }

  lemma JoinedAlone(nb: Neighbor, joining: Neighbor)
    requires joining.extended.Some? && nb.extended != joining.extended
    ensures Joined([nb], joining).1
  {
    hide Retain;
  }

  // ----- the steps in plain terms ---------------------------------------------------------------

  /** The entries that expire later than now, in order. */
  ghost predicate Unexpired(before: Table, after: Table, now: nat) {
    Kept(before, after, (nb: Neighbor) => nb.expiration > now)
  }

  lemma CleanupIsUnexpired(t: Table, now: nat)
    ensures Unexpired(t, Cleanup(t, now), now)
  {
    KeptAlike(t, Cleanup(t, now), (nb: Neighbor) => nb.expiration > now, (nb: Neighbor) => nb.expiration > now);
  }

  /** What leaving, announcing, expiry and a refresh do. */
  lemma StepRemoves(t: Table, e: Event)
    ensures e.Leave? ==> Kept(t, Step(t, e), (nb: Neighbor) => nb.address != e.source)
    ensures e.Announced? ==> Kept(t, Step(t, e), (nb: Neighbor) => nb.extended != Some(e.extended))
    ensures e.Expire? ==> Unexpired(t, Step(t, e), e.now)
    ensures e.Refreshed? ==>
              && |Step(t, e)| == |t| && (forall i :: 0 <= i < |t| && i != e.index ==> Step(t, e)[i] == t[i])
              && (e.index < |t| ==>
                    Step(t, e)[e.index]
                    == Neighbor(t[e.index].extended, t[e.index].address, t[e.index].deviceType, t[e.index].relationship,
                                e.expiration, t[e.index].incomingCost, e.outgoingCost))
  {
    hide Kept, Unexpired, Retain;
    match e
    case Leave(source) =>
      KeptAlike(t, Step(t, e), (nb: Neighbor) => nb.address != source, (nb: Neighbor) => nb.address != e.source);
    case Announced(extended) =>
      KeptAlike(t, Step(t, e), (nb: Neighbor) => nb.extended != Some(extended),
                (nb: Neighbor) => nb.extended != Some(e.extended));
    case Expire(now) => CleanupIsUnexpired(t, now);
    case _ =>
  }

  /** An entry of the device under its type survives the cleanup. */
  ghost predicate IsKnown(t: Table, now: nat, extended: nat, deviceType: DeviceType) {
    exists nb :: nb in t && nb.expiration > now && nb.extended == Some(extended) && nb.deviceType == deviceType
  }

  lemma KnownIff(t: Table, now: nat, extended: nat, deviceType: DeviceType)
    ensures FindDevice(Cleanup(t, now), extended, deviceType).Some? <==> IsKnown(t, now, extended, deviceType)
  {
    hide Find;
    var live := Cleanup(t, now);
    var found := FindDevice(live, extended, deviceType);
    if found.Some? {
      assert live[found.value] in t;
    }
    if IsKnown(t, now, extended, deviceType) {
      var nb :| nb in t && nb.expiration > now && nb.extended == Some(extended) && nb.deviceType == deviceType;
      assert nb in live;
    }
  }

  /** Expired entries and entries of the device are gone, and its new entry is the last if there was
      room for it. */
  ghost predicate Entered(before: Table, after: Table, now: nat, nb: Neighbor, ok: bool) {
    exists others: Table ::
      && Kept(before, others, (x: Neighbor) => x.expiration > now && x.extended != nb.extended)
      && (ok <==> |others| < 32)
      && after == if ok then others + [nb] else others
  }

  lemma JoinedIsEntered(t: Table, now: nat, nb: Neighbor)
    requires nb.extended.Some?
    ensures Entered(t, Joined(Cleanup(t, now), nb).0, now, nb, Joined(Cleanup(t, now), nb).1)
  {
    hide Retain, Kept;
    var live, other := (x: Neighbor) => x.expiration > now, (x: Neighbor) => x.extended != nb.extended;
    var others := Retain(Cleanup(t, now), other);
    RetainTwice(t, live, other);
    KeptAlike(t, others, Both(live, other), (x: Neighbor) => x.expiration > now && x.extended != nb.extended);
  }

  ghost predicate IsPresent(t: Table, extended: nat) {
    exists nb :: nb in t && nb.extended == Some(extended)
  }

  lemma PresentIff(t: Table, extended: nat)
    ensures Find(t, (nb: Neighbor) => nb.extended == Some(extended)).Some? <==> IsPresent(t, extended)
  {
    var found := Find(t, (nb: Neighbor) => nb.extended == Some(extended));
    assert found.Some? ==> t[found.value] in t;
  }

  /** Expired entries are gone, and a new entry is the last if there was room for it. */
  ghost predicate Appended(before: Table, after: Table, now: nat, nb: Neighbor, ok: bool) {
    exists live: Table ::
      && Unexpired(before, live, now)
      && (ok <==> |live| < 32)
      && after == if ok then live + [nb] else live
  }

  lemma CleanupIsAppended(t: Table, now: nat, nb: Neighbor)
    ensures var live := Cleanup(t, now);
            if |live| < 32 then Appended(t, live + [nb], now, nb, true) else Appended(t, live, now, nb, false)
  {
    hide Unexpired;
    CleanupIsUnexpired(t, now);
  }

  /** A known device's entry is renamed among the unexpired ones. */
  ghost predicate Renamed(before: Table, after: Table, now: nat, extended: nat, deviceType: DeviceType, address: Word) {
    exists live: Table, k: nat ::
      && Unexpired(before, live, now)
      && k < |live| && live[k].extended == Some(extended) && live[k].deviceType == deviceType
      && after == live[k := live[k].(address := address)]
  }

  /** The router's own address, one the map gives to another device, or one the map does not know
      and whose first entry is the rejoining device's. */
  ghost predicate Conflicts(t: Table, own: Word, addressMap: map<Word, nat>, address: Word, extended: nat) {
    || own == address
    || (address in addressMap && addressMap[address] != extended)
    || (address !in addressMap && exists k: nat :: IsFirstUnder(t, address, k) && t[k].extended == Some(extended))
  }

  ghost predicate IsFirstUnder(t: Table, address: Word, k: nat) {
    k < |t| && t[k].address == address && forall j :: 0 <= j < k ==> t[j].address != address
  }

  lemma ConflictIff(t: Table, own: Word, addressMap: map<Word, nat>, address: Word, extended: nat)
    ensures IsAddressConflict(t, own, addressMap, address, extended)
            <==> Conflicts(t, own, addressMap, address, extended)
  {
    hide Find;
    var held := Find(t, (nb: Neighbor) => nb.address == address);
    if held.Some? {
      assert IsFirstUnder(t, address, held.value);
      forall k: nat | IsFirstUnder(t, address, k) ensures k == held.value {
        assert !(k < held.value) && !(held.value < k);
      }
    }
  }

  ghost predicate HasEntry(t: Table, extended: nat, deviceType: DeviceType, address: Word) {
    exists i :: 0 <= i < |t|
      && t[i].extended == Some(extended) && t[i].deviceType == deviceType && t[i].address == address
  }

  lemma FoundHasEntry(t: Table, extended: nat, deviceType: DeviceType)
    ensures var k := FindDevice(t, extended, deviceType);
            k.Some? ==> k.value < |t| && HasEntry(t, extended, deviceType, t[k.value].address)
  {
  }

  lemma LastIsEntry(t: Table, nb: Neighbor)
    requires t != [] && t[|t| - 1] == nb && nb.extended.Some?
    ensures HasEntry(t, nb.extended.value, nb.deviceType, nb.address)
  {
  }

  // ----- the table in place ---------------------------------------------------------------------

  class NeighborStore {
    var neighbors: Table

    ghost predicate Valid()
      reads this
    {
      DistinctExtended(neighbors) && |neighbors| <= MAX_ENTRIES
    }

    /** Drops the expired entries, in order. */
    method CleanUp(now: nat)
      modifies this`neighbors
      ensures neighbors == Cleanup(old(neighbors), now) && Unexpired(old(neighbors), neighbors, now)
      ensures forall nb :: nb in neighbors <==> nb in old(neighbors) && nb.expiration > now
    {
      CleanupIsUnexpired(neighbors, now);
      RetainEntries((nb: Neighbor) => nb.expiration > now);
    }

    method RetainEntries(keep: Neighbor -> bool)
      modifies this`neighbors
      ensures neighbors == Retain(old(neighbors), keep)
    {
      var kept := [];
      for i := 0 to |neighbors|
        invariant kept == Retain(neighbors[..i], keep)
      {
        assert neighbors[..i + 1][..i] == neighbors[..i];
        if keep(neighbors[i]) {
          kept := kept + [neighbors[i]];
        }
      }
      assert neighbors[..|neighbors|] == neighbors;
      neighbors := kept;
    }

    /** Forgets a device and enters it anew, unless the table is full. */
    method Enter(nb: Neighbor) returns (ok: bool)
      requires nb.extended.Some?
      modifies this`neighbors
      ensures (neighbors, ok) == Joined(old(neighbors), nb)
      ensures ok ==> neighbors != [] && neighbors[|neighbors| - 1] == nb
      ensures !ok ==> forall x :: x in neighbors ==> x.extended != nb.extended
    {
      RetainEntries((x: Neighbor) => x.extended != nb.extended);
      ok := |neighbors| < MAX_ENTRIES;
      if ok {
        neighbors := neighbors + [nb];
      }
    }

    /** An association is answered with the address of the device's entry, or with none if the table
        is full. */
    method HandleAssociate(extended: nat, deviceType: DeviceType, secured: bool, address: Word, now: nat, timeout: nat)
      returns (r: Option<(Word, nat)>)
      requires Valid()
      modifies this`neighbors
      ensures Valid()
      ensures neighbors == Step(old(neighbors),
                                Associate(extended, deviceType, if secured then UnauthenticatedChild else Child,
                                          address, now, timeout))
      ensures if IsKnown(old(neighbors), now, extended, deviceType) then
                Unexpired(old(neighbors), neighbors, now) && r.Some?
              else
                && Entered(old(neighbors), neighbors, now,
                           Neighbor(Some(extended), address, deviceType,
                                    if secured then UnauthenticatedChild else Child, now + timeout, Cost1, Cost1),
                           r.Some?)
                && (r.Some? ==> r.value.0 == address)
      ensures r.Some? ==> r.value.1 == extended && HasEntry(neighbors, extended, deviceType, r.value.0)
      ensures r.None? ==> forall nb :: nb in neighbors ==> nb.extended != Some(extended)
    {
      var relationship := if secured then UnauthenticatedChild else Child;
      hide IsKnown, Entered, Unexpired, Retain, Cleanup, Joined, DistinctExtended, HasEntry, FindDevice;
      KnownIff(neighbors, now, extended, deviceType);
      JoinedIsEntered(neighbors, now, NewNeighbor(extended, address, deviceType, relationship, now + timeout));
      StepKeepsExtended(neighbors, Associate(extended, deviceType, relationship, address, now, timeout));
      CleanUp(now);
      var known := FindDevice(neighbors, extended, deviceType);
      FoundHasEntry(neighbors, extended, deviceType);
      if known.Some? {
        return Some((neighbors[known.value].address, extended));
      }
      var nb := NewNeighbor(extended, address, deviceType, relationship, now + timeout);
      var ok := Enter(nb);
      if !ok {
        return None;
      }
      LastIsEntry(neighbors, nb);
      r := Some((address, extended));
    }

    /** A rejoin renames the known entry or enters the device anew. */
    method HandleRejoin(extended: nat, deviceType: DeviceType, own: Word, addressMap: map<Word, nat>, requested: Word,
                        drawn: Word, now: nat, timeout: nat) returns (ok: bool)
      requires Valid()
      modifies this`neighbors
      ensures Valid()
      ensures var address := RejoinAddress(old(neighbors), own, addressMap, requested, extended, drawn);
              && neighbors == Step(old(neighbors), Rejoin(extended, deviceType, address, now, timeout))
              && (ok ==> HasEntry(neighbors, extended, deviceType, address))
      ensures var address :=
                if Conflicts(old(neighbors), own, addressMap, requested, extended) then drawn else requested;
              if IsKnown(old(neighbors), now, extended, deviceType) then
                ok && Renamed(old(neighbors), neighbors, now, extended, deviceType, address)
              else
                Entered(old(neighbors), neighbors, now,
                        Neighbor(Some(extended), address, deviceType, Child, now + timeout, Cost1, Cost1), ok)
      ensures !ok ==> forall nb :: nb in neighbors ==> nb.extended != Some(extended)
    {
      hide Retain, Cleanup, Joined, DistinctExtended, IsAddressConflict;
      ConflictIff(neighbors, own, addressMap, requested, extended);
      KnownIff(neighbors, now, extended, deviceType);
      hide Conflicts, IsKnown, Entered, Unexpired;
      var address := requested;
      if IsAddressConflict(neighbors, own, addressMap, requested, extended) {
        address := drawn;
      }
      StepKeepsExtended(neighbors, Rejoin(extended, deviceType, address, now, timeout));
      JoinedIsEntered(neighbors, now, NewNeighbor(extended, address, deviceType, Child, now + timeout));
      CleanUp(now);
      var known := FindDevice(neighbors, extended, deviceType);
      if known.Some? {
        neighbors := neighbors[known.value := neighbors[known.value].(address := address)];
        assert neighbors[known.value].address == address;
        return true;
      }
      ok := Enter(NewNeighbor(extended, address, deviceType, Child, now + timeout));
    }

    method DirectlyJoin(extended: nat, deviceType: DeviceType, address: Word, now: nat, timeout: nat) returns (ok: bool)
      requires Valid()
      modifies this`neighbors
      ensures Valid() && neighbors == Step(old(neighbors), DirectJoin(extended, deviceType, address, now, timeout))
      ensures if IsPresent(old(neighbors), extended) then !ok && neighbors == old(neighbors)
              else Appended(old(neighbors), neighbors, now,
                            Neighbor(Some(extended), address, deviceType, Child, now + timeout, Cost1, Cost1), ok)
    {
      hide IsPresent, Appended, Unexpired, DistinctExtended, Retain, Cleanup;
      var nb := NewNeighbor(extended, address, deviceType, Child, now + timeout);
      StepKeepsExtended(neighbors, DirectJoin(extended, deviceType, address, now, timeout));
      PresentIff(neighbors, extended);
      CleanupIsAppended(neighbors, now, nb);
      var present := Find(neighbors, (nb: Neighbor) => nb.extended == Some(extended));
      if present.Some? {
        return false;
      }
      CleanUp(now);
      ok := |neighbors| < MAX_ENTRIES;
      if ok {
        neighbors := neighbors + [nb];
      }
    }

    method HandleLeave(source: Word)
      requires Valid()
      modifies this`neighbors
      ensures Valid() && neighbors == Step(old(neighbors), Leave(source))
      ensures Kept(old(neighbors), neighbors, (nb: Neighbor) => nb.address != source)
    {
      KeptAlike(neighbors, Step(neighbors, Leave(source)), (nb: Neighbor) => nb.address != source,
                (nb: Neighbor) => nb.address != source);
      StepKeepsExtended(neighbors, Leave(source));
      RetainEntries((nb: Neighbor) => nb.address != source);
    }

    /** An end device whose frame came in through another device has changed parents; its first
        entry is removed. Frames from the device itself, and broadcasts already recorded, change
        nothing. */
    method ExamineChangedParent(source: Word, macSource: Option<Word>, recorded: bool)
      requires Valid()
      modifies this`neighbors
      ensures Valid()
      ensures neighbors == if macSource == Some(source) || (source > LAST_UNICAST && recorded) then old(neighbors)
                           else Step(old(neighbors), ParentChanged(source))
      ensures if || macSource == Some(source) || (source > 0xfff7 && recorded)
                 || (forall nb :: nb in old(neighbors) ==> nb.address != source || nb.deviceType != EndDevice)
              then neighbors == old(neighbors)
              else
                exists k: nat ::
                  && k < |old(neighbors)| && old(neighbors)[k].address == source
                  && old(neighbors)[k].deviceType == EndDevice
                  && (forall j :: 0 <= j < k ==> old(neighbors)[j].address != source
                                                 || old(neighbors)[j].deviceType != EndDevice)
                  && neighbors == old(neighbors)[..k] + old(neighbors)[k + 1..]
    {
      StepKeepsExtended(neighbors, ParentChanged(source));
      var i := Find(neighbors, (nb: Neighbor) => nb.address == source && nb.deviceType == EndDevice);
      if i.None? || macSource == Some(source) {
        return;
      }
      if source > LAST_UNICAST && recorded {
        return;
      }
      neighbors := neighbors[..i.value] + neighbors[i.value + 1..];
    }
  }
}
