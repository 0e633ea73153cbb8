/** Link status frames (Zigbee specification, sections 3.4.8 and 3.6.3.4): splitting the sorted
    neighbor table into overlapping frames, and what a receiver learns from them. */
module LinkStatus {
  import opened Arithmetic
  import opened Bytes
  import opened NeighborTable

  datatype Entry = Entry(address: Word, incomingCost: LinkCost, outgoingCost: LinkCost)

  datatype Command = Command(entryCount: nat, firstFrame: bool, lastFrame: bool, entries: seq<Entry>)

  function EntryOf(nb: Neighbor): Entry { Entry(nb.address, nb.incomingCost, nb.outgoingCost) }

  function Entries(t: Table): (r: seq<Entry>)
    ensures |r| == |t|
  {
    seq(|t|, i requires 0 <= i < |t| => EntryOf(t[i]))
  }

  /** The number of frames, from the length of the table before expired entries are dropped. */
  function FrameCount(length: nat): nat {
    if length <= 16 then 1 else (length - 16) / 15 + 1
  }

  /** Frame i takes up to sixteen entries after skipping 15 * i. */
  function Window(t: Table, i: nat): Table {
    t[Min(15 * i, |t|)..Min(15 * i + 16, |t|)]
  }

  function Frame(t: Table, length: nat, i: nat): Command {
    var entries := Entries(Window(t, i));
    Command(|entries|, true, length == 1, entries)
  }

  function Frames(t: Table, length: nat, n: nat): seq<Command> {
    seq(n, i requires 0 <= i < n => Frame(t, length, i))
  }

  /** The frames in plain numbers: two for a table that had more than thirty entries, one for any
      other; frame i lists up to sixteen neighbors after the first 15 * i with both costs, says that it
      is the first, and that it is the last if the table had one entry. */
  ghost predicate AreFrames(commands: seq<Command>, t: Table, length: nat) {
    && |commands| == (if length <= 30 then 1 else 2)
    && forall i :: 0 <= i < |commands| ==> IsFrame(commands[i], t, length, i)
  }

  ghost predicate IsFrame(c: Command, t: Table, length: nat, i: nat) {
    && |c.entries| == c.entryCount == (if |t| <= 15 * i then 0 else if |t| <= 15 * i + 16 then |t| - 15 * i else 16)
    && c.firstFrame && (c.lastFrame <==> length == 1)
    && forall j :: 0 <= j < |c.entries| ==>
         c.entries[j] == Entry(t[15 * i + j].address, t[15 * i + j].incomingCost, t[15 * i + j].outgoingCost)
  }

  lemma FramesAre(t: Table, length: nat)
    requires length <= 32
    ensures AreFrames(Frames(t, length, FrameCount(length)), t, length)
  {
    forall i | 0 <= i < FrameCount(length) ensures IsFrame(Frame(t, length, i), t, length, i) {
      FrameIs(t, length, i);
    }
    hide IsFrame, Frame;
  }

  lemma FrameIs(t: Table, length: nat, i: nat)
    ensures IsFrame(Frame(t, length, i), t, length, i)
  {
  }

  /** Drops expired entries, sorts the table in place, and makes the frames. */
  method MakeLinkStatusCommands(store: NeighborStore, now: nat) returns (commands: seq<Command>)
    requires store.Valid()
    modifies store`neighbors
    ensures store.Valid() && store.neighbors == Step(old(store.neighbors), Sorted(now))
    ensures commands == Frames(store.neighbors, |old(store.neighbors)|, FrameCount(|old(store.neighbors)|))
    ensures |commands| <= 2
    ensures Ascending(store.neighbors) && multiset(store.neighbors) == multiset(Cleanup(old(store.neighbors), now))
    ensures exists live: Table :: Unexpired(old(store.neighbors), live, now) && IsStableSort(live, store.neighbors)
    ensures AreFrames(commands, store.neighbors, |old(store.neighbors)|)
  {
    hide Unexpired, IsStableSort, AreFrames;
    SortIsStable(Cleanup(store.neighbors, now));
    FramesAre(SortByAddress(Cleanup(store.neighbors, now)), |store.neighbors|);
    StepKeepsExtended(store.neighbors, Sorted(now));
    SortedStep(store.neighbors, now);
    FewFrames(|store.neighbors|);
    hide Step, SortByAddress, Ascending, DistinctExtended, Cleanup, Frames, FrameCount;
    var length := |store.neighbors|;
    var n := FrameCount(length);
    store.CleanUp(now);
    SortSorts(store.neighbors);
    store.neighbors := SortByAddress(store.neighbors);
    commands := MakeFrames(store.neighbors, length, n);
  }

  lemma SortedStep(t: Table, now: nat)
    ensures Step(t, Sorted(now)) == SortByAddress(Cleanup(t, now))
  {
  }

  lemma FewFrames(length: nat)
    requires length <= MAX_ENTRIES
    ensures FrameCount(length) <= 2
  {
  }

  method MakeFrames(t: Table, length: nat, n: nat) returns (commands: seq<Command>)
    ensures commands == Frames(t, length, n) && |commands| == n
  {
    hide Window, Entries;
    commands := [];
    for i := 0 to n
      invariant |commands| == i && forall j :: 0 <= j < i ==> commands[j] == Frame(t, length, j)
    {
      var entries := Entries(Window(t, i));
      commands := commands + [Command(|entries|, true, length == 1, entries)];
    }
  }

  // ----- what the frames carry ------------------------------------------------------------------

  /** Every frame is sorted and has at most sixteen entries. */
  lemma FramesAreSorted(t: Table, i: nat)
    requires Ascending(t)
    ensures |Window(t, i)| <= 16 && Ascending(Window(t, i))
  {
  }

  /** The last entry of a frame is the first of the next, and nothing else is sent twice: frames
      i < k share entries only if k follows i, and then exactly one. */
  lemma FramesShareOne(t: Table, i: nat, k: nat)
    requires i < k && 15 * k < |t|
    ensures var lo, hi := Min(15 * i, |t|), Min(15 * i + 16, |t|);
            && hi - lo == 16
            && (k == i + 1 ==> 15 * k == hi - 1 && Window(t, i)[15] == Window(t, k)[0])
            && (k > i + 1 ==> 15 * k >= hi)
  {
  }

  /** The entries of n frames, each shared one counted once. */
  function Sent(t: Table, n: nat): Table {
    if n == 0 then []
    else if n == 1 then Window(t, 0)
    else
      var last := Window(t, n - 1);
      Sent(t, n - 1) + if last == [] then [] else last[1..]
  }

  /** n frames carry exactly the first 15 * n + 1 sorted neighbors, in order. */
  lemma {:induction false} SentIsPrefix(t: Table, n: nat)
    requires n >= 1
    ensures Sent(t, n) == t[..Min(15 * n + 1, |t|)]
  {
    if n > 1 {
      SentIsPrefix(t, n - 1);
      var m := Min(15 * (n - 1) + 1, |t|);
      assert Min(15 * (n - 1), |t|) == if 15 * (n - 1) < |t| then m - 1 else |t|;
      assert Window(t, n - 1) == t[Min(15 * (n - 1), |t|)..Min(15 * n + 1, |t|)];
    }
  }

  /** With the frame count of the source and no expired entries, the whole table is sent exactly
      if it has at most 16 entries or one more than a multiple of 15. */
  lemma WholeTableIsSentIff(t: Table)
    ensures Sent(t, FrameCount(|t|)) == t <==> |t| <= 16 || |t| % 15 == 1
  {
    var n := FrameCount(|t|);
    SentIsPrefix(t, n);
    if |t| > 16 {
      Division(|t|);
    }
    if Min(15 * n + 1, |t|) == |t| {
      assert t[..|t|] == t;
    } else {
      assert |t[..15 * n + 1]| != |t|;
    }
  }

  lemma Division(length: nat)
    requires length > 16
    ensures 15 * FrameCount(length) + 1 <= length
    ensures 15 * FrameCount(length) + 1 == length <==> length % 15 == 1
  {
    var q, r := (length - 16) / 15, (length - 16) % 15;
    assert length - 16 == 15 * q + r;
    assert length == 15 * (q + 1) + 1 + r;
    assert length % 15 == (1 + r) % 15;
  }

  // ----- the receiver ---------------------------------------------------------------------------

  /** The cost the first entry under an address gives, or the default cost. */
  function CostFor(entries: seq<Entry>, self: Word): LinkCost {
    if entries == [] then Cost1
    else if entries[0].address == self then entries[0].incomingCost
    else CostFor(entries[1..], self)
  }

  /** Whether the receiver's address lies outside the frame, by the flags the frame carries. */
  predicate Ignored(c: Command, self: Word) {
    || c.entries == []
    || (c.firstFrame && self < c.entries[0].address)
    || (c.lastFrame && self > c.entries[|c.entries| - 1].address)
  }

  function Learned(c: Command, self: Word, cost: LinkCost): LinkCost {
    if Ignored(c, self) then cost else CostFor(c.entries, self)
  }

  /** What a frame from a sender does to the table: the first entry under the sender's address gets a new
      expiration, and the cost the frame gives for the receiver, if the frame is not empty and the
      receiver not before it or behind it by its flags. */
  ghost predicate Heard(before: Table, after: Table, c: Command, sender: Word, self: Word, expiration: nat, k: nat) {
    && k < |before| && before[k].address == sender && (forall j :: 0 <= j < k ==> before[j].address != sender)
    && exists cost ::
      && after == before[k := Neighbor(before[k].extended, before[k].address, before[k].deviceType,
                                       before[k].relationship, expiration, before[k].incomingCost, cost)]
      && if c.entries == [] || (c.firstFrame && self < c.entries[0].address)
            || (c.lastFrame && self > c.entries[|c.entries| - 1].address)
         then cost == before[k].outgoingCost else GivesCost(c.entries, self, cost)
  }

  /** The incoming cost of the first entry under an address; without one, the default cost. */
  ghost predicate GivesCost(entries: seq<Entry>, self: Word, cost: LinkCost) {
    if exists e :: e in entries && e.address == self then
      exists k :: 0 <= k < |entries| && entries[k].address == self && entries[k].incomingCost == cost
                  && forall j :: 0 <= j < k ==> entries[j].address != self
    else cost == Cost1
  }

  lemma {:induction false} CostForIsGiven(entries: seq<Entry>, self: Word)
    ensures GivesCost(entries, self, CostFor(entries, self))
  {
    if entries != [] && entries[0].address != self {
      CostForIsGiven(entries[1..], self);
      assert forall e :: e in entries <==> e == entries[0] || e in entries[1..];
      if exists e :: e in entries[1..] && e.address == self {
        var k :| 0 <= k < |entries[1..]| && entries[1..][k].address == self
                 && entries[1..][k].incomingCost == CostFor(entries[1..], self)
                 && forall j :: 0 <= j < k ==> entries[1..][j].address != self;
        assert entries[k + 1] == entries[1..][k];
        assert forall j :: 0 < j < k + 1 ==> entries[j] == entries[1..][j - 1];
      }
    } else if entries != [] {
      assert entries[0] in entries;
    }
  }

  /** Refreshes the sender's entry and, unless the frame is ignored, its outgoing cost. */
  method HandleLinkStatusCommand(store: NeighborStore, c: Command, sender: Word, self: Word, expiration: nat)
    requires store.Valid()
    modifies store`neighbors
    ensures store.Valid()
    ensures var i := Find(old(store.neighbors), (nb: Neighbor) => nb.address == sender);
            if i.None? then store.neighbors == old(store.neighbors)
            else
              var before := old(store.neighbors)[i.value];
              store.neighbors == Step(old(store.neighbors),
                                      Refreshed(i.value, expiration, Learned(c, self, before.outgoingCost)))
    ensures if forall nb :: nb in old(store.neighbors) ==> nb.address != sender then
              store.neighbors == old(store.neighbors)
            else exists k: nat :: Heard(old(store.neighbors), store.neighbors, c, sender, self, expiration, k)
  {
    var i := Find(store.neighbors, (nb: Neighbor) => nb.address == sender);
    if i.None? {
      return;
    }
    var nb := store.neighbors[i.value];
    StepKeepsExtended(store.neighbors, Refreshed(i.value, expiration, Learned(c, self, nb.outgoingCost)));
    nb := nb.(expiration := expiration);
    if c.entries != [] && !(c.firstFrame && self < c.entries[0].address)
       && !(c.lastFrame && self > c.entries[|c.entries| - 1].address) {
      nb := nb.(outgoingCost := CostFor(c.entries, self));
    }
    CostForIsGiven(c.entries, self);
    store.neighbors := store.neighbors[i.value := nb];
    assert Heard(old(store.neighbors), store.neighbors, c, sender, self, expiration, i.value);
  }

  /** The receiver's outgoing cost after the frames, in order. */
  function LearnedFrom(frames: seq<Command>, self: Word, cost: LinkCost): LinkCost {
    if frames == [] then cost
    else Learned(frames[|frames| - 1], self, LearnedFrom(frames[..|frames| - 1], self, cost))
  }

  /** Position k of the sorted table is the receiver's. */
  ghost predicate IsAt(t: Table, self: Word, k: nat) {
    k < |t| && t[k].address == self && Ascending(t) && DistinctShort(t)
  }

  lemma {:induction false} CostIs(entries: seq<Entry>, self: Word, k: nat)
    requires k < |entries| && entries[k].address == self
    requires forall i :: 0 <= i < k ==> entries[i].address != self
    ensures CostFor(entries, self) == entries[k].incomingCost
  {
    if k > 0 {
      CostIs(entries[1..], self, k - 1);
    }
  }

  lemma {:induction false} CostIsDefault(entries: seq<Entry>, self: Word)
    requires forall i :: 0 <= i < |entries| ==> entries[i].address != self
    ensures CostFor(entries, self) == Cost1
  {
    if entries != [] {
      CostIsDefault(entries[1..], self);
    }
  }

  /** One frame: a receiver in it learns its cost, one before it learns nothing, and one behind it
      is given the default cost. */
  lemma LearnedFromFrame(t: Table, length: nat, i: nat, self: Word, k: nat, cost: LinkCost)
    requires IsAt(t, self, k) && length != 1
    ensures Learned(Frame(t, length, i), self, cost) ==
            if k < 15 * i then cost
            else if k < 15 * i + 16 then t[k].incomingCost
            else Cost1
  {
    hide CostFor;
    var w := Window(t, i);
    var entries := Entries(w);
    assert forall j :: 0 <= j < |t| && j != k ==> t[j].address != self by {
      OnlyAt(t, self, k);
    }
    if k < 15 * i {
      assert w != [] ==> entries[0].address == t[15 * i].address > self;
    } else if k < 15 * i + 16 {
      assert entries[k - 15 * i] == EntryOf(t[k]);
      CostIs(entries, self, k - 15 * i);
    } else {
      CostIsDefault(entries, self);
    }
  }

  lemma OnlyAt(t: Table, self: Word, k: nat)
    requires IsAt(t, self, k)
    ensures forall j :: 0 <= j < |t| && j != k ==> t[j].address != self
    ensures forall j :: k < j < |t| ==> t[j].address > self
  {
    forall j | 0 <= j < |t| && j != k ensures t[j].address != self && (j > k ==> t[j].address > self) {
      assert if j < k then !SameShort(t[j], t[k]) else !SameShort(t[k], t[j]);
    }
  }

  /** A neighbor that n frames cover ends with the sender's cost for it. One they do not cover is
      given the default cost instead, as if it were a perfect link. */
  lemma {:induction false} CoveredNeighborsLearn(t: Table, length: nat, n: nat, self: Word, k: nat, cost: LinkCost)
    requires IsAt(t, self, k) && length != 1
    ensures LearnedFrom(Frames(t, length, n), self, cost) ==
            if n == 0 then cost
            else if k < 15 * n + 1 then t[k].incomingCost
            else Cost1
  {
    hide Learned, Frame;
    if n > 0 {
      assert Frames(t, length, n)[..n - 1] == Frames(t, length, n - 1);
      CoveredNeighborsLearn(t, length, n - 1, self, k, cost);
      LearnedFromFrame(t, length, n - 1, self, k, LearnedFrom(Frames(t, length, n - 1), self, cost));
    }
  }

  /** A single neighbor is told its cost as well. */
  lemma OnlyNeighborLearns(t: Table, self: Word, cost: LinkCost)
    requires IsAt(t, self, 0) && |t| == 1
    ensures LearnedFrom(Frames(t, 1, FrameCount(1)), self, cost) == t[0].incomingCost
  {
    var frames := Frames(t, 1, 1);
    assert frames[..0] == [];
    assert Entries(Window(t, 0))[0] == EntryOf(t[0]);
  }
}
