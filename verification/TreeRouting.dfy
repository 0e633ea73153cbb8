/** Hierarchical routing along the address tree (Zigbee specification, section 3.6.3.3). */
module TreeRouting {
  import opened Arithmetic
  import opened Wrappers
  import opened AddressBlocks
  import opened AddressTree

  predicate DistributedIsDescendant(p: Profile, depth: nat, parent: nat, child: nat)
    requires 1 <= depth <= p.maxDepth
  {
    parent + CSkip(p, depth - 1) > child && child > parent
  }

  lemma NoDescendantsOfLeaves(p: Profile, depth: nat, parent: nat, child: nat)
    requires p.Valid() && 1 <= depth <= p.maxDepth
    requires DistributedIsDescendant(p, depth, parent, child)
    ensures depth < p.maxDepth
  {
    CSkipIsBlockSize(p, depth - 1);
  }

  /** One step down the tree: the end-device child itself, or the router child whose block
      holds the destination, cast to 16 bits. */
  function DescendTo(p: Profile, depth: nat, self: nat, dest: nat): nat
    requires p.Valid() && depth < p.maxDepth && dest > self
  {
    CSkipIsBlockSize(p, depth);
    BlockSizesShrink(p, depth + 1, depth + 1);
    var skip := CSkip(p, depth);
    if dest > self + p.maxRouters * skip then dest
    else (self + 1 + ((dest - (self + 1)) / skip) * skip) % 0x1_0000
  }

  /** The next hop of a router below the coordinator. Cskip(Lm) is never evaluated. */
  function NextHop(p: Profile, depth: nat, self: nat, parent: nat, dest: nat): nat
    requires p.Valid() && 1 <= depth <= p.maxDepth
  {
    if DistributedIsDescendant(p, depth, self, dest) then
      NoDescendantsOfLeaves(p, depth, self, dest);
      DescendTo(p, depth, self, dest)
    else parent
  }

  // ----- the next hop refines one step in the tree ---------------------------------------

  /** The neighbour of `cur` on the tree path to `dst`. */
  function TreeStep(cur: Path, dst: Path): Path
    requires cur != [] || dst != []
  {
    if cur < dst then dst[..|cur| + 1] else if cur != [] then Parent(cur) else []
  }

  lemma DescendantIffBelow(p: Profile, cur: Path, dst: Path)
    requires IsRouter(p, cur) && IsDevice(p, cur) && cur != [] && IsDevice(p, dst)
    ensures DistributedIsDescendant(p, |cur|, Address(p, cur), Address(p, dst)) <==> cur < dst
  {
    CSkipIsBlockSize(p, |cur| - 1);
    BlocksNestedOrDisjoint(p, cur, dst);
    if cur <= dst {
      DescendantsInside(p, cur, dst);
      if |cur| == |dst| { assert cur == dst; }
    }
  }

  lemma AddressInSpace(p: Profile, path: Path)
    requires IsDevice(p, path)
    ensures Owns(p, [], Address(p, path)) && Address(p, path) < BlockSize(p, 0)
  {
    BlockSizesShrink(p, |path|, |path|);
    DescendantsInside(p, [], path);
  }

  lemma QuotientInBlock(i: nat, size: nat, x: nat)
    requires i * size <= x < i * size + size
    ensures x / size == i
  {
    MulDistributes(i, 1, size);
    var q := x / size;
    assert q * size + x % size == x;
    MulDistributes(q, 1, size);
    if q < i { MulMonotone(q + 1, i, size); } else if q > i { MulMonotone(i + 1, q, size); }
  }

  /** Cutting the block at multiples of Cskip finds the child the destination is under. */
  lemma DescendFindsChild(p: Profile, d: nat, self: nat, i: nat, dest: nat)
    requires p.Valid() && d < p.maxDepth && i < p.maxChildren
    requires ChildAddress(p, d, self, i) < 0x1_0000
    requires if i < p.maxRouters then 0 <= dest - ChildAddress(p, d, self, i) < BlockSize(p, d + 1)
             else dest == ChildAddress(p, d, self, i)
    ensures self < dest && DescendTo(p, d, self, dest) == ChildAddress(p, d, self, i)
  {
    var size := BlockSize(p, d + 1);
    CSkipIsBlockSize(p, d);
    ChildOffsetInside(p.maxRouters, p.maxChildren, size, i);
    if i < p.maxRouters {
      QuotientInBlock(i, size, dest - (self + 1));
    }
  }

  lemma DescendRefinesTree(p: Profile, cur: Path, dst: Path)
    requires FitsNetworkAddress(p) && IsRouter(p, cur) && IsDevice(p, dst) && cur < dst
    ensures IsDevice(p, cur) && IsDevice(p, TreeStep(cur, dst))
    ensures Address(p, cur) < Address(p, dst) && |cur| < p.maxDepth
    ensures DescendTo(p, |cur|, Address(p, cur), Address(p, dst)) == Address(p, TreeStep(cur, dst))
  {
    hide BlockSize, Address, DescendTo;
    var i, child := dst[|cur|], dst[..|cur| + 1];
    BelowChild(p, dst, |cur|, Address(p, dst));
    assert dst[..|cur|] == cur && cur + [i] == child;
    ChildIsDevice(p, cur, i);
    AddressInSpace(p, child);
    BlockSizesShrink(p, |dst|, |dst|);
    DescendantsInside(p, child, dst);
    assert |child| < |dst| ==> i < p.maxRouters by {
      assert |child| < |dst| ==> Parent(dst)[|cur|] == i;
    }
    assert |child| == |dst| ==> child == dst;
    DescendFindsChild(p, |cur|, Address(p, cur), i, Address(p, dst));
  }

  /** The address arithmetic of the source is one step in the tree, for every router below the
      coordinator and every assigned destination. */
  lemma NextHopRefinesTree(p: Profile, cur: Path, dst: Path)
    requires FitsNetworkAddress(p) && IsRouter(p, cur) && IsDevice(p, cur) && cur != [] && IsDevice(p, dst)
    ensures IsDevice(p, TreeStep(cur, dst))
    ensures NextHop(p, |cur|, Address(p, cur), Address(p, Parent(cur)), Address(p, dst))
            == Address(p, TreeStep(cur, dst))
  {
    DescendantIffBelow(p, cur, dst);
    if cur < dst {
      DescendRefinesTree(p, cur, dst);
    } else {
      PrefixOfDevice(p, cur, |cur| - 1);
    }
  }

  /** The descendant test in checked u8 and u32 arithmetic; `None` is an overflow panic. */
  function CheckedIsDescendant(p: Profile, depth: nat, parent: nat, child: nat): Option<bool> {
    var above :- CheckedSub(depth, 1);
    var skip :- CheckedCSkip(p, above);
    Some(parent + skip > child && child > parent)
  }

  /** With overflow checks the test is computed, and right, exactly at routers below the coordinator
      and for profiles with Rm <= 1. */
  lemma CheckedIsDescendantIff(p: Profile, cur: Path, dst: Path)
    requires FitsNetworkAddress(p) && IsRouter(p, cur) && IsDevice(p, cur) && IsDevice(p, dst)
    ensures var test := CheckedIsDescendant(p, |cur|, Address(p, cur), Address(p, dst));
            && (test.Some? <==> cur != [] && p.maxRouters <= 1)
            && (test.Some? ==> (test.value <==> cur < dst))
  {
    hide IsDevice, Address, CheckedCSkip, CSkip;
    if cur != [] {
      CheckedCSkipIff(p, |cur| - 1);
      CSkipIsBlockSize(p, |cur| - 1);
      DescendantIffBelow(p, cur, dst);
    }
  }

  /** The next hop in checked arithmetic. */
  function CheckedNextHop(p: Profile, depth: nat, self: nat, parent: nat, dest: nat): Option<nat> {
    var isBelow :- CheckedIsDescendant(p, depth, self, dest);
    if isBelow then
      var below :- CheckedCSkip(p, depth);
      if dest > self + p.maxRouters * below then Some(dest)
      else if below == 0 then None
      else Some((self + 1 + ((dest - (self + 1)) / below) * below) % 0x1_0000)
    else Some(parent)
  }

  /** With overflow checks the source's next hop is computed, and the tree step, exactly at routers below the
      coordinator and for profiles with Rm <= 1. */
  lemma CheckedNextHopIff(p: Profile, cur: Path, dst: Path, parent: nat)
    requires FitsNetworkAddress(p) && IsRouter(p, cur) && IsDevice(p, cur) && IsDevice(p, dst)
    requires if cur == [] then dst != [] else IsDevice(p, Parent(cur)) && parent == Address(p, Parent(cur))
    ensures IsDevice(p, TreeStep(cur, dst))
    ensures var hop := CheckedNextHop(p, |cur|, Address(p, cur), parent, Address(p, dst));
            && (hop.Some? <==> cur != [] && p.maxRouters <= 1)
            && (hop.Some? ==> hop.value == Address(p, TreeStep(cur, dst)))
  {
    hide IsDevice, Address, TreeStep, CheckedCSkip, CSkip;
    if cur == [] {
      DescendRefinesTree(p, cur, dst);
    } else {
      NextHopRefinesTree(p, cur, dst);
      CheckedCSkipIff(p, |cur| - 1);
      CheckedCSkipIff(p, |cur|);
      CSkipIsBlockSize(p, |cur| - 1);
      if DistributedIsDescendant(p, |cur|, Address(p, cur), Address(p, dst)) {
        NoDescendantsOfLeaves(p, |cur|, Address(p, cur), Address(p, dst));
        CSkipIsBlockSize(p, |cur|);
        BlockSizesShrink(p, |cur| + 1, |cur| + 1);
      }
    }
  }

  // ----- whole routes --------------------------------------------------------------------

  lemma RouterIsDevice(p: Profile, path: Path)
    requires IsRouter(p, path)
    ensures IsDevice(p, path)
  {
  }

  /** The address a router transmits to; the coordinator is an ancestor of every device. */
  ghost function HopAddress(p: Profile, cur: Path, dst: Path): (hop: nat)
    requires FitsNetworkAddress(p) && IsRouter(p, cur) && IsDevice(p, dst) && cur != dst
    ensures IsDevice(p, TreeStep(cur, dst)) && hop == Address(p, TreeStep(cur, dst))
  {
    RouterIsDevice(p, cur);
    if cur == [] then
      DescendRefinesTree(p, [], dst);
      DescendTo(p, 0, 0, Address(p, dst))
    else
      NextHopRefinesTree(p, cur, dst);
      NextHop(p, |cur|, Address(p, cur), Address(p, Parent(cur)), Address(p, dst))
  }

  /** The device that has that address. */
  ghost function Forward(p: Profile, cur: Path, dst: Path): (next: Path)
    requires FitsNetworkAddress(p) && IsRouter(p, cur) && IsDevice(p, dst) && cur != dst
    ensures IsDevice(p, next) && next == TreeStep(cur, dst)
  {
    var hop := HopAddress(p, cur, dst);
    AddressInSpace(p, TreeStep(cur, dst));
    AddressesAreDistinct(p, DeviceBelow(p, [], hop), TreeStep(cur, dst));
    DeviceBelow(p, [], hop)
  }

  /** Where a frame is after n transmissions; end devices and the destination keep it. */
  ghost function Trail(p: Profile, cur: Path, dst: Path, n: nat): (at: Path)
    requires FitsNetworkAddress(p) && IsRouter(p, cur) && IsDevice(p, dst)
    ensures IsDevice(p, at)
  {
    RouterIsDevice(p, cur);
    if n == 0 then cur
    else
      var at := Trail(p, cur, dst, n - 1);
      if at == dst || !IsRouter(p, at) then at else Forward(p, at, dst)
  }

  function Distance(cur: Path, dst: Path): nat { |cur| + |dst| - 2 * CommonSteps(cur, dst) }

  /** The tree path: up to the nearest common ancestor, then down. */
  function TreePath(cur: Path, dst: Path, n: nat): Path
    requires n <= Distance(cur, dst)
  {
    var c := CommonSteps(cur, dst);
    if n <= |cur| - c then cur[..|cur| - n] else dst[..c + n - (|cur| - c)]
  }

  lemma TreePathSteps(p: Profile, cur: Path, dst: Path, n: nat)
    requires IsRouter(p, cur) && IsDevice(p, dst) && n < Distance(cur, dst)
    ensures TreePath(cur, dst, n) != dst && IsRouter(p, TreePath(cur, dst, n))
    ensures TreePath(cur, dst, n + 1) == TreeStep(TreePath(cur, dst, n), dst)
  {
    var c := CommonSteps(cur, dst);
    var at := TreePath(cur, dst, n);
    if n < |cur| - c {
      assert c < |dst| ==> at[c] != dst[c];
      assert Parent(at) == cur[..|cur| - n - 1];
    } else {
      var k := c + n - (|cur| - c);
      assert at == dst[..k] by { if n == |cur| - c { assert cur[..c] == dst[..c]; } }
      PrefixOfDevice(p, dst, k);
    }
  }

  lemma {:induction false} TrailFollowsTreePath(p: Profile, cur: Path, dst: Path, n: nat)
    requires FitsNetworkAddress(p) && IsRouter(p, cur) && IsDevice(p, dst) && n <= Distance(cur, dst)
    ensures Trail(p, cur, dst, n) == TreePath(cur, dst, n)
  {
    hide IsRouter, IsDevice, Address, BlockSize, DeviceBelow, HopAddress, Forward, TreeStep, CommonSteps;
    if n > 0 {
      var at := TreePath(cur, dst, n - 1);
      TrailFollowsTreePath(p, cur, dst, n - 1);
      TreePathSteps(p, cur, dst, n - 1);
      assert Trail(p, cur, dst, n) == Forward(p, at, dst) == TreeStep(at, dst);
    } else {
      assert cur[..|cur|] == cur;
    }
  }

  lemma TreePathNeverRepeats(cur: Path, dst: Path, i: nat, j: nat)
    requires i < j <= Distance(cur, dst)
    ensures TreePath(cur, dst, i) != TreePath(cur, dst, j)
  {
    var c := CommonSteps(cur, dst);
    if i <= |cur| - c < j {
      // One is a prefix of cur, the other a longer prefix of dst than the two share.
      assert TreePath(cur, dst, j)[c] == dst[c];
      assert i < |cur| - c ==> TreePath(cur, dst, i)[c] == cur[c];
    }
  }

  /** Tree routing delivers: from any router to any assigned address, the frame climbs to the
      nearest common ancestor and descends, visits no device twice, and arrives within the
      default radius of 2 * Lm hops. */
  lemma TreeRoutingDelivers(p: Profile, cur: Path, dst: Path)
    requires FitsNetworkAddress(p) && IsRouter(p, cur) && IsDevice(p, dst)
    ensures Distance(cur, dst) <= 2 * p.maxDepth
    ensures Trail(p, cur, dst, Distance(cur, dst)) == dst
    ensures forall n: nat :: n <= Distance(cur, dst) ==> Trail(p, cur, dst, n) == TreePath(cur, dst, n)
    ensures forall i: nat, j: nat :: i < j <= Distance(cur, dst) ==> Trail(p, cur, dst, i) != Trail(p, cur, dst, j)
  {
    forall n: nat | n <= Distance(cur, dst)
      ensures Trail(p, cur, dst, n) == TreePath(cur, dst, n)
    {
      TrailFollowsTreePath(p, cur, dst, n);
    }
    forall i: nat, j: nat | i < j <= Distance(cur, dst)
      ensures Trail(p, cur, dst, i) != Trail(p, cur, dst, j)
    {
      TreePathNeverRepeats(cur, dst, i, j);
    }
    var c := CommonSteps(cur, dst);
    assert dst[..|dst|] == dst;
    if |dst| == c {
      assert TreePath(cur, dst, Distance(cur, dst)) == cur[..c] == dst[..c];
    }
  }

  // ----- whole routes in checked arithmetic -------------------------------------------------

  /** The address a router transmits to with overflow checks. */
  ghost function CheckedHop(p: Profile, cur: Path, dst: Path): (hop: Option<nat>)
    requires FitsNetworkAddress(p) && IsRouter(p, cur) && IsDevice(p, dst) && cur != dst
    ensures IsDevice(p, TreeStep(cur, dst))
    ensures hop == if cur != [] && p.maxRouters <= 1 then Some(Address(p, TreeStep(cur, dst))) else None
  {
    RouterIsDevice(p, cur);
    if cur != [] then
      PrefixOfDevice(p, cur, |cur| - 1);
      CheckedNextHopIff(p, cur, dst, Address(p, Parent(cur)));
      CheckedNextHop(p, |cur|, Address(p, cur), Address(p, Parent(cur)), Address(p, dst))
    else
      CheckedNextHopIff(p, cur, dst, 0);
      CheckedNextHop(p, 0, Address(p, cur), 0, Address(p, dst))
  }

  /** Where a frame is after n transmissions, or `None` once a router's next hop has overflowed. */
  ghost function CheckedTrail(p: Profile, cur: Path, dst: Path, n: nat): (at: Option<Path>)
    requires FitsNetworkAddress(p) && IsRouter(p, cur) && IsDevice(p, dst)
    ensures at.Some? ==> IsDevice(p, at.value)
  {
    RouterIsDevice(p, cur);
    if n == 0 then Some(cur)
    else
      var at :- CheckedTrail(p, cur, dst, n - 1);
      if at == dst || !IsRouter(p, at) then Some(at)
      else
        var hop :- CheckedHop(p, at, dst);
        AddressInSpace(p, TreeStep(at, dst));
        Some(DeviceBelow(p, [], hop))
  }

  lemma CheckedTrailStep(p: Profile, cur: Path, dst: Path, n: nat)
    requires FitsNetworkAddress(p) && IsRouter(p, cur) && IsDevice(p, dst) && n < Distance(cur, dst)
    requires CheckedTrail(p, cur, dst, n) == Some(TreePath(cur, dst, n))
    ensures CheckedTrail(p, cur, dst, n + 1) ==
            if TreePath(cur, dst, n) != [] && p.maxRouters <= 1 then Some(TreePath(cur, dst, n + 1)) else None
  {
    assert IsDevice(p, []);
    hide IsDevice, IsRouter, Address, TreePath, TreeStep, Distance, CheckedNextHop, DeviceBelow, Owns;
    TreePathSteps(p, cur, dst, n);
    var at := TreePath(cur, dst, n);
    if at != [] && p.maxRouters <= 1 {
      var hop := CheckedHop(p, at, dst).value;
      AddressInSpace(p, TreeStep(at, dst));
      AddressesAreDistinct(p, DeviceBelow(p, [], hop), TreeStep(at, dst));
    }
  }

  lemma {:induction false} CheckedTrailFollows(p: Profile, cur: Path, dst: Path, n: nat)
    requires FitsNetworkAddress(p) && IsRouter(p, cur) && IsDevice(p, dst) && n <= Distance(cur, dst)
    requires n > 0 ==> p.maxRouters <= 1
    requires forall k: nat :: k < n ==> TreePath(cur, dst, k) != []
    ensures CheckedTrail(p, cur, dst, n) == Some(TreePath(cur, dst, n))
  {
    hide IsDevice, IsRouter, Address, Distance, CommonSteps;
    if n == 0 {
      assert cur[..|cur|] == cur;
    } else {
      CheckedTrailFollows(p, cur, dst, n - 1);
      CheckedTrailStep(p, cur, dst, n - 1);
    }
  }

  lemma {:induction false} OverflowStays(p: Profile, cur: Path, dst: Path, n: nat, m: nat)
    requires FitsNetworkAddress(p) && IsRouter(p, cur) && IsDevice(p, dst) && n <= m
    requires CheckedTrail(p, cur, dst, n).None?
    ensures CheckedTrail(p, cur, dst, m).None?
    decreases m - n
  {
    RouterIsDevice(p, cur);
    hide IsDevice, IsRouter, Address, CheckedHop, DeviceBelow, TreeStep;
    if n < m { OverflowStays(p, cur, dst, n, m - 1); }
  }

  /** The coordinator forwards a frame exactly if sender and destination share no step and it is not
      the destination. */
  lemma CoordinatorForwardsIff(cur: Path, dst: Path, n: nat)
    requires n < Distance(cur, dst)
    ensures TreePath(cur, dst, n) == [] <==> n == |cur| && CommonSteps(cur, dst) == 0
    ensures CommonSteps(cur, dst) == 0 && dst != [] ==> |cur| < Distance(cur, dst)
  {
  }

  /** With overflow checks a frame is delivered exactly if it is at its destination already, or the
      profile has Rm <= 1 and the coordinator forwards nothing: the two share their first step, or
      the coordinator is the destination. */
  lemma CheckedRoutingDeliversIff(p: Profile, cur: Path, dst: Path)
    requires FitsNetworkAddress(p) && IsRouter(p, cur) && IsDevice(p, dst)
    ensures CheckedTrail(p, cur, dst, Distance(cur, dst)) == Some(dst)
            <==> cur == dst || (p.maxRouters <= 1 && (CommonSteps(cur, dst) > 0 || dst == []))
  {
    TreeRoutingDelivers(p, cur, dst);
    assert cur[..|cur|] == cur && dst[..|dst|] == dst;
    hide IsDevice, IsRouter, Address, TreePath, Trail, CheckedTrail, CommonSteps;
    var n := Distance(cur, dst);
    if cur == dst {
      NoDistance(cur);
      CheckedTrailFollows(p, cur, dst, 0);
    } else if p.maxRouters >= 2 {
      SomeDistance(cur, dst);
      CheckedTrailFollows(p, cur, dst, 0);
      CheckedTrailStep(p, cur, dst, 0);
      OverflowStays(p, cur, dst, 1, n);
    } else {
      SomeDistance(cur, dst);
      var last := if CommonSteps(cur, dst) == 0 && dst != [] then |cur| else n;
      forall k: nat | k < n ensures TreePath(cur, dst, k) == [] <==> k == |cur| && CommonSteps(cur, dst) == 0 {
        CoordinatorForwardsIff(cur, dst, k);
      }
      CoordinatorForwardsIff(cur, dst, 0);
      DistanceToCoordinator(cur);
      CheckedTrailFollows(p, cur, dst, last);
      if last < n {
        CheckedTrailStep(p, cur, dst, last);
        OverflowStays(p, cur, dst, last + 1, n);
      }
    }
  }

  lemma NoDistance(cur: Path)
    ensures Distance(cur, cur) == 0 && TreePath(cur, cur, 0) == cur
  {
    assert cur[..|cur|] == cur;
  }

  lemma DistanceToCoordinator(cur: Path)
    ensures Distance(cur, []) == |cur|
  {
  }

  lemma SomeDistance(cur: Path, dst: Path)
    requires cur != dst
    ensures Distance(cur, dst) > 0
  {
    assert cur[..|cur|] == cur && dst[..|dst|] == dst;
  }

  // ----- the default radius ---------------------------------------------------------------------

  /** Where the default radius is computed at all, it covers every route. */
  lemma DefaultRadiusSuffices(p: Profile, cur: Path, dst: Path)
    requires FitsNetworkAddress(p) && IsRouter(p, cur) && IsDevice(p, dst)
    ensures DefaultRadius(p).Some? <==> p.maxDepth < 128
    ensures DefaultRadius(p).Some? ==> Distance(cur, dst) <= DefaultRadius(p).value
    ensures p.maxRouters >= 2 ==> DefaultRadius(p).Some?
  {
    DefaultRadiusIff(p);
    TreeRoutingDelivers(p, cur, dst);
  }

  // ----- the routing address of a device -------------------------------------------------

  /** `Overflow` is the panic of evaluating Cskip(Lm). */
  datatype Search = Found(addr: nat) | NotFound | Overflow

  /** What the search below a router answers for a device of its block: the address itself for a
      router, the parent for an end device. It reaches a router at depth Lm only through the
      routers numbered before it, and asks each of those for the size of its child blocks. */
  ghost function SearchOutcome(p: Profile, router: Path, device: Path): Search
    requires IsRouter(p, router) && IsDevice(p, device) && router <= device
  {
    if !IsRouter(p, device) then
      Found(Address(p, Parent(device)))
    else if |router| < |device| == p.maxDepth && Last(device) > 0 then Overflow
    else Found(Address(p, device))
  }

  lemma OutcomeBelowChild(p: Profile, router: Path, n: nat, device: Path)
    requires IsRouter(p, router) && |router| < p.maxDepth && n < p.maxRouters
    requires IsDevice(p, device) && router + [n] <= device
    ensures IsRouter(p, router + [n]) && router <= device
    ensures |router| + 1 == p.maxDepth ==> device == router + [n]
    ensures n == 0 || |router| + 1 < p.maxDepth ==>
              SearchOutcome(p, router, device) == SearchOutcome(p, router + [n], device)
  {
    ChildIsDevice(p, router, n);
    assert (router + [n])[..|router|] == router && (router + [n])[|router|] == n;
    assert |device| == |router| + 1 ==> device == router + [n] && Last(device) == n;
    assert router + [n] <= device ==> device[..|router|] == router;
  }

  /** The answer of the search at `router` for an address that is not below it in number. */
  ghost predicate Answers(p: Profile, router: Path, addr: nat, r: Search)
    requires IsRouter(p, router) && IsDevice(p, router) && Address(p, router) <= addr
  {
    if Owns(p, router, addr) then r == SearchOutcome(p, router, DeviceBelow(p, router, addr))
    else r == if |router| == p.maxDepth then Overflow else NotFound
  }

  lemma AnswersSelf(p: Profile, router: Path)
    requires IsRouter(p, router) && IsDevice(p, router)
    ensures Answers(p, router, Address(p, router), Found(Address(p, router)))
  {
    BlockSizesShrink(p, |router|, |router|);
  }

  lemma AnswersAtMaxDepth(p: Profile, router: Path, addr: nat)
    requires IsRouter(p, router) && IsDevice(p, router) && |router| == p.maxDepth && Address(p, router) < addr
    ensures Answers(p, router, addr, Overflow)
  {
  }

  /** Beyond Rm child blocks and Cm - Rm end devices nothing is found; past the child blocks
      the address is an end device of this router. */
  lemma AnswersPastRouters(p: Profile, router: Path, addr: nat)
    requires IsRouter(p, router) && IsDevice(p, router) && |router| < p.maxDepth && Address(p, router) < addr
    ensures var limit := Address(p, router) + p.maxRouters * BlockSize(p, |router| + 1);
            && (addr > limit + (p.maxChildren - p.maxRouters) <==> !Owns(p, router, addr))
            && (Owns(p, router, addr) && addr > limit ==> Answers(p, router, addr, Found(Address(p, router))))
            && (Owns(p, router, addr) && addr <= limit ==> ChildHolding(p, router, addr) < p.maxRouters)
  {
    BlockSizeStep(p, |router|);
    assert Extent(p, router) == BlockSize(p, |router|);
    hide BlockSize, Address, IsDevice, Extent, DeviceBelow;
    if Owns(p, router, addr) {
      var i := ChildHolding(p, router, addr);
      if i >= p.maxRouters {
        EndDeviceChild(p, router, i, addr);
      }
    }
  }

  lemma EndDeviceChild(p: Profile, router: Path, i: nat, addr: nat)
    requires IsRouter(p, router) && |router| < p.maxDepth && p.maxRouters <= i < p.maxChildren
    requires IsDevice(p, router + [i]) && Owns(p, router + [i], addr)
    ensures addr == Address(p, router + [i]) && !IsRouter(p, router + [i])
    ensures Parent(router + [i]) == router
    ensures DeviceBelow(p, router + [i], addr) == router + [i]
  {
    ChildIsDevice(p, router, i);
    assert (router + [i])[|router|] == i;
  }

  /** Asking the router children in turn: the child holding the address has the answer. */
  lemma AnswersOfHoldingChild(p: Profile, router: Path, addr: nat, r: Search)
    requires IsRouter(p, router) && IsDevice(p, router) && |router| < p.maxDepth
    requires Owns(p, router, addr) && addr != Address(p, router)
    requires var i := ChildHolding(p, router, addr);
             i < p.maxRouters && (i == 0 || |router| + 1 < p.maxDepth)
             && IsRouter(p, router + [i]) && Answers(p, router + [i], addr, r)
    ensures Answers(p, router, addr, r) && r != NotFound
  {
    var i := ChildHolding(p, router, addr);
    OutcomeBelowChild(p, router, i, DeviceBelow(p, router + [i], addr));
  }

  /** An earlier child has nothing, unless its own child blocks would lie below depth Lm. */
  lemma AnswersOfEarlierChild(p: Profile, router: Path, addr: nat, n: nat, r: Search)
    requires IsRouter(p, router) && IsDevice(p, router) && |router| < p.maxDepth
    requires Owns(p, router, addr) && addr != Address(p, router)
    requires n < ChildHolding(p, router, addr) < p.maxRouters
    requires IsRouter(p, router + [n]) && IsDevice(p, router + [n]) && Address(p, router + [n]) <= addr
    requires Answers(p, router + [n], addr, r)
    ensures |router| + 1 < p.maxDepth ==> r == NotFound
    ensures |router| + 1 == p.maxDepth ==> r == Overflow && Answers(p, router, addr, r)
  {
    var i := ChildHolding(p, router, addr);
    ChildExtentsApart(p, router, n, i);
    if |router| + 1 == p.maxDepth {
      var device := DeviceBelow(p, router + [i], addr);
      OutcomeBelowChild(p, router, i, device);
      assert device == router + [i] && Last(device) == i;
    }
  }

  lemma ChildBefore(p: Profile, router: Path, addr: nat, n: nat)
    requires IsRouter(p, router) && IsDevice(p, router) && |router| < p.maxDepth
    requires Owns(p, router, addr) && addr != Address(p, router)
    requires n <= ChildHolding(p, router, addr) < p.maxRouters
    ensures IsRouter(p, router + [n]) && IsDevice(p, router + [n]) && Address(p, router + [n]) <= addr
    ensures Address(p, router + [n]) == Address(p, router) + n * BlockSize(p, |router| + 1) + 1
  {
    var i := ChildHolding(p, router, addr);
    ChildIsDevice(p, router, n);
    if n < i {
      ChildExtentsApart(p, router, n, i);
    }
  }

  /** How block sizes are evaluated: over the integers, as the formula means them, or in `u32` with
      overflow checks, as the source does. */
  datatype Evaluation = Integers | CheckedU32

  function SkipBy(e: Evaluation, p: Profile, d: nat): Option<nat>
    requires p.Valid()
  {
    match e
    case Integers =>
      if d < p.maxDepth then
        CSkipIsBlockSize(p, d);
        Some(CSkip(p, d))
      else None
    case CheckedU32 => CheckedCSkip(p, d)
  }

  predicate Computable(e: Evaluation, p: Profile) { e.Integers? || p.maxRouters <= 1 }

  lemma SkipByIs(e: Evaluation, p: Profile, d: nat)
    requires FitsNetworkAddress(p)
    ensures SkipBy(e, p, d).Some? <==> d < p.maxDepth && Computable(e, p)
    ensures SkipBy(e, p, d).Some? ==> SkipBy(e, p, d).value == BlockSize(p, d + 1)
  {
    hide CSkip, CheckedCSkip;
    CheckedCSkipIff(p, d);
    if d < p.maxDepth {
      CSkipIsBlockSize(p, d);
    }
  }

  /** The recursive search of the source. `router` names the router the call is about. Where block
      sizes cannot be computed it overflows at once, unless asked for the router itself. */
  method SearchRoutingAddress(p: Profile, e: Evaluation, depth: nat, parent: nat, addr: nat, ghost router: Path)
    returns (r: Search)
    requires FitsNetworkAddress(p) && IsRouter(p, router) && IsDevice(p, router)
    requires depth == |router| && parent == Address(p, router) && parent <= addr
    ensures Computable(e, p) ==> Answers(p, router, addr, r)
    ensures !Computable(e, p) ==> r == if addr == parent then Found(parent) else Overflow
    decreases p.maxDepth - depth
  {
    hide CSkip, BlockSize, DeviceBelow, ChildHolding, Address, SkipBy;
    if addr == parent {
      AnswersSelf(p, router);
      return Found(parent);
    }
    var evaluated := SkipBy(e, p, depth);
    SkipByIs(e, p, depth);
    if evaluated.None? {
      if depth == p.maxDepth {
        AnswersAtMaxDepth(p, router, addr);
      }
      return Overflow;
    }
    var skip := evaluated.value;
    AnswersPastRouters(p, router, addr);
    var maxAddr := parent + p.maxRouters * skip + (p.maxChildren - p.maxRouters);
    if addr > maxAddr {
      return NotFound;
    }
    if addr > parent + p.maxRouters * skip {
      return Found(parent);
    }
    ghost var holding := ChildHolding(p, router, addr);
    for n := 0 to p.maxRouters
      invariant n <= holding
      invariant n > 0 ==> depth + 1 < p.maxDepth
    {
      ChildBefore(p, router, addr, n);
      r := SearchRoutingAddress(p, e, depth + 1, parent + n * skip + 1, addr, router + [n]);
      if n == holding {
        AnswersOfHoldingChild(p, router, addr, r);
      } else {
        AnswersOfEarlierChild(p, router, addr, n, r);
      }
      if r != NotFound {
        return r;
      }
    }
    assert false;
  }

  /** The whole search, unwrapped: `None` is a panic. Over the integers it succeeds on exactly the
      assigned addresses that are not routers at depth Lm numbered after a sibling. In `u32` it
      succeeds on exactly the assigned addresses of profiles with Rm <= 1, and on the
      coordinator's. What it returns is the device's routing address. */
  method RoutingAddressFor(p: Profile, e: Evaluation, addr: nat) returns (r: Option<nat>)
    requires FitsNetworkAddress(p)
    ensures e.Integers? ==>
              (r.Some? <==>
               exists device ::
                 && IsDevice(p, device) && Address(p, device) == addr
                 && !(IsRouter(p, device) && |device| == p.maxDepth && Last(device) > 0))
    ensures e.CheckedU32? ==> (r.Some? <==> addr == 0 || (p.maxRouters <= 1 && addr < BlockSize(p, 0)))
    ensures forall device :: IsDevice(p, device) && Address(p, device) == addr && r.Some? ==>
              r.value == if IsRouter(p, device) then addr else Address(p, Parent(device))
  {
    assert IsRouter(p, []) && IsDevice(p, []) && Address(p, []) == 0;
    var s := SearchRoutingAddress(p, e, 0, 0, addr, []);
    AddressesAreABijection(p, addr);
    BlockSizesShrink(p, 0, 0);
    if addr == 0 {
      OnlyCoordinatorIsZero(p);
    }
    if Owns(p, [], addr) && Computable(e, p) {
      ghost var device := DeviceBelow(p, [], addr);
      assert s == SearchOutcome(p, [], device);
      if p.maxRouters <= 1 {
        LastOfFewRouters(p, device);
      }
    }
    match s
    case Found(a) => r := Some(a);
    case NotFound => r := None;
    case Overflow => r := None;
  }

  lemma OnlyCoordinatorIsZero(p: Profile)
    requires p.Valid()
    ensures forall device :: IsDevice(p, device) && Address(p, device) == 0 ==> device == []
  {
    forall device | IsDevice(p, device) && Address(p, device) == 0 ensures device == [] {
      AddressesAreDistinct(p, device, []);
    }
  }

  lemma LastOfFewRouters(p: Profile, device: Path)
    requires p.maxRouters <= 1
    ensures IsRouter(p, device) && device != [] ==> Last(device) == 0
  {
  }
}
