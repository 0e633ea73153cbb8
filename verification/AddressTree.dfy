/** The tree of assigned addresses. A device is named by its path from the coordinator: child
    number i of a router is a router for i < Rm and an end device for Rm <= i < Cm. */
module AddressTree {
  import opened Arithmetic
  import opened AddressBlocks

  type Path = seq<nat>

  function Parent(path: Path): Path
    requires path != []
  {
    path[..|path| - 1]
  }

  function Last(path: Path): nat
    requires path != []
  {
    path[|path| - 1]
  }

  ghost predicate IsRouter(p: Profile, path: Path) {
    p.Valid() && |path| <= p.maxDepth && forall k :: 0 <= k < |path| ==> path[k] < p.maxRouters
  }

  ghost predicate IsDevice(p: Profile, path: Path) {
    p.Valid() && |path| <= p.maxDepth
    && (path != [] ==> IsRouter(p, Parent(path)) && Last(path) < p.maxChildren)
  }

  /** The address a router at depth d with address `self` gives to its child number i. */
  ghost function ChildAddress(p: Profile, d: nat, self: nat, i: nat): nat
    requires p.Valid() && d < p.maxDepth && i < p.maxChildren
  {
    if i < p.maxRouters then self + 1 + i * BlockSize(p, d + 1)
    else self + p.maxRouters * BlockSize(p, d + 1) + (i - p.maxRouters + 1)
  }

  ghost function Address(p: Profile, path: Path): nat
    requires IsDevice(p, path)
  {
    if path == [] then 0 else ChildAddress(p, |path| - 1, Address(p, Parent(path)), Last(path))
  }

  /** How many addresses a device holds, itself included. */
  ghost function Extent(p: Profile, path: Path): nat
    requires IsDevice(p, path)
  {
    if IsRouter(p, path) then BlockSize(p, |path|) else 1
  }

  ghost predicate Owns(p: Profile, path: Path, a: nat)
    requires IsDevice(p, path)
  {
    Address(p, path) <= a < Address(p, path) + Extent(p, path)
  }

  lemma ChildOffsetsApart(rm: nat, size: nat, self: nat, i: nat, j: nat)
    requires i < j && size >= 1
    ensures i < rm && j < rm ==> self + 1 + i * size + size <= self + 1 + j * size
    ensures i < rm <= j ==> self + 1 + i * size + size <= self + rm * size + (j - rm + 1)
  {
    MulDistributes(i, 1, size);
    MulMonotone(i + 1, if j < rm then j else if i < rm then rm else i + 1, size);
  }

  lemma ChildOffsetInside(rm: nat, cm: nat, size: nat, i: nat)
    requires rm <= cm && i < cm
    ensures i < rm ==> 0 <= i * size && i * size + size <= rm * size
    ensures 0 <= rm * size
  {
    MulDistributes(i, 1, size);
    if i < rm {
      MulMonotone(i + 1, rm, size);
    }
  }

  lemma ChildIsDevice(p: Profile, parent: Path, i: nat)
    requires IsRouter(p, parent) && |parent| < p.maxDepth && i < p.maxChildren
    ensures IsDevice(p, parent + [i]) && IsDevice(p, parent)
    ensures Address(p, parent + [i]) == ChildAddress(p, |parent|, Address(p, parent), i)
    ensures Extent(p, parent + [i]) == if i < p.maxRouters then BlockSize(p, |parent| + 1) else 1
    ensures Extent(p, parent + [i]) >= 1
  {
    var child := parent + [i];
    assert Parent(child) == parent && Last(child) == i;
    assert parent != [] ==> forall k :: 0 <= k < |parent| - 1 ==> Parent(parent)[k] == parent[k];
    assert IsRouter(p, child) <==> i < p.maxRouters by {
      assert child[|parent|] == i;
    }
    BlockSizesShrink(p, |parent| + 1, |parent| + 1);
  }

  /** Children follow one another without overlap. */
  lemma ChildExtentsApart(p: Profile, parent: Path, i: nat, j: nat)
    requires IsRouter(p, parent) && |parent| < p.maxDepth && i < j < p.maxChildren
    ensures IsDevice(p, parent + [i]) && IsDevice(p, parent + [j])
    ensures Address(p, parent + [i]) + Extent(p, parent + [i]) <= Address(p, parent + [j])
  {
    ChildIsDevice(p, parent, i);
    ChildIsDevice(p, parent, j);
    BlockSizesShrink(p, |parent| + 1, |parent| + 1);
    ChildOffsetsApart(p.maxRouters, BlockSize(p, |parent| + 1), Address(p, parent), i, j);
  }

  /** A child's extent lies strictly inside its parent's block. */
  lemma ChildExtentInside(p: Profile, parent: Path, i: nat)
    requires IsRouter(p, parent) && |parent| < p.maxDepth && i < p.maxChildren
    ensures IsDevice(p, parent + [i]) && IsDevice(p, parent)
    ensures Address(p, parent) < Address(p, parent + [i])
    ensures Address(p, parent + [i]) + Extent(p, parent + [i]) <= Address(p, parent) + Extent(p, parent)
  {
    ChildIsDevice(p, parent, i);
    ChildOffsetInside(p.maxRouters, p.maxChildren, BlockSize(p, |parent| + 1), i);
  }

  /** Subtrees nest: everything below a router lies inside its block, strictly above it. */
  lemma {:induction false} DescendantsInside(p: Profile, ancestor: Path, path: Path)
    requires IsDevice(p, ancestor) && IsDevice(p, path) && ancestor <= path
    ensures Address(p, ancestor) <= Address(p, path)
    ensures Address(p, path) + Extent(p, path) <= Address(p, ancestor) + Extent(p, ancestor)
    ensures ancestor < path ==> Address(p, ancestor) < Address(p, path)
    decreases |path|
  {
    if |ancestor| == |path| {
      assert ancestor == path;
    } else {
      var up := Parent(path);
      assert up + [Last(path)] == path;
      ChildExtentInside(p, up, Last(path));
      DescendantsInside(p, ancestor, up);
    }
  }

  /** The number of leading steps two paths share. */
  function CommonSteps(a: Path, b: Path): (c: nat)
    ensures c <= |a| && c <= |b| && a[..c] == b[..c]
    ensures c < |a| && c < |b| ==> a[c] != b[c]
  {
    if a == [] || b == [] || a[0] != b[0] then 0
    else
      var c := 1 + CommonSteps(a[1..], b[1..]);
      assert a[..c] == [a[0]] + a[1..][..c - 1] && b[..c] == [b[0]] + b[1..][..c - 1];
      c
  }

  lemma PrefixOfDevice(p: Profile, path: Path, n: nat)
    requires IsDevice(p, path) && n <= |path|
    ensures IsDevice(p, path[..n]) && (n < |path| ==> IsRouter(p, path[..n]))
  {
    if n < |path| {
      assert forall k :: 0 <= k < n ==> path[..n][k] == Parent(path)[k];
      assert IsRouter(p, path[..n]);
      if n > 0 { assert Parent(path[..n]) == path[..n - 1]; }
    } else {
      assert path[..n] == path;
    }
  }

  /** Extents of devices on different branches are disjoint. */
  lemma BranchesDisjoint(p: Profile, a: Path, b: Path, x: nat)
    requires IsDevice(p, a) && IsDevice(p, b) && !(a <= b) && !(b <= a)
    ensures !(Owns(p, a, x) && Owns(p, b, x))
  {
    var c := CommonSteps(a, b);
    assert a[..|a|] == a && b[..|b|] == b;
    BelowChild(p, a, c, x);
    BelowChild(p, b, c, x);
    if a[c] < b[c] {
      ChildExtentsApart(p, a[..c], a[c], b[c]);
    } else {
      ChildExtentsApart(p, a[..c], b[c], a[c]);
    }
  }

  lemma BelowChild(p: Profile, path: Path, n: nat, x: nat)
    requires IsDevice(p, path) && n < |path|
    ensures IsRouter(p, path[..n]) && path[n] < p.maxChildren
    ensures IsDevice(p, path[..n] + [path[n]])
    ensures Owns(p, path, x) ==> Owns(p, path[..n] + [path[n]], x)
  {
    PrefixOfDevice(p, path, n);
    PrefixOfDevice(p, path, n + 1);
    assert path[..n + 1] == path[..n] + [path[n]];
    assert Last(path[..n + 1]) == path[n];
    DescendantsInside(p, path[..n + 1], path);
  }

  /** Any two devices' address ranges are nested, exactly along the tree, or disjoint. */
  lemma BlocksNestedOrDisjoint(p: Profile, a: Path, b: Path)
    requires IsDevice(p, a) && IsDevice(p, b)
    ensures a <= b <==> Owns(p, a, Address(p, b))
    ensures a <= b ==> forall x :: Owns(p, b, x) ==> Owns(p, a, x)
    ensures !(a <= b) && !(b <= a) ==> forall x :: !(Owns(p, a, x) && Owns(p, b, x))
  {
    BlockSizesShrink(p, |b|, |b|);
    if a <= b {
      DescendantsInside(p, a, b);
    } else if b <= a {
      DescendantsInside(p, b, a);
    } else {
      forall x ensures !(Owns(p, a, x) && Owns(p, b, x)) {
        BranchesDisjoint(p, a, b, x);
      }
      assert Owns(p, b, Address(p, b));
    }
  }

  lemma AddressesAreDistinct(p: Profile, a: Path, b: Path)
    requires IsDevice(p, a) && IsDevice(p, b)
    requires Address(p, a) == Address(p, b)
    ensures a == b
  {
    BlockSizesShrink(p, |a|, |a|);
    BlockSizesShrink(p, |b|, |b|);
    assert Owns(p, a, Address(p, b)) && Owns(p, b, Address(p, a));
    BlocksNestedOrDisjoint(p, a, b);
    BlocksNestedOrDisjoint(p, b, a);
  }

  /** Which child of a router holds the address at an offset behind the router's own. */
  function ChildIndex(offset: nat, size: nat, routers: nat): nat
    requires size >= 1
  {
    if offset < routers * size then offset / size else routers + (offset - routers * size)
  }

  lemma BlockSizeStep(p: Profile, d: nat)
    requires p.Valid() && d < p.maxDepth
    ensures BlockSize(p, d) == 1 + p.maxRouters * BlockSize(p, d + 1) + (p.maxChildren - p.maxRouters)
    ensures BlockSize(p, d + 1) >= 1
  {
    BlockSizesShrink(p, d + 1, d + 1);
  }

  lemma ChildIndexHolds(p: Profile, router: Path, a: nat)
    requires IsRouter(p, router) && |router| < p.maxDepth && IsDevice(p, router)
    requires Owns(p, router, a) && a != Address(p, router)
    ensures BlockSize(p, |router| + 1) >= 1
    ensures var i := ChildIndex(a - Address(p, router) - 1, BlockSize(p, |router| + 1), p.maxRouters);
            && i < p.maxChildren && IsDevice(p, router + [i]) && Owns(p, router + [i], a)
            && (i < p.maxRouters <==> a <= Address(p, router) + p.maxRouters * BlockSize(p, |router| + 1))
  {
    BlockSizeStep(p, |router|);
    assert Extent(p, router) == BlockSize(p, |router|);
    hide BlockSize, Address, IsDevice, Extent;
    var size := BlockSize(p, |router| + 1);
    var offset := a - Address(p, router) - 1;
    var i := ChildIndex(offset, size, p.maxRouters);
    if offset < p.maxRouters * size {
      QuotientBounds(offset, size, p.maxRouters);
      MulDistributes(i, 1, size);
    }
    ChildIsDevice(p, router, i);
  }

  /** The child of a router that holds an address of its block: the inverse of address assignment. */
  ghost function ChildHolding(p: Profile, router: Path, a: nat): (i: nat)
    requires IsRouter(p, router) && |router| < p.maxDepth && IsDevice(p, router)
    requires Owns(p, router, a) && a != Address(p, router)
    ensures i < p.maxChildren && IsDevice(p, router + [i]) && Owns(p, router + [i], a)
    ensures i < p.maxRouters <==> a <= Address(p, router) + p.maxRouters * BlockSize(p, |router| + 1)
  {
    ChildIndexHolds(p, router, a);
    ChildIndex(a - Address(p, router) - 1, BlockSize(p, |router| + 1), p.maxRouters)
  }

  lemma QuotientBounds(x: nat, size: nat, n: nat)
    requires size >= 1 && x < n * size
    ensures x / size < n && (x / size) * size <= x < (x / size + 1) * size
  {
    MulDistributes(x / size, 1, size);
    if x / size >= n {
      MulMonotone(n, x / size, size);
    }
  }

  ghost predicate ChildOwns(p: Profile, router: Path, i: nat, a: nat)
    requires IsRouter(p, router) && |router| < p.maxDepth
  {
    i < p.maxChildren && IsDevice(p, router + [i]) && Owns(p, router + [i], a)
  }

  lemma OwnsItself(p: Profile, path: Path)
    requires IsDevice(p, path)
    ensures Owns(p, path, Address(p, path))
  {
    BlockSizesShrink(p, |path|, |path|);
  }

  /** A router's block is its own address and its children's extents, each address in one. */
  lemma BlockIsPartitioned(p: Profile, router: Path, a: nat)
    requires IsRouter(p, router) && |router| < p.maxDepth && IsDevice(p, router)
    ensures Owns(p, router, a) <==> a == Address(p, router) || exists i: nat :: ChildOwns(p, router, i, a)
    ensures forall i: nat :: ChildOwns(p, router, i, a) ==> a != Address(p, router)
    ensures forall i: nat, j: nat :: ChildOwns(p, router, i, a) && ChildOwns(p, router, j, a) ==> i == j
  {
    OwnsItself(p, router);
    hide IsRouter, IsDevice, Address, Extent, BlockSize, ChildHolding;
    if Owns(p, router, a) && a != Address(p, router) {
      var i := ChildHolding(p, router, a);
      assert ChildOwns(p, router, i, a);
    }
    forall i: nat | ChildOwns(p, router, i, a)
      ensures Owns(p, router, a) && a != Address(p, router)
    {
      ChildExtentInside(p, router, i);
    }
    forall i: nat, j: nat | ChildOwns(p, router, i, a) && ChildOwns(p, router, j, a)
      ensures i == j
    {
      if i < j { ChildExtentsApart(p, router, i, j); } else if j < i { ChildExtentsApart(p, router, j, i); }
    }
  }

  /** The device of a given address inside a router's block. */
  ghost function DeviceBelow(p: Profile, router: Path, a: nat): (path: Path)
    requires IsDevice(p, router) && Owns(p, router, a)
    ensures IsDevice(p, path) && Address(p, path) == a && router <= path
    decreases p.maxDepth - |router|
  {
    if a == Address(p, router) then router
    else
      var i := ChildHolding(p, router, a);
      DeviceBelow(p, router + [i], a)
  }

  /** Assigned addresses are exactly 0 .. BlockSize(0) - 1, one device each. */
  lemma AddressesAreABijection(p: Profile, a: nat)
    requires p.Valid()
    ensures (exists path :: IsDevice(p, path) && Address(p, path) == a) <==> a < BlockSize(p, 0)
    ensures forall x, y :: IsDevice(p, x) && IsDevice(p, y) && Address(p, x) == a && Address(p, y) == a ==> x == y
  {
    assert IsRouter(p, []) && IsDevice(p, []);
    if a < BlockSize(p, 0) {
      var path := DeviceBelow(p, [], a);
    }
    forall path | IsDevice(p, path) && Address(p, path) == a
      ensures a < BlockSize(p, 0)
    {
      BlockSizesShrink(p, |path|, |path|);
      DescendantsInside(p, [], path);
    }
    forall x, y | IsDevice(p, x) && IsDevice(p, y) && Address(p, x) == a && Address(p, y) == a
      ensures x == y
    {
      AddressesAreDistinct(p, x, y);
    }
  }
}
