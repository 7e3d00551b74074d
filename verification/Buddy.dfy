/** The page-frame allocator with reference counts: a class over the two flat
    arrays, whose methods are the loops of the kernel. `live` is the set of
    tree nodes currently handed out. */
module BuddyAllocator {
  import opened Bits
  import opened BuddyTree

  const PHY_START: nat := 0x8000_0000

  /** The head page of a live block. */
  ghost predicate IsHead(size: nat, live: set<nat>, pfn: nat) {
    exists k :: k in live && Start(size, k) == pfn
  }

  /** nrpages after the rounding at the top of buddy_alloc */
  function Rounded(nrpages: nat): nat {
    if nrpages == 0 then 1
    else if PowerOfTwoTest(nrpages) then nrpages
    else Fixsize(nrpages)
  }

  /** Rounding gives the least power of two that holds the request. */
  lemma RoundedLeast(nrpages: nat)
    requires nrpages <= TWO63
    ensures IsPow2(Rounded(nrpages)) && nrpages <= Rounded(nrpages) <= TWO63
    ensures forall p: nat :: IsPow2(p) && nrpages <= p ==> Rounded(nrpages) <= p
  {
    assert 1 == Pow2(0);
    if nrpages > 0 {
      PowerOfTwoTestCorrect(nrpages);
      if !PowerOfTwoTest(nrpages) { FixsizeLeast(nrpages); }
    }
  }

  /** pfn is the lowest place at which n free, aligned pages fit. */
  ghost predicate LowestRun(size: nat, live: set<nat>, pfn: nat, n: nat) {
    && FreeRun(size, live, pfn, n)
    && forall p: nat :: FreeRun(size, live, p, n) ==> pfn <= p
  }

  ghost predicate HasRun(size: nat, live: set<nat>, n: nat) {
    exists p: nat :: FreeRun(size, live, p, n)
  }

  // ----------------------------------------------------------- steps of the loops

  lemma {:induction false} CoveredMonotone(less: set<nat>, more: set<nat>, i: nat)
    requires less <= more
    ensures Covered(less, i) ==> Covered(more, i)
  {
    if i > 0 {
      CoveredMonotone(less, more, Parent(i));
    }
  }

  /** Nothing live lies above a live block. */
  lemma AncestorFree(size: nat, live: set<nat>, node: nat, a: nat)
    requires WfLive(size, live) && node in live && Under(a, node) && a != node
    ensures !Covered(live, a) && a !in live
  {
    CoveredIff(live, node);
    CoveredIff(live, a);
    UnderLe(a, node);
    if Covered(live, a) {
      var k :| k in live && k != a && Under(k, a);
      UnderLe(k, a);
      UnderTransitive(k, a, node);
    }
  }

  // The two invariants of the allocator, over the arrays' contents.

  /** Every cell holds its canonical value. */
  ghost predicate Canonical(b: seq<nat>, size: nat, live: set<nat>) {
    |b| == 2 * size && IsPow2(size) && forall j: nat :: j < 2 * size - 1 ==> b[j] == Canon(size, live, j)
  }

  /** Every cell does, but for the proper ancestors of index. */
  ghost predicate CanonicalOff(b: seq<nat>, size: nat, live: set<nat>, index: nat) {
    && |b| == 2 * size && IsPow2(size)
    && forall j: nat :: j < 2 * size - 1 && !(Under(j, index) && j != index) ==> b[j] == Canon(size, live, j)
  }

  /** The bitmap is a function of the live set: two trees for the same blocks
      agree in every cell that buddy_alloc or buddy_free can reach. */
  lemma CanonicalUnique(b: seq<nat>, c: seq<nat>, size: nat, live: set<nat>)
    requires Canonical(b, size, live) && Canonical(c, size, live)
    requires b[2 * size - 1] == c[2 * size - 1]
    ensures b == c
  {
  }

  /** A page is counted exactly when it heads a live block. */
  ghost predicate HeadsCounted(refs: seq<nat>, size: nat, live: set<nat>) {
    |refs| == size && forall p: nat :: p < size ==> (refs[p] > 0 <==> IsHead(size, live, p))
  }

  ghost predicate HeadsCountedBut(refs: seq<nat>, size: nat, live: set<nat>, pfn: nat) {
    |refs| == size && forall p: nat :: p < size && p != pfn ==> (refs[p] > 0 <==> IsHead(size, live, p))
  }

  lemma ParentShape(size: nat, index: nat)
    requires IsNode(size, index) && index > 0
    ensures var q := Parent(index);
            && IsNode(size, q) && q < size - 1 && IsNode(size, Left(q)) && IsNode(size, Right(q))
            && (index == Left(q) || index == Right(q))
            && NodeSize(size, q) == 2 * NodeSize(size, index)
            && NodeSize(size, Left(q)) == NodeSize(size, Right(q)) == NodeSize(size, index)
  {
    Geometry(size, index);
    Geometry(size, Parent(index));
    Children(size, Parent(index));
  }

  /** Recombining a parent moves the stale path up by one node; where one half
      is not full the recombination is a maximum. */
  lemma ClimbWrite(b: seq<nat>, size: nat, live: set<nat>, index: nat)
    requires IsNode(size, index) && index > 0 && CanonicalOff(b, size, live, index)
    requires !Covered(live, Parent(index)) && Parent(index) !in live
    ensures var q := Parent(index);
            && q < size - 1 && IsNode(size, q) && NodeSize(size, q) == 2 * NodeSize(size, index)
            && CanonicalOff(b[q := Combine(b[Left(q)], b[Right(q)], NodeSize(size, q))], size, live, q)
            && (b[index] < NodeSize(size, index) ==>
                  Combine(b[Left(q)], b[Right(q)], NodeSize(size, q))
                  == (if b[Left(q)] > b[Right(q)] then b[Left(q)] else b[Right(q)])
                  < NodeSize(size, q))
  {
    var q := Parent(index);
    ParentShape(size, index);
    ChildOff(q, Left(q), index);
    ChildOff(q, Right(q), index);
    CanonBound(size, live, Left(q));
    CanonBound(size, live, Right(q));
    ClimbOthers(b, size, live, index, Combine(b[Left(q)], b[Right(q)], NodeSize(size, q)));
  }

  lemma ClimbOthers(b: seq<nat>, size: nat, live: set<nat>, index: nat, v: nat)
    requires IsNode(size, index) && index > 0 && CanonicalOff(b, size, live, index)
    requires Parent(index) < 2 * size - 1 && v == Canon(size, live, Parent(index))
    ensures CanonicalOff(b[Parent(index) := v], size, live, Parent(index))
  {
  }

  lemma ChildOff(q: nat, c: nat, index: nat)
    requires index > 0 && q == Parent(index) && (c == Left(q) || c == Right(q))
    ensures !(Under(c, index) && c != index)
  {
    if Under(c, index) && c != index { UnderLe(c, q); }
  }

  lemma PathParent(size: nat, live: set<nat>, node: nat, index: nat)
    requires WfLive(size, live) && node in live && index > 0 && Under(index, node)
    ensures Under(Parent(index), node) && !Covered(live, Parent(index)) && Parent(index) !in live
  {
    UnderChild(Parent(index), index);
    UnderTransitive(Parent(index), index, node);
    UnderLe(index, node);
    AncestorFree(size, live, node, Parent(index));
  }

  /** The root has no stale ancestors. */
  lemma NoneStale(b: seq<nat>, size: nat, live: set<nat>)
    requires CanonicalOff(b, size, live, 0)
    ensures Canonical(b, size, live)
  {
    forall j: nat | j < 2 * size - 1
      ensures !(Under(j, 0) && j != 0)
    {
    }
  }

  lemma RemoveLive(size: nat, live: set<nat>, node: nat)
    requires WfLive(size, live) && node in live
    ensures WfLive(size, live - {node})
  {
    forall i | i in live - {node}
      ensures !Covered(live - {node}, i)
    {
      CoveredMonotone(live - {node}, live, i);
    }
  }

  /** Freeing a block leaves its whole subtree full and other cells alone. */
  lemma FreedCell(b: seq<nat>, size: nat, live: set<nat>, node: nat)
    requires WfLive(size, live) && node in live && Canonical(b, size, live)
    ensures CanonicalOff(b[node := NodeSize(size, node)], size, live - {node}, node)
  {
    var less := live - {node};
    assert less + {node} == live;
    RemoveLive(size, live, node);
    forall j: nat | j < 2 * size - 1 && !(Under(j, node) && j != node)
      ensures Canon(size, less, j) == if j == node then NodeSize(size, j) else Canon(size, live, j)
    {
      if j == node {
        CoveredMonotone(less, live, node);
        forall k | k in less
          ensures !Under(node, k)
        {
          CoveredIff(live, k);
        }
        FreeMeansFull(size, less, node);
      } else {
        OffPath(size, less, node, j);
      }
    }
  }

  /** So does taking one: cells below it keep their full values. */
  lemma AllocatedCell(b: seq<nat>, size: nat, live: set<nat>, node: nat)
    requires WfLive(size, live + {node}) && node !in live && Canonical(b, size, live)
    ensures CanonicalOff(b[node := 0], size, live + {node}, node)
  {
    forall j: nat | j < 2 * size - 1 && !(Under(j, node) && j != node)
      ensures Canon(size, live + {node}, j) == if j == node then 0 else Canon(size, live, j)
    {
      if j != node {
        OffPath(size, live, node, j);
      }
    }
  }

  /** On the way up from a page of a live block only the block's node is zero. */
  lemma ZeroAtNode(size: nat, live: set<nat>, node: nat, index: nat)
    requires WfLive(size, live) && node in live && IsNode(size, index) && Under(node, index)
    ensures Canon(size, live, index) == 0 <==> index == node
    ensures index != node ==> index > 0 && IsNode(size, Parent(index)) && Under(node, Parent(index))
                              && NodeSize(size, Parent(index)) == 2 * NodeSize(size, index)
  {
    CoveredIff(live, index);
    Geometry(size, index);
  }

  /** A page of a node that is live or inside a live block is live. */
  lemma {:induction false} CoveredPage(size: nat, live: set<nat>, i: nat, p: nat)
    requires IsNode(size, i) && InBlock(size, i, p) && (i in live || Covered(live, i))
    ensures PageLive(size, live, p)
    decreases i
  {
    if i !in live {
      ParentShape(size, i);
      Children(size, Parent(i));
      CoveredPage(size, live, Parent(i), p);
    }
  }

  /** Nothing is live at the page nor around it. */
  ghost predicate FreePath(size: nat, live: set<nat>, index: nat) {
    IsNode(size, index) && index !in live && !Covered(live, index) && Canon(size, live, index) > 0
  }

  lemma FreeLeaf(size: nat, live: set<nat>, pfn: nat)
    requires IsPow2(size) && pfn < size && !PageLive(size, live, pfn)
    ensures FreePath(size, live, pfn + size - 1)
  {
    var leaf := pfn + size - 1;
    LeafOfPage(size, pfn);
    if leaf in live || Covered(live, leaf) { CoveredPage(size, live, leaf, pfn); }
  }

  lemma FreeAbove(size: nat, live: set<nat>, index: nat)
    requires FreePath(size, live, index) && index > 0
    ensures FreePath(size, live, Parent(index)) && NodeSize(size, Parent(index)) == 2 * NodeSize(size, index)
  {
    ParentShape(size, index);
    Geometry(size, index);
  }

  /** When a whole block goes on account of a page that does not head it, its
      head is left counted. */
  lemma HeadLeftCounted(refs: seq<nat>, size: nat, live: set<nat>, node: nat, pfn: nat)
    requires WfLive(size, live) && node in live && Start(size, node) != pfn && HeadsCountedBut(refs, size, live, pfn)
    requires IsPow2(size)
    ensures !HeadsCounted(refs, size, live - {node})
  {
    Geometry(size, node);
    var h := Start(size, node);
    assert IsHead(size, live, h);
    if IsHead(size, live - {node}, h) {
      var k :| k in live - {node} && Start(size, k) == h;
      Geometry(size, k);
      LiveDisjoint(size, live, k, node, h);
    }
  }

  lemma HeadIsLive(size: nat, live: set<nat>, pfn: nat)
    requires WfLive(size, live) && IsHead(size, live, pfn)
    ensures PageLive(size, live, pfn)
  {
    var k :| k in live && Start(size, k) == pfn;
    Geometry(size, k);
    assert InBlock(size, k, pfn);
  }

  /** The live block at a page that some block begins with is that block. */
  lemma HeadIsStart(size: nat, live: set<nat>, node: nat, pfn: nat)
    requires WfLive(size, live) && IsPow2(size) && pfn < size && node in live && InBlock(size, node, pfn)
    ensures IsHead(size, live, pfn) <==> Start(size, node) == pfn
  {
    if IsHead(size, live, pfn) {
      var k :| k in live && Start(size, k) == pfn;
      Geometry(size, k);
      LiveDisjoint(size, live, k, node, pfn);
    }
  }

  lemma HeadsAfterFree(refs: seq<nat>, size: nat, live: set<nat>, node: nat)
    requires WfLive(size, live) && node in live && Start(size, node) < size
    requires HeadsCountedBut(refs, size, live, Start(size, node)) && refs[Start(size, node)] == 0
    ensures HeadsCounted(refs, size, live - {node})
  {
    forall k | k in live && Start(size, k) == Start(size, node)
      ensures k == node
    {
      Geometry(size, k);
      Geometry(size, node);
      LiveDisjoint(size, live, k, node, Start(size, node));
    }
    forall p: nat | p < size && IsHead(size, live, p) && p != Start(size, node)
      ensures IsHead(size, live - {node}, p)
    {
      var k :| k in live && Start(size, k) == p;
      assert k in live - {node};
    }
  }

  lemma HeadsAfterAlloc(refs: seq<nat>, size: nat, live: set<nat>, node: nat)
    requires HeadsCounted(refs, size, live) && Start(size, node) < size
    ensures HeadsCounted(refs[Start(size, node) := 1], size, live + {node})
  {
    forall p: nat
      ensures IsHead(size, live + {node}, p) <==> IsHead(size, live, p) || p == Start(size, node)
    {
      if IsHead(size, live, p) {
        var k :| k in live && Start(size, k) == p;
        assert k in live + {node};
      }
      assert node in live + {node};
    }
  }

  /** The root's cell decides whether the request can be met at all. */
  lemma RootRun(size: nat, live: set<nat>, n: nat)
    requires IsPow2(size) && WfLive(size, live) && IsPow2(n)
    ensures Canon(size, live, 0) >= n <==> HasRun(size, live, n)
  {
    CanonBound(size, live, 0);
    if n <= size {
      LongestRun(size, live, 0, n);
      if HasRun(size, live, n) {
        var p: nat :| FreeRun(size, live, p, n);
        assert RunUnder(size, live, 0, n);
      }
    }
  }

  lemma DescendShape(size: nat, live: set<nat>, i: nat, n: nat)
    requires IsNode(size, i) && !Covered(live, i)
    requires IsPow2(n) && n <= Canon(size, live, i) && n != NodeSize(size, i)
    ensures n < NodeSize(size, i) && i < size - 1 && i !in live
    ensures IsNode(size, Left(i)) && IsNode(size, Right(i))
    ensures !Covered(live, Left(i)) && !Covered(live, Right(i))
    ensures NodeSize(size, Left(i)) == NodeSize(size, Right(i)) == NodeSize(size, i) / 2
    ensures n <= NodeSize(size, Left(i)) < NodeSize(size, i)
    ensures Start(size, Left(i)) == Start(size, i)
    ensures Start(size, Right(i)) == Start(size, i) + NodeSize(size, Left(i))
  {
    Geometry(size, i);
    CanonBound(size, live, i);
    Pow2Gap(n, NodeSize(size, i));
    Children(size, i);
    CombinedHalves(size, live, i);
  }

  lemma SkipLeft(size: nat, live: set<nat>, i: nat, n: nat, p: nat)
    requires IsNode(size, i) && IsNode(size, Left(i)) && IsNode(size, Right(i)) && WfLive(size, live)
    requires Start(size, Left(i)) == Start(size, i)
    requires Start(size, Right(i)) == Start(size, i) + NodeSize(size, Left(i))
    requires NodeSize(size, Left(i)) == NodeSize(size, Right(i))
    requires IsPow2(n) && n <= NodeSize(size, Left(i)) && !RunUnder(size, live, Left(i), n)
    requires FreeRun(size, live, p, n) && Start(size, i) <= p
    ensures Start(size, Right(i)) <= p
  {
    Geometry(size, Right(i));
    NodeAligned(size, Right(i));
    MultipleOfMultiple(Start(size, Right(i)), NodeSize(size, Right(i)), n);
    if p < Start(size, Right(i)) {
      MultiplesApart(p, Start(size, Right(i)), n);
    }
  }

  /** The descent never dead-ends: of a node holding a run one child holds it
      too, and skipping the left child skips no run. */
  lemma DescendStep(size: nat, live: set<nat>, i: nat, n: nat)
    requires IsNode(size, i) && WfLive(size, live) && !Covered(live, i)
    requires IsPow2(n) && n <= Canon(size, live, i) && n != NodeSize(size, i)
    ensures i < size - 1 && IsNode(size, Left(i)) && IsNode(size, Right(i))
    ensures !Covered(live, Left(i)) && !Covered(live, Right(i))
    ensures NodeSize(size, Left(i)) == NodeSize(size, Right(i)) == NodeSize(size, i) / 2 < NodeSize(size, i)
    ensures Start(size, Left(i)) == Start(size, i)
    ensures Canon(size, live, Left(i)) < n ==>
              && Canon(size, live, Right(i)) >= n
              && forall p: nat :: FreeRun(size, live, p, n) && Start(size, i) <= p ==> Start(size, Right(i)) <= p
  {
    DescendShape(size, live, i, n);
    if Canon(size, live, Left(i)) < n {
      CanonBound(size, live, Left(i));
      CanonBound(size, live, Right(i));
      LongestRun(size, live, Left(i), n);
      forall p: nat | FreeRun(size, live, p, n) && Start(size, i) <= p
        ensures Start(size, Right(i)) <= p
      {
        SkipLeft(size, live, i, n, p);
      }
    }
  }

  lemma FullIsRun(size: nat, live: set<nat>, node: nat)
    requires IsNode(size, node) && WfLive(size, live) && !Covered(live, node)
    requires Canon(size, live, node) >= NodeSize(size, node)
    ensures FreeRun(size, live, Start(size, node), NodeSize(size, node))
  {
    Geometry(size, node);
    LongestRun(size, live, node, NodeSize(size, node));
    RunOfNode(size, live, node);
  }

  /** The node at which the descent halts is free as a whole; taking it keeps
      the live blocks disjoint. */
  lemma AllocNode(size: nat, live: set<nat>, node: nat)
    requires IsNode(size, node) && WfLive(size, live) && !Covered(live, node)
    requires Canon(size, live, node) >= NodeSize(size, node)
    ensures node !in live && WfLive(size, live + {node})
    ensures FreeRun(size, live, Start(size, node), NodeSize(size, node))
    ensures !IsHead(size, live, Start(size, node))
    ensures Start(size, node) < size && Canon(size, live + {node}, node) == 0 < NodeSize(size, node)
  {
    Geometry(size, node);
    CanonBound(size, live, node);
    FullIsRun(size, live, node);
    FullMeansFree(size, live, node, node);
    var more := live + {node};
    CoveredIff(live, node);
    CoveredIff(more, node);
    forall k | k in live
      ensures !Covered(more, k)
    {
      CoveredIff(live, k);
      CoveredIff(more, k);
      if Under(node, k) { FullMeansFree(size, live, node, k); }
    }
    if IsHead(size, live, Start(size, node)) {
      var k :| k in live && Start(size, k) == Start(size, node);
      Geometry(size, k);
      assert PageLive(size, live, Start(size, node));
    }
  }

  // ----------------------------------------------------------- initialisation

  /** A fresh tree: without live blocks every cell is its subtree's size. */
  lemma FreshTree(size: nat, i: nat)
    requires IsNode(size, i)
    ensures Canon(size, {}, i) == NodeSize(size, i)
  {
    CoveredIff({}, i);
    FreeMeansFull(size, {}, i);
  }

  lemma FreshLevel(size: nat, i: nat, above: nat)
    requires IsNode(size, i) && above == if i == 0 then 2 * size else NodeSize(size, i - 1)
    ensures NodeSize(size, i) == Canon(size, {}, i) == if PowerOfTwoTest(i + 1) then above / 2 else above
  {
    if i > 0 { LevelStep(size, i); }
    FreshTree(size, i);
  }

  lemma OddAndHalf(n: nat)
    requires n > 1
    ensures IsPow2(n) ==> n % 2 == 0 && IsPow2(n / 2)
  {
    if IsPow2(n) { Pow2Half(n); }
  }

  /** Node sizes in index order: they halve where index + 1 is a power of two. */
  lemma {:induction false} LevelStep(size: nat, i: nat)
    requires i > 0
    ensures NodeSize(size, i) == if PowerOfTwoTest(i + 1) then NodeSize(size, i - 1) / 2 else NodeSize(size, i - 1)
  {
    PowerOfTwoTestCorrect(i + 1);
    var q := Parent(i);
    if i == 1 {
      assert 2 == Pow2(1);
    } else if i % 2 == 1 {
      LevelStep(size, q);
      PowerOfTwoTestCorrect(q + 1);
      assert i + 1 == 2 * (q + 1) && Parent(i - 1) == q - 1;
      if IsPow2(q + 1) {
        var k: nat :| q + 1 == Pow2(k);
        assert i + 1 == Pow2(k + 1);
      }
      OddAndHalf(i + 1);
    } else {
      assert Parent(i - 1) == q;
      OddAndHalf(i + 1);
    }
  }

  /** The leaves of the first k pages. */
  ghost function Prefix(size: nat, k: nat): set<nat>
    requires size > 0
  {
    if k == 0 then {} else Prefix(size, k - 1) + {k - 1 + size - 1}
  }

  lemma {:induction false} PrefixMember(size: nat, k: nat, i: nat)
    requires size > 0
    ensures i in Prefix(size, k) <==> size - 1 <= i < size - 1 + k
  {
    if k > 0 {
      PrefixMember(size, k - 1, i);
    }
  }

  /** Number of pages that begin below physical address end. */
  function PagesBelow(end: nat): nat {
    if end <= PHY_START then 0 else (end - PHY_START + PGSIZE - 1) / PGSIZE
  }

  lemma PrefixGrows(size: nat, j: nat, k: nat)
    requires size > 0 && j <= k
    ensures Prefix(size, j) <= Prefix(size, k)
  {
    forall i | i in Prefix(size, j)
      ensures i in Prefix(size, k)
    {
      PrefixMember(size, j, i);
      PrefixMember(size, k, i);
    }
  }

  /** Where free memory starts: the 8-byte cells of bitmap and ref_cnt lie behind
      the kernel image. */
  function ArraysEnd(ekernel: nat, size: nat): nat { ekernel + 8 * (2 * size) + 8 * size }

  /** The pages taken at boot. */
  function Reserved(ekernel: nat, pages: nat): nat { PagesBelow(ArraysEnd(ekernel, Rounded(pages))) }

  /** PHYS2PFN */
  function PageOf(pa: nat): nat
    requires pa >= PHY_START
  {
    (pa - PHY_START) / PGSIZE
  }

  /** The reserved pages are exactly those of RAM that hold a byte below the end
      of two arrays of 2 * size and size words behind the kernel image: everything
      up to the image, the image, and both arrays. */
  lemma ReservedExactly(ekernel: nat, pages: nat, p: nat)
    ensures var end := ekernel + 8 * (2 * Rounded(pages)) + 8 * Rounded(pages);
            && (p < Reserved(ekernel, pages) <==> exists pa: nat :: PHY_START <= pa < end && PageOf(pa) == p)
            && (forall pa: nat :: PHY_START <= pa < end ==> PageOf(pa) < Reserved(ekernel, pages))
  {
    var end := ArraysEnd(ekernel, Rounded(pages));
    forall pa: nat | PHY_START <= pa < end
      ensures PageOf(pa) < Reserved(ekernel, pages)
    {
    }
    if p < Reserved(ekernel, pages) {
      assert PHY_START <= PHY_START + p * PGSIZE < end && PageOf(PHY_START + p * PGSIZE) == p;
    }
  }

  /** A page begins below an address exactly when it is among those counted. */
  lemma BeginsBelow(end: nat, p: nat)
    ensures p < PagesBelow(end) <==> PHY_START + p * PGSIZE < end
    ensures end <= PHY_START + PagesBelow(end) * PGSIZE
  {
  }

  lemma PrefixLive(size: nat, k: nat, p: nat)
    requires IsPow2(size) && k <= size
    ensures WfLive(size, Prefix(size, k))
    ensures PageLive(size, Prefix(size, k), p) <==> p < k
    ensures IsHead(size, Prefix(size, k), p) <==> p < k
  {
    var live := Prefix(size, k);
    forall i: nat
      ensures i in live <==> size - 1 <= i < size - 1 + k
    {
      PrefixMember(size, k, i);
    }
    forall i | i in live
      ensures IsNode(size, i) && !Covered(live, i) && NodeSize(size, i) == 1 && Start(size, i) == i - (size - 1)
    {
      StartClosed(size, i);
      CoveredIff(live, i);
      forall a | a in live && Under(a, i)
        ensures a == i
      {
        Geometry(size, i);
        LeafUnder(size, a, i);
      }
    }
    if p < k {
      assert p + size - 1 in live;
      assert InBlock(size, p + size - 1, p);
    }
  }

  lemma LeafUnder(size: nat, a: nat, i: nat)
    requires size > 0 && a >= size - 1 && i < 2 * size - 1 && Under(a, i)
    ensures a == i
  {
    if a != i { UnderLe(a, Parent(i)); }
  }

  /** When the first k pages are taken one by one, the next single page is k. */
  lemma PrefixNext(size: nat, k: nat)
    requires IsPow2(size) && k <= size
    ensures HasRun(size, Prefix(size, k), 1) <==> k < size
    ensures forall p: nat :: LowestRun(size, Prefix(size, k), p, 1) ==> p == k
    ensures forall i :: IsNode(size, i) && NodeSize(size, i) == 1 && Start(size, i) == k
                        ==> Prefix(size, k) + {i} == Prefix(size, k + 1)
  {
    var live := Prefix(size, k);
    forall p: nat
      ensures FreeRun(size, live, p, 1) <==> k <= p < size
    {
      PrefixLive(size, k, p);
    }
    if k < size { assert FreeRun(size, live, k, 1); }
    forall i | IsNode(size, i) && NodeSize(size, i) == 1 && Start(size, i) == k
      ensures live + {i} == Prefix(size, k + 1)
    {
      LeafIndex(size, i);
    }
  }

  lemma LeafIndex(size: nat, i: nat)
    requires IsNode(size, i) && NodeSize(size, i) == 1
    ensures i == Start(size, i) + size - 1
  {
    StartClosed(size, i);
  }

  class Buddy {
    const size: nat
    const bitmap: array<nat>
    const refCnt: array<nat>
    const bitmapAt: nat  // physical addresses of the two arrays, of 8 bytes a cell
    const refCntAt: nat
    ghost var live: set<nat>

    ghost predicate Valid()
      reads this, bitmap, refCnt
    {
      && bitmap != refCnt
      && WfLive(size, live)
      && Canonical(bitmap[..], size, live)
      && HeadsCounted(refCnt[..], size, live)
    }

    /** buddy_init: place the two arrays behind the kernel image, which ends at
        ekernel, label the tree, then hand out every page that begins below the
        end of the arrays. */
    constructor (pages: nat, ekernel: nat)
      requires 1 <= pages <= TWO63 && PagesBelow(ArraysEnd(ekernel, Rounded(pages))) <= Rounded(pages)
      ensures bitmapAt == ekernel && refCntAt == bitmapAt + 8 * bitmap.Length && bitmap.Length == 2 * size
      ensures forall p: nat :: p < size ==>
                (PageLive(size, live, p) <==> PHY_START + p * PGSIZE < refCntAt + 8 * refCnt.Length)
      ensures Valid() && fresh(bitmap) && fresh(refCnt)
      ensures size == Rounded(pages) && live == Prefix(size, Reserved(ekernel, pages))
      ensures refCnt.Length == size && forall p :: 0 <= p < size ==> refCnt[p] == if p < Reserved(ekernel, pages) then 1 else 0
    {
      var buddySize := Rounded(pages);
      RoundedLeast(pages);
      size := buddySize;
      bitmap := new nat[2 * buddySize](_ => 0);
      refCnt := new nat[buddySize](_ => 0);
      var freePageStart := ekernel;
      bitmapAt := freePageStart;
      freePageStart := freePageStart + 8 * (2 * buddySize);
      refCntAt := freePageStart;
      freePageStart := freePageStart + 8 * buddySize;
      live := {};
      new;
      LabelTree();
      Reserve(freePageStart);
      forall p: nat | p < size
        ensures PageLive(size, live, p) <==> PHY_START + p * PGSIZE < freePageStart
      {
        PrefixLive(size, PagesBelow(freePageStart), p);
        BeginsBelow(freePageStart, p);
      }
    }

    method LabelTree()
      requires IsPow2(size) && bitmap.Length == 2 * size && live == {}
      modifies bitmap
      ensures Canonical(bitmap[..], size, {})
      ensures bitmap[2 * size - 1] == old(bitmap[2 * size - 1])
    {
      var nodeSize := size * 2;
      for i := 0 to 2 * size - 1
        invariant nodeSize == if i == 0 then 2 * size else NodeSize(size, i - 1)
        invariant forall j: nat :: j < i ==> bitmap[j] == Canon(size, {}, j)
        invariant bitmap[2 * size - 1] == old(bitmap[2 * size - 1])
      {
        FreshLevel(size, i, nodeSize);
        if PowerOfTwoTest(i + 1) {
          nodeSize := nodeSize / 2;
        }
        bitmap[i] := nodeSize;
      }
    }

    method Reserve(end: nat)
      requires IsPow2(size) && PagesBelow(end) <= size && bitmap != refCnt
      requires Canonical(bitmap[..], size, {}) && live == {} && refCnt.Length == size
      requires forall p :: 0 <= p < size ==> refCnt[p] == 0
      modifies this, bitmap, refCnt
      ensures Valid() && live == Prefix(size, PagesBelow(end))
      ensures forall p :: 0 <= p < size ==> refCnt[p] == if p < PagesBelow(end) then 1 else 0
    {
      var pfn := 0;
      assert live == Prefix(size, 0);
      while pfn * PGSIZE + PHY_START < end
        invariant pfn <= PagesBelow(end) && Valid() && live == Prefix(size, pfn)
        invariant forall p :: 0 <= p < size ==> refCnt[p] == if p < pfn then 1 else 0
        decreases end - pfn * PGSIZE
      {
        assert pfn < PagesBelow(end) <= size;
        var r := AllocPage(pfn);
        assert r == pfn;
        pfn := pfn + 1;
      }
    }

    /** alloc_page, for an allocator that has only ever handed out single pages
        and got none back: it returns the next page number, or 0 once memory is
        exhausted. */
    method AllocPage(ghost k: nat) returns (pfn: nat)
      requires Valid() && k <= size && live == Prefix(size, k)
      modifies this, bitmap, refCnt
      ensures Valid()
      ensures k < size ==> pfn == k && live == Prefix(size, k + 1)
                           && old(refCnt[..])[k] == 0 && refCnt[..] == old(refCnt[..])[k := 1]
      ensures k == size ==> pfn == 0 && live == old(live) && refCnt[..] == old(refCnt[..])
      ensures bitmap[2 * size - 1] == old(bitmap[2 * size - 1])
    {
      assert And(1, 0) == 0 && Rounded(1) == 1;
      ghost var node;
      pfn, node := BuddyAlloc(1);
      PrefixNext(size, k);
    }

    /** alloc_pages: the address of the block, without the kernel's offset. Once
        page 0 is taken, as it is from boot on, zero means failure and nothing
        else. */
    method AllocPages(nrpages: nat) returns (pa: nat, ghost node: nat)
      requires Valid() && nrpages <= TWO63 && PageLive(size, live, 0)
      modifies this, bitmap, refCnt
      ensures Valid()
      ensures pa == 0 <==> !HasRun(size, old(live), Rounded(nrpages))
      ensures pa == 0 ==> live == old(live) && bitmap[..] == old(bitmap[..]) && refCnt[..] == old(refCnt[..])
      ensures pa != 0 ==> pa >= PHY_START && pa % PGSIZE == 0
                          && Allocated(old(live), old(bitmap[..]), old(refCnt[..]), Rounded(nrpages), PageOf(pa), node)
    {
      RoundedLeast(nrpages);
      var pfn;
      pfn, node := BuddyAlloc(nrpages);
      if pfn == 0 {
        assert !FreeRun(size, old(live), 0, Rounded(nrpages));
        return 0, node;
      }
      pa := pfn * PGSIZE + PHY_START;
      assert pa / PGSIZE == pfn + PHY_START / PGSIZE;
    }

    /** Dropping the only reference of a block just allocated restores both
        arrays bit for bit. */
    method AllocThenRelease(nrpages: nat)
      requires Valid() && nrpages <= TWO63 && HasRun(size, live, Rounded(nrpages))
      modifies this, bitmap, refCnt
      ensures Valid() && live == old(live)
      ensures bitmap[..] == old(bitmap[..]) && refCnt[..] == old(refCnt[..])
    {
      var pfn, node := BuddyAlloc(nrpages);
      assert refCnt[pfn] == refCnt[..][pfn] == 1;
      assert IsHead(size, live, pfn);
      ghost var freed := PageRefDec(pfn);
      HeadIsStart(size, old(live) + {node}, freed, pfn);
      LiveDisjoint(size, old(live) + {node}, node, freed, pfn);
      assert live == old(live);
      CanonicalUnique(bitmap[..], old(bitmap[..]), size, live);
    }

    /** One reference more, which is right exactly for the head of a live block. */
    method PageRefInc(pfn: nat)
      requires Valid() && pfn < size
      modifies refCnt
      ensures Valid() <==> IsHead(size, live, pfn)
      ensures refCnt[..] == old(refCnt[..])[pfn := old(refCnt[pfn]) + 1]
    {
      refCnt[pfn] := refCnt[pfn] + 1;
      assert refCnt[..][pfn] > 0;
    }

    /** Takes a reference on an allocated page; a free page is refused. */
    method GetPage(pfn: nat) returns (r: nat)
      requires Valid() && pfn < size
      modifies refCnt
      ensures Valid()
      ensures r == (if IsHead(size, live, pfn) then 0 else 1)
      ensures refCnt[..] == if IsHead(size, live, pfn)
                            then old(refCnt[..])[pfn := old(refCnt[pfn]) + 1]
                            else old(refCnt[..])
    {
      assert refCnt[..][pfn] == refCnt[pfn];
      if refCnt[pfn] == 0 {
        return 1;
      }
      PageRefInc(pfn);
      r := 0;
    }

    method GetPageRefcnt(pfn: nat) returns (r: nat)
      requires Valid() && pfn < size
      ensures r == refCnt[pfn]
    {
      r := refCnt[pfn];
    }

    /** Drops one reference; the last one frees the whole block. The allocator is
        in order afterwards if and only if the page heads a live block. */
    method PageRefDec(pfn: nat) returns (ghost node: nat)
      requires Valid() && pfn < size
      modifies this, bitmap, refCnt
      ensures Valid() <==> IsHead(size, old(live), pfn)
      ensures old(refCnt[pfn]) > 0 <==> IsHead(size, old(live), pfn)
      ensures refCnt[..] == if old(refCnt[pfn]) > 0 then old(refCnt[..])[pfn := old(refCnt[pfn]) - 1] else old(refCnt[..])
      ensures old(refCnt[pfn]) > 1 ==> live == old(live) && bitmap[..] == old(bitmap[..])
      ensures old(refCnt[pfn]) <= 1 ==> Freed(old(live), old(bitmap[..]), pfn, node)
      ensures bitmap[2 * size - 1] == old(bitmap[2 * size - 1])
    {
      assert refCnt[..][pfn] == refCnt[pfn];
      node := 0;
      if refCnt[pfn] > 0 {
        refCnt[pfn] := refCnt[pfn] - 1;
      }
      if refCnt[pfn] == 0 {
        node := BuddyFree(pfn);
      }
    }

    /** What buddy_free does for a page that is not counted: the live block that
        the page lies in is freed as a whole; a page that is free already puts
        into the root a size that no node has. */
    ghost predicate Freed(live0: set<nat>, b0: seq<nat>, pfn: nat, node: nat)
      reads this, bitmap
    {
      if PageLive(size, live0, pfn) then
        node in live0 && InBlock(size, node, pfn) && live == live0 - {node} && Canonical(bitmap[..], size, live)
      else |b0| > 0 && live == live0 && bitmap[..] == b0[0 := 2 * size]
    }

    /** buddy_free: climb from the page's leaf to the first zero cell, then
        recombine all the way to the root. */
    method BuddyFree(pfn: nat) returns (ghost node: nat)
      requires bitmap != refCnt && WfLive(size, live) && Canonical(bitmap[..], size, live) && pfn < size
      requires HeadsCountedBut(refCnt[..], size, live, pfn)
      modifies this, bitmap
      ensures old(refCnt[pfn]) > 0 ==> live == old(live) && bitmap[..] == old(bitmap[..])
      ensures old(refCnt[pfn]) == 0 ==> Freed(old(live), old(bitmap[..]), pfn, node)
      ensures old(refCnt[pfn]) == 0 ==> (Valid() <==> IsHead(size, old(live), pfn))
      ensures bitmap[2 * size - 1] == old(bitmap[2 * size - 1])
    {
      node := 0;
      if refCnt[pfn] > 0 {
        return;
      }
      ghost var before, b := live, bitmap[..];
      node := LiveBlock(pfn);
      var index, nodeSize := ClimbToZero(pfn, node);
      bitmap[index] := nodeSize;
      if PageLive(size, before, pfn) {
        live := before - {node};
        RemoveLive(size, before, node);
        FreedCell(b, size, before, node);
        assert live + {node} == before;
        if index == 0 { NoneStale(bitmap[..], size, live); }
      }
      if index > 0 {
        Recombine(index, nodeSize);
      }
      FreedExactly(before, b, pfn, node);
    }

    /** buddy_free's first loop. It stops at the live block that the page lies in;
        for a free page it runs past the root. */
    method ClimbToZero(pfn: nat, ghost node: nat) returns (index: nat, nodeSize: nat)
      requires WfLive(size, live) && Canonical(bitmap[..], size, live) && pfn < size
      requires PageLive(size, live, pfn) ==> node in live && Under(node, pfn + size - 1)
      ensures PageLive(size, live, pfn) ==> index == node && nodeSize == NodeSize(size, node)
      ensures !PageLive(size, live, pfn) ==> index == 0 && nodeSize == 2 * size
    {
      nodeSize, index := 1, pfn + size - 1;
      ghost var inside := PageLive(size, live, pfn);
      LeafOfPage(size, pfn);
      if !inside { FreeLeaf(size, live, pfn); }
      while bitmap[index] > 0
        invariant IsNode(size, index) && nodeSize == NodeSize(size, index)
        invariant if inside then Under(node, index) else FreePath(size, live, index)
        decreases index
      {
        if inside { ZeroAtNode(size, live, node, index); }
        assert bitmap[..][index] == bitmap[index];
        nodeSize := nodeSize * 2;
        if index == 0 {
          break;
        }
        if !inside { FreeAbove(size, live, index); }
        index := Parent(index);
      }
      assert bitmap[..][index] == bitmap[index];
      if inside { ZeroAtNode(size, live, node, index); }
    }

    /** The live block that a page lies in, if there is one. */
    ghost method LiveBlock(pfn: nat) returns (node: nat)
      requires WfLive(size, live) && IsPow2(size) && pfn < size
      ensures PageLive(size, live, pfn) ==> node in live && InBlock(size, node, pfn) && Under(node, pfn + size - 1)
    {
      node := 0;
      if PageLive(size, live, pfn) {
        node :| node in live && InBlock(size, node, pfn);
        LeafOfPage(size, pfn);
        LeafInRange(size, node, pfn + size - 1);
      }
    }

    lemma FreedExactly(live0: set<nat>, b0: seq<nat>, pfn: nat, node: nat)
      requires bitmap != refCnt && WfLive(size, live0) && Canonical(b0, size, live0) && pfn < size
      requires HeadsCountedBut(refCnt[..], size, live0, pfn) && refCnt[pfn] == 0
      requires Freed(live0, b0, pfn, node)
      ensures Valid() <==> IsHead(size, live0, pfn)
    {
      if PageLive(size, live0, pfn) {
        HeadIsStart(size, live0, node, pfn);
        RemoveLive(size, live0, node);
        Geometry(size, node);
        if Start(size, node) == pfn {
          HeadsAfterFree(refCnt[..], size, live0, node);
        } else {
          HeadLeftCounted(refCnt[..], size, live0, node, pfn);
        }
      } else {
        CanonBound(size, live0, 0);
        assert bitmap[..][0] == 2 * size;
        if IsHead(size, live0, pfn) { HeadIsLive(size, live0, pfn); }
      }
    }

    /** The closing loop of buddy_free, above a node no live block contains. */
    method Recombine(node: nat, freedSize: nat)
      requires IsNode(size, node) && freedSize == NodeSize(size, node)
      requires WfLive(size, live + {node}) && node !in live
      requires CanonicalOff(bitmap[..], size, live, node) && bitmap.Length == 2 * size
      modifies bitmap
      ensures Canonical(bitmap[..], size, live)
      ensures bitmap[2 * size - 1] == old(bitmap[2 * size - 1])
    {
      var index, nodeSize := node, freedSize;
      while index > 0
        invariant IsNode(size, index) && Under(index, node)
        invariant nodeSize == NodeSize(size, index)
        invariant CanonicalOff(bitmap[..], size, live, index)
        invariant bitmap[2 * size - 1] == old(bitmap[2 * size - 1])
        decreases index
      {
        PathParent(size, live + {node}, node, index);
        CoveredMonotone(live, live + {node}, Parent(index));
        ghost var b, child := bitmap[..], index;
        index := Parent(index);
        nodeSize := nodeSize * 2;
        ClimbWrite(b, size, live, child);
        var leftLongest, rightLongest := bitmap[Left(index)], bitmap[Right(index)];
        if leftLongest + rightLongest == nodeSize {
          bitmap[index] := nodeSize;
        } else {
          bitmap[index] := if leftLongest > rightLongest then leftLongest else rightLongest;
        }
        assert bitmap[..] == b[index := Combine(b[Left(index)], b[Right(index)], NodeSize(size, index))];
      }
      NoneStale(bitmap[..], size, live);
    }

    /** buddy_alloc: it succeeds exactly when some aligned free run of the
        rounded size exists, and takes the lowest one. */
    method BuddyAlloc(nrpages: nat) returns (pfn: nat, ghost node: nat)
      requires Valid() && nrpages <= TWO63
      modifies this, bitmap, refCnt
      ensures Valid()
      ensures Allocated(old(live), old(bitmap[..]), old(refCnt[..]), Rounded(nrpages), pfn, node)
      ensures bitmap[2 * size - 1] == old(bitmap[2 * size - 1])
    {
      RoundedLeast(nrpages);
      pfn, node := AllocBlock(Rounded(nrpages));
    }

    /** The outcome of asking for an aligned block of n pages. */
    ghost predicate Allocated(live0: set<nat>, b0: seq<nat>, refs0: seq<nat>, n: nat, pfn: nat, node: nat)
      reads this, bitmap, refCnt
    {
      if !HasRun(size, live0, n) then
        pfn == 0 && live == live0 && bitmap[..] == b0 && refCnt[..] == refs0
      else
        && LowestRun(size, live0, pfn, n)
        && IsNode(size, node) && Start(size, node) == pfn && NodeSize(size, node) == n
        && node !in live0 && live == live0 + {node}
        && pfn < |refs0| && refs0[pfn] == 0 && refCnt[..] == refs0[pfn := 1]
    }

    /** The two loops of buddy_alloc: leftmost descent to a node of n pages,
        then the climb that refreshes the ancestors. */
    method AllocBlock(n: nat) returns (pfn: nat, ghost node: nat)
      requires Valid() && IsPow2(n)
      modifies this, bitmap, refCnt
      ensures Valid()
      ensures Allocated(old(live), old(bitmap[..]), old(refCnt[..]), n, pfn, node)
      ensures bitmap[2 * size - 1] == old(bitmap[2 * size - 1])
    {
      ghost var before, b, refs := live, bitmap[..], refCnt[..];
      RootRun(size, live, n);
      var index: nat, nodeSize := 0, size;
      pfn, node := 0, 0;
      if bitmap[index] < n {
        return;
      }
      while nodeSize != n
        invariant live == before && bitmap[..] == b && refCnt[..] == refs
        invariant IsNode(size, index) && !Covered(before, index)
        invariant nodeSize == NodeSize(size, index) && n <= Canon(size, before, index)
        invariant forall p: nat :: FreeRun(size, before, p, n) ==> Start(size, index) <= p
        decreases nodeSize
      {
        DescendStep(size, before, index, n);
        if bitmap[Left(index)] >= n {
          index := Left(index);
        } else {
          index := Right(index);
        }
        nodeSize := nodeSize / 2;
      }
      node := index;
      AllocNode(size, before, node);
      assert LowestRun(size, before, Start(size, node), n);
      bitmap[index] := 0;
      assert (index + 1) * nodeSize - size == Start(size, node) by { StartClosed(size, node); }
      pfn := (index + 1) * nodeSize - size;
      refCnt[pfn] := 1;
      live := before + {node};
      AllocatedCell(b, size, before, node);
      HeadsAfterAlloc(refs, size, before, node);
      assert bitmap[..] == b[node := 0] && refCnt[..] == refs[pfn := 1];
      RefreshAncestors(index);
    }

    /** The closing loop of buddy_alloc: every ancestor gets the larger of its
        children's cells; above an allocated node that equals the full rule. */
    method RefreshAncestors(node: nat)
      requires WfLive(size, live) && node in live && bitmap.Length == 2 * size
      requires CanonicalOff(bitmap[..], size, live, node) && bitmap[node] < NodeSize(size, node)
      modifies bitmap
      ensures Canonical(bitmap[..], size, live)
      ensures bitmap[2 * size - 1] == old(bitmap[2 * size - 1])
    {
      var index := node;
      while index > 0
        invariant IsNode(size, index) && Under(index, node) && bitmap[..][index] < NodeSize(size, index)
        invariant CanonicalOff(bitmap[..], size, live, index)
        invariant bitmap[2 * size - 1] == old(bitmap[2 * size - 1])
        decreases index
      {
        PathParent(size, live, node, index);
        ghost var b, child := bitmap[..], index;
        index := Parent(index);
        ClimbWrite(b, size, live, child);
        var l, r := bitmap[Left(index)], bitmap[Right(index)];
        bitmap[index] := if l > r then l else r;
        assert bitmap[..] == b[index := Combine(b[Left(index)], b[Right(index)], NodeSize(size, index))];
      }
      NoneStale(bitmap[..], size, live);
    }
  }
}
