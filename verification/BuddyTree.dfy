/** The buddy allocator's complete binary tree, as geometry and as a
    specification: which pages a node stands for, and which value every cell
    of the bitmap must hold when a given set of blocks is live. */
module BuddyTree {
  import opened Bits

  /** PARENT, for any index but the root's */
  function Parent(i: nat): nat
    requires i > 0
  {
    (i + 1) / 2 - 1
  }

  function Left(i: nat): nat { i * 2 + 1 }

  function Right(i: nat): nat { i * 2 + 2 }

  /** Number of pages under node i of a tree over `size` pages. */
  function NodeSize(size: nat, i: nat): nat {
    if i == 0 then size else NodeSize(size, Parent(i)) / 2
  }

  ghost predicate IsNode(size: nat, i: nat) {
    IsPow2(size) && i < 2 * size - 1
  }

  /** First page under node i. */
  function Start(size: nat, i: nat): nat {
    if i == 0 then 0
    else Start(size, Parent(i)) + if i == Left(Parent(i)) then 0 else NodeSize(size, i)
  }

  /** a is i or one of i's ancestors. */
  ghost predicate Under(a: nat, i: nat) {
    i == a || (i > a && Under(a, Parent(i)))
  }

  // ----------------------------------------------------------- geometry

  /** buddy_alloc computes the first page of a node without walking up. */
  lemma {:induction false} StartClosed(size: nat, i: nat)
    requires IsNode(size, i)
    ensures IsPow2(NodeSize(size, i))
    ensures (i + 1) * NodeSize(size, i) == Start(size, i) + size
    ensures Start(size, i) + NodeSize(size, i) <= size
    ensures NodeSize(size, i) == 1 <==> i >= size - 1
    ensures i > 0 ==> NodeSize(size, Parent(i)) == 2 * NodeSize(size, i)
  {
    if i > 0 {
      var q := Parent(i);
      StartClosed(size, q);
      HalveNode(size, i);
      LeafIffOne(size, i, NodeSize(size, i), Start(size, i));
    }
  }

  lemma HalveNode(size: nat, i: nat)
    requires i > 0 && IsPow2(NodeSize(size, Parent(i))) && NodeSize(size, Parent(i)) != 1
    requires (Parent(i) + 1) * NodeSize(size, Parent(i)) == Start(size, Parent(i)) + size
    ensures IsPow2(NodeSize(size, i)) && NodeSize(size, Parent(i)) == 2 * NodeSize(size, i)
    ensures (i + 1) * NodeSize(size, i) == Start(size, i) + size
  {
    Pow2Half(NodeSize(size, Parent(i)));
    HalfIndex(i, Parent(i), NodeSize(size, i), Start(size, Parent(i)) + size);
  }

  lemma HalfIndex(i: nat, q: nat, n: nat, end: nat)
    requires (q + 1) * (2 * n) == end
    ensures i == 2 * q + 1 ==> (i + 1) * n == end
    ensures i == 2 * q + 2 ==> (i + 1) * n == end + n
  {
    var m := (q + 1) * n;
    assert (2 * q + 2) * n == 2 * m == end;
    assert (2 * q + 3) * n == 2 * m + n;
  }

  lemma LeafIffOne(size: nat, i: nat, n: nat, start: nat)
    requires n >= 1 && start + n <= size && (i + 1) * n == start + size
    ensures n == 1 <==> i + 1 >= size
  {
    if n == 1 {
      assert (i + 1) * 1 == i + 1;
    } else {
      MulMonotone(2, n, i + 1);
    }
  }

  /** A node's page range lies inside the memory and is halved by its children. */
  lemma Geometry(size: nat, i: nat)
    requires IsNode(size, i)
    ensures IsPow2(NodeSize(size, i)) && 1 <= NodeSize(size, i)
    ensures Start(size, i) + NodeSize(size, i) <= size
    ensures NodeSize(size, i) == 1 <==> i >= size - 1
    ensures i > 0 ==> NodeSize(size, Parent(i)) == 2 * NodeSize(size, i)
  {
    StartClosed(size, i);
  }

  /** What Geometry says about the two children of an inner node. */
  lemma Children(size: nat, i: nat)
    requires IsNode(size, i) && i < size - 1
    ensures IsNode(size, Left(i)) && IsNode(size, Right(i))
    ensures NodeSize(size, i) == 2 * NodeSize(size, Left(i)) == 2 * NodeSize(size, Right(i))
    ensures Start(size, Left(i)) == Start(size, i)
    ensures Start(size, Right(i)) == Start(size, i) + NodeSize(size, Left(i))
  {
    assert Parent(Left(i)) == Parent(Right(i)) == i;
    Geometry(size, Left(i));
    Geometry(size, Right(i));
  }

  /** The leaf of page p is node p + size - 1: buddy_free's starting index. */
  lemma LeafOfPage(size: nat, p: nat)
    requires IsPow2(size) && p < size
    ensures IsNode(size, p + size - 1)
    ensures NodeSize(size, p + size - 1) == 1 && Start(size, p + size - 1) == p
  {
    StartClosed(size, p + size - 1);
  }

  lemma {:induction false} UnderLe(a: nat, i: nat)
    requires Under(a, i)
    ensures a <= i
  {
  }

  lemma {:induction false} UnderTransitive(a: nat, b: nat, c: nat)
    requires Under(a, b) && Under(b, c)
    ensures Under(a, c)
    decreases c
  {
    if b != c {
      UnderTransitive(a, b, Parent(c));
    }
  }

  lemma UnderChild(a: nat, c: nat)
    requires c > 0 && Parent(c) == a
    ensures Under(a, c)
  {
    assert Under(a, a);
  }

  /** Ancestors of one node form a chain. */
  lemma {:induction false} UnderChain(a: nat, b: nat, x: nat)
    requires Under(a, x) && Under(b, x)
    ensures Under(a, b) || Under(b, a)
  {
    if a != x && b != x {
      UnderChain(a, b, Parent(x));
    }
  }

  /** A leaf whose page lies in node k's range is a descendant of k. */
  lemma {:induction false} LeafInRange(size: nat, k: nat, leaf: nat)
    requires IsNode(size, k) && IsNode(size, leaf) && leaf >= size - 1
    requires Start(size, k) <= Start(size, leaf) < Start(size, k) + NodeSize(size, k)
    ensures Under(k, leaf)
    decreases 2 * size - k
  {
    Geometry(size, k);
    Geometry(size, leaf);
    if k >= size - 1 {
      StartClosed(size, k);
      StartClosed(size, leaf);
    } else {
      Children(size, k);
      var c := if Start(size, leaf) < Start(size, Right(k)) then Left(k) else Right(k);
      LeafInRange(size, c, leaf);
      UnderChild(k, c);
      UnderTransitive(k, c, leaf);
    }
  }

  // ----------------------------------------------------------- live blocks

  /** Some proper ancestor of i is live. */
  ghost predicate Covered(live: set<nat>, i: nat) {
    i > 0 && (Parent(i) in live || Covered(live, Parent(i)))
  }

  /** Live blocks are tree nodes, none inside another. */
  ghost predicate WfLive(size: nat, live: set<nat>) {
    forall i :: i in live ==> IsNode(size, i) && !Covered(live, i)
  }

  lemma {:induction false} CoveredIff(live: set<nat>, i: nat)
    ensures Covered(live, i) <==> exists a :: a in live && a != i && Under(a, i)
  {
    if i > 0 {
      var q := Parent(i);
      CoveredIff(live, q);
      if Covered(live, i) {
        if q in live {
          UnderChild(q, i);
        } else {
          var a :| a in live && a != q && Under(a, q);
          UnderLe(a, q);
          assert Under(a, i);
        }
      }
    }
  }

  /** Page p belongs to a live block. */
  ghost predicate PageLive(size: nat, live: set<nat>, p: int) {
    exists k :: k in live && InBlock(size, k, p)
  }

  predicate InBlock(size: nat, k: nat, p: int) {
    Start(size, k) <= p < Start(size, k) + NodeSize(size, k)
  }

  /** Live blocks are pairwise disjoint. */
  lemma LiveDisjoint(size: nat, live: set<nat>, j: nat, k: nat, p: nat)
    requires WfLive(size, live) && IsPow2(size) && j in live && k in live
    requires p < size && InBlock(size, j, p) && InBlock(size, k, p)
    ensures j == k
  {
    LeafOfPage(size, p);
    var leaf := p + size - 1;
    LeafInRange(size, j, leaf);
    LeafInRange(size, k, leaf);
    UnderChain(j, k, leaf);
    CoveredIff(live, j);
    CoveredIff(live, k);
  }

  // ----------------------------------------------------------- the canonical tree

  /** How a parent's cell is recomputed from its children's. */
  function Combine(l: nat, r: nat, nodeSize: nat): nat {
    if l + r == nodeSize then nodeSize else if l > r then l else r
  }

  /** The value every cell must hold, from the set of live blocks alone. */
  ghost function Canon(size: nat, live: set<nat>, i: nat): nat
    requires IsNode(size, i)
    decreases 2 * size - i
  {
    if Covered(live, i) then NodeSize(size, i)
    else if i in live then 0
    else if i >= size - 1 then 1
    else Combine(Canon(size, live, Left(i)), Canon(size, live, Right(i)), NodeSize(size, i))
  }

  lemma {:induction false} CanonBound(size: nat, live: set<nat>, i: nat)
    requires IsNode(size, i)
    ensures Canon(size, live, i) <= NodeSize(size, i)
    decreases 2 * size - i
  {
    Geometry(size, i);
    if i < size - 1 {
      Children(size, i);
      CanonBound(size, live, Left(i));
      CanonBound(size, live, Right(i));
    }
  }

  /** A full uncovered node has only full, unallocated nodes below it. */
  lemma {:induction false} FullMeansFree(size: nat, live: set<nat>, i: nat, x: nat)
    requires IsNode(size, i) && IsNode(size, x) && Under(i, x)
    requires !Covered(live, i) && Canon(size, live, i) == NodeSize(size, i)
    ensures !Covered(live, x) && Canon(size, live, x) == NodeSize(size, x) && x !in live
    decreases x
  {
    Geometry(size, x);
    if x != i {
      var q := Parent(x);
      FullMeansFree(size, live, i, q);
      Geometry(size, q);
      Children(size, q);
      CanonBound(size, live, Left(q));
      CanonBound(size, live, Right(q));
    }
  }

  /** Without live blocks at or above or below, a subtree is full. */
  lemma {:induction false} FreeMeansFull(size: nat, live: set<nat>, i: nat)
    requires IsNode(size, i) && !Covered(live, i)
    requires forall k :: k in live ==> !Under(i, k)
    ensures Canon(size, live, i) == NodeSize(size, i)
    decreases 2 * size - i
  {
    Geometry(size, i);
    assert Under(i, i);
    if i < size - 1 {
      Children(size, i);
      forall c, k | (c == Left(i) || c == Right(i)) && k in live
        ensures !Under(c, k)
      {
        UnderChild(i, c);
        if Under(c, k) { UnderTransitive(i, c, k); }
      }
      FreeMeansFull(size, live, Left(i));
      FreeMeansFull(size, live, Right(i));
    }
  }

  /** Adding a block at node i, or taking it away, changes no cell but those
      of i and its ancestors. */
  lemma {:induction false} OffPath(size: nat, live: set<nat>, i: nat, j: nat)
    requires IsNode(size, i) && IsNode(size, j) && i !in live
    requires WfLive(size, live + {i}) && !Under(j, i)
    ensures Canon(size, live, j) == Canon(size, live + {i}, j)
    decreases 2 * size - j
  {
    var more := live + {i};
    CoveredIff(live, j);
    CoveredIff(more, j);
    Geometry(size, j);
    if Under(i, j) {
      // strictly below i: covered with the block, free without it
      assert i != j by { assert Under(i, i); }
      assert Covered(more, j);
      CoveredIff(more, i);
      forall k | k in live
        ensures !Under(j, k) && !(Under(k, j) && k != j)
      {
        CoveredIff(more, k);
        UnderLe(i, j);
        if Under(j, k) {
          UnderLe(j, k);
          UnderTransitive(i, j, k);
        } else if Under(k, j) {
          UnderChain(i, k, j);
        }
      }
      FreeMeansFull(size, live, j);
    } else if j < size - 1 && j !in live {
      assert j != i;
      Children(size, j);
      forall c | c == Left(j) || c == Right(j)
        ensures !Under(c, i)
      {
        UnderChild(j, c);
        if Under(c, i) { UnderTransitive(j, c, i); }
      }
      OffPath(size, live, i, Left(j));
      OffPath(size, live, i, Right(j));
    }
  }

  // ----------------------------------------------------------- aligned free runs

  /** Pages [p, p + n) are free, n-aligned and inside the memory. */
  ghost predicate FreeRun(size: nat, live: set<nat>, p: nat, n: nat) {
    n > 0 && p % n == 0 && p + n <= size && forall x :: p <= x < p + n ==> !PageLive(size, live, x)
  }

  ghost predicate RunWithin(size: nat, live: set<nat>, n: nat, lo: int, hi: int) {
    exists p: nat :: lo <= p && p + n <= hi && FreeRun(size, live, p, n)
  }

  lemma NodeAligned(size: nat, i: nat)
    requires IsNode(size, i)
    ensures NodeSize(size, i) > 0 && Start(size, i) % NodeSize(size, i) == 0
  {
    StartClosed(size, i);
    var n := NodeSize(size, i);
    var q := Pow2Divides(n, size);
    MultipleDifference(i + 1, q, n, Start(size, i));
  }

  lemma MultipleDifference(a: nat, b: nat, n: nat, d: nat)
    requires n > 0 && a * n == d + b * n
    ensures d % n == 0
  {
    if a < b {
      MulMonotone(a, b, n);
      DivModUnique(0, n, 0, 0);
    } else {
      assert (a - b) * n == a * n - b * n;
      DivModUnique(d, n, a - b, 0);
    }
  }

  /** Of two multiples of n the smaller ends before the larger begins. */
  lemma MultiplesApart(p: nat, mid: nat, n: nat)
    requires n > 0 && p % n == 0 && mid % n == 0 && p < mid
    ensures p + n <= mid
  {
    var a, b := p / n, mid / n;
    assert p == a * n && mid == b * n;
    if b <= a { MulMonotone(b, a, n); }
    MulMonotone(a + 1, b, n);
    assert (a + 1) * n == a * n + n;
  }

  lemma MultipleOfMultiple(mid: nat, half: nat, n: nat)
    requires IsPow2(n) && IsPow2(half) && n <= half && mid % half == 0
    ensures mid % n == 0
  {
    var q := Pow2Divides(n, half);
    var b := mid / half;
    assert mid == b * half == b * (q * n) == (b * q) * n;
    DivModUnique(mid, n, b * q, 0);
  }

  /** An aligned run inside a larger node lies in one of its halves. */
  lemma RunInHalf(size: nat, i: nat, p: nat, n: nat)
    requires IsNode(size, i) && i < size - 1 && IsPow2(n) && n < NodeSize(size, i)
    requires p % n == 0 && Start(size, i) <= p && p + n <= Start(size, i) + NodeSize(size, i)
    ensures n <= NodeSize(size, Left(i))
    ensures p + n <= Start(size, Right(i)) || Start(size, Right(i)) <= p
  {
    Geometry(size, i);
    Children(size, i);
    Geometry(size, Right(i));
    NodeAligned(size, Right(i));
    Pow2Gap(n, NodeSize(size, i));
    MultipleOfMultiple(Start(size, Right(i)), NodeSize(size, Right(i)), n);
    if p < Start(size, Right(i)) {
      MultiplesApart(p, Start(size, Right(i)), n);
    }
  }

  /** A free page of an uncovered leaf. */
  lemma LeafFree(size: nat, live: set<nat>, i: nat)
    requires IsNode(size, i) && i >= size - 1 && WfLive(size, live)
    requires !Covered(live, i) && i !in live
    ensures FreeRun(size, live, Start(size, i), 1)
  {
    Geometry(size, i);
    var p := Start(size, i);
    if PageLive(size, live, p) {
      var k :| k in live && InBlock(size, k, p);
      LeafInRange(size, k, i);
      CoveredIff(live, i);
    }
  }

  /** A free run inside a live block cannot be. */
  lemma NoRunInLive(size: nat, live: set<nat>, i: nat, n: nat)
    requires IsNode(size, i) && i in live
    ensures !RunWithin(size, live, n, Start(size, i), Start(size, i) + NodeSize(size, i))
  {
    if RunWithin(size, live, n, Start(size, i), Start(size, i) + NodeSize(size, i)) {
      var p: nat :| Start(size, i) <= p && p + n <= Start(size, i) + NodeSize(size, i)
                    && FreeRun(size, live, p, n);
      assert InBlock(size, i, p);
      assert PageLive(size, live, p);
    }
  }

  /** A node is a free run as a whole exactly when both halves are. */
  lemma RunOfHalves(size: nat, live: set<nat>, i: nat)
    requires IsNode(size, i) && i < size - 1
    ensures var m := NodeSize(size, Left(i));
            FreeRun(size, live, Start(size, i), 2 * m)
            <==> FreeRun(size, live, Start(size, Left(i)), m) && FreeRun(size, live, Start(size, Right(i)), m)
  {
    Geometry(size, i);
    Children(size, i);
    NodeAligned(size, i);
    NodeAligned(size, Left(i));
    NodeAligned(size, Right(i));
    JoinRuns(size, live, Start(size, i), Start(size, Right(i)), NodeSize(size, Left(i)));
  }

  lemma JoinRuns(size: nat, live: set<nat>, p: nat, q: nat, m: nat)
    requires m > 0 && p % (2 * m) == 0 && p % m == 0 && q % m == 0 && q == p + m && p + 2 * m <= size
    ensures FreeRun(size, live, p, 2 * m) <==> FreeRun(size, live, p, m) && FreeRun(size, live, q, m)
  {
  }

  /** The only run as large as a node is the node itself. */
  lemma RunOfNode(size: nat, live: set<nat>, i: nat)
    requires IsNode(size, i)
    ensures RunWithin(size, live, NodeSize(size, i), Start(size, i), Start(size, i) + NodeSize(size, i))
            <==> FreeRun(size, live, Start(size, i), NodeSize(size, i))
  {
    Geometry(size, i);
  }

  lemma RunSplit(size: nat, live: set<nat>, n: nat, lo: nat, mid: nat, hi: nat)
    requires lo <= mid <= hi
    requires forall p: nat :: lo <= p && p + n <= hi && FreeRun(size, live, p, n) ==> p + n <= mid || mid <= p
    ensures RunWithin(size, live, n, lo, hi)
            <==> RunWithin(size, live, n, lo, mid) || RunWithin(size, live, n, mid, hi)
  {
    if RunWithin(size, live, n, lo, hi) {
      var p: nat :| lo <= p && p + n <= hi && FreeRun(size, live, p, n);
      assert p + n <= mid || mid <= p;
    }
  }

  ghost predicate RunUnder(size: nat, live: set<nat>, i: nat, n: nat) {
    RunWithin(size, live, n, Start(size, i), Start(size, i) + NodeSize(size, i))
  }

  lemma RunUnderChildren(size: nat, live: set<nat>, i: nat, n: nat)
    requires IsNode(size, i) && i < size - 1 && IsPow2(n) && n < NodeSize(size, i)
    ensures RunUnder(size, live, i, n) <==> RunUnder(size, live, Left(i), n) || RunUnder(size, live, Right(i), n)
  {
    Children(size, i);
    var lo, mid, hi := Start(size, i), Start(size, Right(i)), Start(size, i) + NodeSize(size, i);
    forall p: nat | lo <= p && p + n <= hi && FreeRun(size, live, p, n)
      ensures p + n <= mid || mid <= p
    {
      RunInHalf(size, i, p, n);
    }
    RunSplit(size, live, n, lo, mid, hi);
  }

  lemma RunUnderWhole(size: nat, live: set<nat>, i: nat)
    requires IsNode(size, i) && i < size - 1
    ensures RunUnder(size, live, i, NodeSize(size, i))
            <==> RunUnder(size, live, Left(i), NodeSize(size, Left(i)))
                 && RunUnder(size, live, Right(i), NodeSize(size, Right(i)))
  {
    Children(size, i);
    RunOfNode(size, live, Left(i));
    RunOfNode(size, live, Right(i));
    RunOfNode(size, live, i);
    RunOfHalves(size, live, i);
  }

  /** An uncovered node's canonical value is its longest aligned free run: it
      reaches n exactly when a free aligned run of n pages lies in its range. */
  lemma {:induction false} LongestRun(size: nat, live: set<nat>, i: nat, n: nat)
    requires IsNode(size, i) && WfLive(size, live) && !Covered(live, i)
    requires IsPow2(n) && n <= NodeSize(size, i)
    ensures Canon(size, live, i) >= n <==> RunUnder(size, live, i, n)
    decreases 2 * size - i
  {
    Geometry(size, i);
    if i in live {
      NoRunInLive(size, live, i, n);
    } else if i >= size - 1 {
      LeafFree(size, live, i);
    } else {
      LongestRunInner(size, live, i, n);
    }
  }

  lemma CombinedHalves(size: nat, live: set<nat>, i: nat)
    requires IsNode(size, i) && i < size - 1 && !Covered(live, i) && i !in live
    ensures IsNode(size, Left(i)) && IsNode(size, Right(i)) && !Covered(live, Left(i)) && !Covered(live, Right(i))
    ensures Canon(size, live, Left(i)) <= NodeSize(size, Left(i))
    ensures Canon(size, live, Right(i)) <= NodeSize(size, Right(i))
    ensures Canon(size, live, i) == Combine(Canon(size, live, Left(i)), Canon(size, live, Right(i)), NodeSize(size, i))
  {
    Children(size, i);
    CanonBound(size, live, Left(i));
    CanonBound(size, live, Right(i));
  }

  lemma {:induction false} LongestRunInner(size: nat, live: set<nat>, i: nat, n: nat)
    requires IsNode(size, i) && i < size - 1 && WfLive(size, live) && !Covered(live, i) && i !in live
    requires IsPow2(n) && n <= NodeSize(size, i)
    ensures Canon(size, live, i) >= n <==> RunUnder(size, live, i, n)
    decreases 2 * size - i, 0
  {
    var l, r := Left(i), Right(i);
    Children(size, i);
    Geometry(size, l);
    CombinedHalves(size, live, i);
    if n == NodeSize(size, i) {
      LongestRun(size, live, l, NodeSize(size, l));
      LongestRun(size, live, r, NodeSize(size, r));
      RunUnderWhole(size, live, i);
    } else {
      Geometry(size, i);
      Pow2Gap(n, NodeSize(size, i));
      LongestRun(size, live, l, n);
      LongestRun(size, live, r, n);
      RunUnderChildren(size, live, i, n);
    }
  }
}
