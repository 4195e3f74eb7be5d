/**
 * The allocator invariant WellFormed is kept by buddy_alloc, and by
 * buddy_free of a block that is handed out: free blocks stay aligned to
 * their order, all pages of a block keep one order, every list holds blocks
 * of its own order in ascending page order, and no two free buddies are
 * left unmerged.
 */
module BuddyInvariant {
  import opened Bits
  import opened PriQueue
  import opened BuddySpec
  import opened BuddyProofs

  /** One entry per page, each an order from MIN_ORDER to MAX_ORDER. */
  predicate OrdersInRange(bs: seq<int>)
  {
    |bs| == NPAGES && forall i :: 0 <= i < NPAGES ==> MIN_ORDER <= bs[i] <= MAX_ORDER
  }

  // ---------------------------------------------------------------- uniform blocks

  /** Splitting an aligned block of order o into its two halves of order o - 1 keeps every block uniform. */
  lemma {:induction false} UniformSplit(bs: seq<int>, r: seq<int>, x: nat, o: nat)
    requires OrdersInRange(bs) && UniformBlocks(bs)
    requires MIN_ORDER < o <= MAX_ORDER && Aligned(x, o - MIN_ORDER) && x + Span(o) <= NPAGES
    requires forall p :: x <= p < x + Span(o) ==> bs[p] == o
    requires |r| == NPAGES
    requires forall p :: 0 <= p < NPAGES ==> r[p] == if x <= p < x + Span(o) then o - 1 else bs[p]
    ensures OrdersInRange(r) && UniformBlocks(r)
  {
    var k := o - 1 - MIN_ORDER;
    var d := Span(o - 1);
    AlignedHalves(x, k);
    SpanDouble(o - 1);
    forall i, j | 0 <= i < NPAGES && 0 <= j < NPAGES && BlockNumber(r, i, j) == BlockNumber(r, i, i)
      ensures r[j] == r[i]
    {
      if x <= i < x + Span(o) {
        var a := if i < x + d then x else x + d;
        ChunkRange(a, i, k);
        ChunkRange(a, j, k);
      } else {
        assert BlockNumber(bs, i, j) == BlockNumber(bs, i, i);
        if x <= j < x + Span(o) {
          assert bs[j] == bs[i];
          ChunkRange(x, j, o - MIN_ORDER);
          ChunkRange(x, i, o - MIN_ORDER);
        }
      }
    }
  }

  /** Joining an aligned run of order n whose pages have orders up to n into one block of order n keeps every block uniform. */
  lemma {:induction false} UniformMerge(bs: seq<int>, r: seq<int>, lo: nat, n: nat)
    requires OrdersInRange(bs) && UniformBlocks(bs)
    requires MIN_ORDER <= n <= MAX_ORDER && Aligned(lo, n - MIN_ORDER) && lo + Span(n) <= NPAGES
    requires forall p :: lo <= p < lo + Span(n) ==> bs[p] <= n
    requires |r| == NPAGES
    requires forall p :: 0 <= p < NPAGES ==> r[p] == if lo <= p < lo + Span(n) then n else bs[p]
    ensures OrdersInRange(r) && UniformBlocks(r)
  {
    forall i, j | 0 <= i < NPAGES && 0 <= j < NPAGES && BlockNumber(r, i, j) == BlockNumber(r, i, i)
      ensures r[j] == r[i]
    {
      if lo <= i < lo + Span(n) {
        ChunkRange(lo, i, n - MIN_ORDER);
        ChunkRange(lo, j, n - MIN_ORDER);
      } else {
        assert BlockNumber(bs, i, j) == BlockNumber(bs, i, i);
        if lo <= j < lo + Span(n) {
          assert bs[j] == bs[i];
          ChunkNested(j, i, bs[i] - MIN_ORDER, n - MIN_ORDER);
          ChunkRange(lo, j, n - MIN_ORDER);
          ChunkRange(lo, i, n - MIN_ORDER);
        }
      }
    }
  }

  // ---------------------------------------------------------------- buddy_alloc

  /**
   * Along the split loop, down to order j from the block x of order avail:
   * every block is uniform, and each upper half x + Span(l) split off so far
   * has order l.
   */
  ghost predicate ChainUniform(s: State, avail: nat, j: nat, x: nat)
    requires Shape(s) && MIN_ORDER <= j <= avail <= MAX_ORDER
  {
    UniformBlocks(s.blockSize) &&
    forall l :: j <= l < avail ==> x + Span(l) < NPAGES && s.blockSize[x + Span(l)] == l
  }

  /** A split pass of the block x of order j + 1 at the head of its list keeps ChainUniform. */
  lemma {:induction false} SplitKeepsUniform(s1: State, s: State, avail: nat, j: nat, x: nat)
    requires Shape(s1) && MIN_ORDER <= j < avail <= MAX_ORDER && s1.freeArea[j + 1] != [] && s1.freeArea[j + 1][0] == x
    requires Aligned(x, j + 1 - MIN_ORDER) && x + Span(j + 1) <= NPAGES
    requires forall p :: x <= p < x + Span(j + 1) ==> s1.blockSize[p] == j + 1
    requires ChainUniform(s1, avail, j + 1, x) && s == SplitStep(s1, j + 1)
    ensures ChainUniform(s, avail, j, x)
  {
    SplitStepRetags(s1, j + 1);
    UniformSplit(s1.blockSize, s.blockSize, x, j + 1);
    SpanDouble(j);
    forall l | j <= l < avail
      ensures x + Span(l) < NPAGES && s.blockSize[x + Span(l)] == l
    {
      if l > j {
        Pow2Monotone(j + 1 - MIN_ORDER, l - MIN_ORDER);
      }
    }
  }

  /** One more pass of the split loop, from s1 to s, keeps ChainUniform. */
  lemma {:induction false} UniformStep(st: State, s1: State, s: State, req: nat, avail: nat, j: nat, x: nat)
    requires Shape(st) && MIN_ORDER <= req <= j < avail <= MAX_ORDER && st.freeArea[avail] != [] && ChainStart(st, req, avail)
    requires x == st.freeArea[avail][0] && s1 == SplitDown(st, avail, j + 1) && s == SplitDown(st, avail, j)
    requires ChainUniform(s1, avail, j + 1, x)
    ensures ChainUniform(s, avail, j, x)
  {
    SplitDownPrev(st, avail, j, s1, s);
    ChainBlock(st, s1, req, avail, j + 1, x);
    HeadDown(st, s1, req, avail, j + 1, x);
    SplitKeepsUniform(s1, s, avail, j, x);
  }

  /** The passes down to j are the passes down to j + 1 and then the pass of order j + 1. */
  lemma {:induction false} SplitDownPrev(st: State, avail: nat, j: nat, s1: State, s: State)
    requires Shape(st) && MIN_ORDER <= j < avail <= MAX_ORDER && st.freeArea[avail] != []
    requires s1 == SplitDown(st, avail, j + 1) && s == SplitDown(st, avail, j)
    ensures s == SplitStep(s1, j + 1)
  {
  }

  /** After the passes down to j, x starts an aligned block of order j whose pages all have order j. */
  lemma {:induction false} ChainBlock(st: State, s: State, req: nat, avail: nat, j: nat, x: nat)
    requires Shape(st) && MIN_ORDER <= req <= j <= avail <= MAX_ORDER && st.freeArea[avail] != [] && ChainStart(st, req, avail)
    requires x == st.freeArea[avail][0] && s == SplitDown(st, avail, j)
    ensures Aligned(x, j - MIN_ORDER) && x + Span(j) <= NPAGES
    ensures forall p :: x <= p < x + Span(j) ==> s.blockSize[p] == j
  {
    OrdersDown(st, s, req, avail, j, x);
  }

  /** ChainUniform along the split loop, by induction on the passes. */
  lemma {:induction false} UniformDown(st: State, s: State, req: nat, avail: nat, j: nat, x: nat)
    requires Shape(st) && MIN_ORDER <= req <= j <= avail <= MAX_ORDER && st.freeArea[avail] != [] && ChainStart(st, req, avail)
    requires UniformBlocks(st.blockSize)
    requires x == st.freeArea[avail][0] && s == SplitDown(st, avail, j)
    ensures ChainUniform(s, avail, j, x)
    decreases avail - j
  {
    if j < avail {
      var s1 := SplitDown(st, avail, j + 1);
      UniformDown(st, s1, req, avail, j + 1, x);
      UniformStep(st, s1, s, req, avail, j, x);
    }
  }

  /** The lists buddy_alloc leaves hold only blocks aligned to their order. */
  lemma {:induction false} HandedOutAligned(st: State, r: State, req: nat, avail: nat, x: nat)
    requires WellFormed(st) && Shape(r) && MIN_ORDER <= req <= avail <= MAX_ORDER && st.freeArea[avail] != []
    requires x == st.freeArea[avail][0] && HandedOut(st, r, req, avail, x)
    ensures ListsAligned(r.freeArea)
  {
    ListedBlock(st, avail, x);
    forall o | MIN_ORDER <= o <= MAX_ORDER
      ensures AllAligned(r.freeArea[o], o - MIN_ORDER)
    {
      if req <= o < avail {
        StartBlockBelow(x, avail, o + 1);
        AlignedHalves(x, o - MIN_ORDER);
        assert r.freeArea[o] == [x + Span(o)];
      } else if o == avail {
        assert AllAligned(st.freeArea[avail], avail - MIN_ORDER);
        RemoveAligned(st.freeArea[avail], avail - MIN_ORDER, 0);
      } else {
        assert AllAligned(st.freeArea[o], o - MIN_ORDER);
      }
    }
  }

  /** A listed block other than x lies outside the block x of order avail. */
  lemma {:induction false} OutsideTaken(st: State, avail: nat, x: nat, o: nat, y: nat)
    requires WellFormed(st) && MIN_ORDER <= avail <= MAX_ORDER && MIN_ORDER <= o <= MAX_ORDER
    requires x in st.freeArea[avail] && y in st.freeArea[o] && (o != avail || y != x)
    ensures !(x <= y < x + Span(avail))
  {
    FreeBlocksDisjoint(st, avail, x, o, y);
  }

  /** Every list buddy_alloc leaves holds blocks of its own order, in ascending order. */
  lemma {:induction false} HandedOutConsistent(st: State, r: State, req: nat, avail: nat, x: nat)
    requires WellFormed(st) && Shape(r) && MIN_ORDER <= req <= avail <= MAX_ORDER && st.freeArea[avail] != []
    requires x == st.freeArea[avail][0] && HandedOut(st, r, req, avail, x)
    requires ChainUniform(r, avail, req, x)
    ensures ListsConsistent(r)
  {
    var s := st.freeArea[avail];
    assert x in s;
    forall o, k | MIN_ORDER <= o <= MAX_ORDER && 0 <= k < |r.freeArea[o]|
      ensures r.blockSize[r.freeArea[o][k]] == o
    {
      var y := r.freeArea[o][k];
      if req <= o < avail {
        assert r.freeArea[o] == [x + Span(o)];
      } else if o == avail {
        assert y == s[k + 1] && s[0] < s[k + 1];
        OutsideTaken(st, avail, x, o, y);
      } else {
        assert y == st.freeArea[o][k];
        OutsideTaken(st, avail, x, o, y);
      }
    }
    forall o | MIN_ORDER <= o <= MAX_ORDER
      ensures StrictlyAscending(r.freeArea[o])
    {
      if o == avail {
        assert forall a, b :: 0 <= a < b < |s| - 1 ==> s[1..][a] == s[a + 1] < s[b + 1] == s[1..][b];
      } else if req <= o {
        assert o < avail ==> r.freeArea[o] == [x + Span(o)];
      }
    }
  }

  /** buddy_alloc leaves no two free buddies in one list. */
  lemma {:induction false} HandedOutNoBuddies(st: State, r: State, req: nat, avail: nat, x: nat)
    requires Shape(st) && NoFreeBuddies(st) && Shape(r) && MIN_ORDER <= req <= avail <= MAX_ORDER && st.freeArea[avail] != []
    requires x == st.freeArea[avail][0] && Aligned(x, avail - MIN_ORDER) && x + Span(avail) <= NPAGES
    requires r.freeArea[avail] == st.freeArea[avail][1..]
    requires forall l :: req <= l < avail ==> r.freeArea[l] == [x + Span(l)]
    requires forall l :: 0 <= l <= MAX_ORDER && (l < req || avail < l) ==> r.freeArea[l] == st.freeArea[l]
    ensures NoFreeBuddies(r)
  {
    var s := st.freeArea[avail];
    forall o, k | MIN_ORDER <= o < MAX_ORDER && 0 <= k < |r.freeArea[o]|
      ensures FlipBit(r.freeArea[o][k], o - MIN_ORDER) !in r.freeArea[o]
    {
      if req <= o < avail {
        StartBlockBelow(x, avail, o + 1);
        AlignedHalves(x, o - MIN_ORDER);
        FlipBitTwice(x, o - MIN_ORDER);
        assert r.freeArea[o] == [x + Span(o)];
      } else if o == avail {
        assert r.freeArea[o][k] == s[k + 1];
        RemoveMembers(s, 0);
      } else {
        assert r.freeArea[o] == st.freeArea[o];
      }
    }
  }

  /** The state a successful buddy_alloc leaves satisfies the invariant. */
  lemma {:induction false} HandedOutWellFormed(st: State, r: State, req: nat, avail: nat)
    requires WellFormed(st) && Shape(r) && MIN_ORDER <= req <= avail <= MAX_ORDER && st.freeArea[avail] != []
    requires HandedOut(st, r, req, avail, st.freeArea[avail][0])
    requires ChainUniform(r, avail, req, st.freeArea[avail][0])
    ensures WellFormed(r)
  {
    var x := st.freeArea[avail][0];
    HandedOutAligned(st, r, req, avail, x);
    HandedOutConsistent(st, r, req, avail, x);
    ListedBlock(st, avail, x);
    HandedOutNoBuddies(st, r, req, avail, x);
  }

  /** A successful buddy_alloc keeps the invariant and leaves the block it hands out allocated. */
  lemma {:induction false} AllocServedKeeps(st: State, size: int, req: nat, avail: nat)
    requires WellFormed(st) && RequiredOrder(size) == Some(req) && AvailableFrom(st.freeArea, req) == Some(avail)
    ensures WellFormed(Alloc(st, size).0)
    ensures Alloc(st, size).1 == Some(PageToAddr(st.freeArea[avail][0]))
    ensures Allocated(Alloc(st, size).0, st.freeArea[avail][0])
  {
    var x := st.freeArea[avail][0];
    AllocServesFirstBlock(st, size, req, avail);
    AllocSplitsBlock(st, size, req, avail);
    AllocServed(st, size, req, avail);
    ChainBase(st, req, avail);
    var s := SplitDown(st, avail, req);
    UniformDown(st, s, req, avail, req, x);
    HandedOutWellFormed(st, Alloc(st, size).0, req, avail);
  }

  /** buddy_alloc keeps the invariant, and the block it hands out is allocated in the state it leaves. */
  lemma {:induction false} AllocKeepsWellFormed(st: State, size: int)
    requires WellFormed(st)
    ensures WellFormed(Alloc(st, size).0)
    ensures Alloc(st, size).1.Some? ==> Allocated(Alloc(st, size).0, AddrToPage(Alloc(st, size).1.value))
  {
    AllocNull(st, size);
    if Alloc(st, size).1.Some? {
      RequiredOrderNone(size);
      var req := RequiredOrder(size).value;
      var avail := AvailableFrom(st.freeArea, req).value;
      AllocServedKeeps(st, size, req, avail);
    }
  }

  // ---------------------------------------------------------------- buddy_free

  /** A page below every page of an ascending list can go in front of it. */
  lemma {:induction false} PrependAscending(h: int, r: seq<int>)
    requires StrictlyAscending(r) && forall y :: y in r ==> h < y
    ensures StrictlyAscending([h] + r)
  {
    var q := [h] + r;
    forall a, b | 0 <= a < b < |q|
      ensures q[a] < q[b]
    {
      assert q[b] == r[b - 1] && r[b - 1] in r;
      if a > 0 {
        assert q[a] == r[a - 1];
      }
    }
  }

  /** Offering a page that is not listed keeps a list strictly ascending. */
  lemma {:induction false} OfferPageAscending(s: seq<int>, x: int)
    requires StrictlyAscending(s) && x !in s
    ensures StrictlyAscending(OfferPage(s, x))
  {
    if s == [] {
    } else if x < s[0] {
      assert OfferPage(s, x) == [x] + s;
      forall y | y in s
        ensures x < y
      {
        var i :| 0 <= i < |s| && s[i] == y;
        if i > 0 { assert s[0] < s[i]; }
      }
      PrependAscending(x, s);
    } else {
      var t := s[1..];
      assert StrictlyAscending(t);
      OfferPageAscending(t, x);
      InsertMembers(t, x);
      var r := OfferPage(t, x);
      assert OfferPage(s, x) == [s[0]] + r;
      forall y | y in r
        ensures s[0] < y
      {
        if y != x {
          var i :| 0 <= i < |t| && t[i] == y;
          assert s[i + 1] == y;
        }
      }
      PrependAscending(s[0], r);
    }
  }

  /** Unlinking position k keeps a list strictly ascending, and its page is then gone. */
  lemma {:induction false} RemoveAscending(s: seq<int>, k: nat)
    requires StrictlyAscending(s) && k < |s|
    ensures StrictlyAscending(s[..k] + s[k + 1..]) && s[k] !in s[..k] + s[k + 1..]
  {
    var r := s[..k] + s[k + 1..];
    assert forall j :: 0 <= j < |r| ==> r[j] == if j < k then s[j] else s[j + 1];
  }

  /** The buddy b of the allocated block x is listed, at position k of the list of x's order. */
  ghost predicate BuddyListed(st: State, x: nat, b: nat, k: nat)
    requires Shape(st) && x < NPAGES
  {
    st.blockSize[x] < MAX_ORDER && b == BuddyIndex(x, st.blockSize[x]) &&
    k == IndexOf(st.freeArea[st.blockSize[x]], b) && k < |st.freeArea[st.blockSize[x]]|
  }

  /**
   * The orders after a merge: the aligned block of order o + 1 at lo, whose
   * pages all had order o, takes order o + 1 and every other page keeps its
   * order; every block is still uniform.
   */
  lemma {:induction false} MergeOrders(st: State, x: nat, b: nat, k: nat, lo: nat)
    requires WellFormed(st) && Allocated(st, x) && BuddyListed(st, x, b, k) && lo == (if b > x then x else b)
    ensures var o := st.blockSize[x];
      var m := Merge(st, x, b, o, k);
      Aligned(lo, o + 1 - MIN_ORDER) && lo + Span(o + 1) <= NPAGES &&
      (b == lo + Span(o) || x == lo + Span(o)) && (b == lo || x == lo) &&
      (forall p :: lo <= p < lo + Span(o + 1) ==> st.blockSize[p] == o) &&
      (forall p :: 0 <= p < NPAGES ==> m.blockSize[p] == if lo <= p < lo + Span(o + 1) then o + 1 else st.blockSize[p]) &&
      UniformBlocks(m.blockSize)
  {
    var o := st.blockSize[x];
    var d := Span(o);
    MergeGeometry(x, o);
    SpanDouble(o);
    assert b in st.freeArea[o];
    ListedBlock(st, o, b);
    forall p | x <= p < x + d
      ensures st.blockSize[p] == o
    {
      SameBlock(st.blockSize, x, p);
    }
    var m := Merge(st, x, b, o, k);
    forall p | 0 <= p < NPAGES
      ensures m.blockSize[p] == if lo <= p < lo + Span(o + 1) then o + 1 else st.blockSize[p]
    {
      assert InHalves(p, x, b) <==> lo <= p < lo + 2 * d;
    }
    UniformMerge(st.blockSize, m.blockSize, lo, o + 1);
  }

  /** A free block of x's order inside x's block or its listed buddy's block is that buddy. */
  lemma {:induction false} HalfIsBuddy(st: State, x: nat, b: nat, y: nat)
    requires WellFormed(st) && Allocated(st, x)
    requires b in st.freeArea[st.blockSize[x]] && y in st.freeArea[st.blockSize[x]]
    requires x <= y < x + Span(st.blockSize[x]) || b <= y < b + Span(st.blockSize[x])
    ensures y == b
  {
    var o := st.blockSize[x];
    assert AllAligned(st.freeArea[o], o - MIN_ORDER);
    if x <= y < x + Span(o) {
      ChunkRange(x, y, o - MIN_ORDER);
      ChunkRange(y, x, o - MIN_ORDER);
    } else {
      NestedFreeBlock(st, o, b, o, y);
    }
  }

  /** No page listed after a merge lies in the merged block. */
  lemma {:induction false} MergedOutside(st: State, x: nat, b: nat, k: nat, lo: nat, o2: nat, y: nat)
    requires WellFormed(st) && Allocated(st, x) && BuddyListed(st, x, b, k) && lo == (if b > x then x else b)
    requires MIN_ORDER <= o2 <= MAX_ORDER && y in Merge(st, x, b, st.blockSize[x], k).freeArea[o2]
    ensures y in st.freeArea[o2] && !(lo <= y < lo + Span(st.blockSize[x] + 1))
  {
    var o := st.blockSize[x];
    var s := st.freeArea[o];
    MergeOrders(st, x, b, k, lo);
    SpanDouble(o);
    if o2 == o {
      RemoveMembers(s, k);
      RemoveAscending(s, k);
    }
    if lo <= y < lo + Span(o + 1) {
      var i :| 0 <= i < |st.freeArea[o2]| && st.freeArea[o2][i] == y;
      assert st.blockSize[y] == o2 == o;
      assert b in s;
      HalfIsBuddy(st, x, b, y);
    }
  }

  /** A merge keeps the lists consistent: each listed page keeps its order, each list stays ascending. */
  lemma {:induction false} MergeConsistent(st: State, x: nat, b: nat, k: nat, lo: nat)
    requires WellFormed(st) && Allocated(st, x) && BuddyListed(st, x, b, k) && lo == (if b > x then x else b)
    ensures ListsConsistent(Merge(st, x, b, st.blockSize[x], k))
  {
    var o := st.blockSize[x];
    var m := Merge(st, x, b, o, k);
    MergeOrders(st, x, b, k, lo);
    forall o2, j | MIN_ORDER <= o2 <= MAX_ORDER && 0 <= j < |m.freeArea[o2]|
      ensures m.blockSize[m.freeArea[o2][j]] == o2
    {
      var y := m.freeArea[o2][j];
      MergedOutside(st, x, b, k, lo, o2, y);
      var i :| 0 <= i < |st.freeArea[o2]| && st.freeArea[o2][i] == y;
    }
    RemoveAscending(st.freeArea[o], k);
  }

  /** A merge keeps every list aligned. */
  lemma {:induction false} MergeAligned(st: State, x: nat, b: nat, k: nat)
    requires WellFormed(st) && Allocated(st, x) && BuddyListed(st, x, b, k)
    ensures ListsAligned(Merge(st, x, b, st.blockSize[x], k).freeArea)
  {
    var o := st.blockSize[x];
    var s := st.freeArea[o];
    assert AllAligned(s, o - MIN_ORDER);
    RemoveAligned(s, o - MIN_ORDER, k);
    ListsAlignedUpdate(st.freeArea, o, s[..k] + s[k + 1..]);
  }

  /** A merge leaves no two free buddies in one list: it only unlinks a page. */
  lemma {:induction false} MergeNoBuddies(st: State, x: nat, b: nat, o: nat, k: nat)
    requires Shape(st) && NoFreeBuddies(st) && x < NPAGES && b < NPAGES && MIN_ORDER <= o < MAX_ORDER && k < |st.freeArea[o]|
    ensures NoFreeBuddies(Merge(st, x, b, o, k))
  {
    var s := st.freeArea[o];
    var m := Merge(st, x, b, o, k);
    RemoveMembers(s, k);
    forall o2, j | MIN_ORDER <= o2 < MAX_ORDER && 0 <= j < |m.freeArea[o2]|
      ensures FlipBit(m.freeArea[o2][j], o2 - MIN_ORDER) !in m.freeArea[o2]
    {
      if o2 == o {
        var y := m.freeArea[o][j];
        var i :| 0 <= i < |s| && s[i] == y;
      }
    }
  }

  /** After a merge the block of order o + 1 at lo is allocated, and the merged state is well formed. */
  lemma {:induction false} MergeKeeps(st: State, x: nat, b: nat, k: nat, lo: nat)
    requires WellFormed(st) && Allocated(st, x) && BuddyListed(st, x, b, k) && lo == (if b > x then x else b)
    ensures var m := Merge(st, x, b, st.blockSize[x], k);
      WellFormed(m) && lo < NPAGES && m.blockSize[lo] == st.blockSize[x] + 1 && Allocated(m, lo)
  {
    var o := st.blockSize[x];
    var m := Merge(st, x, b, o, k);
    MergeOrders(st, x, b, k, lo);
    MergeConsistent(st, x, b, k, lo);
    MergeAligned(st, x, b, k);
    MergeNoBuddies(st, x, b, o, k);
  }

  /** Listing an allocated block keeps the lists aligned and consistent with the orders. */
  lemma {:induction false} ListKeepsLists(st: State, x: nat)
    requires WellFormed(st) && Allocated(st, x)
    ensures var o := st.blockSize[x];
      var t := st.(freeArea := st.freeArea[o := OfferPage(st.freeArea[o], x)]);
      Shape(t) && ListsAligned(t.freeArea) && ListsConsistent(t)
  {
    var o := st.blockSize[x];
    var s := st.freeArea[o];
    var t := st.(freeArea := st.freeArea[o := OfferPage(s, x)]);
    InsertInRange(s, x);
    assert AllAligned(s, o - MIN_ORDER);
    InsertAligned(s, o - MIN_ORDER, x);
    ListsAlignedUpdate(st.freeArea, o, OfferPage(s, x));
    InsertMembers(s, x);
    OfferPageAscending(s, x);
    forall o2, j | MIN_ORDER <= o2 <= MAX_ORDER && 0 <= j < |t.freeArea[o2]|
      ensures t.blockSize[t.freeArea[o2][j]] == o2
    {
      var y := t.freeArea[o2][j];
      if o2 == o && y != x {
        assert y in OfferPage(s, x);
        var i :| 0 <= i < |s| && s[i] == y;
      }
    }
  }

  /** Listing an allocated block whose buddy is not free leaves no two free buddies in one list. */
  lemma {:induction false} ListKeepsBuddies(st: State, x: nat, o: nat)
    requires Shape(st) && NoFreeBuddies(st) && x < NPAGES && MIN_ORDER <= o < MAX_ORDER
    requires x !in st.freeArea[o] && BuddyIndex(x, o) !in st.freeArea[o]
    ensures var t := st.(freeArea := st.freeArea[o := OfferPage(st.freeArea[o], x)]);
      Shape(t) && NoFreeBuddies(t)
  {
    var s := st.freeArea[o];
    var t := st.(freeArea := st.freeArea[o := OfferPage(s, x)]);
    InsertInRange(s, x);
    InsertMembers(s, x);
    FlipBitTwice(x, o - MIN_ORDER);
    assert BuddyIndex(x, o) != x;
    forall o2, j | MIN_ORDER <= o2 < MAX_ORDER && 0 <= j < |t.freeArea[o2]|
      ensures FlipBit(t.freeArea[o2][j], o2 - MIN_ORDER) !in t.freeArea[o2]
    {
      var y := t.freeArea[o2][j];
      if o2 == o && y != x {
        assert y in OfferPage(s, x);
        var i :| 0 <= i < |s| && s[i] == y;
        FlipBitTwice(y, o - MIN_ORDER);
      }
    }
  }

  /** Listing an allocated block whose buddy is not free keeps the invariant. */
  lemma {:induction false} ListKeeps(st: State, x: nat)
    requires WellFormed(st) && Allocated(st, x) && st.blockSize[x] < MAX_ORDER
    requires var o := st.blockSize[x]; IndexOf(st.freeArea[o], BuddyIndex(x, o)) == |st.freeArea[o]|
    ensures var o := st.blockSize[x];
      WellFormed(st.(freeArea := st.freeArea[o := OfferPage(st.freeArea[o], x)]))
  {
    var o := st.blockSize[x];
    ListKeepsLists(st, x);
    ListKeepsBuddies(st, x, o);
  }

  /** With every list empty, listing the whole arena as one free block at page 0 gives a well-formed state. */
  lemma {:induction false} TopAloneKeeps(st: State, x: nat)
    requires Shape(st) && UniformBlocks(st.blockSize) && x < NPAGES && Aligned(x, MAX_ORDER - MIN_ORDER)
    requires st.blockSize[x] == MAX_ORDER && forall o :: 0 <= o <= MAX_ORDER ==> st.freeArea[o] == []
    ensures WellFormed(st.(freeArea := st.freeArea[MAX_ORDER := OfferPage(st.freeArea[MAX_ORDER], x)]))
  {
    Geometry();
    AlignedFits(x, MAX_ORDER - MIN_ORDER, MAX_ORDER - MIN_ORDER);
    assert x == 0;
    ZeroAligned(MAX_ORDER - MIN_ORDER);
    var t := st.(freeArea := st.freeArea[MAX_ORDER := OfferPage(st.freeArea[MAX_ORDER], x)]);
    assert t.freeArea[MAX_ORDER] == [0];
    assert forall o :: 0 <= o < MAX_ORDER ==> t.freeArea[o] == [];
    assert ListsAligned(t.freeArea);
    assert ListsConsistent(t);
  }

  /** Freeing an allocated block of order MAX_ORDER keeps the invariant. */
  lemma {:induction false} FreeTopKeeps(st: State, x: nat)
    requires WellFormed(st) && Allocated(st, x) && st.blockSize[x] == MAX_ORDER
    ensures WellFormed(Free(st, x))
  {
    FreeTop(st, x);
    if FreeCount(st.freeArea, MIN_ORDER) == 0 {
      TopAloneKeeps(st, x);
    }
  }

  /**
   * buddy_free of an allocated block keeps the invariant: by induction on
   * the merges, each of which leaves a well-formed state in which the merged
   * block is allocated.
   */
  lemma {:induction false} FreeKeepsWellFormed(st: State, x: nat)
    requires WellFormed(st) && Allocated(st, x)
    ensures WellFormed(Free(st, x))
    decreases MAX_ORDER - st.blockSize[x]
  {
    var o := st.blockSize[x];
    if o == MAX_ORDER {
      FreeTopKeeps(st, x);
    } else {
      var b := BuddyIndex(x, o);
      var k := IndexOf(st.freeArea[o], b);
      if k < |st.freeArea[o]| {
        var lo := if b > x then x else b;
        FreeMerges(st, x);
        MergeKeeps(st, x, b, k, lo);
        FreeKeepsWellFormed(Merge(st, x, b, o, k), lo);
      } else {
        FreeLists(st, x);
        ListKeeps(st, x);
      }
    }
  }
}
