/**
 * What buddy.c promises about its operations, proved on the functions of
 * BuddySpec: the state buddy_init leaves, the order a request is served
 * from, the buddy arithmetic, what one split changes, the block buddy_alloc
 * hands out, and that buddy_free of that block undoes buddy_alloc.
 */
module BuddyProofs {
  import opened Bits
  import opened PriQueue
  import opened BuddySpec

  // ---------------------------------------------------------------- init

  lemma {:induction false} ZeroAligned(k: nat)
    ensures Aligned(0, k)
  {
    if k > 0 {
      ZeroAligned(k - 1);
    }
  }

  /** buddy_init leaves a state that satisfies the allocator invariant. */
  lemma {:induction false} InitWellFormed()
    ensures WellFormed(InitState())
  {
    var st := InitState();
    ZeroAligned(MAX_ORDER - MIN_ORDER);
    assert st.freeArea[MAX_ORDER] == [0];
    assert ListsAligned(st.freeArea);
    assert ListsConsistent(st);
  }

  // ---------------------------------------------------------------- orders

  lemma {:induction false} FitFromLeast(size: int, o: nat, k: nat)
    requires FitFrom(size, o).Some? && o <= k < FitFrom(size, o).value
    ensures Pow2(k) < size
    decreases MAX_ORDER + 1 - o
  {
    if k > o {
      FitFromLeast(size, o + 1, k);
    }
  }

  /** The order a request is served from is the least order from MIN_ORDER whose blocks hold it. */
  lemma {:induction false} RequiredOrderLeast(size: int, k: nat)
    requires RequiredOrder(size).Some? && MIN_ORDER <= k < RequiredOrder(size).value
    ensures Pow2(k) < size
  {
    FitFromLeast(size, MIN_ORDER, k);
  }

  /** A request of at most one page is served from order MIN_ORDER. */
  lemma {:induction false} SmallRequestMinOrder(size: int)
    requires size <= PAGE_SIZE
    ensures RequiredOrder(size) == Some(MIN_ORDER)
  {
    Geometry();
  }

  // ---------------------------------------------------------------- buddies

  /** BUDDY_ADDR sets bit o of the offset to its complement and keeps every other bit. */
  lemma {:induction false} BuddyAddrFlips(addr: nat, o: nat, j: nat)
    ensures Bit(BuddyAddr(addr, o), j) == if j == o then 1 - Bit(addr, o) else Bit(addr, j)
  {
    XorPow2(addr, o);
    FlipBitBits(addr, o, j);
  }

  /** The buddy of the buddy is the block itself. */
  lemma {:induction false} BuddyAddrTwice(addr: nat, o: nat)
    ensures BuddyAddr(BuddyAddr(addr, o), o) == addr
  {
    XorTwice(addr, Pow2(o));
  }

  /** Page x and its buddy at order o are each other's buddies. */
  lemma {:induction false} BuddyIndexTwice(x: nat, o: nat)
    requires x < NPAGES && MIN_ORDER <= o < MAX_ORDER
    ensures BuddyIndex(BuddyIndex(x, o), o) == x
  {
    FlipBitTwice(x, o - MIN_ORDER);
  }

  /** The buddy of a block that is the lower half at order o + 1 is Span(o) pages above it. */
  lemma {:induction false} BuddyIndexAbove(x: nat, o: nat)
    requires x < NPAGES && MIN_ORDER <= o < MAX_ORDER && Aligned(x, o + 1 - MIN_ORDER)
    ensures BuddyIndex(x, o) == x + Span(o)
  {
    AlignedHalves(x, o - MIN_ORDER);
  }

  // ---------------------------------------------------------------- one split

  /** Span(o + 1) is two blocks of order o. */
  lemma {:induction false} SpanDouble(o: nat)
    requires MIN_ORDER <= o
    ensures Span(o + 1) == 2 * Span(o)
  {
    assert o + 1 - MIN_ORDER == (o - MIN_ORDER) + 1;
  }

  /** The lists after the pass of the split loop that splits a block of order i = j + 1. */
  lemma {:induction false} SplitStepUpdate(st: State, i: nat, j: nat)
    requires Shape(st) && MIN_ORDER <= j && i == j + 1 <= MAX_ORDER && st.freeArea[i] != []
    ensures var x := st.freeArea[i][0];
      SplitStep(st, i).freeArea ==
        st.freeArea[i := st.freeArea[i][1..]][j := OfferPage(OfferPage(st.freeArea[j], x), BuddyIndex(x, j))]
  {
    var fa := st.freeArea[i := st.freeArea[i][1..]];
    assert fa[j] == st.freeArea[j];
  }

  /** The lists after replacing list i = j + 1 and then list j. */
  lemma {:induction false} UpdateFrame(fa: seq<seq<int>>, i: nat, j: nat, t: seq<int>, u: seq<int>)
    requires i == j + 1 < |fa|
    ensures var g := fa[i := t][j := u];
      |g| == |fa| && g[i] == t && g[j] == u && forall o :: 0 <= o < |fa| && o != i && o != j ==> g[o] == fa[o]
  {
  }

  /**
   * One pass of the split loop unlinks the first block x of order i, lists x
   * and its buddy at order i - 1 and keeps that list sorted, and leaves
   * every other list as it was.
   */
  lemma {:induction false} SplitStepLists(st: State, i: nat)
    requires Shape(st) && MIN_ORDER < i <= MAX_ORDER && st.freeArea[i] != []
    ensures var x := st.freeArea[i][0];
      var r := SplitStep(st, i);
      r.freeArea[i] == st.freeArea[i][1..] &&
      r.freeArea[i - 1] == OfferPage(OfferPage(st.freeArea[i - 1], x), BuddyIndex(x, i - 1)) &&
      multiset(r.freeArea[i - 1]) == multiset(st.freeArea[i - 1]) + multiset{x, BuddyIndex(x, i - 1)} &&
      (Sorted(st.freeArea[i - 1], PageKey) ==> Sorted(r.freeArea[i - 1], PageKey)) &&
      (forall o :: 0 <= o <= MAX_ORDER && o != i && o != i - 1 ==> r.freeArea[o] == st.freeArea[o])
  {
    var x := st.freeArea[i][0];
    var b := BuddyIndex(x, i - 1);
    SplitStepUpdate(st, i, i - 1);
    UpdateFrame(st.freeArea, i, i - 1, st.freeArea[i][1..], OfferPage(OfferPage(st.freeArea[i - 1], x), b));
    InsertTwo(st.freeArea[i - 1], x, b);
  }

  /** Two priqueue_offer calls add both elements and keep a sorted list sorted. */
  lemma {:induction false} InsertTwo(s: seq<int>, x: int, b: int)
    ensures var r := OfferPage(OfferPage(s, x), b);
      multiset(r) == multiset(s) + multiset{x, b} && (Sorted(s, PageKey) ==> Sorted(r, PageKey))
  {
    var s1 := OfferPage(s, x);
    OfferPageMultiset(s, x);
    OfferPageMultiset(s1, b);
    OfferPageIsInsert(s, x);
    OfferPageIsInsert(s1, b);
    if Sorted(s, PageKey) {
      InsertKeepsSorted(s, PageKey, x);
      InsertKeepsSorted(s1, PageKey, b);
    }
  }

  /** One pass of the split loop gives order i - 1 to the pages of block x and to no other page. */
  lemma {:induction false} SplitStepRetags(st: State, i: nat)
    requires Shape(st) && MIN_ORDER < i <= MAX_ORDER && st.freeArea[i] != [] && Aligned(st.freeArea[i][0], i - MIN_ORDER)
    ensures var x := st.freeArea[i][0];
      var r := SplitStep(st, i);
      forall p :: 0 <= p < NPAGES ==> r.blockSize[p] == if x <= p < x + Span(i) then i - 1 else st.blockSize[p]
  {
    var x := st.freeArea[i][0];
    BuddyIndexAbove(x, i - 1);
    SpanDouble(i - 1);
    var bs := SplitStep(st, i).blockSize;
    assert bs == Retag(st.blockSize, x, x + Span(i - 1), i - 1);
  }

  // ---------------------------------------------------------------- the split chain

  /** priqueue_offer of x and then of a larger b into an empty list. */
  lemma {:induction false} InsertTwoIntoEmpty(x: int, b: int)
    requires x < b
    ensures OfferPage(OfferPage([], x), b) == [x, b]
  {
    var e: seq<int> := [];
    assert OfferPage(e, x) == [x];
    assert [x][1..] == e;
    assert OfferPage([x], b) == [x] + OfferPage(e, b);
  }

  /** A listed block of order o: aligned, inside the arena, and all its pages of order o. */
  lemma {:induction false} ListedBlock(st: State, o: nat, x: nat)
    requires WellFormed(st) && MIN_ORDER <= o <= MAX_ORDER && x in st.freeArea[o]
    ensures Aligned(x, o - MIN_ORDER) && x + Span(o) <= NPAGES
    ensures forall p :: x <= p < x + Span(o) ==> st.blockSize[p] == o
  {
    var k :| 0 <= k < |st.freeArea[o]| && st.freeArea[o][k] == x;
    assert st.blockSize[x] == o;
    assert AllAligned(st.freeArea[o], o - MIN_ORDER);
    Geometry();
    AlignedFits(x, o - MIN_ORDER, MAX_ORDER - MIN_ORDER);
    forall p | x <= p < x + Span(o)
      ensures st.blockSize[p] == o
    {
      SameBlock(st.blockSize, x, p);
    }
  }

  /** A free block that starts inside another free block is that same block. */
  lemma {:induction false} NestedFreeBlock(st: State, o1: nat, x: nat, o2: nat, y: nat)
    requires WellFormed(st) && MIN_ORDER <= o1 <= MAX_ORDER && MIN_ORDER <= o2 <= MAX_ORDER
    requires x in st.freeArea[o1] && y in st.freeArea[o2] && x <= y < x + Span(o1)
    ensures o1 == o2 && x == y
  {
    ListedBlock(st, o1, x);
    ListedBlock(st, o2, y);
    var k :| 0 <= k < |st.freeArea[o2]| && st.freeArea[o2][k] == y;
    assert st.blockSize[y] == o2;
    ChunkRange(x, y, o1 - MIN_ORDER);
    ChunkRange(y, x, o1 - MIN_ORDER);
  }

  /** Free blocks never overlap: two different listed blocks occupy disjoint page ranges. */
  lemma {:induction false} FreeBlocksDisjoint(st: State, o1: nat, x: nat, o2: nat, y: nat)
    requires WellFormed(st) && MIN_ORDER <= o1 <= MAX_ORDER && MIN_ORDER <= o2 <= MAX_ORDER
    requires x in st.freeArea[o1] && y in st.freeArea[o2] && (o1 != o2 || x != y)
    ensures x + Span(o1) <= y || y + Span(o2) <= x
  {
    if x <= y && y < x + Span(o1) {
      NestedFreeBlock(st, o1, x, o2, y);
    } else if y <= x && x < y + Span(o2) {
      NestedFreeBlock(st, o2, y, o1, x);
    }
  }

  /**
   * The lists after the split loop has come down from order avail to order
   * j, where x is the block buddy_alloc took at order avail: x heads list j,
   * every list from req below j is empty, each order l between j and avail
   * holds exactly the upper half x + Span(l), and the lists below req and
   * above avail are as they were.
   */
  ghost predicate ChainLists(st: State, s: State, req: nat, avail: nat, j: nat, x: nat)
    requires Shape(st) && Shape(s) && MIN_ORDER <= req <= j <= avail <= MAX_ORDER
  {
    ListsChain(st.freeArea, s.freeArea, req, avail, j, x)
  }

  ghost predicate ListsChain(fa0: seq<seq<int>>, fa: seq<seq<int>>, req: nat, avail: nat, j: nat, x: nat)
    requires |fa0| == |fa| == MAX_ORDER + 1 && MIN_ORDER <= req <= j <= avail <= MAX_ORDER
  {
    fa0[avail] != [] && fa[j] != [] && fa[j][0] == x &&
    (forall l :: req <= l < j ==> fa[l] == []) &&
    (j == avail ==> fa[avail] == fa0[avail]) &&
    (j < avail ==> fa[j] == [x, x + Span(j)] && fa[avail] == fa0[avail][1..]) &&
    (forall l :: j < l < avail ==> fa[l] == [x + Span(l)]) &&
    (forall l :: 0 <= l <= MAX_ORDER && (l < req || avail < l) ==> fa[l] == fa0[l])
  }

  /** One more pass of the split loop moves x down one order and leaves its upper half behind. */
  lemma {:induction false} ListsChainStep(fa0: seq<seq<int>>, fa: seq<seq<int>>, req: nat, avail: nat, j: nat, x: nat)
    requires |fa0| == |fa| == MAX_ORDER + 1 && MIN_ORDER <= req <= j < avail <= MAX_ORDER
    requires ListsChain(fa0, fa, req, avail, j + 1, x)
    ensures ListsChain(fa0, fa[j + 1 := fa[j + 1][1..]][j := [x, x + Span(j)]], req, avail, j, x)
  {
    var tail := fa[j + 1][1..];
    UpdateFrame(fa, j + 1, j, tail, [x, x + Span(j)]);
    if j + 1 < avail {
      assert fa[j + 1] == [x, x + Span(j + 1)];
      assert tail == [x + Span(j + 1)];
    }
  }

  /**
   * The orders after the split loop has come down to order j: x is an
   * aligned block of order j inside the arena, and no page outside the block
   * x of order avail has changed its order.
   */
  ghost predicate ChainOrders(st: State, s: State, avail: nat, j: nat, x: nat)
    requires Shape(st) && Shape(s) && MIN_ORDER <= j <= avail <= MAX_ORDER
  {
    Aligned(x, j - MIN_ORDER) && x + Span(j) <= NPAGES &&
    (forall p :: x <= p < x + Span(j) ==> s.blockSize[p] == j) &&
    (forall p :: 0 <= p < NPAGES && !(x <= p < x + Span(avail)) ==> s.blockSize[p] == st.blockSize[p])
  }

  ghost predicate ChainAt(st: State, s: State, req: nat, avail: nat, j: nat, x: nat)
    requires Shape(st) && Shape(s) && MIN_ORDER <= req <= j <= avail <= MAX_ORDER
  {
    ChainLists(st, s, req, avail, j, x) && ChainOrders(st, s, avail, j, x)
  }

  /** Where the split loop starts: x heads list avail, and the lists from req below avail are empty. */
  ghost predicate ChainStart(st: State, req: nat, avail: nat)
    requires Shape(st) && MIN_ORDER <= req <= avail <= MAX_ORDER && st.freeArea[avail] != []
  {
    var x := st.freeArea[avail][0];
    Aligned(x, avail - MIN_ORDER) && x + Span(avail) <= NPAGES &&
    (forall p :: x <= p < x + Span(avail) ==> st.blockSize[p] == avail) &&
    (forall l :: req <= l < avail ==> st.freeArea[l] == [])
  }

  lemma {:induction false} ChainBase(st: State, req: nat, avail: nat)
    requires WellFormed(st) && MIN_ORDER <= req && AvailableFrom(st.freeArea, req) == Some(avail)
    ensures ChainStart(st, req, avail)
  {
    ListedBlock(st, avail, st.freeArea[avail][0]);
  }

  /** A block aligned at order avail inside the arena is aligned at every lower order and fits at it. */
  lemma {:induction false} StartBlockBelow(x: nat, avail: nat, j: nat)
    requires MIN_ORDER <= j <= avail && Aligned(x, avail - MIN_ORDER) && x + Span(avail) <= NPAGES
    ensures Aligned(x, j - MIN_ORDER) && x + Span(j) <= NPAGES
  {
    if j < avail {
      AlignedLow(x, avail - MIN_ORDER, j - MIN_ORDER);
    }
    Pow2Monotone(j - MIN_ORDER, avail - MIN_ORDER);
  }

  lemma {:induction false} ChainStepLists(st: State, s: State, t: State, req: nat, avail: nat, j: nat, x: nat)
    requires Shape(st) && Shape(s) && MIN_ORDER <= req <= j < avail <= MAX_ORDER
    requires ChainLists(st, s, req, avail, j + 1, x)
    requires Aligned(x, j + 1 - MIN_ORDER) && x + Span(j + 1) <= NPAGES
    requires s.freeArea[j + 1] != [] && t == SplitStep(s, j + 1)
    ensures ChainLists(st, t, req, avail, j, x)
  {
    var b := x + Span(j);
    SpanDouble(j);
    BuddyIndexAbove(x, j);
    SplitStepUpdate(s, j + 1, j);
    assert s.freeArea[j] == [];
    InsertTwoIntoEmpty(x, b);
    assert t.freeArea == s.freeArea[j + 1 := s.freeArea[j + 1][1..]][j := [x, b]];
    ListsChainStep(st.freeArea, s.freeArea, req, avail, j, x);
  }

  lemma {:induction false} ChainStepOrders(st: State, s: State, avail: nat, j: nat, x: nat)
    requires Shape(st) && Shape(s) && MIN_ORDER <= j < avail <= MAX_ORDER
    requires ChainOrders(st, s, avail, j + 1, x) && s.freeArea[j + 1] != [] && s.freeArea[j + 1][0] == x
    ensures ChainOrders(st, SplitStep(s, j + 1), avail, j, x)
  {
    SpanDouble(j);
    AlignedLow(x, j + 1 - MIN_ORDER, j - MIN_ORDER);
    SplitStepRetags(s, j + 1);
    Pow2Monotone(j + 1 - MIN_ORDER, avail - MIN_ORDER);
  }

  /** One more pass of the split loop, from s1 to s: the lists follow x down one order. */
  lemma {:induction false} ListsStep(st: State, s1: State, s: State, req: nat, avail: nat, j: nat, x: nat)
    requires Shape(st) && MIN_ORDER <= req <= j < avail <= MAX_ORDER && st.freeArea[avail] != [] && ChainStart(st, req, avail)
    requires x == st.freeArea[avail][0] && s1 == SplitDown(st, avail, j + 1) && s == SplitDown(st, avail, j)
    requires ChainLists(st, s1, req, avail, j + 1, x)
    ensures ChainLists(st, s, req, avail, j, x)
  {
    StartBlockBelow(x, avail, j + 1);
    ChainStepLists(st, s1, s, req, avail, j, x);
  }

  /** One more pass of the split loop, from s1 to s: the orders follow x down one order. */
  lemma {:induction false} OrdersStep(st: State, s1: State, s: State, req: nat, avail: nat, j: nat, x: nat)
    requires Shape(st) && MIN_ORDER <= req <= j < avail <= MAX_ORDER && st.freeArea[avail] != [] && ChainStart(st, req, avail)
    requires x == st.freeArea[avail][0] && s1 == SplitDown(st, avail, j + 1) && s == SplitDown(st, avail, j)
    requires ChainOrders(st, s1, avail, j + 1, x)
    ensures ChainOrders(st, s, avail, j, x)
  {
    HeadDown(st, s1, req, avail, j + 1, x);
    ChainStepOrders(st, s1, avail, j, x);
  }

  /** The lists along the split loop, by induction on the passes; s is the state after the passes down to j. */
  lemma {:induction false} ListsDown(st: State, s: State, req: nat, avail: nat, j: nat, x: nat)
    requires Shape(st) && MIN_ORDER <= req <= j <= avail <= MAX_ORDER && st.freeArea[avail] != [] && ChainStart(st, req, avail)
    requires x == st.freeArea[avail][0] && s == SplitDown(st, avail, j)
    ensures ChainLists(st, s, req, avail, j, x)
    decreases avail - j
  {
    if j < avail {
      var s1 := SplitDown(st, avail, j + 1);
      ListsDown(st, s1, req, avail, j + 1, x);
      ListsStep(st, s1, s, req, avail, j, x);
    }
  }

  /** After the passes down to j, x still heads list j. */
  lemma {:induction false} HeadDown(st: State, s: State, req: nat, avail: nat, j: nat, x: nat)
    requires Shape(st) && MIN_ORDER <= req <= j <= avail <= MAX_ORDER && st.freeArea[avail] != [] && ChainStart(st, req, avail)
    requires x == st.freeArea[avail][0] && s == SplitDown(st, avail, j)
    ensures s.freeArea[j] != [] && s.freeArea[j][0] == x
  {
    ListsDown(st, s, req, avail, j, x);
  }

  /** The orders along the split loop, by induction on the passes; s is the state after the passes down to j. */
  lemma {:induction false} OrdersDown(st: State, s: State, req: nat, avail: nat, j: nat, x: nat)
    requires Shape(st) && MIN_ORDER <= req <= j <= avail <= MAX_ORDER && st.freeArea[avail] != [] && ChainStart(st, req, avail)
    requires x == st.freeArea[avail][0] && s == SplitDown(st, avail, j)
    ensures ChainOrders(st, s, avail, j, x)
    decreases avail - j
  {
    if j < avail {
      var s1 := SplitDown(st, avail, j + 1);
      OrdersDown(st, s1, req, avail, j + 1, x);
      OrdersStep(st, s1, s, req, avail, j, x);
    }
  }

  lemma {:induction false} Chain(st: State, req: nat, avail: nat, j: nat)
    requires Shape(st) && MIN_ORDER <= req <= j <= avail <= MAX_ORDER && st.freeArea[avail] != [] && ChainStart(st, req, avail)
    ensures ChainAt(st, SplitDown(st, avail, j), req, avail, j, st.freeArea[avail][0])
  {
    var s := SplitDown(st, avail, j);
    assert InRange(st.freeArea[avail]);
    ListsDown(st, s, req, avail, j, st.freeArea[avail][0]);
    OrdersDown(st, s, req, avail, j, st.freeArea[avail][0]);
  }

  // ---------------------------------------------------------------- buddy_alloc

  /** buddy_alloc returns NULL exactly when the request exceeds the arena or no list from its order on has a block, and then changes nothing. */
  lemma {:induction false} AllocNull(st: State, size: int)
    requires Shape(st)
    ensures Alloc(st, size).1.None? <==>
      size > ARENA_SIZE ||
      (RequiredOrder(size).Some? && forall o :: RequiredOrder(size).value <= o <= MAX_ORDER ==> st.freeArea[o] == [])
    ensures Alloc(st, size).1.None? ==> Alloc(st, size).0 == st
  {
    RequiredOrderNone(size);
  }

  /** An aligned page index gives an offset that is a multiple of the block size. */
  lemma {:induction false} PageAddrAligned(x: nat, o: nat)
    requires MIN_ORDER <= o && Aligned(x, o - MIN_ORDER)
    ensures PageToAddr(x) == Chunk(PageToAddr(x), o) * Pow2(o)
  {
    Geometry();
    AlignedScale(x, o - MIN_ORDER, MIN_ORDER);
    assert o - MIN_ORDER + MIN_ORDER == o;
    AlignedIsMultiple(x * Pow2(MIN_ORDER), o);
  }

  /**
   * What buddy_alloc hands out when it succeeds: the first, lowest block x
   * of the first order avail from the required order req that has one, at
   * an offset that is a multiple of 2^req.
   */
  lemma {:induction false} AllocServesFirstBlock(st: State, size: int, req: nat, avail: nat)
    requires WellFormed(st) && RequiredOrder(size) == Some(req) && AvailableFrom(st.freeArea, req) == Some(avail)
    ensures var x := st.freeArea[avail][0];
      Alloc(st, size).1 == Some(PageToAddr(x)) &&
      PageToAddr(x) == Chunk(PageToAddr(x), req) * Pow2(req) &&
      forall y :: y in st.freeArea[avail] ==> x <= y
  {
    var x := st.freeArea[avail][0];
    AllocServed(st, size, req, avail);
    ChainBase(st, req, avail);
    Chain(st, req, avail, req);
    PageAddrAligned(x, req);
    HeadIsLeast(st.freeArea[avail]);
  }

  /** The head of a strictly ascending list is its least element. */
  lemma {:induction false} HeadIsLeast(s: seq<int>)
    requires StrictlyAscending(s) && s != []
    ensures forall y :: y in s ==> s[0] <= y
  {
    forall y | y in s
      ensures s[0] <= y
    {
      var k :| 0 <= k < |s| && s[k] == y;
    }
  }

  /** buddy_alloc hands out the first free block of order avail, split down to order req. */
  lemma {:induction false} AllocSplitsBlock(st: State, size: int, req: nat, avail: nat)
    requires WellFormed(st) && RequiredOrder(size) == Some(req) && AvailableFrom(st.freeArea, req) == Some(avail)
    ensures HandedOut(st, Alloc(st, size).0, req, avail, st.freeArea[avail][0])
  {
    var x := st.freeArea[avail][0];
    AllocServed(st, size, req, avail);
    ChainBase(st, req, avail);
    Chain(st, req, avail, req);
    var s := SplitDown(st, avail, req);
    var r := Take(s, req);
    assert Alloc(st, size).0 == r;
    assert StrictlyAscending(st.freeArea[avail]);
    AllocTakes(st, s, r, req, avail, x);
  }

  /**
   * r is what buddy_alloc leaves after handing out block x of order req,
   * split from the first free block of order avail: x is no longer free and
   * its pages have order req, the upper halves x + Span(l) are the only free
   * blocks of the orders l from req below avail, and nothing outside the
   * block of order avail changed.
   */
  ghost predicate HandedOut(st: State, r: State, req: nat, avail: nat, x: nat)
    requires Shape(st) && Shape(r) && MIN_ORDER <= req <= avail <= MAX_ORDER && st.freeArea[avail] != []
  {
    Allocated(r, x) && r.blockSize[x] == req &&
    (forall p :: 0 <= p < NPAGES && x <= p < x + Span(req) ==> r.blockSize[p] == req) &&
    (forall p :: 0 <= p < NPAGES && !(x <= p < x + Span(avail)) ==> r.blockSize[p] == st.blockSize[p]) &&
    r.freeArea[avail] == st.freeArea[avail][1..] &&
    (forall l :: req <= l < avail ==> r.freeArea[l] == [x + Span(l)]) &&
    (forall l :: 0 <= l <= MAX_ORDER && (l < req || avail < l) ==> r.freeArea[l] == st.freeArea[l])
  }

  /** The state buddy_alloc leaves: the split chain with its first block unlinked. */
  function Take(s: State, o: nat): (r: State)
    requires Shape(s) && o <= MAX_ORDER && s.freeArea[o] != []
    ensures Shape(r) && r.blockSize == s.blockSize && r.freeArea == s.freeArea[o := s.freeArea[o][1..]]
  {
    RemoveInRange(s.freeArea[o], 0);
    s.(freeArea := s.freeArea[o := s.freeArea[o][1..]])
  }

  lemma {:induction false} AllocTakes(st: State, s: State, r: State, req: nat, avail: nat, x: nat)
    requires Shape(st) && Shape(s) && MIN_ORDER <= req <= avail <= MAX_ORDER
    requires StrictlyAscending(st.freeArea[avail])
    requires ChainAt(st, s, req, avail, req, x) && x == st.freeArea[avail][0] && r == Take(s, req)
    ensures HandedOut(st, r, req, avail, x)
  {
    assert r.blockSize[x] == req;
    if req < avail {
      assert s.freeArea[req] == [x, x + Span(req)];
      assert r.freeArea[req] == [x + Span(req)];
    } else {
      assert r.freeArea[req] == st.freeArea[avail][1..];
      assert forall k :: 0 <= k < |r.freeArea[req]| ==> r.freeArea[req][k] == st.freeArea[avail][k + 1] > x;
    }
  }

  // ---------------------------------------------------------------- buddy_free undoes buddy_alloc

  /** Retagging the halves of a block with order i - 1 and then i restores a block of order i. */
  lemma {:induction false} RetagTwice(bs: seq<int>, x: int, d: int, j: int)
    requires 0 < d && forall p :: 0 <= p < |bs| && x <= p < x + 2 * d ==> bs[p] == j + 1
    ensures Retag(Retag(bs, x, x + d, j), x, x + d, j + 1) == bs
  {
  }

  /** One split pass followed by unlinking x: x's halves have order i - 1 and only the upper half is listed. */
  lemma {:induction false} SplitThenTake(s: State, i: nat, j: nat, x: nat)
    requires Shape(s) && MIN_ORDER <= j && i == j + 1 <= MAX_ORDER && s.freeArea[i] != [] && s.freeArea[i][0] == x
    requires s.freeArea[j] == [] && Aligned(x, i - MIN_ORDER)
    ensures Take(SplitStep(s, i), j) ==
      State(Retag(s.blockSize, x, x + Span(j), j), s.freeArea[i := s.freeArea[i][1..]][j := [x + Span(j)]])
  {
    var b := x + Span(j);
    BuddyIndexAbove(x, j);
    SplitStepUpdate(s, i, j);
    InsertTwoIntoEmpty(x, b);
    var t := SplitStep(s, i);
    var fa := s.freeArea[i := s.freeArea[i][1..]];
    assert t.freeArea == fa[j := [x, b]];
    assert fa[j := [x, b]][j := [b]] == fa[j := [b]];
  }

  /** Retagging the lower half of a block to order j and listing the upper half keeps the ranges. */
  lemma {:induction false} HalvesShape(bs: seq<int>, fa: seq<seq<int>>, i: nat, j: nat, x: nat)
    requires Shape(State(bs, fa)) && MIN_ORDER <= j && i == j + 1 <= MAX_ORDER
    requires Aligned(x, i - MIN_ORDER) && x + Span(i) <= NPAGES
    ensures x + Span(j) < NPAGES && BuddyIndex(x, j) == x + Span(j)
    ensures Shape(State(Retag(bs, x, x + Span(j), j), fa[j := [x + Span(j)]]))
  {
    SpanDouble(j);
    BuddyIndexAbove(x, j);
  }

  /** With the upper half listed alone at order j, buddy_free of x unlinks it and merges at x. */
  lemma {:induction false} FreeMergesHalves(u: State, w: State, j: nat, x: nat, b: nat)
    requires Shape(u) && MIN_ORDER <= j < MAX_ORDER && x < b < NPAGES && BuddyIndex(x, j) == b
    requires u.freeArea[j] == [b] && u.blockSize[x] == j && w == Merge(u, x, b, j, 0)
    ensures Shape(w) && Free(u, x) == Free(w, x)
  {
    assert IndexOf(u.freeArea[j], b) == 0;
    FreeMerges(u, x);
  }

  /** Merging the two halves again restores the orders and the lists. */
  lemma {:induction false} MergeRestores(bs: seq<int>, fa: seq<seq<int>>, i: nat, j: nat, x: nat)
    requires Shape(State(bs, fa)) && MIN_ORDER <= j && i == j + 1 <= MAX_ORDER && fa[j] == []
    requires x + Span(i) <= NPAGES && x + Span(j) < NPAGES
    requires forall p :: x <= p < x + Span(i) ==> bs[p] == i
    requires Shape(State(Retag(bs, x, x + Span(j), j), fa[j := [x + Span(j)]]))
    ensures Merge(State(Retag(bs, x, x + Span(j), j), fa[j := [x + Span(j)]]), x, x + Span(j), j, 0) == State(bs, fa)
  {
    var b := x + Span(j);
    var u := State(Retag(bs, x, b, j), fa[j := [b]]);
    SpanDouble(j);
    RetagTwice(bs, x, Span(j), j);
    assert u.freeArea[j][..0] + u.freeArea[j][1..] == [];
    assert fa[j := [b]][j := []] == fa;
  }

  /** Merging the upper half back: x's buddy is the only block of order j, so buddy_free merges them. */
  lemma {:induction false} MergeBack(bs: seq<int>, fa: seq<seq<int>>, i: nat, j: nat, x: nat)
    requires Shape(State(bs, fa)) && MIN_ORDER <= j && i == j + 1 <= MAX_ORDER && fa[j] == []
    requires Aligned(x, i - MIN_ORDER) && x + Span(i) <= NPAGES
    requires forall p :: x <= p < x + Span(i) ==> bs[p] == i
    ensures Shape(State(Retag(bs, x, x + Span(j), j), fa[j := [x + Span(j)]]))
    ensures Free(State(Retag(bs, x, x + Span(j), j), fa[j := [x + Span(j)]]), x) == Free(State(bs, fa), x)
  {
    var b := x + Span(j);
    HalvesShape(bs, fa, i, j, x);
    var u := State(Retag(bs, x, b, j), fa[j := [b]]);
    MergeRestores(bs, fa, i, j, x);
    FreeMergesHalves(u, State(bs, fa), j, x, b);
  }

  /**
   * Freeing x after one more split pass merges x with the upper half the
   * pass listed and lands in the state before the pass.
   */
  lemma {:induction false} MergeUndoesSplit(s: State, i: nat, j: nat, x: nat)
    requires Shape(s) && MIN_ORDER <= j && i == j + 1 <= MAX_ORDER && s.freeArea[i] != [] && s.freeArea[i][0] == x
    requires s.freeArea[j] == [] && Aligned(x, i - MIN_ORDER) && x + Span(i) <= NPAGES
    requires forall p :: x <= p < x + Span(i) ==> s.blockSize[p] == i
    ensures Free(Take(SplitStep(s, i), j), x) == Free(Take(s, i), x)
  {
    SplitThenTake(s, i, j, x);
    var fa := s.freeArea[i := s.freeArea[i][1..]];
    assert fa[j] == [];
    RemoveInRange(s.freeArea[i], 0);
    assert Shape(State(s.blockSize, fa));
    MergeBack(s.blockSize, fa, i, j, x);
  }

  /** Freeing x undoes the split loop pass by pass, back to the unsplit block of order avail. */
  lemma {:induction false} UndoChain(st: State, s: State, req: nat, avail: nat, j: nat, x: nat)
    requires Shape(st) && MIN_ORDER <= req <= j <= avail <= MAX_ORDER && st.freeArea[avail] != [] && ChainStart(st, req, avail)
    requires x == st.freeArea[avail][0] && x < NPAGES && s == SplitDown(st, avail, j)
    ensures Free(Take(s, j), x) == Free(Take(st, avail), x)
    decreases avail - j
  {
    if j < avail {
      var s1 := SplitDown(st, avail, j + 1);
      UndoStep(st, s1, req, avail, j, x);
      UndoChain(st, s1, req, avail, j + 1, x);
    }
  }

  /** Freeing x after one more pass of the split loop, from s down to order j, undoes that pass. */
  lemma {:induction false} UndoStep(st: State, s: State, req: nat, avail: nat, j: nat, x: nat)
    requires Shape(st) && MIN_ORDER <= req <= j < avail <= MAX_ORDER && st.freeArea[avail] != [] && ChainStart(st, req, avail)
    requires x == st.freeArea[avail][0] && x < NPAGES && s == SplitDown(st, avail, j + 1)
    ensures Free(Take(SplitStep(s, j + 1), j), x) == Free(Take(s, j + 1), x)
  {
    ListsDown(st, s, req, avail, j + 1, x);
    OrdersDown(st, s, req, avail, j + 1, x);
    MergeUndoesSplit(s, j + 1, j, x);
  }

  /** priqueue_offer of the head of a strictly ascending list into its tail gives the list back. */
  lemma {:induction false} InsertHeadBack(s: seq<int>)
    requires StrictlyAscending(s) && s != []
    ensures OfferPage(s[1..], s[0]) == s
  {
    var t := s[1..];
    if t != [] {
      assert s[0] < t[0];
    }
    assert [s[0]] + t == s;
  }

  /** A strictly ascending list of indices below m has at most m elements. */
  lemma {:induction false} AscendingBounded(s: seq<int>, m: int)
    requires m >= 0 && StrictlyAscending(s) && forall y :: y in s ==> 0 <= y < m
    ensures |s| <= m
    decreases |s|
  {
    if s != [] {
      var n := |s| - 1;
      var init := s[..n];
      assert s[n] in s;
      forall y | y in init
        ensures 0 <= y < s[n]
      {
        var k :| 0 <= k < n && init[k] == y;
        assert s[k] in s;
      }
      AscendingBounded(init, s[n]);
    }
  }

  /** A well-formed state with a free block of order MAX_ORDER: that block is the whole arena and nothing else is free. */
  lemma {:induction false} TopAlone(st: State)
    requires WellFormed(st) && st.freeArea[MAX_ORDER] != []
    ensures st.freeArea[MAX_ORDER] == [0] && st.blockSize[0] == MAX_ORDER
    ensures forall o :: 0 <= o < MAX_ORDER ==> st.freeArea[o] == []
  {
    var top := st.freeArea[MAX_ORDER];
    var k := MAX_ORDER - MIN_ORDER;
    Geometry();
    assert AllAligned(top, k);
    forall y | y in top
      ensures y == 0
    {
      assert InRange(top);
      var n :| 0 <= n < |top| && top[n] == y;
      AlignedFits(y, k, k);
    }
    AscendingBounded(top, 1);
    assert top[0] in top;
    assert top == [0];
    assert st.blockSize[0] == MAX_ORDER;
    ZeroAligned(k);
    forall o | 0 <= o < MAX_ORDER
      ensures st.freeArea[o] == []
    {
      if o >= MIN_ORDER && st.freeArea[o] != [] {
        var y := st.freeArea[o][0];
        assert InRange(st.freeArea[o]);
        assert st.blockSize[y] == o;
        SameBlock(st.blockSize, 0, y);
        assert false;
      }
    }
  }

  /** Freeing the first free block of order avail right after unlinking it restores the state. */
  lemma {:induction false} FreeRestores(st: State, avail: nat)
    requires WellFormed(st) && MIN_ORDER <= avail <= MAX_ORDER && st.freeArea[avail] != []
    ensures var x := st.freeArea[avail][0];
      x < NPAGES && Free(Take(st, avail), x) == st
  {
    assert InRange(st.freeArea[avail]);
    if avail < MAX_ORDER {
      FreeRestoresBelow(st, avail);
    } else {
      FreeRestoresTop(st);
    }
  }

  /** Below MAX_ORDER the buddy of the head is not free, so the head goes back to the front of its list. */
  lemma {:induction false} FreeRestoresBelow(st: State, avail: nat)
    requires WellFormed(st) && MIN_ORDER <= avail < MAX_ORDER && st.freeArea[avail] != []
    ensures var x := st.freeArea[avail][0];
      x < NPAGES && Free(Take(st, avail), x) == st
  {
    var x := st.freeArea[avail][0];
    var t := Take(st, avail);
    assert InRange(st.freeArea[avail]);
    assert t.blockSize[x] == avail;
    var b := BuddyIndex(x, avail);
    assert b !in st.freeArea[avail];
    RemoveMembers(st.freeArea[avail], 0);
    assert IndexOf(t.freeArea[avail], b) == |t.freeArea[avail]|;
    FreeLists(t, x);
    InsertHeadBack(st.freeArea[avail]);
    assert t.freeArea[avail := st.freeArea[avail]] == st.freeArea;
  }

  /** At MAX_ORDER the head is the whole arena, every list is empty once it is unlinked, and it is listed again. */
  lemma {:induction false} FreeRestoresTop(st: State)
    requires WellFormed(st) && st.freeArea[MAX_ORDER] != []
    ensures var x := st.freeArea[MAX_ORDER][0];
      x < NPAGES && Free(Take(st, MAX_ORDER), x) == st
  {
    var t := Take(st, MAX_ORDER);
    TopAlone(st);
    assert FreeCount(t.freeArea, MIN_ORDER) == 0;
    FreeTop(t, 0);
    assert OfferPage([], 0) == [0];
    assert t.freeArea[MAX_ORDER := [0]] == st.freeArea;
  }

  /**
   * buddy_free of the block buddy_alloc has just returned gives back the
   * state before buddy_alloc.
   */
  lemma {:induction false} AllocFreeRoundTrip(st: State, size: int)
    requires WellFormed(st) && Alloc(st, size).1.Some?
    ensures AddrToPage(Alloc(st, size).1.value) < NPAGES &&
      Free(Alloc(st, size).0, AddrToPage(Alloc(st, size).1.value)) == st
  {
    AllocNull(st, size);
    var req := RequiredOrder(size).value;
    var avail := AvailableFrom(st.freeArea, req).value;
    var x := st.freeArea[avail][0];
    AllocServed(st, size, req, avail);
    ChainBase(st, req, avail);
    Chain(st, req, avail, req);
    var s := SplitDown(st, avail, req);
    assert Alloc(st, size) == (Take(s, req), Some(PageToAddr(x)));
    assert InRange(st.freeArea[avail]);
    UndoChain(st, s, req, avail, req, x);
    FreeRestores(st, avail);
  }
}
