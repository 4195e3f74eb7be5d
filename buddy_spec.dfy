/**
 * The buddy allocator of buddy.c as functions on its state: the geometry,
 * the address macros, the allocator state (the `blockSize` of every page
 * descriptor and the contents of every free list), its invariants, and one
 * function per step of buddy_alloc and buddy_free.
 *
 * Addresses are byte offsets from g_memory; a page descriptor &g_pages[i] is
 * the page index i.
 */
module BuddySpec {
  import opened Bits
  import opened PriQueue

  const MIN_ORDER: nat := 12
  const MAX_ORDER: nat := 20
  /** PAGE_SIZE == 1 << MIN_ORDER */
  const PAGE_SIZE: nat := 4096
  /** The number of page descriptors, (1 << MAX_ORDER) / PAGE_SIZE. */
  const NPAGES: nat := 256
  /** The bytes of g_memory, 1 << MAX_ORDER. */
  const ARENA_SIZE: nat := 1048576

  lemma {:induction false} Geometry()
    ensures PAGE_SIZE == Pow2(MIN_ORDER)
    ensures NPAGES == Pow2(MAX_ORDER - MIN_ORDER)
    ensures NPAGES * PAGE_SIZE == Pow2(MAX_ORDER) == ARENA_SIZE
  {
    Pow2Add(MAX_ORDER - MIN_ORDER, MIN_ORDER);
  }

  /** The number of pages in a block of order o. */
  function Span(o: nat): nat
    requires MIN_ORDER <= o
  {
    Pow2(o - MIN_ORDER)
  }

  /** PAGE_TO_ADDR */
  function PageToAddr(p: nat): (addr: nat)
    ensures addr % PAGE_SIZE == 0 && AddrToPage(addr) == p
  {
    p * PAGE_SIZE
  }

  /** ADDR_TO_PAGE */
  function AddrToPage(addr: nat): nat
  {
    addr / PAGE_SIZE
  }

  /** BUDDY_ADDR: the offset from g_memory with bit o flipped. */
  function BuddyAddr(addr: nat, o: nat): nat
  {
    Xor(addr, Pow2(o))
  }

  /**
   * The page of the buddy of page x at order o: page x with bit o - MIN_ORDER
   * flipped. BuddyIndexMacros shows this is the page buddy.c derives as
   * ADDR_TO_PAGE(BUDDY_ADDR(PAGE_TO_ADDR(x), o)).
   */
  function BuddyIndex(x: nat, o: nat): (b: nat)
    requires x < NPAGES && MIN_ORDER <= o < MAX_ORDER
    ensures b < NPAGES
  {
    FlipBitInArena(x, o);
    FlipBit(x, o - MIN_ORDER)
  }

  lemma {:induction false} FlipBitInArena(x: nat, o: nat)
    requires x < NPAGES && MIN_ORDER <= o < MAX_ORDER
    ensures 0 <= FlipBit(x, o - MIN_ORDER) < NPAGES
  {
    Geometry();
    FlipBitBelow(x, o - MIN_ORDER, MAX_ORDER - MIN_ORDER);
  }

  /** The buddy page found through the address macros is BuddyIndex, inside the arena. */
  lemma {:induction false} BuddyIndexMacros(x: nat, o: nat)
    requires x < NPAGES && MIN_ORDER <= o < MAX_ORDER
    ensures AddrToPage(BuddyAddr(PageToAddr(x), o)) == BuddyIndex(x, o) < NPAGES
  {
    var d := o - MIN_ORDER;
    Geometry();
    XorPow2(PageToAddr(x), o);
    BitScale(x, d, MIN_ORDER);
    Pow2Add(d, MIN_ORDER);
    FlipBitBelow(x, d, MAX_ORDER - MIN_ORDER);
    BitIsBit(x, d);
  }

  /** The key the list orders page descriptors by: with pageIndex[i] == i, page i's key is i. */
  function PageKey(p: int): int
  {
    p
  }

  /** comparer: pageIndex difference of two page descriptors. */
  function Comparer(pageIndex: seq<int>, a: nat, b: nat): (r: int)
    requires a < |pageIndex| && b < |pageIndex|
    ensures (forall i :: 0 <= i < |pageIndex| ==> pageIndex[i] == i) ==>
              r == Compare<int>(PageKey, a, b) && (r < 0 <==> a < b) && (r == 0 <==> a == b)
  {
    assert (forall i :: 0 <= i < |pageIndex| ==> pageIndex[i] == i) ==> pageIndex[a] == a && pageIndex[b] == b;
    pageIndex[a] - pageIndex[b]
  }

  /**
   * A free list after priqueue_offer(x) with the comparer above: x goes in
   * front of the first page with a larger index.
   */
  function OfferPage(s: seq<int>, x: int): (r: seq<int>)
    ensures |r| == |s| + 1 && x in r
  {
    if s == [] then [x]
    else if x < s[0] then [x] + s
    else [s[0]] + OfferPage(s[1..], x)
  }

  /** OfferPage is the queue's sorted insert under the page-index key. */
  lemma {:induction false} OfferPageIsInsert(s: seq<int>, x: int)
    ensures OfferPage(s, x) == Insert(s, PageKey, x)
  {
    var p := InsertPos(s, PageKey, x);
    if s != [] && x >= s[0] {
      OfferPageIsInsert(s[1..], x);
      var q := InsertPos(s[1..], PageKey, x);
      assert p == 1 + q;
      assert s[1..][..q] + [x] + s[1..][q..] == s[1..q + 1] + [x] + s[q + 1..];
      assert s[..p] == [s[0]] + s[1..q + 1];
    }
  }

  /** Offering x adds x and keeps every page already listed. */
  lemma {:induction false} OfferPageMultiset(s: seq<int>, x: int)
    ensures multiset(OfferPage(s, x)) == multiset(s) + multiset{x}
  {
    OfferPageIsInsert(s, x);
    InsertMultiset(s, PageKey, x);
  }

  /** g_pages[].blockSize and the contents of free_area[0..MAX_ORDER]. */
  datatype State = State(blockSize: seq<int>, freeArea: seq<seq<int>>)

  /** Every listed page exists. */
  predicate InRange(s: seq<int>)
  {
    forall k :: 0 <= k < |s| ==> 0 <= s[k] < NPAGES
  }

  /** Sizes and ranges: every page has an order in range, every listed page exists. */
  predicate Shape(st: State)
  {
    |st.blockSize| == NPAGES && |st.freeArea| == MAX_ORDER + 1 &&
    (forall i :: 0 <= i < NPAGES ==> MIN_ORDER <= st.blockSize[i] <= MAX_ORDER) &&
    (forall o :: 0 <= o <= MAX_ORDER ==> InRange(st.freeArea[o]))
  }

  lemma {:induction false} InsertInRange(s: seq<int>, x: int)
    requires InRange(s) && 0 <= x < NPAGES
    ensures InRange(OfferPage(s, x))
  {
    var r := OfferPage(s, x);
    OfferPageMultiset(s, x);
    forall k | 0 <= k < |r| ensures 0 <= r[k] < NPAGES {
      assert r[k] in multiset(r);
      if r[k] != x {
        assert r[k] in multiset(s);
        var j :| 0 <= j < |s| && s[j] == r[k];
      }
    }
  }

  lemma {:induction false} RemoveInRange(s: seq<int>, k: nat)
    requires InRange(s) && k < |s|
    ensures InRange(s[..k] + s[k + 1..]) && InRange(s[1..])
  {
    var r := s[..k] + s[k + 1..];
    assert forall j :: 0 <= j < |r| ==> r[j] == if j < k then s[j] else s[j + 1];
  }

  /** The pages listed after an insert: the old ones and the new one. */
  lemma {:induction false} InsertMembers(s: seq<int>, x: int)
    ensures forall y :: y in OfferPage(s, x) <==> y in s || y == x
  {
    var r := OfferPage(s, x);
    OfferPageMultiset(s, x);
    forall y ensures y in r <==> y in s || y == x {
      assert y in r <==> y in multiset(r);
      assert y in s <==> y in multiset(s);
    }
  }

  /** Unlinking position k lists nothing new. */
  lemma {:induction false} RemoveMembers(s: seq<int>, k: nat)
    requires k < |s|
    ensures forall y :: y in s[..k] + s[k + 1..] ==> y in s
    ensures forall y :: y in s[1..] ==> y in s
  {
    assert s == s[..k] + [s[k]] + s[k + 1..];
  }

  lemma {:induction false} UpdateTwice(fa: seq<seq<int>>, o: nat, a: seq<int>, b: seq<int>)
    requires o < |fa|
    ensures fa[o := a][o := b] == fa[o := b]
  {
  }

  /** Every page in s is aligned to 2^k pages. */
  predicate AllAligned(s: seq<int>, k: nat)
  {
    forall y :: y in s ==> y >= 0 && Aligned(y, k)
  }

  lemma {:induction false} InsertAligned(s: seq<int>, k: nat, x: nat)
    requires AllAligned(s, k) && Aligned(x, k)
    ensures AllAligned(OfferPage(s, x), k)
  {
    InsertMembers(s, x);
  }

  lemma {:induction false} RemoveAligned(s: seq<int>, k: nat, j: nat)
    requires AllAligned(s, k) && j < |s|
    ensures AllAligned(s[..j] + s[j + 1..], k) && AllAligned(s[1..], k)
  {
    RemoveMembers(s, j);
  }

  /** Every free block is aligned to its order. */
  predicate ListsAligned(fa: seq<seq<int>>)
    requires |fa| == MAX_ORDER + 1
  {
    forall o :: MIN_ORDER <= o <= MAX_ORDER ==> AllAligned(fa[o], o - MIN_ORDER)
  }

  lemma {:induction false} ListsAlignedUpdate(fa: seq<seq<int>>, o: nat, s: seq<int>)
    requires |fa| == MAX_ORDER + 1 && ListsAligned(fa)
    requires MIN_ORDER <= o <= MAX_ORDER && AllAligned(s, o - MIN_ORDER)
    ensures ListsAligned(fa[o := s])
  {
  }

  /**
   * All pages of a block carry the same order: the aligned run of Span(o)
   * pages around a page of order o is made of pages of order o.
   */
  predicate UniformBlocks(bs: seq<int>)
    requires |bs| == NPAGES && forall i :: 0 <= i < NPAGES ==> MIN_ORDER <= bs[i] <= MAX_ORDER
  {
    forall i, j {:trigger BlockNumber(bs, i, j)} ::
      0 <= i < NPAGES && 0 <= j < NPAGES && BlockNumber(bs, i, j) == BlockNumber(bs, i, i) ==> bs[j] == bs[i]
  }

  /** Under UniformBlocks, every page of the aligned block at x has x's order. */
  lemma {:induction false} SameBlock(bs: seq<int>, x: nat, p: nat)
    requires |bs| == NPAGES && forall i :: 0 <= i < NPAGES ==> MIN_ORDER <= bs[i] <= MAX_ORDER
    requires UniformBlocks(bs) && x < NPAGES && p < NPAGES
    requires Aligned(x, bs[x] - MIN_ORDER) && x <= p < x + Span(bs[x])
    ensures bs[p] == bs[x]
  {
    ChunkRange(x, p, bs[x] - MIN_ORDER);
    assert BlockNumber(bs, x, p) == BlockNumber(bs, x, x);
  }

  /** The number of the aligned block, of page i's order, that holds page j. */
  function BlockNumber(bs: seq<int>, i: int, j: nat): nat
    requires 0 <= i < |bs| && MIN_ORDER <= bs[i]
  {
    Chunk(j, bs[i] - MIN_ORDER)
  }

  predicate StrictlyAscending(s: seq<int>)
  {
    forall a, b :: 0 <= a < b < |s| ==> s[a] < s[b]
  }

  /** free_area[o] lists pages whose blocks have order o, lowest index first; the unused lists are empty. */
  predicate ListsConsistent(st: State)
    requires Shape(st)
  {
    (forall o :: 0 <= o < MIN_ORDER ==> st.freeArea[o] == []) &&
    (forall o, k :: MIN_ORDER <= o <= MAX_ORDER && 0 <= k < |st.freeArea[o]| ==>
       st.blockSize[st.freeArea[o][k]] == o) &&
    (forall o :: MIN_ORDER <= o <= MAX_ORDER ==> StrictlyAscending(st.freeArea[o]))
  }

  /** Two free buddies of the same order are always merged. */
  predicate NoFreeBuddies(st: State)
    requires Shape(st)
  {
    forall o, k :: MIN_ORDER <= o < MAX_ORDER && 0 <= k < |st.freeArea[o]| ==>
      FlipBit(st.freeArea[o][k], o - MIN_ORDER) !in st.freeArea[o]
  }

  /** The allocator invariant kept between complete buddy_alloc and buddy_free calls. */
  predicate WellFormed(st: State)
  {
    Shape(st) && ListsAligned(st.freeArea) && UniformBlocks(st.blockSize) && ListsConsistent(st) && NoFreeBuddies(st)
  }

  /** Page x starts a block that no free list holds: a block handed out by buddy_alloc. */
  predicate Allocated(st: State, x: nat)
    requires Shape(st)
  {
    x < NPAGES && Aligned(x, st.blockSize[x] - MIN_ORDER) && x !in st.freeArea[st.blockSize[x]]
  }

  /** The state buddy_init leaves: every page of order MAX_ORDER, page 0 the one free block. */
  function InitState(): (r: State)
    ensures Shape(r)
  {
    State(seq(NPAGES, i => MAX_ORDER), seq(MAX_ORDER + 1, o => if o == MAX_ORDER then [0] else []))
  }

  /**
   * The two halves [x, x + d) and [b, b + d), d = |b - x|, retagged with
   * order o, as the loops of buddy.c:183-193 and 272-282 do.
   */
  function Retag(bs: seq<int>, x: int, b: int, o: int): (r: seq<int>)
    ensures |r| == |bs|
    ensures forall j {:trigger r[j]} :: 0 <= j < |bs| ==> r[j] == if InHalves(j, x, b) then o else bs[j]
  {
    seq(|bs|, j requires 0 <= j < |bs| => if InHalves(j, x, b) then o else bs[j])
  }

  /** Page j lies in [x, x + d) or in [b, b + d), d = |b - x|. */
  predicate InHalves(j: int, x: int, b: int)
  {
    var d := if b > x then b - x else x - b;
    x <= j < x + d || b <= j < b + d
  }

  /** The first position of b in s, |s| when b is absent: the search of buddy.c:255-264. */
  function IndexOf(s: seq<int>, b: int): (k: nat)
    ensures k <= |s|
    ensures k < |s| ==> s[k] == b
    ensures forall j :: 0 <= j < k ==> s[j] != b
  {
    if s == [] then 0
    else if s[0] == b then 0
    else 1 + IndexOf(s[1..], b)
  }

  /** The count of buddy.c:238-240: free blocks of order lo and up. */
  function FreeCount(fa: seq<seq<int>>, lo: nat): (n: nat)
    requires |fa| == MAX_ORDER + 1 && lo <= MAX_ORDER + 1
    ensures n == 0 <==> forall o :: lo <= o <= MAX_ORDER ==> fa[o] == []
    decreases MAX_ORDER + 1 - lo
  {
    if lo > MAX_ORDER then 0 else |fa[lo]| + FreeCount(fa, lo + 1)
  }

  /** The first order from o up to MAX_ORDER whose blocks hold `size` bytes. */
  function FitFrom(size: int, o: nat): (r: Option<nat>)
    ensures r.Some? ==> o <= r.value <= MAX_ORDER && size <= Pow2(r.value)
    decreases MAX_ORDER + 1 - o
  {
    if o > MAX_ORDER then None
    else if Pow2(o) >= size then Some(o)
    else FitFrom(size, o + 1)
  }

  /** One step of the search: an order too small for `size` passes it on to the next. */
  lemma {:induction false} FitFromNext(size: int, o: nat)
    requires o <= MAX_ORDER && Pow2(o) < size
    ensures FitFrom(size, o) == FitFrom(size, o + 1)
  {
  }

  /** The order buddy_alloc serves `size` bytes from; None when no order is large enough. */
  function RequiredOrder(size: int): (r: Option<nat>)
    ensures r.Some? ==> MIN_ORDER <= r.value <= MAX_ORDER && size <= Pow2(r.value)
  {
    FitFrom(size, MIN_ORDER)
  }

  /** The search finds nothing exactly when even a block of order MAX_ORDER is too small. */
  lemma {:induction false} FitFromNone(size: int, o: nat)
    requires o <= MAX_ORDER
    ensures FitFrom(size, o).None? <==> Pow2(MAX_ORDER) < size
    decreases MAX_ORDER - o
  {
    Pow2Monotone(o, MAX_ORDER);
    if Pow2(o) < size && o < MAX_ORDER {
      FitFromNone(size, o + 1);
    }
  }

  /** buddy_alloc can serve every size up to the whole arena and no larger one. */
  lemma {:induction false} RequiredOrderNone(size: int)
    ensures RequiredOrder(size).None? <==> size > ARENA_SIZE
  {
    FitFromNone(size, MIN_ORDER);
    Geometry();
  }

  /** The first order from o up to MAX_ORDER with a free block. */
  function AvailableFrom(fa: seq<seq<int>>, o: nat): (r: Option<nat>)
    requires |fa| == MAX_ORDER + 1
    ensures r.Some? ==> o <= r.value <= MAX_ORDER && fa[r.value] != []
    ensures r.Some? ==> forall k :: o <= k < r.value ==> fa[k] == []
    ensures r.None? ==> forall k :: o <= k <= MAX_ORDER ==> fa[k] == []
    decreases MAX_ORDER + 1 - o
  {
    if o > MAX_ORDER then None
    else if fa[o] != [] then Some(o)
    else AvailableFrom(fa, o + 1)
  }

  /**
   * Step one of buddy_alloc as written (buddy.c:141-150): the order stays 0
   * when no order up to MAX_ORDER holds `size` bytes, and nothing checks it.
   */
  function RequiredOrderAsWritten(size: int): (r: nat)
    ensures r == 0 || MIN_ORDER <= r <= MAX_ORDER
  {
    match FitFrom(size, MIN_ORDER)
    case None => 0
    case Some(o) => o
  }

  /**
   * The scan of buddy_alloc as written (buddy.c:155-158): the loop has no
   * upper bound, so it stops at the first non-empty list or at the first
   * index past free_area[MAX_ORDER], whose size it has then read.
   */
  function ScanAsWritten(fa: seq<seq<int>>, o: nat): (r: nat)
    requires |fa| == MAX_ORDER + 1 && o <= MAX_ORDER + 1
    ensures o <= r <= MAX_ORDER + 1
    decreases MAX_ORDER + 1 - o
  {
    if o > MAX_ORDER then o
    else if fa[o] != [] then o
    else ScanAsWritten(fa, o + 1)
  }

  /** The unbounded scan agrees with AvailableFrom, and reads past free_area exactly when AvailableFrom finds nothing. */
  lemma {:induction false} ScanAsWrittenReads(fa: seq<seq<int>>, o: nat)
    requires |fa| == MAX_ORDER + 1 && o <= MAX_ORDER + 1
    ensures ScanAsWritten(fa, o) == MAX_ORDER + 1 <==> AvailableFrom(fa, o).None?
    ensures AvailableFrom(fa, o).Some? ==> ScanAsWritten(fa, o) == AvailableFrom(fa, o).value
    decreases MAX_ORDER + 1 - o
  {
    if o <= MAX_ORDER && fa[o] == [] {
      ScanAsWrittenReads(fa, o + 1);
    }
  }

  /** With every list empty, the scan as written reads free_area[MAX_ORDER + 1], one past the array. */
  lemma {:induction false} ScanPastEnd(fa: seq<seq<int>>)
    requires |fa| == MAX_ORDER + 1 && forall o :: 0 <= o <= MAX_ORDER ==> fa[o] == []
    ensures ScanAsWritten(fa, MIN_ORDER) == MAX_ORDER + 1
  {
    ScanAsWrittenReads(fa, MIN_ORDER);
  }

  /**
   * A request one byte larger than the arena gets order 0 as written. The
   * scan from order 0 passes the lists free_area[0..11], which buddy_init
   * never initialises (size 0, NULL head and tail), and picks the whole arena
   * at MAX_ORDER. The split loop then runs its passes down to i = 12, whose
   * offer into free_area[11] follows that list's NULL head
   * (libpriqueue.c:84).
   */
  lemma {:induction false} OversizeAsWritten()
    ensures RequiredOrderAsWritten(ARENA_SIZE + 1) == 0
    ensures ScanAsWritten(InitState().freeArea, 0) == MAX_ORDER
    ensures RequiredOrder(ARENA_SIZE + 1).None?
  {
    RequiredOrderNone(ARENA_SIZE + 1);
    var fa := InitState().freeArea;
    assert fa[MAX_ORDER] != [];
    ScanAsWrittenReads(fa, 0);
  }

  /**
   * One pass of the split loop (buddy.c:169-198): take the first block x of
   * order i, retag its two halves with order i - 1, and list x and its buddy
   * at order i - 1.
   */
  function SplitStep(st: State, i: nat): (r: State)
    requires Shape(st) && MIN_ORDER < i <= MAX_ORDER && st.freeArea[i] != []
    ensures Shape(r) && r.freeArea[i - 1] != []
  {
    var x := st.freeArea[i][0];
    var b := BuddyIndex(x, i - 1);
    var fa := st.freeArea[i := st.freeArea[i][1..]];
    RemoveInRange(st.freeArea[i], 0);
    InsertInRange(fa[i - 1], x);
    InsertInRange(OfferPage(fa[i - 1], x), b);
    State(Retag(st.blockSize, x, b, i - 1),
          fa[i - 1 := OfferPage(OfferPage(fa[i - 1], x), b)])
  }

  /** The split loop from order a down to order i: the passes for orders a, a - 1, ..., i + 1. */
  function SplitDown(st: State, a: nat, i: nat): (r: State)
    requires Shape(st) && MIN_ORDER <= i <= a <= MAX_ORDER && st.freeArea[a] != []
    ensures Shape(r) && r.freeArea[i] != []
    decreases a - i
  {
    if i == a then st else SplitStep(SplitDown(st, a, i + 1), i + 1)
  }

  /** One more split pass on the state SplitDown reached at order k is SplitDown to order k - 1. */
  lemma {:induction false} SplitDownNext(st: State, a: nat, k: nat, s: State, t: State)
    requires Shape(st) && MIN_ORDER < k <= a <= MAX_ORDER && st.freeArea[a] != []
    requires s == SplitDown(st, a, k) && t == SplitStep(s, k)
    ensures t == SplitDown(st, a, k - 1)
  {
  }

  /**
   * buddy_alloc: the new state and the returned offset, None for NULL.
   * A size larger than the arena is refused here; buddy.c:141-150 has no such
   * check (see RequiredOrderAsWritten).
   */
  function Alloc(st: State, size: int): (r: (State, Option<nat>))
    requires Shape(st)
    ensures Shape(r.0)
  {
    match RequiredOrder(size)
    case None => (st, None)
    case Some(req) =>
      match AvailableFrom(st.freeArea, req)
      case None => (st, None)
      case Some(avail) =>
        var s := SplitDown(st, avail, req);
        var x := s.freeArea[req][0];
        RemoveInRange(s.freeArea[req], 0);
        (s.(freeArea := s.freeArea[req := s.freeArea[req][1..]]), Some(PageToAddr(x)))
  }

  /** buddy_alloc returns NULL and changes nothing when no order is large enough. */
  lemma {:induction false} AllocNoOrder(st: State, size: int)
    requires Shape(st) && RequiredOrder(size).None?
    ensures Alloc(st, size) == (st, None)
  {
  }

  /** buddy_alloc returns NULL and changes nothing when no list from the required order on has a block. */
  lemma {:induction false} AllocNoBlock(st: State, size: int, req: nat)
    requires Shape(st) && RequiredOrder(size) == Some(req) && AvailableFrom(st.freeArea, req).None?
    ensures Alloc(st, size) == (st, None)
  {
  }

  /** Otherwise buddy_alloc splits down to the required order and unlinks the first block there. */
  lemma {:induction false} AllocServed(st: State, size: int, req: nat, avail: nat)
    requires Shape(st) && RequiredOrder(size) == Some(req) && AvailableFrom(st.freeArea, req) == Some(avail)
    ensures var s := SplitDown(st, avail, req);
      Alloc(st, size) == (State(s.blockSize, s.freeArea[req := s.freeArea[req][1..]]), Some(PageToAddr(s.freeArea[req][0])))
  {
  }

  /** State after one merge of buddy_free: b unlisted at order o, both halves retagged o + 1. */
  function Merge(st: State, x: nat, b: nat, o: nat, k: nat): (r: State)
    requires Shape(st) && x < NPAGES && b < NPAGES && MIN_ORDER <= o < MAX_ORDER && k < |st.freeArea[o]|
    ensures Shape(r)
  {
    RemoveInRange(st.freeArea[o], k);
    State(Retag(st.blockSize, x, b, o + 1),
          st.freeArea[o := st.freeArea[o][..k] + st.freeArea[o][k + 1..]])
  }

  /** buddy_free of the block at page x. */
  function Free(st: State, x: nat): (r: State)
    requires Shape(st) && x < NPAGES
    ensures Shape(r)
    decreases MAX_ORDER - st.blockSize[x]
  {
    var o := st.blockSize[x];
    if o == MAX_ORDER then
      if FreeCount(st.freeArea, MIN_ORDER) == 0 then
        InsertInRange(st.freeArea[MAX_ORDER], x);
        st.(freeArea := st.freeArea[MAX_ORDER := OfferPage(st.freeArea[MAX_ORDER], x)])
      else st
    else
      var b := BuddyIndex(x, o);
      var k := IndexOf(st.freeArea[o], b);
      if k < |st.freeArea[o]| then
        var lo := if b > x then x else b;
        var merged := Merge(st, x, b, o, k);
        assert merged.blockSize[lo] == o + 1;
        Free(merged, lo)
      else
        InsertInRange(st.freeArea[o], x);
        st.(freeArea := st.freeArea[o := OfferPage(st.freeArea[o], x)])
  }

  /**
   * A block of order o below MAX_ORDER and its buddy are the two halves of
   * an aligned block of order o + 1 that lies within the arena.
   */
  lemma {:induction false} MergeGeometry(x: nat, o: nat)
    requires x < NPAGES && MIN_ORDER <= o < MAX_ORDER && Aligned(x, o - MIN_ORDER)
    ensures var b := BuddyIndex(x, o);
      var lo := if b > x then x else b;
      (b == lo + Span(o) || x == lo + Span(o)) && (b == lo || x == lo) &&
      lo + 2 * Span(o) <= NPAGES && Aligned(lo, o + 1 - MIN_ORDER)
  {
    var k := o - MIN_ORDER;
    BitIsBit(x, k);
    AlignedLower(x, k);
    var b := BuddyIndex(x, o);
    var lo := if b > x then x else b;
    Geometry();
    AlignedFits(lo, k + 1, MAX_ORDER - MIN_ORDER);
    assert Pow2(k + 1) == 2 * Span(o);
  }

  /** A block of order MAX_ORDER is listed again only when every list is empty. */
  lemma {:induction false} FreeTop(st: State, x: nat)
    requires Shape(st) && x < NPAGES && st.blockSize[x] == MAX_ORDER
    ensures Free(st, x) == if FreeCount(st.freeArea, MIN_ORDER) == 0
                           then st.(freeArea := st.freeArea[MAX_ORDER := OfferPage(st.freeArea[MAX_ORDER], x)])
                           else st
  {
  }

  /** A block below MAX_ORDER whose buddy is listed merges with it, and the merged block is freed in turn. */
  lemma {:induction false} FreeMerges(st: State, x: nat)
    requires Shape(st) && x < NPAGES && st.blockSize[x] < MAX_ORDER
    requires IndexOf(st.freeArea[st.blockSize[x]], BuddyIndex(x, st.blockSize[x])) < |st.freeArea[st.blockSize[x]]|
    ensures var o := st.blockSize[x];
      var b := BuddyIndex(x, o);
      var merged := Merge(st, x, b, o, IndexOf(st.freeArea[o], b));
      merged.blockSize[if b > x then x else b] == o + 1 &&
      Free(st, x) == Free(merged, if b > x then x else b)
  {
  }

  /** The same, for the state mid the merge left and the lower half lo, which is a block of order o + 1. */
  lemma {:induction false} FreeAfterMerge(st: State, mid: State, x: nat, lo: nat)
    requires Shape(st) && x < NPAGES && st.blockSize[x] < MAX_ORDER && Aligned(x, st.blockSize[x] - MIN_ORDER)
    requires var o := st.blockSize[x];
      var b := BuddyIndex(x, o);
      var k := IndexOf(st.freeArea[o], b);
      k < |st.freeArea[o]| && lo == (if b > x then x else b) &&
      mid.blockSize == Retag(st.blockSize, x, b, o + 1) &&
      mid.freeArea == st.freeArea[o := st.freeArea[o][..k] + st.freeArea[o][k + 1..]]
    ensures Shape(mid) && lo < NPAGES && Free(st, x) == Free(mid, lo)
    ensures mid.blockSize[lo] == st.blockSize[x] + 1 && Aligned(lo, mid.blockSize[lo] - MIN_ORDER)
  {
    var o := st.blockSize[x];
    var b := BuddyIndex(x, o);
    MergeGeometry(x, o);
    MergeIs(st, mid, x, b, o, IndexOf(st.freeArea[o], b));
    FreeMerges(st, x);
  }

  /** A state with Merge's block sizes and lists is Merge's state. */
  lemma {:induction false} MergeIs(st: State, mid: State, x: nat, b: nat, o: nat, k: nat)
    requires Shape(st) && x < NPAGES && b < NPAGES && MIN_ORDER <= o < MAX_ORDER && k < |st.freeArea[o]|
    requires mid.blockSize == Retag(st.blockSize, x, b, o + 1)
    requires mid.freeArea == st.freeArea[o := st.freeArea[o][..k] + st.freeArea[o][k + 1..]]
    ensures mid == Merge(st, x, b, o, k)
  {
  }

  /** A block whose buddy is not listed is listed at its own order. */
  lemma {:induction false} FreeLists(st: State, x: nat)
    requires Shape(st) && x < NPAGES && st.blockSize[x] < MAX_ORDER
    requires IndexOf(st.freeArea[st.blockSize[x]], BuddyIndex(x, st.blockSize[x])) == |st.freeArea[st.blockSize[x]]|
    ensures var o := st.blockSize[x];
      Free(st, x) == st.(freeArea := st.freeArea[o := OfferPage(st.freeArea[o], x)])
  {
  }

  /** The same, for the state after the block is listed. */
  lemma {:induction false} FreeAfterList(st: State, after: State, x: nat)
    requires Shape(st) && x < NPAGES && st.blockSize[x] < MAX_ORDER
    requires var o := st.blockSize[x];
      IndexOf(st.freeArea[o], BuddyIndex(x, o)) == |st.freeArea[o]| &&
      after == st.(freeArea := st.freeArea[o := OfferPage(st.freeArea[o], x)])
    ensures Free(st, x) == after
  {
    FreeLists(st, x);
  }

  /** The block a split takes apart and its buddy: both halves of an aligned block of order i. */
  lemma {:induction false} SplitGeometry(st: State, i: nat)
    requires Shape(st) && ListsAligned(st.freeArea) && MIN_ORDER < i <= MAX_ORDER && st.freeArea[i] != []
    ensures var x := st.freeArea[i][0];
      BuddyIndex(x, i - 1) == x + Span(i - 1) && x + 2 * Span(i - 1) <= NPAGES &&
      Aligned(x, i - 1 - MIN_ORDER) && Aligned(x + Span(i - 1), i - 1 - MIN_ORDER)
  {
    var x := st.freeArea[i][0];
    var k := i - 1 - MIN_ORDER;
    assert AllAligned(st.freeArea[i], k + 1);
    assert x in st.freeArea[i] && Aligned(x, k + 1);
    AlignedHalves(x, k);
    Geometry();
    AlignedFits(x, k + 1, MAX_ORDER - MIN_ORDER);
    assert Pow2(k + 1) == 2 * Span(i - 1);
  }

  /** A split of an aligned block lists it and its upper half, the block Span(i - 1) pages on. */
  lemma {:induction false} SplitStepHalves(st: State, i: nat)
    requires Shape(st) && ListsAligned(st.freeArea) && MIN_ORDER < i <= MAX_ORDER && st.freeArea[i] != []
    ensures var x := st.freeArea[i][0];
      var fa := st.freeArea[i := st.freeArea[i][1..]];
      SplitStep(st, i) == State(Retag(st.blockSize, x, x + Span(i - 1), i - 1),
                                fa[i - 1 := OfferPage(OfferPage(fa[i - 1], x), x + Span(i - 1))])
  {
    SplitGeometry(st, i);
  }

  /** A state with the block sizes and lists SplitStepHalves describes is SplitStep's state. */
  lemma {:induction false} SplitStepIs(st: State, i: nat, x: nat, b: nat, bs: seq<int>, fa: seq<seq<int>>, t: State)
    requires Shape(st) && ListsAligned(st.freeArea) && MIN_ORDER < i <= MAX_ORDER && st.freeArea[i] != []
    requires x == st.freeArea[i][0] && b == x + Span(i - 1) && bs == Retag(st.blockSize, x, b, i - 1)
    requires fa == st.freeArea[i := st.freeArea[i][1..]]
    requires t == State(bs, fa[i - 1 := OfferPage(OfferPage(fa[i - 1], x), b)])
    ensures t == SplitStep(st, i)
  {
    SplitStepHalves(st, i);
  }

  /** A split lists only aligned blocks. */
  lemma {:induction false} SplitStepAligned(st: State, i: nat)
    requires Shape(st) && ListsAligned(st.freeArea) && MIN_ORDER < i <= MAX_ORDER && st.freeArea[i] != []
    ensures ListsAligned(SplitStep(st, i).freeArea)
  {
    var x := st.freeArea[i][0];
    SplitGeometry(st, i);
    var b := BuddyIndex(x, i - 1);
    SplitListsAligned(st.freeArea, i, x, b);
  }

  lemma {:induction false} SplitListsAligned(fa: seq<seq<int>>, i: nat, x: nat, b: nat)
    requires |fa| == MAX_ORDER + 1 && ListsAligned(fa) && MIN_ORDER < i <= MAX_ORDER && fa[i] != []
    requires Aligned(x, i - 1 - MIN_ORDER) && Aligned(b, i - 1 - MIN_ORDER)
    ensures ListsAligned(fa[i := fa[i][1..]][i - 1 := OfferPage(OfferPage(fa[i - 1], x), b)])
  {
    var k := i - 1 - MIN_ORDER;
    var rest := fa[i := fa[i][1..]];
    var s1 := OfferPage(fa[i - 1], x);
    var s2 := OfferPage(s1, b);
    RemoveAligned(fa[i], i - MIN_ORDER, 0);
    ListsAlignedUpdate(fa, i, fa[i][1..]);
    assert rest[i - 1] == fa[i - 1];
    InsertAligned(fa[i - 1], k, x);
    InsertAligned(s1, k, b);
    ListsAlignedUpdate(rest, i - 1, s2);
  }

  lemma {:induction false} SplitDownAligned(st: State, a: nat, i: nat)
    requires Shape(st) && ListsAligned(st.freeArea) && MIN_ORDER <= i <= a <= MAX_ORDER && st.freeArea[a] != []
    ensures ListsAligned(SplitDown(st, a, i).freeArea)
    decreases a - i
  {
    if i < a {
      SplitDownAligned(st, a, i + 1);
      SplitStepAligned(SplitDown(st, a, i + 1), i + 1);
    }
  }
}
