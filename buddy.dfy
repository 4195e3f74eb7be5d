/**
 * The allocator of buddy.c as it runs: the page descriptors' `blockSize`
 * and `pageIndex` fields as two arrays, and `free_area` as the sequence of
 * its MAX_ORDER + 1 ordered lists.  Every method walks the same loops as the
 * C function it models and is proved to leave exactly the state the
 * matching function of BuddySpec describes.
 */
module Buddy {
  import opened Bits
  import opened PriQueue
  import opened BuddySpec

  class Allocator {
    /** g_pages[i].blockSize: the order of the block page i belongs to. */
    const blockSize: array<int>
    /** g_pages[i].pageIndex, the key the free lists are ordered by. */
    const pageIndex: array<int>
    /** free_area[0..MAX_ORDER]: the free blocks of each order, by first page. */
    const freeArea: seq<Queue<int>>
    /** The order each list of free_area serves, which keeps the lists apart. */
    ghost const listOrder: map<Queue<int>, int>
    /** The contents of the free lists, list by list. */
    ghost var lists: seq<seq<int>>

    /** The arrays have one entry per page, the lists are distinct and compare page indices. */
    ghost predicate Valid()
      reads this, pageIndex, freeArea
    {
      blockSize.Length == NPAGES && pageIndex.Length == NPAGES && blockSize != pageIndex &&
      |freeArea| == MAX_ORDER + 1 && |lists| == MAX_ORDER + 1 &&
      (forall o :: 0 <= o <= MAX_ORDER ==> freeArea[o] in listOrder && listOrder[freeArea[o]] == o) &&
      (forall o :: 0 <= o <= MAX_ORDER ==> freeArea[o].items == lists[o]) &&
      (forall o :: 0 <= o <= MAX_ORDER ==> freeArea[o].Valid() && freeArea[o].key == PageKey) &&
      (forall i :: 0 <= i < NPAGES ==> pageIndex[i] == i)
    }

    /** The allocator state the functions of BuddySpec speak about. */
    ghost function Abstract(): State
      reads this, blockSize
    {
      State(blockSize[..], lists)
    }

    /** priqueue_init on n fresh lists. */
    static method EmptyLists(n: nat) returns (qs: seq<Queue<int>>)
      ensures |qs| == n && forall p :: 0 <= p < n ==> fresh(qs[p])
      ensures forall p, r :: 0 <= p < r < n ==> qs[p] != qs[r]
      ensures forall p :: 0 <= p < n ==> qs[p].Valid() && qs[p].key == PageKey && qs[p].items == []
    {
      qs := [];
      while |qs| < n
        modifies {}
        invariant |qs| <= n
        invariant forall p :: 0 <= p < |qs| ==> fresh(qs[p])
        invariant forall p, r :: 0 <= p < r < |qs| ==> qs[p] != qs[r]
        invariant forall p :: 0 <= p < |qs| ==> qs[p].Valid() && qs[p].key == PageKey && qs[p].items == []
      {
        var q := new Queue(PageKey);
        qs := qs + [q];
      }
    }

    /** The page loop of buddy_init (buddy.c:96-103): every page of order MAX_ORDER, indexed by its position. */
    static method NewPages() returns (bs: array<int>, pi: array<int>)
      ensures fresh(bs) && fresh(pi) && bs != pi && bs.Length == NPAGES && pi.Length == NPAGES
      ensures bs[..] == InitState().blockSize
      ensures forall i :: 0 <= i < NPAGES ==> pi[i] == i
    {
      bs := new int[NPAGES];
      pi := new int[NPAGES];
      var i := 0;
      while i < NPAGES
        modifies bs, pi
        invariant 0 <= i <= NPAGES
        invariant forall j :: 0 <= j < i ==> bs[j] == MAX_ORDER && pi[j] == j
      {
        bs[i] := MAX_ORDER;
        pi[i] := i;
        i := i + 1;
      }
      assert bs[..] == InitState().blockSize;
    }

    /** The lists of buddy_init (buddy.c:105-111): all empty but free_area[MAX_ORDER], which holds page 0. */
    static method NewFreeArea() returns (qs: seq<Queue<int>>)
      ensures |qs| == MAX_ORDER + 1 && forall o :: 0 <= o <= MAX_ORDER ==> fresh(qs[o])
      ensures forall o, p :: 0 <= o < p <= MAX_ORDER ==> qs[o] != qs[p]
      ensures forall o :: 0 <= o <= MAX_ORDER ==> qs[o].Valid() && qs[o].key == PageKey
      ensures forall o :: 0 <= o <= MAX_ORDER ==> qs[o].items == InitState().freeArea[o]
    {
      qs := EmptyLists(MAX_ORDER);
      var top := new Queue(PageKey);
      var position := top.Offer(0);
      assert position == 0;
      assert top.items == [0];
      qs := qs + [top];
    }

    /** buddy_init: every page of order MAX_ORDER, page 0 the one free block. */
    constructor ()
      ensures Valid() && fresh(blockSize) && fresh(pageIndex)
      ensures forall i :: 0 <= i < NPAGES ==> pageIndex[i] == i && blockSize[i] == MAX_ORDER
      ensures Abstract() == InitState()
    {
      var bs, pi := NewPages();
      var qs := NewFreeArea();
      blockSize := bs;
      pageIndex := pi;
      freeArea := qs;
      listOrder := map o | 0 <= o <= MAX_ORDER :: qs[o] := o;
      lists := InitState().freeArea;
    }

    /**
     * The retagging loops of buddy.c:189-193 and 278-282: the pages of
     * [x, x + d) and [b, b + d), d = |b - x|, get order o.
     */
    method SetOrder(x: nat, b: nat, o: int)
      requires Valid()
      requires var d := if b > x then b - x else x - b; x + d <= NPAGES && b + d <= NPAGES
      modifies blockSize
      ensures Valid() && blockSize[..] == Retag(old(blockSize[..]), x, b, o)
    {
      var diff := if b > x then b - x else x - b;
      var j := 0;
      while j < diff
        invariant 0 <= j <= diff
        invariant forall k :: 0 <= k < NPAGES ==>
                    blockSize[k] == if x <= k < x + j || b <= k < b + j then o else old(blockSize[k])
      {
        blockSize[b + j] := o;
        blockSize[x + j] := o;
        j := j + 1;
      }
      assert blockSize[..] == Retag(old(blockSize[..]), x, b, o);
    }

    /** priqueue_offer(&free_area[o], &g_pages[x]): only list o changes. */
    method OfferTo(o: nat, x: int)
      requires Valid() && o <= MAX_ORDER
      modifies this, freeArea[o]
      ensures Valid() && lists == old(lists)[o := OfferPage(old(lists)[o], x)]
      ensures blockSize[..] == old(blockSize[..])
    {
      var _ := freeArea[o].Offer(x);
      OfferPageIsInsert(lists[o], x);
      lists := lists[o := OfferPage(lists[o], x)];
      forall p | 0 <= p <= MAX_ORDER && p != o ensures freeArea[p].items == lists[p] {
        assert freeArea[p] != freeArea[o];
      }
    }

    /** Both halves of a split block listed at order o, the lower one first. */
    method OfferBoth(o: nat, x: int, b: int)
      requires Valid() && o <= MAX_ORDER
      modifies this, freeArea[o]
      ensures Valid() && lists == old(lists)[o := OfferPage(OfferPage(old(lists)[o], x), b)]
      ensures blockSize[..] == old(blockSize[..])
    {
      ghost var fa := lists;
      OfferTo(o, x);
      ghost var fa1 := lists;
      OfferTo(o, b);
      assert fa1[o] == OfferPage(fa[o], x);
      UpdateTwice(fa, o, OfferPage(fa[o], x), OfferPage(OfferPage(fa[o], x), b));
    }

    /** priqueue_remove_at(&free_area[o], index) on an index in range: only list o changes. */
    method RemoveAtFrom(o: nat, index: nat) returns (page: int)
      requires Valid() && o <= MAX_ORDER && index < |lists[o]|
      modifies this, freeArea[o]
      ensures Valid() && page == old(lists)[o][index]
      ensures lists == old(lists)[o := old(lists)[o][..index] + old(lists)[o][index + 1..]]
      ensures blockSize[..] == old(blockSize[..])
    {
      var r := freeArea[o].RemoveAt(index);
      page := r.value;
      lists := lists[o := lists[o][..index] + lists[o][index + 1..]];
      forall p | 0 <= p <= MAX_ORDER && p != o ensures freeArea[p].items == lists[p] {
        assert freeArea[p] != freeArea[o];
      }
    }

    /** priqueue_remove_at(&free_area[o], 0) on a list that has a block: the first block is unlinked. */
    method TakeFirst(o: nat) returns (page: int)
      requires Valid() && o <= MAX_ORDER && lists[o] != []
      modifies this, freeArea[o]
      ensures Valid() && page == old(lists)[o][0]
      ensures lists == old(lists)[o := old(lists)[o][1..]]
      ensures blockSize[..] == old(blockSize[..])
    {
      ghost var before := lists;
      page := RemoveAtFrom(o, 0);
      assert before[o][..0] + before[o][1..] == before[o][1..];
    }

    /**
     * The first half of a split pass (buddy.c:169-193): unlink the first
     * block of order i and retag it and its buddy, the two halves of
     * order i - 1.
     */
    method Detach(i: nat) returns (thisIndex: int, buddyIndex: int)
      requires Valid() && Shape(Abstract()) && ListsAligned(Abstract().freeArea)
      requires MIN_ORDER < i <= MAX_ORDER && Abstract().freeArea[i] != []
      modifies this, blockSize, freeArea[i]
      ensures Valid()
      ensures var st := old(Abstract());
        thisIndex == st.freeArea[i][0] && buddyIndex == thisIndex + Span(i - 1) &&
        blockSize[..] == Retag(st.blockSize, thisIndex, buddyIndex, i - 1) &&
        lists == st.freeArea[i := st.freeArea[i][1..]]
    {
      ghost var st := Abstract();
      SplitGeometry(st, i);
      var page := TakeFirst(i);
      ghost var taken := lists;
      thisIndex := pageIndex[page];
      buddyIndex := AddrToPage(BuddyAddr(PageToAddr(thisIndex), i - 1));
      BuddyIndexMacros(thisIndex, i - 1);
      assert thisIndex == st.freeArea[i][0] && buddyIndex == thisIndex + Span(i - 1);
      SetOrder(thisIndex, buddyIndex, i - 1);
      assert lists == taken;
      assert blockSize[..] == Retag(st.blockSize, thisIndex, buddyIndex, i - 1);
    }

    /**
     * One pass of buddy_alloc's split loop (buddy.c:169-198): unlink the
     * first block of order i, retag its two halves with order i - 1, and
     * list both halves at order i - 1.
     */
    method Split(i: nat)
      requires Valid() && Shape(Abstract()) && ListsAligned(Abstract().freeArea)
      requires MIN_ORDER < i <= MAX_ORDER && Abstract().freeArea[i] != []
      modifies this, blockSize, freeArea
      ensures Valid() && Abstract() == SplitStep(old(Abstract()), i)
    {
      ghost var st := Abstract();
      SplitStepHalves(st, i);
      var thisIndex, buddyIndex := Detach(i);
      ghost var bs := blockSize[..];
      ghost var fa := lists;
      OfferBoth(i - 1, thisIndex, buddyIndex);
      assert lists == fa[i - 1 := OfferPage(OfferPage(fa[i - 1], thisIndex), buddyIndex)];
      assert blockSize[..] == bs;
      assert Abstract() == State(bs, fa[i - 1 := OfferPage(OfferPage(fa[i - 1], thisIndex), buddyIndex)]);
      SplitStepIs(st, i, thisIndex, buddyIndex, bs, fa, Abstract());
    }

    /**
     * Step one of buddy_alloc (buddy.c:141-150): the least order from
     * MIN_ORDER on whose blocks hold `size` bytes, 0 when there is none.
     */
    static method RequiredOrderOf(size: int) returns (required: int)
      ensures required == 0 <==> RequiredOrder(size).None?
      ensures required != 0 ==> RequiredOrder(size) == Some(required)
    {
      required := 0;
      var i := MIN_ORDER;
      while i <= MAX_ORDER
        invariant MIN_ORDER <= i <= MAX_ORDER + 1
        invariant required == 0 && FitFrom(size, i) == RequiredOrder(size)
      {
        if Pow2(i) >= size {
          required := i;
          break;
        }
        FitFromNext(size, i);
        i := i + 1;
      }
    }

    /**
     * Step two of buddy_alloc (buddy.c:154-162): the first order from
     * `required` on with a free block, MAX_ORDER + 1 when there is none.
     */
    method FirstAvailable(required: nat) returns (available: nat)
      requires Valid() && MIN_ORDER <= required <= MAX_ORDER
      ensures available <= MAX_ORDER ==> AvailableFrom(lists, required) == Some(available)
      ensures available > MAX_ORDER ==> AvailableFrom(lists, required) == None
    {
      available := required;
      while available <= MAX_ORDER && freeArea[available].size == 0
        invariant required <= available <= MAX_ORDER + 1
        invariant AvailableFrom(lists, available) == AvailableFrom(lists, required)
      {
        available := available + 1;
      }
    }

    /** The split loop of buddy_alloc (buddy.c:169-198), from order a down to order req. */
    method SplitFrom(a: nat, req: nat)
      requires Valid() && Shape(Abstract()) && ListsAligned(Abstract().freeArea)
      requires MIN_ORDER <= req <= a <= MAX_ORDER && Abstract().freeArea[a] != []
      modifies this, blockSize, freeArea
      ensures Valid() && Abstract() == SplitDown(old(Abstract()), a, req)
    {
      ghost var st := Abstract();
      var k := a;
      while k > req
        invariant req <= k <= a
        invariant Valid() && Abstract() == SplitDown(st, a, k)
      {
        ghost var s := Abstract();
        SplitDownAligned(st, a, k);
        Split(k);
        SplitDownNext(st, a, k, s, Abstract());
        k := k - 1;
      }
    }

    /**
     * The end of buddy_alloc (buddy.c:200-208): unlink the first block of
     * order o and return its byte offset.
     */
    method Serve(o: nat) returns (addr: Option<nat>)
      requires Valid() && Shape(Abstract()) && o <= MAX_ORDER && Abstract().freeArea[o] != []
      modifies this, freeArea[o]
      ensures Valid()
      ensures var s := old(Abstract());
        Abstract() == State(s.blockSize, s.freeArea[o := s.freeArea[o][1..]]) &&
        addr == Some(PageToAddr(s.freeArea[o][0]))
    {
      ghost var s := Abstract();
      ghost var x := s.freeArea[o][0];
      assert x in s.freeArea[o];
      var page := TakeFirst(o);
      var thisIndex := pageIndex[page];
      assert thisIndex == x;
      addr := Some(PageToAddr(thisIndex));
    }

    /**
     * buddy_alloc: the byte offset of a block of at least `size` bytes, None
     * (NULL) when no order is large enough or no block is free.
     */
    method Alloc(size: int) returns (addr: Option<nat>)
      requires Valid() && Shape(Abstract()) && ListsAligned(Abstract().freeArea)
      modifies this, blockSize, freeArea
      ensures Valid()
      ensures (Abstract(), addr) == BuddySpec.Alloc(old(Abstract()), size)
    {
      ghost var st := Abstract();
      var required := RequiredOrderOf(size);
      if required == 0 {
        // buddy.c goes on with order 0 here (see RequiredOrderAsWritten).
        AllocNoOrder(st, size);
        return None;
      }
      assert Abstract() == st;
      var available := FirstAvailable(required);
      assert Abstract() == st;
      if available > MAX_ORDER {
        AllocNoBlock(st, size, required);
        return None;
      }
      SplitFrom(available, required);
      ghost var s := Abstract();
      assert s == SplitDown(st, available, required);
      addr := Serve(required);
      ghost var r := (State(s.blockSize, s.freeArea[required := s.freeArea[required][1..]]), Some(PageToAddr(s.freeArea[required][0])));
      assert (Abstract(), addr) == r;
      AllocServed(st, size, required, available);
      assert BuddySpec.Alloc(st, size) == r;
    }

    /** The count of buddy_free's base case (buddy.c:238-240): the free blocks of every order from MIN_ORDER on. */
    method CountFree() returns (count: int)
      requires Valid()
      ensures count == FreeCount(lists, MIN_ORDER)
    {
      ghost var fa := lists;
      count := 0;
      var i := MIN_ORDER;
      while i <= MAX_ORDER
        invariant MIN_ORDER <= i <= MAX_ORDER + 1
        invariant count + FreeCount(fa, i) == FreeCount(fa, MIN_ORDER)
      {
        var n := freeArea[i].Size();
        assert n == |fa[i]|;
        count := count + n;
        i := i + 1;
      }
    }

    /**
     * The search of buddy_free (buddy.c:254-264): walk free_area[o] for the
     * buddy's page and unlink the first occurrence.
     */
    method Unlink(o: nat, buddy: int) returns (found: bool)
      requires Valid() && MIN_ORDER <= o <= MAX_ORDER && InRange(lists[o])
      modifies this, freeArea[o]
      ensures Valid()
      ensures var s := old(lists)[o];
        var k := IndexOf(s, buddy);
        found == (k < |s|) &&
        lists == if found then old(lists)[o := s[..k] + s[k + 1..]] else old(lists)
      ensures blockSize[..] == old(blockSize[..])
    {
      ghost var fa := lists;
      ghost var s := fa[o];
      found := false;
      var i := 0;
      var n := freeArea[o].Size();
      while i < n
        invariant Valid() && lists == fa && 0 <= i <= n && n == |s|
        invariant forall j :: 0 <= j < i ==> s[j] != buddy
      {
        var page := freeArea[o].At(i);
        assert page == Some(s[i]) && 0 <= s[i] < NPAGES;
        if pageIndex[page.value] == buddy {
          var _ := RemoveAtFrom(o, i);
          found := true;
          break;
        }
        i := i + 1;
        n := freeArea[o].Size();
        assert lists == fa;
      }
    }

    /**
     * The base case of buddy_free (buddy.c:236-244): a block of order
     * MAX_ORDER is listed only when no list holds a block.
     */
    method FreeTopBlock(x: nat)
      requires Valid() && Shape(Abstract()) && x < NPAGES && blockSize[x] == MAX_ORDER
      modifies this, freeArea[MAX_ORDER]
      ensures Valid() && Abstract() == BuddySpec.Free(old(Abstract()), x)
    {
      ghost var st := Abstract();
      var count := CountFree();
      assert Abstract() == st;
      if count == 0 {
        OfferTo(MAX_ORDER, x);
        assert blockSize[..] == st.blockSize;
      }
      FreeTop(st, x);
    }

    /**
     * Step five of buddy_free when the buddy b was found and unlinked
     * (buddy.c:270-284): retag both halves with order o + 1 and return the
     * lower half, the block buddy_free goes on with.
     */
    method MergeHalves(ghost st: State, x: nat, b: nat) returns (lo: nat)
      requires Valid() && Shape(st) && x < NPAGES && st.blockSize[x] < MAX_ORDER
      requires Aligned(x, st.blockSize[x] - MIN_ORDER)
      requires var o := st.blockSize[x];
        var k := IndexOf(st.freeArea[o], b);
        b == BuddyIndex(x, o) && k < |st.freeArea[o]| &&
        blockSize[..] == st.blockSize && lists == st.freeArea[o := st.freeArea[o][..k] + st.freeArea[o][k + 1..]]
      modifies blockSize
      ensures Valid() && Shape(Abstract()) && lo < NPAGES
      ensures blockSize[lo] == st.blockSize[x] + 1 && Aligned(lo, blockSize[lo] - MIN_ORDER)
      ensures BuddySpec.Free(st, x) == BuddySpec.Free(Abstract(), lo)
    {
      var o := blockSize[x];
      MergeGeometry(x, o);
      ghost var fa := lists;
      SetOrder(x, b, o + 1);
      lo := if b > x then x else b;
      FreeAfterMerge(st, State(Retag(st.blockSize, x, b, o + 1), fa), x, lo);
      assert Abstract() == State(Retag(st.blockSize, x, b, o + 1), fa);
    }

    /** The last step of buddy_free when the buddy is not free (buddy.c:294-297): list x at its order. */
    method ListBlock(ghost st: State, x: nat)
      requires Valid() && Shape(st) && x < NPAGES && st.blockSize[x] < MAX_ORDER
      requires var o := st.blockSize[x];
        IndexOf(st.freeArea[o], BuddyIndex(x, o)) == |st.freeArea[o]| && Abstract() == st
      modifies this, freeArea[st.blockSize[x]]
      ensures Valid() && Abstract() == BuddySpec.Free(st, x)
    {
      var o := blockSize[x];
      OfferTo(o, x);
      assert blockSize[..] == st.blockSize;
      FreeAfterList(st, Abstract(), x);
    }

    /**
     * buddy_free: give back the block at byte offset addr, merging it with
     * its buddy as long as the buddy is free (buddy.c:220-298).
     */
    method Free(addr: nat)
      requires Valid() && Shape(Abstract())
      requires addr % PAGE_SIZE == 0 && AddrToPage(addr) < NPAGES
      requires Aligned(AddrToPage(addr), blockSize[AddrToPage(addr)] - MIN_ORDER)
      modifies this, blockSize, freeArea
      ensures Valid() && Abstract() == BuddySpec.Free(old(Abstract()), AddrToPage(addr))
      decreases MAX_ORDER - blockSize[AddrToPage(addr)], 2
    {
      var freedIndex := AddrToPage(addr);
      if blockSize[freedIndex] == MAX_ORDER {
        FreeTopBlock(freedIndex);
      } else {
        FreeBelowTop(freedIndex);
      }
    }

    /**
     * buddy_free of a block x below MAX_ORDER (buddy.c:246-297): find its
     * buddy through the address macros, look for it in the free list of
     * x's order, then merge and free the merged block, or list x.
     */
    method FreeBelowTop(x: nat)
      requires Valid() && Shape(Abstract()) && x < NPAGES && blockSize[x] < MAX_ORDER
      requires Aligned(x, blockSize[x] - MIN_ORDER)
      modifies this, blockSize, freeArea
      ensures Valid() && Abstract() == BuddySpec.Free(old(Abstract()), x)
      decreases MAX_ORDER - blockSize[x], 1
    {
      ghost var st := Abstract();
      var order := blockSize[x];
      var buddyIndex := AddrToPage(BuddyAddr(PageToAddr(x), order));
      BuddyIndexMacros(x, order);
      var found := Unlink(order, buddyIndex);
      if found {
        var lo := MergeHalves(st, x, buddyIndex);
        FreeMerged(st, x, lo);
      } else {
        ListBlock(st, x);
      }
    }

    /** The recursive call of buddy_free on the merged block lo (buddy.c:291-294). */
    method FreeMerged(ghost st: State, ghost x: nat, lo: nat)
      requires Valid() && Shape(st) && Shape(Abstract()) && x < NPAGES && lo < NPAGES
      requires MIN_ORDER < blockSize[lo] && Aligned(lo, blockSize[lo] - MIN_ORDER)
      requires BuddySpec.Free(st, x) == BuddySpec.Free(Abstract(), lo)
      modifies this, blockSize, freeArea
      ensures Valid() && Abstract() == BuddySpec.Free(st, x)
      decreases MAX_ORDER - blockSize[lo] + 1, 0
    {
      Free(PageToAddr(lo));
    }
  }
}
