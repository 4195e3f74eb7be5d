/**
 * The ordered list of libpriqueue.c: a doubly linked list between a head and
 * a tail sentinel, kept in the order of an injected comparer.
 *
 * The nodes between the sentinels are abstracted as the sequence `items`, in
 * list order; `size` is the queue's `size` field.  The comparer the allocator
 * injects is a difference of integer keys (buddy.c:78-83), so the queue is
 * parameterised by a key function and compares `key(a) - key(b)` against 0.
 */
module PriQueue {

  /** A pointer that may be NULL. */
  datatype Option<T> = None | Some(value: T)

  /** The comparer as the list calls it: negative, zero or positive. */
  function Compare<T>(key: T -> int, a: T, b: T): int
  {
    key(a) - key(b)
  }

  /** Ascending in key; equal keys allowed. */
  ghost predicate Sorted<T>(s: seq<T>, key: T -> int)
  {
    forall i, j :: 0 <= i < j < |s| ==> key(s[i]) <= key(s[j])
  }

  /**
   * The position at which priqueue_offer links `x` in: in front of the first
   * element `e` with `comparer(x, e) < 0`, or at the end.
   */
  function InsertPos<T>(s: seq<T>, key: T -> int, x: T): (p: nat)
    ensures p <= |s|
  {
    if s == [] then 0
    else if Compare(key, x, s[0]) < 0 then 0
    else 1 + InsertPos(s[1..], key, x)
  }

  /** Everything in front of the position has a key at most key(x); the element at it has a larger key. */
  lemma {:induction false} InsertPosBounds<T>(s: seq<T>, key: T -> int, x: T)
    ensures var p := InsertPos(s, key, x);
      (forall j :: 0 <= j < p ==> key(s[j]) <= key(x)) && (p < |s| ==> key(x) < key(s[p]))
  {
    if s != [] && Compare(key, x, s[0]) >= 0 {
      InsertPosBounds(s[1..], key, x);
    }
  }

  /** The contents after priqueue_offer(x). */
  function Insert<T>(s: seq<T>, key: T -> int, x: T): (r: seq<T>)
    ensures |r| == |s| + 1
  {
    var p := InsertPos(s, key, x);
    s[..p] + [x] + s[p..]
  }

  /** priqueue_offer adds `x` and keeps every element already there. */
  lemma {:induction false} InsertMultiset<T>(s: seq<T>, key: T -> int, x: T)
    ensures multiset(Insert(s, key, x)) == multiset(s) + multiset{x}
  {
    var p := InsertPos(s, key, x);
    assert s == s[..p] + s[p..];
  }

  /** priqueue_offer keeps a sorted list sorted. */
  lemma {:induction false} InsertKeepsSorted<T>(s: seq<T>, key: T -> int, x: T)
    requires Sorted(s, key)
    ensures Sorted(Insert(s, key, x), key)
  {
    var p := InsertPos(s, key, x);
    var r := Insert(s, key, x);
    InsertPosBounds(s, key, x);
    assert forall j :: 0 <= j < |r| ==> r[j] == if j < p then s[j] else if j == p then x else s[j - 1];
    forall i, j | 0 <= i < j < |r| ensures key(r[i]) <= key(r[j]) {
      if i < p && j == p {
        assert key(s[i]) <= key(x);
      } else if i == p && j > p {
        assert key(x) < key(s[p]) <= key(s[j - 1]);
      }
    }
  }

  /** The contents after priqueue_remove(x): every element identical to `x` is unlinked. */
  function RemoveAll<T(==)>(s: seq<T>, x: T): (r: seq<T>)
    ensures x !in r
  {
    if s == [] then []
    else if s[0] == x then RemoveAll(s[1..], x)
    else [s[0]] + RemoveAll(s[1..], x)
  }

  /** Removal drops every occurrence of `x` and nothing else. */
  lemma {:induction false} RemoveAllMultiset<T>(s: seq<T>, x: T)
    ensures x !in RemoveAll(s, x)
    ensures multiset(RemoveAll(s, x)) == multiset(s)[x := 0]
  {
    if s != [] {
      RemoveAllMultiset(s[1..], x);
      assert s == [s[0]] + s[1..];
    }
  }

  /** A position is determined by the two facts InsertPos promises. */
  lemma {:induction false} InsertPosUnique<T>(s: seq<T>, key: T -> int, x: T, p: nat)
    requires p <= |s|
    requires forall j :: 0 <= j < p ==> key(s[j]) <= key(x)
    requires p < |s| ==> key(x) < key(s[p])
    ensures p == InsertPos(s, key, x)
  {
    if s != [] && p > 0 {
      InsertPosUnique(s[1..], key, x, p - 1);
    }
  }

  /** Equal keys: a new element goes after every element with the same key. */
  lemma {:induction false} InsertAfterEqualKeys<T>(s: seq<T>, key: T -> int, x: T, j: nat)
    requires Sorted(s, key)
    requires j < |s| && key(s[j]) == key(x)
    ensures j < InsertPos(s, key, x)
    ensures Insert(s, key, x)[j] == s[j]
  {
    var p := InsertPos(s, key, x);
    InsertPosBounds(s, key, x);
    forall k | p <= k < |s| ensures key(x) < key(s[k]) {
      if k > p {
        assert key(s[p]) <= key(s[k]);
      }
    }
    assert j < p;
    assert (s[..p] + [x] + s[p..])[j] == s[..p][j];
  }

  /** Removal keeps the relative order: it distributes over concatenation. */
  lemma {:induction false} RemoveAllAppend<T>(a: seq<T>, b: seq<T>, x: T)
    ensures RemoveAll(a + b, x) == RemoveAll(a, x) + RemoveAll(b, x)
  {
    if a == [] {
      assert a + b == b;
    } else {
      assert (a + b)[1..] == a[1..] + b;
      RemoveAllAppend(a[1..], b, x);
    }
  }

  /** Appending one element: it survives exactly when it is not `x`. */
  lemma {:induction false} RemoveAllSnoc<T>(s: seq<T>, y: T, x: T)
    ensures RemoveAll(s + [y], x) == RemoveAll(s, x) + (if y == x then [] else [y])
  {
    RemoveAllAppend(s, [y], x);
    assert [y][1..] == [];
  }

  /** Removal keeps a sorted list sorted. */
  lemma {:induction false} RemoveAllSorted<T>(s: seq<T>, key: T -> int, x: T)
    requires Sorted(s, key)
    ensures Sorted(RemoveAll(s, x), key)
  {
    if s != [] {
      RemoveAllSorted(s[1..], key, x);
      var r := RemoveAll(s[1..], x);
      RemoveAllMultiset(s[1..], x);
      forall y | y in r ensures key(s[0]) <= key(y) {
        assert y in multiset(r);
        assert y in s[1..];
      }
    }
  }

  /** Removal drops exactly the occurrences of `x`. */
  lemma {:induction false} RemoveAllCount<T>(s: seq<T>, x: T)
    ensures |RemoveAll(s, x)| == |s| - multiset(s)[x]
  {
    var r := RemoveAll(s, x);
    RemoveAllMultiset(s, x);
    assert |multiset(r)| == |r|;
    assert multiset(s) == multiset(r) + multiset{x}[x := multiset(s)[x]];
  }

  /** Unlinking the node after `done` leaves `done` and what follows it. */
  lemma {:induction false} Unlink<T>(done: seq<T>, y: T, rest: seq<T>)
    ensures var items := done + [y] + rest;
      |done| < |items| && items[|done|] == y && items[..|done|] + items[|done| + 1..] == done + rest
  {
    var items := done + [y] + rest;
    assert items[..|done|] == done;
    assert items[|done| + 1..] == rest;
  }

  /** Splitting off the element at i, from the front of the rest or the back of the prefix. */
  lemma {:induction false} Peel<T>(s: seq<T>, i: nat)
    requires i < |s|
    ensures s[i..] == [s[i]] + s[i + 1..] && s[..i + 1] == s[..i] + [s[i]]
  {
  }

  /**
   * One step of priqueue_remove's walk over the original contents s: `done`
   * is what survives of s[..i], the cursor is at position |done|, on s[i].
   */
  lemma {:induction false} RemoveStep<T>(s: seq<T>, i: nat, x: T, done: seq<T>, items: seq<T>)
    requires i < |s| && done == RemoveAll(s[..i], x) && items == done + s[i..]
    ensures |done| < |items| && items[|done|] == s[i]
    ensures s[i] == x ==>
              done == RemoveAll(s[..i + 1], x) && items[..|done|] + items[|done| + 1..] == done + s[i + 1..]
    ensures s[i] != x ==>
              done + [s[i]] == RemoveAll(s[..i + 1], x) && items == (done + [s[i]]) + s[i + 1..]
  {
    Peel(s, i);
    RemoveAllSnoc(s[..i], s[i], x);
    Unlink(done, s[i], s[i + 1..]);
  }

  /** The end of priqueue_remove's walk: what survives, and how many were unlinked. */
  lemma {:induction false} RemoveDone<T>(s: seq<T>, x: T, done: seq<T>)
    requires done == RemoveAll(s[..|s|], x)
    ensures done == RemoveAll(s, x) && |done| == |s| - multiset(s)[x]
  {
    assert s[..|s|] == s;
    RemoveAllCount(s, x);
  }

  /** A list without `x` is left as it is. */
  lemma {:induction false} RemoveAllAbsent<T>(s: seq<T>, x: T)
    requires x !in s
    ensures RemoveAll(s, x) == s
  {
    if s != [] {
      RemoveAllAbsent(s[1..], x);
      assert s == [s[0]] + s[1..];
    }
  }

  /** libpriqueue.h's priqueue_t with its nodes abstracted as `items`. */
  class Queue<T(==)> {
    /** The data of the nodes between head and tail, front first. */
    var items: seq<T>
    /** q->size */
    var size: int
    /** The injected comparer, as a key: comparer(a, b) == key(a) - key(b). */
    const key: T -> int

    /** `size` counts the nodes between the sentinels. */
    ghost predicate Valid()
      reads this
    {
      size == |items|
    }

    /** priqueue_init: the head sentinel links directly to the tail. */
    constructor (key: T -> int)
      ensures Valid()
      ensures items == [] && size == 0 && this.key == key
    {
      this.items := [];
      this.size := 0;
      this.key := key;
    }

    /** priqueue_offer: sorted insert; returns the zero-based position. */
    method Offer(x: T) returns (position: int)
      requires Valid()
      modifies this
      ensures Valid()
      ensures position == InsertPos(old(items), key, x)
      ensures items == old(items)[..position] + [x] + old(items)[position..]
      ensures size == old(size) + 1
    {
      position := 0;
      var added := false;
      var i := 0;
      while i < size
        invariant 0 <= i <= size && position == i
        invariant items == old(items) && size == old(size)
        invariant forall j :: 0 <= j < i ==> key(items[j]) <= key(x)
      {
        var value := Compare(key, x, items[i]);
        if value >= 0 {
          position := position + 1;
          i := i + 1;
        } else {
          InsertPosUnique(items, key, x, i);
          items := items[..i] + [x] + items[i..];
          added := true;
          break;
        }
      }
      if !added {
        InsertPosUnique(items, key, x, i);
        items := items + [x];
      }
      size := size + 1;
    }

    /** priqueue_peek: the front element, NULL when empty. */
    method Peek() returns (r: Option<T>)
      requires Valid()
      ensures r.None? <==> items == []
      ensures r.Some? ==> r.value == items[0]
      ensures r.Some? && Sorted(items, key) ==> forall y :: y in items ==> key(r.value) <= key(y)
    {
      if size == 0 {
        return None;
      }
      r := Some(items[0]);
    }

    /** priqueue_poll: unlinks and returns the front element, NULL when empty. */
    method Poll() returns (r: Option<T>)
      requires Valid()
      modifies this
      ensures Valid()
      ensures r.None? <==> old(items) == []
      ensures r.None? ==> items == old(items) && size == old(size)
      ensures r.Some? ==> r.value == old(items)[0] && items == old(items)[1..] && size == old(size) - 1
      ensures Sorted(old(items), key) ==> Sorted(items, key)
    {
      if size == 0 {
        return None;
      }
      r := Some(items[0]);
      items := items[1..];
      size := size - 1;
    }

    /**
     * priqueue_at: walks `index` nodes from the front.  A negative index walks
     * no node, so it yields the front element (NULL from the tail sentinel
     * when the list is empty).
     */
    method At(index: int) returns (r: Option<T>)
      requires Valid()
      ensures index >= |items| ==> r == None
      ensures 0 <= index < |items| ==> r == Some(items[index])
      ensures index < 0 ==> r == (if items == [] then None else Some(items[0]))
    {
      if index >= size {
        return None;
      }
      if size == 0 {
        return None;
      }
      var i := 0;
      while i < index
        invariant 0 <= i <= index || (index < 0 && i == 0)
        invariant i < |items|
      {
        i := i + 1;
      }
      r := Some(items[i]);
    }

    /** priqueue_remove: unlinks every node whose data is identical to `x`; returns how many. */
    method Remove(x: T) returns (count: int)
      requires Valid()
      modifies this
      ensures Valid()
      ensures items == RemoveAll(old(items), x)
      ensures count == multiset(old(items))[x]
      ensures size == old(size) - count
    {
      count := 0;
      ghost var s0 := items;
      ghost var done: seq<T> := [];
      var iterations := size;
      var cur := 0;
      var i := 0;
      while i < iterations
        invariant 0 <= i <= iterations == |s0|
        invariant done == RemoveAll(s0[..i], x) && items == done + s0[i..]
        invariant cur == |done| && count == i - cur && size == |items|
      {
        RemoveStep(s0, i, x, done, items);
        if items[cur] == x {
          items := items[..cur] + items[cur + 1..];
          count := count + 1;
          size := size - 1;
        } else {
          done := done + [s0[i]];
          cur := cur + 1;
        }
        i := i + 1;
      }
      RemoveDone(s0, x, done);
    }

    /** priqueue_remove_at: unlinks and returns the element at `index`, NULL when out of range. */
    method RemoveAt(index: int) returns (r: Option<T>)
      requires Valid()
      requires index >= 0
      modifies this
      ensures Valid()
      ensures index >= |old(items)| ==> r == None && items == old(items) && size == old(size)
      ensures index < |old(items)| ==>
                r == Some(old(items)[index]) &&
                items == old(items)[..index] + old(items)[index + 1..] &&
                size == old(size) - 1
    {
      if index >= size {
        return None;
      }
      var i := 0;
      while i != index
        invariant 0 <= i <= index
      {
        i := i + 1;
      }
      r := Some(items[i]);
      items := items[..i] + items[i + 1..];
      size := size - 1;
    }

    /** priqueue_size */
    method Size() returns (n: int)
      requires Valid()
      ensures n == |items|
    {
      n := size;
    }
  }
}
