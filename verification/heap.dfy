/**
 * The binary heap over the growable vector (heap.c).
 *
 * The heap stores its elements in a DynamicVector; the caller supplies the
 * ordering as `isBefore(queued, incoming)`, true when `incoming` should come
 * before `queued`. `ElementIsBefore(a, i, j)` (element `i` should come before
 * element `j`) therefore asks `isBefore(a[j], a[i])`, exactly as heap.c does.
 * The invariant: no element should come before its parent.
 */
module BinaryHeap {
  import opened Common
  import opened Order
  import DynamicVector

  /** The vector holds one pointer per element: 8 bytes on an LP64 target. */
  const PointerSize: nat := 8

  datatype Heap<T> = Heap(dv: DynamicVector.Vector<T>)
  {
    function Items(): seq<T> {
      dv.items
    }
  }

  function Left(i: nat): nat {
    2 * i + 1
  }

  function Right(i: nat): nat {
    2 * i + 2
  }

  function Parent(i: nat): nat
    requires i > 0
  {
    (i - 1) / 2
  }

  /** Element `i` should come before element `j`. */
  predicate ElementIsBefore<T>(a: seq<T>, i: nat, j: nat, isBefore: (T, T) -> bool)
    requires i < |a| && j < |a|
  {
    isBefore(a[j], a[i])
  }

  /** The heap invariant on the backing sequence. */
  ghost predicate IsHeap<T>(a: seq<T>, isBefore: (T, T) -> bool) {
    forall i :: 0 < i < |a| ==> !isBefore(a[Parent(i)], a[i])
  }

  /** A heap that is valid as a vector and keeps the heap invariant under `isBefore`. */
  ghost predicate Valid<T>(h: Heap<T>, isBefore: (T, T) -> bool) {
    h.dv.Valid() && IsHeap(h.Items(), isBefore)
  }

  /** SwapElements: exchange the elements at two valid indices. */
  function SwapElements<T>(a: seq<T>, i: nat, j: nat): (r: seq<T>)
    requires i < |a| && j < |a|
    ensures |r| == |a| && r[i] == a[j] && r[j] == a[i]
    ensures forall k :: 0 <= k < |a| && k != i && k != j ==> r[k] == a[k]
    ensures multiset(r) == multiset(a)
  {
    a[i := a[j]][j := a[i]]
  }

  /* ----------------------------- sifting up ----------------------------- */

  /** A heap except that `a[k]` may come before its parent; `k`'s children do not precede `k`'s parent. */
  ghost predicate HeapExceptUp<T>(a: seq<T>, k: nat, isBefore: (T, T) -> bool)
    requires k < |a|
  {
    && (forall i :: 0 < i < |a| && i != k ==> !isBefore(a[Parent(i)], a[i]))
    && (k > 0 ==> forall c :: 0 < c < |a| && Parent(c) == k ==> !isBefore(a[Parent(k)], a[c]))
  }

  /** HeapifyUpRec: swap the element with its parent while it should come before it. */
  function HeapifyUp<T>(a: seq<T>, k: nat, isBefore: (T, T) -> bool): (r: seq<T>)
    requires k < |a|
    ensures |r| == |a| && multiset(r) == multiset(a)
    decreases k
  {
    if k == 0 then a
    else if ElementIsBefore(a, k, Parent(k), isBefore) then
      HeapifyUp(SwapElements(a, k, Parent(k)), Parent(k), isBefore)
    else a
  }

  /** One swap of sift-up moves the hole to the parent. */
  lemma SwapUpKeepsExcept<T(!new)>(a: seq<T>, k: nat, isBefore: (T, T) -> bool)
    requires StrictWeakOrder(isBefore)
    requires 0 < k < |a| && HeapExceptUp(a, k, isBefore)
    requires ElementIsBefore(a, k, Parent(k), isBefore)
    ensures HeapExceptUp(SwapElements(a, k, Parent(k)), Parent(k), isBefore)
  {
    var p := Parent(k);
    var b := SwapElements(a, k, p);
    forall i | 0 < i < |b| && i != p
      ensures !isBefore(b[Parent(i)], b[i])
    {
      if i == k {
        assert b[Parent(i)] == a[k] && b[i] == a[p];
      } else if Parent(i) == k {
        assert b[Parent(i)] == a[p] && b[i] == a[i];
      } else if Parent(i) == p {
        assert !isBefore(a[p], a[i]);
        assert b[Parent(i)] == a[k] && b[i] == a[i];
      } else {
        assert b[Parent(i)] == a[Parent(i)] && b[i] == a[i];
      }
    }
    if p > 0 {
      var pp := Parent(p);
      forall c | 0 < c < |b| && Parent(c) == p
        ensures !isBefore(b[pp], b[c])
      {
        assert b[pp] == a[pp];
        assert !isBefore(a[pp], a[p]);
        if c == k {
          assert b[c] == a[p];
        } else {
          assert !isBefore(a[p], a[c]);
          assert b[c] == a[c];
        }
      }
    }
  }

  /** Sift-up repairs a heap whose only defect is at `k`. */
  lemma {:induction false} HeapifyUpRestores<T(!new)>(a: seq<T>, k: nat, isBefore: (T, T) -> bool)
    requires StrictWeakOrder(isBefore)
    requires k < |a| && HeapExceptUp(a, k, isBefore)
    ensures IsHeap(HeapifyUp(a, k, isBefore), isBefore)
    decreases k
  {
    if k == 0 {
    } else if ElementIsBefore(a, k, Parent(k), isBefore) {
      SwapUpKeepsExcept(a, k, isBefore);
      HeapifyUpRestores(SwapElements(a, k, Parent(k)), Parent(k), isBefore);
    } else {
    }
  }

  /* ---------------------------- sifting down ---------------------------- */

  /**
   * GetPreferredChild: the left child when it should come before the right
   * one, else the right child; only the left child when the right one is out
   * of range; 0 (no valid index of a child) when there are no children.
   */
  function GetPreferredChild<T>(a: seq<T>, left: nat, right: nat, isBefore: (T, T) -> bool): (m: nat)
    requires 0 < left < right
    ensures m == 0 <==> left >= |a|
    ensures m != 0 ==> m < |a| && (m == left || m == right)
    ensures m == left && right < |a| ==> ElementIsBefore(a, left, right, isBefore)
    ensures m == right ==> !ElementIsBefore(a, left, right, isBefore)
  {
    if right < |a| then
      if ElementIsBefore(a, left, right, isBefore) then left else right
    else if left < |a| then left
    else 0
  }

  /** Under a strict weak order, no child in range should come before the preferred one. */
  lemma PreferredChildIsFirst<T(!new)>(a: seq<T>, k: nat, isBefore: (T, T) -> bool)
    requires StrictWeakOrder(isBefore)
    requires GetPreferredChild(a, Left(k), Right(k), isBefore) != 0
    ensures var m := GetPreferredChild(a, Left(k), Right(k), isBefore);
            forall c :: c < |a| && (c == Left(k) || c == Right(k)) ==> !isBefore(a[m], a[c])
  {
  }

  /** A heap except that `a[k]` may come after its children; `k`'s children do not precede `k`'s parent. */
  ghost predicate HeapExceptDown<T>(a: seq<T>, k: nat, isBefore: (T, T) -> bool) {
    && (forall i :: 0 < i < |a| && Parent(i) != k ==> !isBefore(a[Parent(i)], a[i]))
    && (k > 0 ==> forall c :: 0 < c < |a| && Parent(c) == k ==> !isBefore(a[Parent(k)], a[c]))
  }

  /** HeapifyDownRec: swap the element with its preferred child while that child should come before it. */
  function HeapifyDown<T>(a: seq<T>, k: nat, isBefore: (T, T) -> bool): (r: seq<T>)
    ensures |r| == |a| && multiset(r) == multiset(a)
    decreases |a| - k
  {
    var m := GetPreferredChild(a, Left(k), Right(k), isBefore);
    if m == 0 then a
    else if ElementIsBefore(a, m, k, isBefore) then
      HeapifyDown(SwapElements(a, k, m), m, isBefore)
    else a
  }

  /** One swap of sift-down moves the hole to the preferred child. */
  lemma SwapDownKeepsExcept<T(!new)>(a: seq<T>, k: nat, isBefore: (T, T) -> bool)
    requires StrictWeakOrder(isBefore)
    requires HeapExceptDown(a, k, isBefore)
    requires GetPreferredChild(a, Left(k), Right(k), isBefore) != 0
    requires var m := GetPreferredChild(a, Left(k), Right(k), isBefore);
             ElementIsBefore(a, m, k, isBefore)
    ensures var m := GetPreferredChild(a, Left(k), Right(k), isBefore);
            HeapExceptDown(SwapElements(a, k, m), m, isBefore)
  {
    var m := GetPreferredChild(a, Left(k), Right(k), isBefore);
    PreferredChildIsFirst(a, k, isBefore);
    assert Parent(m) == k;
    var b := SwapElements(a, k, m);
    forall i | 0 < i < |b| && Parent(i) != m
      ensures !isBefore(b[Parent(i)], b[i])
    {
      if i == m {
        assert b[Parent(i)] == a[m] && b[i] == a[k];
      } else if i == k {
        assert b[Parent(i)] == a[Parent(k)] && b[i] == a[m];
      } else if Parent(i) == k {
        assert b[Parent(i)] == a[m] && b[i] == a[i];
      } else {
        assert b[Parent(i)] == a[Parent(i)] && b[i] == a[i];
      }
    }
    forall c | 0 < c < |b| && Parent(c) == m
      ensures !isBefore(b[Parent(m)], b[c])
    {
      assert b[Parent(m)] == a[m] && b[c] == a[c];
    }
  }

  /** Sift-down repairs a heap whose only defect is at `k`. */
  lemma {:induction false} HeapifyDownRestores<T(!new)>(a: seq<T>, k: nat, isBefore: (T, T) -> bool)
    requires StrictWeakOrder(isBefore)
    requires HeapExceptDown(a, k, isBefore)
    ensures IsHeap(HeapifyDown(a, k, isBefore), isBefore)
    decreases |a| - k
  {
    var m := GetPreferredChild(a, Left(k), Right(k), isBefore);
    if m == 0 {
      forall i | 0 < i < |a|
        ensures !isBefore(a[Parent(i)], a[i])
      {
        assert Parent(i) != k;
      }
    } else if ElementIsBefore(a, m, k, isBefore) {
      SwapDownKeepsExcept(a, k, isBefore);
      HeapifyDownRestores(SwapElements(a, k, m), m, isBefore);
    } else {
      PreferredChildIsFirst(a, k, isBefore);
      forall i | 0 < i < |a|
        ensures !isBefore(a[Parent(i)], a[i])
      {
        if Parent(i) == k {
          assert !isBefore(a[k], a[m]) && !isBefore(a[m], a[i]);
        }
      }
    }
  }

  /* ------------------------------- ordering ------------------------------- */

  /** Under the invariant nothing should come before the element at index 0. */
  lemma {:induction false} RootIsFirst<T(!new)>(a: seq<T>, i: nat, isBefore: (T, T) -> bool)
    requires StrictWeakOrder(isBefore)
    requires IsHeap(a, isBefore) && i < |a|
    ensures !isBefore(a[0], a[i])
    decreases i
  {
    if i > 0 {
      RootIsFirst(a, Parent(i), isBefore);
      assert !isBefore(a[Parent(i)], a[i]);
    }
  }

  /** Every prefix of a heap is a heap. */
  lemma PrefixIsHeap<T>(a: seq<T>, n: nat, isBefore: (T, T) -> bool)
    requires IsHeap(a, isBefore) && n <= |a|
    ensures IsHeap(a[..n], isBefore)
  {
    forall i | 0 < i < n
      ensures !isBefore(a[..n][Parent(i)], a[..n][i])
    {
      assert a[..n][Parent(i)] == a[Parent(i)] && a[..n][i] == a[i];
    }
  }

  /** The sequence left by "move the tail into slot j and drop the tail". */
  function TailInto<T>(a: seq<T>, j: nat): (b: seq<T>)
    requires j < |a|
    ensures |b| == |a| - 1
    ensures multiset(b) == multiset(a) - multiset{a[j]}
  {
    var s := SwapElements(a, j, |a| - 1);
    assert s == s[..|a| - 1] + [s[|a| - 1]];
    s[..|a| - 1]
  }

  /**
   * After the tail replaces slot j of a heap, sift-up is needed exactly when
   * the moved element should come before its new parent, and sift-down
   * otherwise; in both cases the precondition of the chosen sift holds.
   */
  lemma TailIntoSplit<T(!new)>(a: seq<T>, j: nat, isBefore: (T, T) -> bool)
    requires StrictWeakOrder(isBefore)
    requires IsHeap(a, isBefore) && j < |a| - 1
    ensures var b := TailInto(a, j);
            if j != 0 && ElementIsBefore(b, j, Parent(j), isBefore)
            then HeapExceptUp(b, j, isBefore)
            else HeapExceptDown(b, j, isBefore)
  {
    var b := TailInto(a, j);
    var n := |a| - 1;
    assert forall i :: 0 <= i < n && i != j ==> b[i] == a[i];
    assert b[j] == a[n];
    if j > 0 {
      var pj := Parent(j);
      forall c | 0 < c < n && Parent(c) == j
        ensures !isBefore(a[pj], a[c])
      {
        assert !isBefore(a[pj], a[j]) && !isBefore(a[j], a[c]);
      }
    }
    if j != 0 && ElementIsBefore(b, j, Parent(j), isBefore) {
      var pj := Parent(j);
      forall i | 0 < i < n && i != j
        ensures !isBefore(b[Parent(i)], b[i])
      {
        if Parent(i) == j {
          assert !isBefore(a[pj], a[i]);
          assert isBefore(a[pj], b[j]);
        }
      }
    } else {
      forall i | 0 < i < n && Parent(i) != j
        ensures !isBefore(b[Parent(i)], b[i])
      {
      }
    }
  }

  /** Moving the tail to the root of a heap leaves a heap except below the root. */
  lemma TailIntoRoot<T(!new)>(a: seq<T>, isBefore: (T, T) -> bool)
    requires StrictWeakOrder(isBefore)
    requires IsHeap(a, isBefore) && |a| > 0
    ensures HeapExceptDown(TailInto(a, 0), 0, isBefore)
  {
    if |a| > 1 {
      TailIntoSplit(a, 0, isBefore);
    }
  }

  /** The vector step shared by Pop and Remove: tail-swap slot `j`, then pop the tail. */
  function DropSlot<T>(h: Heap<T>, j: nat): (dv: DynamicVector.Vector<T>)
    requires h.dv.Valid() && j < |h.Items()|
    ensures dv.Valid() && dv.items == TailInto(h.Items(), j)
    ensures |h.Items()| <= DynamicVector.Capacity(dv)
  {
    var a := h.Items();
    var r := DynamicVector.PopBack(h.dv.(items := SwapElements(a, j, |a| - 1)), true);
    r.1
  }

  /* --------------------------- heap operations --------------------------- */

  /** HeapCreate: an empty heap with room for `capacity` elements, or None when malloc fails. */
  function Create<T>(capacity: nat, allocOk: bool): (r: Option<Heap<T>>)
    ensures r.Some? <==> allocOk
    ensures r.Some? ==> r.value.dv.Valid() && r.value.Items() == []
    ensures r.Some? ==> DynamicVector.Capacity(r.value.dv) == capacity
  {
    match DynamicVector.Create(capacity, PointerSize, allocOk)
    case None => None
    case Some(dv) => Some(Heap(dv))
  }

  /** HeapSize */
  function Size<T>(h: Heap<T>): (n: nat)
    requires h.dv.elementSize > 0
    ensures n == |h.Items()|
  {
    DynamicVector.Size(h.dv)
  }

  /** HeapIsEmpty */
  predicate IsEmpty<T>(h: Heap<T>)
    requires h.dv.elementSize > 0
  {
    Size(h) == 0
  }

  /** HeapPeek: the element at index 0, or None (NULL) for an empty heap. */
  function Peek<T>(h: Heap<T>): (r: Option<T>)
    requires h.dv.elementSize > 0
    ensures r.None? <==> |h.Items()| == 0
    ensures r.Some? ==> r.value == h.Items()[0]
  {
    if Size(h) > 0 then DynamicVector.GetItem(h.dv, 0) else None
  }

  /** Nothing in a valid heap should come before what Peek returns. */
  lemma PeekIsFirst<T(!new)>(h: Heap<T>, isBefore: (T, T) -> bool)
    requires StrictWeakOrder(isBefore) && Valid(h, isBefore)
    ensures Peek(h).Some? ==> forall x :: x in h.Items() ==> !isBefore(Peek(h).value, x)
  {
    forall x | x in h.Items()
      ensures !isBefore(h.Items()[0], x)
    {
      var i :| 0 <= i < |h.Items()| && h.Items()[i] == x;
      RootIsFirst(h.Items(), i, isBefore);
    }
  }

  /** HeapPush: append through the vector, then sift the new element up; the vector's status is returned. */
  function Push<T(!new)>(h: Heap<T>, x: T, isBefore: (T, T) -> bool, growOk: bool): (r: (Status, Heap<T>))
    requires StrictWeakOrder(isBefore) && Valid(h, isBefore)
    ensures Valid(r.1, isBefore)
    ensures r.0 == Failure <==> |h.Items()| == DynamicVector.Capacity(h.dv) && !growOk
    ensures r.0 == Failure ==> r.1 == h
    ensures r.0 == Success ==> multiset(r.1.Items()) == multiset(h.Items()) + multiset{x}
    ensures r.0 == Success ==> |r.1.Items()| == |h.Items()| + 1
    ensures |h.Items()| < DynamicVector.Capacity(h.dv) ==> r.1.dv.capacity == h.dv.capacity
    ensures DynamicVector.Capacity(r.1.dv) >= DynamicVector.Capacity(h.dv)
  {
    var (st, dv) := DynamicVector.PushBack(h.dv, x, growOk);
    if st == Failure then (Failure, h)
    else
      var a := dv.items;
      assert HeapExceptUp(a, |a| - 1, isBefore) by {
        assert a[..|a| - 1] == h.Items();
      }
      HeapifyUpRestores(a, |a| - 1, isBefore);
      (Success, Heap(dv.(items := HeapifyUp(a, |a| - 1, isBefore))))
  }

  /**
   * On a heap of positive capacity, Push agrees with HeapPush over the
   * source's DVPushBack: the same status, the same capacity and the same
   * elements.
   */
  lemma PushAgreesWhenCapacityPositive<T(!new)>(h: Heap<T>, x: T, isBefore: (T, T) -> bool, growOk: bool)
    requires StrictWeakOrder(isBefore) && Valid(h, isBefore) && h.dv.capacity > 0
    ensures var r := Push(h, x, isBefore, growOk);
            var w := DynamicVector.PushBackAsWritten(h.dv, x, growOk);
            r.0 == w.0 && r.1.dv.capacity == w.1.capacity && multiset(r.1.Items()) == multiset(w.1.items)
  {
    DynamicVector.PushBackAgreesWhenCapacityPositive(h.dv, x, growOk);
  }

  /**
   * HeapPop: swap the first and last elements, pop the tail through the
   * vector and sift the new first element down. Empty heaps are left alone.
   * The shrinking realloc inside the vector is taken to succeed.
   */
  function Pop<T(!new)>(h: Heap<T>, isBefore: (T, T) -> bool): (r: (Status, Heap<T>))
    requires StrictWeakOrder(isBefore) && Valid(h, isBefore)
    ensures Valid(r.1, isBefore)
    ensures r.0 == Success
    ensures |h.Items()| == 0 ==> r.1 == h
    ensures |h.Items()| > 0 ==> |r.1.Items()| == |h.Items()| - 1
    ensures |h.Items()| > 0 ==> multiset(r.1.Items()) == multiset(h.Items()) - multiset{h.Items()[0]}
    ensures |h.Items()| > 0 ==> |h.Items()| <= DynamicVector.Capacity(r.1.dv)
  {
    if IsEmpty(h) then (Success, h)
    else
      var a := h.Items();
      var dv := DropSlot(h, 0);
      var b := dv.items;
      TailIntoRoot(a, isBefore);
      HeapifyDownRestores(b, 0, isBefore);
      (Success, Heap(dv.(items := HeapifyDown(b, 0, isBefore))))
  }

  /**
   * The tail of HeapRemove: after the tail has moved into slot `j`, sift it
   * up when it should come before its parent and down otherwise; nothing is
   * left to do when `j` was the tail itself.
   */
  function Resift<T(!new)>(dv: DynamicVector.Vector<T>, a: seq<T>, j: nat, isBefore: (T, T) -> bool)
    : (h: Heap<T>)
    requires StrictWeakOrder(isBefore) && IsHeap(a, isBefore)
    requires j < |a| && dv.Valid() && dv.items == TailInto(a, j)
    ensures Valid(h, isBefore) && h.dv.capacity == dv.capacity
    ensures |h.Items()| == |dv.items| && multiset(h.Items()) == multiset(dv.items)
  {
    var b := dv.items;
    if j < |b| then
      TailIntoSplit(a, j, isBefore);
      if j != 0 && ElementIsBefore(b, j, Parent(j), isBefore) then
        HeapifyUpRestores(b, j, isBefore);
        Heap(dv.(items := HeapifyUp(b, j, isBefore)))
      else
        HeapifyDownRestores(b, j, isBefore);
        Heap(dv.(items := HeapifyDown(b, j, isBefore)))
    else
      PrefixIsHeap(a, |a| - 1, isBefore);
      assert b == a[..|a| - 1];
      Heap(dv)
  }

  /** `j` is the index of the first element matching `key`. */
  ghost predicate FirstMatch<K, T>(a: seq<T>, key: K, isMatch: (K, T) -> bool, j: int) {
    && 0 <= j < |a|
    && isMatch(key, a[j])
    && forall k :: 0 <= k < j ==> !isMatch(key, a[k])
  }

  /** FindElement: the index of the first match in array order, or the size when there is none. */
  function FindElement<K, T>(a: seq<T>, key: K, isMatch: (K, T) -> bool): (i: nat)
    ensures i <= |a|
    ensures i < |a| ==> FirstMatch(a, key, isMatch, i)
    ensures i == |a| ==> forall k :: 0 <= k < |a| ==> !isMatch(key, a[k])
  {
    if |a| == 0 then 0
    else if isMatch(key, a[0]) then 0
    else
      var i := FindElement(a[1..], key, isMatch);
      assert forall k :: 1 <= k < |a| ==> a[k] == a[1..][k - 1];
      1 + i
  }

  /**
   * HeapRemove: find the first match, move the tail into its slot, pop the
   * tail, then sift the moved element up when it should come before its
   * parent and down otherwise. The shrinking realloc is taken to succeed.
   */
  function Remove<K, T(!new)>(h: Heap<T>, key: K, isMatch: (K, T) -> bool, isBefore: (T, T) -> bool)
    : (r: (Option<T>, Heap<T>))
    requires StrictWeakOrder(isBefore) && Valid(h, isBefore)
    ensures Valid(r.1, isBefore)
    ensures r.0.None? <==> forall k :: 0 <= k < |h.Items()| ==> !isMatch(key, h.Items()[k])
    ensures r.0.None? ==> r.1 == h
    ensures r.0.Some? ==> exists j :: FirstMatch(h.Items(), key, isMatch, j) && r.0.value == h.Items()[j]
    ensures r.0.Some? ==> |r.1.Items()| == |h.Items()| - 1
    ensures r.0.Some? ==> multiset(r.1.Items()) == multiset(h.Items()) - multiset{r.0.value}
  {
    if IsEmpty(h) then (None, h)
    else
      var a := h.Items();
      var j := FindElement(a, key, isMatch);
      if j < Size(h) then
        var x := DynamicVector.GetItem(h.dv, j).value;
        assert FirstMatch(a, key, isMatch, j) && x == a[j];
        (Some(x), Resift(DropSlot(h, j), a, j, isBefore))
      else
        (None, h)
  }
}
