/**
 * The priority queue facade over the heap (pqueue.c).
 *
 * Every operation delegates to the heap; Pop hands back what Peek saw before
 * popping, and Clear pops until the queue is empty.
 */
module PriorityQueue {
  import opened Common
  import opened Order
  import BinaryHeap
  import DynamicVector

  /** The initial capacity, in elements, of the heap a new queue creates. */
  const HeapCapacity: nat := 10

  datatype PQueue<T> = PQueue(heap: BinaryHeap.Heap<T>)
  {
    function Items(): seq<T> {
      heap.Items()
    }
  }

  ghost predicate Valid<T>(q: PQueue<T>, isBefore: (T, T) -> bool) {
    BinaryHeap.Valid(q.heap, isBefore)
  }

  /** Popping order: nothing later in `s` should come before anything earlier. */
  ghost predicate Sorted<T>(s: seq<T>, isBefore: (T, T) -> bool) {
    forall i, j :: 0 <= i < j < |s| ==> !isBefore(s[i], s[j])
  }

  /** PQCreate: an empty queue over a heap of capacity HeapCapacity, or None when malloc fails. */
  function Create<T>(allocOk: bool): (r: Option<PQueue<T>>)
    ensures r.Some? <==> allocOk
    ensures r.Some? ==> r.value.Items() == [] && r.value.heap.dv.Valid()
    ensures r.Some? ==> DynamicVector.Capacity(r.value.heap.dv) == HeapCapacity
  {
    match BinaryHeap.Create(HeapCapacity, allocOk)
    case None => None
    case Some(h) => Some(PQueue(h))
  }

  /** An empty queue satisfies the heap invariant under any comparator. */
  lemma CreatedIsValid<T>(allocOk: bool, isBefore: (T, T) -> bool)
    requires allocOk
    ensures Create<T>(allocOk).Some? && Valid(Create<T>(allocOk).value, isBefore)
  {
  }

  /** PQSize */
  function Size<T>(q: PQueue<T>): (n: nat)
    requires q.heap.dv.elementSize > 0
    ensures n == |q.Items()|
  {
    BinaryHeap.Size(q.heap)
  }

  /** PQIsEmpty */
  predicate IsEmpty<T>(q: PQueue<T>)
    requires q.heap.dv.elementSize > 0
  {
    BinaryHeap.IsEmpty(q.heap)
  }

  /** PQPeek */
  function Peek<T>(q: PQueue<T>): (r: Option<T>)
    requires q.heap.dv.elementSize > 0
    ensures r.None? <==> |q.Items()| == 0
    ensures r.Some? ==> r.value in q.Items()
  {
    BinaryHeap.Peek(q.heap)
  }

  /** The peeked element is the queue's first: no queued element should come before it. */
  lemma PeekIsFirst<T(!new)>(q: PQueue<T>, isBefore: (T, T) -> bool)
    requires StrictWeakOrder(isBefore) && Valid(q, isBefore)
    ensures Peek(q).Some? ==> forall x :: x in q.Items() ==> !isBefore(Peek(q).value, x)
  {
    BinaryHeap.PeekIsFirst(q.heap, isBefore);
  }

  /** PQPush: the heap's status is returned; the comparator's extra parameter is unused here. */
  function Push<T(!new)>(q: PQueue<T>, x: T, isBefore: (T, T) -> bool, growOk: bool): (r: (Status, PQueue<T>))
    requires StrictWeakOrder(isBefore) && Valid(q, isBefore)
    ensures Valid(r.1, isBefore)
    ensures r.0 == Failure ==> r.1 == q
    ensures r.0 == Success ==> multiset(r.1.Items()) == multiset(q.Items()) + multiset{x}
    ensures r.0 == Success ==> Size(r.1) == Size(q) + 1
    ensures r.0 == Failure <==> Size(q) == DynamicVector.Capacity(q.heap.dv) && !growOk
    ensures DynamicVector.Capacity(r.1.heap.dv) >= DynamicVector.Capacity(q.heap.dv)
  {
    var (st, h) := BinaryHeap.Push(q.heap, x, isBefore, growOk);
    (st, PQueue(h))
  }

  /** PQPop: return what Peek returned and pop it; an empty queue gives None and stays as it is. */
  function Pop<T(!new)>(q: PQueue<T>, isBefore: (T, T) -> bool): (r: (Option<T>, PQueue<T>))
    requires StrictWeakOrder(isBefore) && Valid(q, isBefore)
    ensures Valid(r.1, isBefore)
    ensures r.0 == Peek(q)
    ensures r.0.None? ==> r.1 == q
    ensures r.0.Some? ==> Size(r.1) == Size(q) - 1
    ensures r.0.Some? ==> multiset(r.1.Items()) == multiset(q.Items()) - multiset{r.0.value}
    ensures r.0.Some? ==> forall x :: x in q.Items() ==> !isBefore(r.0.value, x)
    ensures r.0.Some? ==> Size(q) <= DynamicVector.Capacity(r.1.heap.dv)
  {
    var popped := Peek(q);
    BinaryHeap.PeekIsFirst(q.heap, isBefore);
    var (_, h) := BinaryHeap.Pop(q.heap, isBefore);
    (popped, PQueue(h))
  }

  /** PQClear: pop until the queue is empty. */
  function Clear<T(!new)>(q: PQueue<T>, isBefore: (T, T) -> bool): (r: PQueue<T>)
    requires StrictWeakOrder(isBefore) && Valid(q, isBefore)
    ensures Valid(r, isBefore) && Size(r) == 0
    decreases Size(q)
  {
    if IsEmpty(q) then q else Clear(Pop(q, isBefore).1, isBefore)
  }

  /**
   * The elements handed out by popping until empty (the loop of PQClear and
   * of SchedulerDestroy): exactly the queue's contents, in popping order.
   */
  function Drain<T(!new)>(q: PQueue<T>, isBefore: (T, T) -> bool): (out: seq<T>)
    requires StrictWeakOrder(isBefore) && Valid(q, isBefore)
    ensures multiset(out) == multiset(q.Items())
    ensures Sorted(out, isBefore)
    decreases Size(q)
  {
    if IsEmpty(q) then []
    else
      var popped := Pop(q, isBefore);
      var x := popped.0.value;
      var tail := Drain(popped.1, isBefore);
      PrependFirst(x, tail, q.Items(), isBefore);
      [x] + tail
  }

  /**
   * Prepending the element popped first to the sorted drain of the rest
   * gives a sorted drain of the whole queue.
   */
  lemma PrependFirst<T>(x: T, tail: seq<T>, items: seq<T>, isBefore: (T, T) -> bool)
    requires x in items && multiset(tail) == multiset(items) - multiset{x}
    requires Sorted(tail, isBefore)
    requires forall y :: y in items ==> !isBefore(x, y)
    ensures multiset([x] + tail) == multiset(items)
    ensures Sorted([x] + tail, isBefore)
  {
    assert x in multiset(items);
    var out := [x] + tail;
    forall i, j | 0 <= i < j < |out|
      ensures !isBefore(out[i], out[j])
    {
      assert out[j] == tail[j - 1];
      if i == 0 {
        assert tail[j - 1] in multiset(tail);
        assert tail[j - 1] in items;
      } else {
        assert out[i] == tail[i - 1];
      }
    }
  }

  /** PQErase: remove and return the first element matching `key` (delegates to HeapRemove). */
  function Erase<K, T(!new)>(q: PQueue<T>, key: K, isMatch: (K, T) -> bool, isBefore: (T, T) -> bool)
    : (r: (Option<T>, PQueue<T>))
    requires StrictWeakOrder(isBefore) && Valid(q, isBefore)
    ensures Valid(r.1, isBefore)
    ensures r.0.None? <==> forall x :: x in q.Items() ==> !isMatch(key, x)
    ensures r.0.None? ==> r.1 == q
    ensures r.0.Some? ==> isMatch(key, r.0.value) && Size(r.1) == Size(q) - 1
    ensures r.0.Some? ==> multiset(r.1.Items()) == multiset(q.Items()) - multiset{r.0.value}
    ensures r.0.Some? ==> exists j :: BinaryHeap.FirstMatch(q.Items(), key, isMatch, j) && r.0.value == q.Items()[j]
  {
    var (x, h) := BinaryHeap.Remove(q.heap, key, isMatch, isBefore);
    (x, PQueue(h))
  }
}
