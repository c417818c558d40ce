/**
 * The expectations of the repository's unit tests (heap_test.c,
 * pqueue_test.c, scheduler_test.c), derived from the general contracts of
 * the model rather than by evaluating it.
 */
module Scenarios {
  import opened Common
  import opened Order
  import BinaryHeap
  import PriorityQueue
  import UniqueId
  import Tasks
  import TaskScheduler

  /** The order of the queue tests: the smaller value should come first. */
  predicate SmallerFirst(queued: int, incoming: int) {
    incoming < queued
  }

  /** The order of the heap tests: the larger value should come first. */
  predicate LargerFirst(queued: int, incoming: int) {
    queued < incoming
  }

  lemma SmallerFirstIsStrictWeakOrder()
    ensures StrictWeakOrder(SmallerFirst)
  {
    GreaterKeyIsStrictWeakOrder(x => x, SmallerFirst);
  }

  lemma LargerFirstIsStrictWeakOrder()
    ensures StrictWeakOrder(LargerFirst)
  {
    GreaterKeyIsStrictWeakOrder(x => -x, LargerFirst);
  }

  /* ------------------------------- heap ------------------------------- */

  /** Push every element of `xs` in turn, letting the vector grow as needed. */
  function HeapPushAll(h: BinaryHeap.Heap<int>, xs: seq<int>): (r: BinaryHeap.Heap<int>)
    requires BinaryHeap.Valid(h, LargerFirst)
    ensures BinaryHeap.Valid(r, LargerFirst)
    ensures multiset(r.Items()) == multiset(h.Items()) + multiset(xs)
    decreases |xs|
  {
    LargerFirstIsStrictWeakOrder();
    if xs == [] then h
    else
      assert xs == [xs[0]] + xs[1..];
      HeapPushAll(BinaryHeap.Push(h, xs[0], LargerFirst, true).1, xs[1..])
  }

  /** `top` is one of the values of `xs` and none is larger. */
  ghost predicate IsLargest(xs: seq<int>, top: int) {
    top in xs && forall i :: 0 <= i < |xs| ==> xs[i] <= top
  }

  /** A max-heap holding the values of `xs` has their number as its size and their largest first. */
  lemma PeekIsLargest(h: BinaryHeap.Heap<int>, xs: seq<int>, top: int)
    requires BinaryHeap.Valid(h, LargerFirst) && multiset(h.Items()) == multiset(xs)
    requires IsLargest(xs, top)
    ensures BinaryHeap.Size(h) == |xs| && BinaryHeap.Peek(h) == Some(top)
  {
    LargerFirstIsStrictWeakOrder();
    BinaryHeap.PeekIsFirst(h, LargerFirst);
    assert |multiset(h.Items())| == |multiset(xs)|;
    assert top in h.Items() by { assert top in multiset(h.Items()); }
    var p := h.Items()[0];
    assert p in xs by { assert p in multiset(h.Items()); }
    assert !LargerFirst(p, top);
  }

  /** Popping a max-heap that holds the values of `xs`, the first of them the largest, leaves the values of the rest. */
  function PopLargest(h: BinaryHeap.Heap<int>, xs: seq<int>): (r: BinaryHeap.Heap<int>)
    requires BinaryHeap.Valid(h, LargerFirst) && multiset(h.Items()) == multiset(xs)
    requires |xs| > 0 && IsLargest(xs, xs[0])
    ensures BinaryHeap.Valid(r, LargerFirst) && multiset(r.Items()) == multiset(xs[1..])
  {
    LargerFirstIsStrictWeakOrder();
    PeekIsLargest(h, xs, xs[0]);
    assert xs == [xs[0]] + xs[1..];
    BinaryHeap.Pop(h, LargerFirst).1
  }

  /** The values HeapPopTest pushes, in order. */
  const HeapTestValues: seq<int> := [100, 80, 40, 60, 70, 30, 20, 50]

  /** Each value HeapPopTest pops is the largest of those still queued. */
  lemma TestValuesDescend()
    ensures HeapTestValues[0] == 100 && IsLargest(HeapTestValues, 100)
    ensures HeapTestValues[1..][0] == 80 && HeapTestValues[1..][1..] == HeapTestValues[2..]
    ensures |HeapTestValues[1..]| == 7 && IsLargest(HeapTestValues[1..], 80)
    ensures |HeapTestValues[2..]| == 6 && IsLargest(HeapTestValues[2..], 70)
  {
    assert HeapTestValues[1..] == [80, 40, 60, 70, 30, 20, 50];
    assert HeapTestValues[2..] == [40, 60, 70, 30, 20, 50];
  }

  /** A max-heap created with room for `capacity` values and then grown by pushing the values of `xs` in turn. */
  method FillHeap(capacity: nat, xs: seq<int>) returns (h: BinaryHeap.Heap<int>)
    ensures BinaryHeap.Valid(h, LargerFirst) && multiset(h.Items()) == multiset(xs)
  {
    h := HeapPushAll(BinaryHeap.Create<int>(capacity, true).value, xs);
  }

  /**
   * HeapPopTest: popping a heap of one value succeeds, and so does popping
   * it again once empty; after pushing eight values, each pop exposes the
   * next largest.
   */
  method HeapPopScenario() returns (status1: Status, status2: Status, size1: nat, first1: Option<int>,
                                    size2: nat, first2: Option<int>)
    ensures status1 == Success && status2 == Success
    ensures size1 == 7 && first1 == Some(80)
    ensures size2 == 6 && first2 == Some(70)
  {
    LargerFirstIsStrictWeakOrder();
    var single := FillHeap(3, [100]);
    var popped := BinaryHeap.Pop(single, LargerFirst);
    status1 := popped.0;
    status2 := BinaryHeap.Pop(popped.1, LargerFirst).0;

    TestValuesDescend();
    var h := FillHeap(3, HeapTestValues);
    h := PopLargest(h, HeapTestValues);
    PeekIsLargest(h, HeapTestValues[1..], 80);
    size1 := BinaryHeap.Size(h);
    first1 := BinaryHeap.Peek(h);

    h := PopLargest(h, HeapTestValues[1..]);
    PeekIsLargest(h, HeapTestValues[2..], 70);
    size2 := BinaryHeap.Size(h);
    first2 := BinaryHeap.Peek(h);
  }

  /** HeapPeekTest and HeapSizeTest: an empty heap has size 0 and peeks nothing; after pushing 1 to 7 it has size 7 and 7 first. */
  method HeapPeekScenario() returns (emptySize: nat, emptyFirst: Option<int>, size: nat, first: Option<int>)
    ensures emptySize == 0 && emptyFirst.None?
    ensures size == 7 && first == Some(7)
  {
    var empty := FillHeap(3, []);
    emptySize := BinaryHeap.Size(empty);
    emptyFirst := BinaryHeap.Peek(empty);
    var xs := [1, 2, 3, 4, 5, 6, 7];
    assert IsLargest(xs, 7);
    var h := FillHeap(3, xs);
    PeekIsLargest(h, xs, 7);
    size := BinaryHeap.Size(h);
    first := BinaryHeap.Peek(h);
  }

  /** HeapIsEmptyTest: a new heap is empty and one push makes it non-empty. */
  method HeapIsEmptyScenario() returns (emptyAtFirst: bool, emptyAfterPush: bool)
    ensures emptyAtFirst && !emptyAfterPush
  {
    var h := FillHeap(20, []);
    emptyAtFirst := BinaryHeap.IsEmpty(h);
    h := FillHeap(20, [1]);
    assert |multiset(h.Items())| == 1;
    emptyAfterPush := BinaryHeap.IsEmpty(h);
  }

  /** The matcher of the heap tests: the queued value equals the key. */
  predicate SameValue(key: int, x: int) {
    x == key
  }

  /** HeapRemove by value in a max-heap: the value comes back exactly when it was queued, and only that one copy goes. */
  function RemoveValue(h: BinaryHeap.Heap<int>, v: int): (r: (Option<int>, BinaryHeap.Heap<int>))
    requires BinaryHeap.Valid(h, LargerFirst)
    ensures BinaryHeap.Valid(r.1, LargerFirst)
    ensures r.0.None? <==> v !in h.Items()
    ensures r.0.None? ==> r.1 == h
    ensures r.0.Some? ==> r.0.value == v && multiset(r.1.Items()) == multiset(h.Items()) - multiset{v}
  {
    LargerFirstIsStrictWeakOrder();
    var r := BinaryHeap.Remove(h, v, SameValue, LargerFirst);
    if r.0.None? then
      assert v !in h.Items();
      r
    else
      assert v in multiset(h.Items()) by {
        var j :| BinaryHeap.FirstMatch(h.Items(), v, SameValue, j) && r.0.value == h.Items()[j];
        assert h.Items()[j] in h.Items();
      }
      r
  }

  /** Taking the `i`th value out of the values of `xs` leaves those before it and those after it. */
  lemma RemoveAt(xs: seq<int>, i: nat)
    requires i < |xs|
    ensures multiset(xs) - multiset{xs[i]} == multiset(xs[..i] + xs[i + 1..])
  {
    assert xs == xs[..i] + [xs[i]] + xs[i + 1..];
    assert multiset(xs) == multiset(xs[..i]) + multiset{xs[i]} + multiset(xs[i + 1..]);
  }

  /** Taking the first value out of the values of `xs` leaves those of the rest. */
  lemma RemoveFirst(xs: seq<int>)
    requires |xs| > 0
    ensures xs[0] in xs && multiset(xs) - multiset{xs[0]} == multiset(xs[1..])
  {
    assert xs == [xs[0]] + xs[1..];
    assert multiset(xs) == multiset{xs[0]} + multiset(xs[1..]);
  }

  /** Taking out `a`, the first value of `xs`, and then `b`, the `j`th of the rest, leaves the values of `rest`. */
  lemma RemoveFirstThenAt(xs: seq<int>, a: int, j: nat, b: int, rest: seq<int>)
    requires j + 1 < |xs| && xs[0] == a && xs[1..][j] == b
    requires rest == xs[1..][..j] + xs[1..][j + 1..]
    ensures a in xs && multiset(xs) - multiset{a} == multiset(xs[1..])
    ensures b in xs[1..] && multiset(xs[1..]) - multiset{b} == multiset(rest)
  {
    RemoveFirst(xs);
    var ys := xs[1..];
    RemoveAt(ys, j);
    assert ys[j] in ys;
  }

  /** What is left of HeapRemoveTest's values once 100 and then 70 have been removed. */
  const AfterRemovals: seq<int> := [80, 40, 60, 30, 20, 50]

  /** 5 is not among HeapRemoveTest's values. */
  lemma FiveIsMissing()
    ensures 5 !in HeapTestValues
  {
  }

  /** Where 100 and 70 sit among HeapRemoveTest's values, and that 80 is the largest of what remains. */
  lemma RemovalPositions()
    ensures HeapTestValues[0] == 100 && HeapTestValues[1..][3] == 70
    ensures AfterRemovals == HeapTestValues[1..][..3] + HeapTestValues[1..][4..]
    ensures |AfterRemovals| == 6 && IsLargest(AfterRemovals, 80)
  {
    assert HeapTestValues[1..] == [80, 40, 60, 70, 30, 20, 50];
    assert HeapTestValues[1..][..3] == [80, 40, 60];
    assert HeapTestValues[1..][4..] == [30, 20, 50];
  }

  /** Removing 100 leaves the values after it; removing 70 from those leaves AfterRemovals. */
  lemma RemovalValues()
    ensures 100 in HeapTestValues
    ensures multiset(HeapTestValues) - multiset{100} == multiset(HeapTestValues[1..])
    ensures 70 in HeapTestValues[1..]
    ensures multiset(HeapTestValues[1..]) - multiset{70} == multiset(AfterRemovals)
  {
    RemovalPositions();
    RemoveFirstThenAt(HeapTestValues, 100, 3, 70, AfterRemovals);
  }

  /** Two sequences with the same values agree on which values they lack. */
  lemma MissingFromBoth(xs: seq<int>, ys: seq<int>, v: int)
    requires multiset(xs) == multiset(ys) && v !in ys
    ensures v !in xs
  {
    assert v !in multiset(ys);
  }

  /** HeapRemoveTest, first part: removing a value that is not there gives nothing, from an empty heap and from a full one. */
  method HeapRemoveMissingScenario() returns (fromEmpty: Option<int>, missing: Option<int>)
    ensures fromEmpty.None? && missing.None?
  {
    var empty := FillHeap(3, []);
    fromEmpty := RemoveValue(empty, 5).0;
    var h := FillHeap(3, HeapTestValues);
    FiveIsMissing();
    MissingFromBoth(h.Items(), HeapTestValues, 5);
    missing := RemoveValue(h, 5).0;
  }

  /** HeapRemoveTest, second part: removing 100 returns it and leaves 80 first; removing 70 keeps 80 first and leaves six. */
  method HeapRemoveScenario() returns (found: Option<int>, firstAfter: Option<int>,
                                       firstAfterSecond: Option<int>, size: nat)
    ensures found == Some(100)
    ensures firstAfter == Some(80) && firstAfterSecond == Some(80) && size == 6
  {
    var h := FillHeap(3, HeapTestValues);
    RemovalValues();
    var r := RemoveValue(h, 100);
    found := r.0;
    h := r.1;
    TestValuesDescend();
    PeekIsLargest(h, HeapTestValues[1..], 80);
    firstAfter := BinaryHeap.Peek(h);

    h := RemoveValue(h, 70).1;
    RemovalPositions();
    PeekIsLargest(h, AfterRemovals, 80);
    firstAfterSecond := BinaryHeap.Peek(h);
    size := BinaryHeap.Size(h);
  }

  /* ------------------------------ pqueue ------------------------------ */

  /** Push every element of `xs` in turn into a queue ordered smallest first. */
  function QueuePushAll(q: PriorityQueue.PQueue<int>, xs: seq<int>): (r: PriorityQueue.PQueue<int>)
    requires PriorityQueue.Valid(q, SmallerFirst)
    ensures PriorityQueue.Valid(r, SmallerFirst)
    ensures multiset(r.Items()) == multiset(q.Items()) + multiset(xs)
    decreases |xs|
  {
    SmallerFirstIsStrictWeakOrder();
    if xs == [] then q
    else
      assert xs == [xs[0]] + xs[1..];
      QueuePushAll(PriorityQueue.Push(q, xs[0], SmallerFirst, true).1, xs[1..])
  }

  /** `low` is one of the values of `xs` and none is smaller. */
  ghost predicate IsSmallest(xs: seq<int>, low: int) {
    low in xs && forall i :: 0 <= i < |xs| ==> low <= xs[i]
  }

  /** A new queue filled with the values of `xs`, in order. */
  method FillQueue(xs: seq<int>) returns (q: PriorityQueue.PQueue<int>)
    ensures PriorityQueue.Valid(q, SmallerFirst) && multiset(q.Items()) == multiset(xs)
  {
    PriorityQueue.CreatedIsValid<int>(true, SmallerFirst);
    q := QueuePushAll(PriorityQueue.Create<int>(true).value, xs);
  }

  /** A queue holding the values of `xs` has their number as its size, and peeks and pops their smallest. */
  lemma QueueFirstIsSmallest(q: PriorityQueue.PQueue<int>, xs: seq<int>, low: int)
    requires PriorityQueue.Valid(q, SmallerFirst) && multiset(q.Items()) == multiset(xs)
    requires IsSmallest(xs, low)
    ensures PriorityQueue.Size(q) == |xs| && PriorityQueue.Peek(q) == Some(low)
  {
    SmallerFirstIsStrictWeakOrder();
    BinaryHeap.PeekIsFirst(q.heap, SmallerFirst);
    assert |multiset(q.Items())| == |multiset(xs)|;
    assert low in q.Items() by { assert low in multiset(q.Items()); }
    var p := q.Items()[0];
    assert p in xs by { assert p in multiset(q.Items()); }
    assert !SmallerFirst(p, low);
  }

  /** The values PQPushTest pushes, in order; PQPopTest pushes the first three. */
  const QueueTestValues: seq<int> := [15, 7, 20, 100]

  /** 7 is the smallest of the four values and of the first three. */
  lemma QueueTestValuesSmallest()
    ensures |QueueTestValues| == 4 && IsSmallest(QueueTestValues, 7)
    ensures |QueueTestValues[..3]| == 3 && IsSmallest(QueueTestValues[..3], 7)
  {
    assert QueueTestValues[..3] == [15, 7, 20];
  }

  /**
   * PQPushTest and PQPopTest: popping an empty queue gives nothing; after
   * pushing 15, 7, 20 and 100 the queue holds four and 7 is first; popping
   * the three-element queue twice hands out 7 and leaves one element.
   */
  method QueueScenario() returns (emptyPop: Option<int>, first: Option<int>, size: nat,
                                  popped: Option<int>, sizeAfterPops: nat)
    ensures emptyPop.None?
    ensures first == Some(7) && size == 4
    ensures popped == Some(7) && sizeAfterPops == 1
  {
    SmallerFirstIsStrictWeakOrder();
    QueueTestValuesSmallest();
    var empty := FillQueue([]);
    emptyPop := PriorityQueue.Pop(empty, SmallerFirst).0;

    var q := FillQueue(QueueTestValues);
    QueueFirstIsSmallest(q, QueueTestValues, 7);
    first := PriorityQueue.Peek(q);
    size := PriorityQueue.Size(q);

    q := FillQueue(QueueTestValues[..3]);
    QueueFirstIsSmallest(q, QueueTestValues[..3], 7);
    var r := PriorityQueue.Pop(q, SmallerFirst);
    popped := r.0;
    r := PriorityQueue.Pop(r.1, SmallerFirst);
    sizeAfterPops := PriorityQueue.Size(r.1);
  }

  /**
   * PQPeekTest and PQSizeTest: an empty queue peeks nothing and has size 0;
   * after pushing 15 and 7 it peeks 7 and has size 2.
   */
  method QueuePeekScenario() returns (emptyFirst: Option<int>, emptySize: nat, first: Option<int>, size: nat)
    ensures emptyFirst.None? && emptySize == 0
    ensures first == Some(7) && size == 2
  {
    var empty := FillQueue([]);
    emptyFirst := PriorityQueue.Peek(empty);
    emptySize := PriorityQueue.Size(empty);
    var xs := [15, 7];
    assert IsSmallest(xs, 7);
    var q := FillQueue(xs);
    QueueFirstIsSmallest(q, xs, 7);
    first := PriorityQueue.Peek(q);
    size := PriorityQueue.Size(q);
  }

  /** PQIsEmptyTest and PQClearTest: a new queue is empty, one push makes it non-empty, and clearing empties it again. */
  method QueueEmptyScenario() returns (emptyAtFirst: bool, emptyAfterPush: bool, emptyAfterClear: bool)
    ensures emptyAtFirst && !emptyAfterPush && emptyAfterClear
  {
    SmallerFirstIsStrictWeakOrder();
    var q := FillQueue([]);
    emptyAtFirst := PriorityQueue.IsEmpty(q);
    q := FillQueue([15]);
    assert |multiset(q.Items())| == 1;
    emptyAfterPush := PriorityQueue.IsEmpty(q);
    q := PriorityQueue.Clear(q, SmallerFirst);
    emptyAfterClear := PriorityQueue.IsEmpty(q);
  }

  /** PQEraseTest: erasing 15 from the queue of 15, 7 and 20 returns 15 and leaves two. */
  method QueueEraseScenario() returns (erased: Option<int>, size: nat)
    ensures erased == Some(15) && size == 2
  {
    SmallerFirstIsStrictWeakOrder();
    var xs := QueueTestValues[..3];
    assert xs == [15, 7, 20];
    var q := FillQueue(xs);
    assert |multiset(q.Items())| == 3;
    assert 15 in q.Items() by { assert 15 in multiset(q.Items()); }
    assert SameValue(15, 15);
    var r := PriorityQueue.Erase(q, 15, SameValue, SmallerFirst);
    erased := r.0;
    size := PriorityQueue.Size(r.1);
  }

  /* ----------------------------- scheduler ----------------------------- */

  /** The task SchedulerSizeTest adds first, under the identifier drawn for it. */
  function FirstTask(id: UniqueId.Uid): Tasks.Task<int, int> {
    Tasks.Task(id, 1000, 1, 1, 0)
  }

  /** SchedulerSizeTest's first SchedulerAddTask, on a new scheduler. */
  function OneTask(): (r: (UniqueId.Uid, TaskScheduler.Scheduler<int, int>, UniqueId.Generator))
    ensures TaskScheduler.WellFormed(r.1, r.2)
    ensures multiset(r.1.Items()) == multiset{FirstTask(r.0)}
  {
    var s0 := TaskScheduler.Create<int, int>(true, true).value;
    assert TaskScheduler.WellFormed(s0, UniqueId.Initial);
    TaskScheduler.AddTask(s0, UniqueId.Initial, 1, 0, 1000, 1, 1000, 42, true, true)
  }

  /** SchedulerSizeTest's second SchedulerAddTask: both tasks are queued. */
  function TwoTasks(): (r: (UniqueId.Uid, TaskScheduler.Scheduler<int, int>))
    ensures TaskScheduler.Valid(r.1) && TaskScheduler.UniqueIds(multiset(r.1.Items()))
    ensures |r.1.Items()| == 2 && FirstTask(r.0) in r.1.Items()
  {
    var added1 := OneTask();
    var added2 := TaskScheduler.AddTask(added1.1, added1.2, 2, 0, 1010, 1, 1000, 42, true, true);
    assert FirstTask(added1.0) in multiset(added2.1.Items());
    (added1.0, added2.1)
  }

  /** Removing a queued task's identifier succeeds and shrinks the queue by one; a second removal fails. */
  lemma RemoveFoundThenMissing(s: TaskScheduler.Scheduler<int, int>, t: Tasks.Task<int, int>)
    requires TaskScheduler.Valid(s) && TaskScheduler.UniqueIds(multiset(s.Items())) && t in s.Items()
    ensures var removed := TaskScheduler.RemoveTask(s, t.id);
            && removed.0 == Success && |removed.1.Items()| == |s.Items()| - 1
            && TaskScheduler.RemoveTask(removed.1, t.id) == (Failure, removed.1)
  {
    var removed := TaskScheduler.RemoveTask(s, t.id);
    var u :| u in s.Items() && u.id == t.id && multiset(removed.1.Items()) == multiset(s.Items()) - multiset{u};
    assert u in multiset(s.Items());
    TaskScheduler.RemoveTwiceFails(s, t.id);
  }

  /**
   * SchedulerSizeTest and SchedulerRemoveTaskTest: two added tasks are both
   * queued; removing the first by its UID succeeds and leaves one; removing
   * it again fails and leaves the queue as it was.
   */
  method RemoveScenario() returns (sizeAfterAdds: nat, first: Status, sizeAfterFirst: nat,
                                   second: Status, sizeAfterSecond: nat)
    ensures sizeAfterAdds == 2
    ensures first == Success && sizeAfterFirst == 1
    ensures second == Failure && sizeAfterSecond == 1
  {
    var (id, s) := TwoTasks();
    sizeAfterAdds := TaskScheduler.Size(s);
    RemoveFoundThenMissing(s, FirstTask(id));
    var removed1 := TaskScheduler.RemoveTask(s, id);
    first := removed1.0;
    sizeAfterFirst := TaskScheduler.Size(removed1.1);
    var removed2 := TaskScheduler.RemoveTask(removed1.1, id);
    second := removed2.0;
    sizeAfterSecond := TaskScheduler.Size(removed2.1);
  }
}
