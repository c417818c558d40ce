/**
 * The growable vector backing the heap (dynamic_vector.c).
 *
 * The C structure keeps its capacity and its occupancy in BYTES; elements are
 * copied in and out with memcpy. The model keeps the same byte bookkeeping
 * (`elementSize`, `capacity`) and stores the elements themselves as a sequence,
 * so the occupied byte count is `|items| * elementSize`.
 */
module DynamicVector {
  import opened Common
  import Arith

  datatype Vector<T> = Vector(elementSize: nat, capacity: nat, items: seq<T>)
  {
    /** The `size` field of the C structure: occupied bytes. */
    function SizeBytes(): nat {
      |items| * elementSize
    }

    /** Byte counts are whole elements and the occupied part fits in the buffer. */
    ghost predicate Valid() {
      && elementSize > 0
      && capacity % elementSize == 0
      && SizeBytes() <= capacity
    }
  }

  /** DVSize: occupied bytes divided by the element size. */
  function Size<T>(v: Vector<T>): (n: nat)
    requires v.elementSize > 0
    ensures n == |v.items|
  {
    Arith.MulDivCancel(|v.items|, v.elementSize);
    v.SizeBytes() / v.elementSize
  }

  /** DVCapacity: buffer bytes divided by the element size. */
  function Capacity<T>(v: Vector<T>): (n: nat)
    requires v.Valid()
    ensures n * v.elementSize == v.capacity
    ensures |v.items| <= n
  {
    var n := v.capacity / v.elementSize;
    Arith.MulLeIff(|v.items|, n, v.elementSize);
    n
  }

  /** DVCreate: an empty vector with room for `capacity` elements, or None when malloc fails. */
  function Create<T>(capacity: nat, elementSize: nat, allocOk: bool): (r: Option<Vector<T>>)
    requires elementSize > 0
    ensures r.Some? <==> allocOk
    ensures r.Some? ==> r.value.Valid() && r.value.items == [] && r.value.elementSize == elementSize
    ensures r.Some? ==> Capacity(r.value) == capacity
  {
    if allocOk then
      Arith.MulDivCancel(capacity, elementSize);
      Some(Vector(elementSize, elementSize * capacity, []))
    else
      None
  }

  /** DVReserve: grow the buffer by `additional` elements; contents are untouched. */
  function Reserve<T>(v: Vector<T>, additional: nat, allocOk: bool): (r: (Status, Vector<T>))
    requires v.Valid()
    ensures r.1.Valid() && r.1.items == v.items && r.1.elementSize == v.elementSize
    ensures r.0 == Success <==> allocOk
    ensures r.0 == Success ==> Capacity(r.1) == Capacity(v) + additional
    ensures r.0 == Failure ==> r.1 == v
  {
    if !allocOk then
      (Failure, v)
    else
      var grown := v.(capacity := v.capacity + additional * v.elementSize);
      Arith.MulDivCancel(Capacity(v) + additional, v.elementSize);
      (Success, grown)
  }

  /**
   * DVPushBack as written: when the buffer is full it reserves `capacity`
   * more elements (doubling it) and then copies the element to the end.
   * A vector created with capacity 0 stays at capacity 0, so the element is
   * written past the buffer (see ZeroCapacityPushOverflows).
   */
  function PushBackAsWritten<T>(v: Vector<T>, x: T, growOk: bool): (r: (Status, Vector<T>))
    requires v.Valid()
    ensures r.0 == Success ==> r.1.items == v.items + [x]
    ensures r.0 == Failure ==> r.1 == v
  {
    if v.SizeBytes() == v.capacity then
      var (st, grown) := Reserve(v, v.capacity / v.elementSize, growOk);
      if st == Failure then (Failure, v)
      else (Success, grown.(items := grown.items + [x]))
    else
      (Success, v.(items := v.items + [x]))
  }

  /**
   * Pushing onto a vector created with capacity 0 grows it by nothing, so
   * the outcome rests on what `realloc(p, 0)` returns. When it returns a
   * buffer, the push reports success with more bytes occupied than
   * allocated. When it returns NULL, the push reports failure; the model
   * does not track that the C buffer may already have been freed.
   */
  lemma ZeroCapacityPushOverflows(x: int)
    ensures Create<int>(0, 8, true).Some?
    ensures var v := Create<int>(0, 8, true).value;
            var r := PushBackAsWritten(v, x, true);
            r.0 == Success && r.1.SizeBytes() > r.1.capacity
    ensures var v := Create<int>(0, 8, true).value;
            PushBackAsWritten(v, x, false).0 == Failure
  {
    var v := Create<int>(0, 8, true).value;
    assert v.capacity == 0 && v.items == [];
    var r := PushBackAsWritten(v, x, true);
    assert r.1.items == [x] && r.1.capacity == 0;
  }

  /** The growth step with the evident intent "make room for at least one element". */
  function GrowthFor<T>(v: Vector<T>): (n: nat)
    requires v.Valid()
    ensures n >= 1
    ensures Capacity(v) > 0 ==> n == Capacity(v)
  {
    if Capacity(v) == 0 then 1 else Capacity(v)
  }

  /**
   * DVPushBack with the capacity-0 case corrected: a full buffer grows by its
   * own capacity (doubling), and by one element when it is empty.
   */
  function PushBack<T>(v: Vector<T>, x: T, growOk: bool): (r: (Status, Vector<T>))
    requires v.Valid()
    ensures r.1.Valid() && r.1.elementSize == v.elementSize
    ensures r.0 == Failure <==> Size(v) == Capacity(v) && !growOk
    ensures r.0 == Success ==> r.1.items == v.items + [x]
    ensures r.0 == Failure ==> r.1 == v
    ensures Size(v) < Capacity(v) ==> r.1.capacity == v.capacity
    ensures Capacity(r.1) >= Capacity(v)
    ensures r.0 == Success && Size(v) == Capacity(v) && Capacity(v) > 0 ==>
              Capacity(r.1) == 2 * Capacity(v)
  {
    Arith.MulLeIff(Capacity(v), |v.items|, v.elementSize);
    if v.SizeBytes() == v.capacity then
      var (st, grown) := Reserve(v, GrowthFor(v), growOk);
      if st == Failure then (Failure, v)
      else
        var r := grown.(items := grown.items + [x]);
        Arith.MulLeIff(|r.items|, Capacity(grown), v.elementSize);
        (Success, r)
    else
      var r := v.(items := v.items + [x]);
      Arith.MulLeIff(|r.items|, Capacity(v), v.elementSize);
      (Success, r)
  }

  /** The correction changes nothing for a vector whose capacity is positive. */
  lemma PushBackAgreesWhenCapacityPositive<T>(v: Vector<T>, x: T, growOk: bool)
    requires v.Valid() && v.capacity > 0
    ensures PushBack(v, x, growOk) == PushBackAsWritten(v, x, growOk)
  {
    assert Capacity(v) > 0;
    assert GrowthFor(v) == v.capacity / v.elementSize;
  }

  /** The shrink test of DVPopBack, on bytes: occupancy at most a quarter of the buffer. */
  predicate ShrinkDue<T>(v: Vector<T>)
    requires v.elementSize > 0
  {
    v.SizeBytes() <= v.capacity / 4
  }

  /** The shrunk capacity of DVPopBack: half the buffer, rounded down to whole elements. */
  function HalvedCapacity<T>(v: Vector<T>): nat
    requires v.elementSize > 0
  {
    var half := v.capacity / 2;
    half - half % v.elementSize
  }

  /** On whole elements the byte test reads "4 * size <= capacity". */
  lemma ShrinkDueInElements<T>(v: Vector<T>)
    requires v.Valid()
    ensures ShrinkDue(v) <==> 4 * |v.items| <= Capacity(v)
  {
    var n, c, k := |v.items|, Capacity(v), v.elementSize;
    assert v.capacity == c * k;
    assert v.SizeBytes() == n * k;
    if 4 * n <= c {
      Arith.MulLeIff(4 * n, c, k);
      assert 4 * (n * k) == (4 * n) * k;
    } else {
      Arith.MulLeIff(c, 4 * n - 1, k);
      assert (4 * n - 1) * k == 4 * (n * k) - k;
    }
  }

  /** On whole elements the halved buffer holds `capacity / 2` elements. */
  lemma HalvedCapacityInElements<T>(v: Vector<T>)
    requires v.Valid()
    ensures HalvedCapacity(v) == (Capacity(v) / 2) * v.elementSize
  {
    assert v.capacity == Capacity(v) * v.elementSize;
    Arith.HalfOfScaled(Capacity(v), v.elementSize);
  }

  /**
   * DVPopBack: fails on an empty vector; otherwise drops the last element,
   * first halving the buffer when occupancy is down to a quarter (the
   * shrinking realloc may fail, and then nothing changes).
   */
  function PopBack<T>(v: Vector<T>, shrinkOk: bool): (r: (Status, Vector<T>))
    requires v.Valid()
    ensures r.1.Valid() && r.1.elementSize == v.elementSize
    ensures |v.items| == 0 ==> r == (Failure, v)
    ensures r.0 == Failure <==> |v.items| == 0 || (4 * |v.items| <= Capacity(v) && !shrinkOk)
    ensures r.0 == Failure ==> r.1 == v
    ensures r.0 == Success ==> r.1.items == v.items[..|v.items| - 1]
    ensures r.0 == Success ==>
              Capacity(r.1) == if 4 * |v.items| <= Capacity(v) then Capacity(v) / 2 else Capacity(v)
    ensures r.0 == Success ==> |v.items| <= Capacity(r.1)
    ensures v.capacity > 0 ==> r.1.capacity > 0
  {
    if |v.items| == 0 then
      (Failure, v)
    else
      ShrinkDueInElements(v);
      var rest := v.items[..|v.items| - 1];
      if ShrinkDue(v) then
        if !shrinkOk then (Failure, v)
        else
          HalvedCapacityInElements(v);
          var r := Vector(v.elementSize, HalvedCapacity(v), rest);
          Arith.MulDivCancel(Capacity(v) / 2, v.elementSize);
          Arith.MulLeIff(|rest|, Capacity(v) / 2, v.elementSize);
          (Success, r)
      else
        var r := v.(items := rest);
        Arith.MulLeIff(|rest|, Capacity(v), v.elementSize);
        (Success, r)
  }

  /** DVGetItem: the element at `index`, or None (NULL) past the occupied part. */
  function GetItem<T>(v: Vector<T>, index: nat): (r: Option<T>)
    requires v.elementSize > 0
    ensures r.None? <==> index >= Size(v)
    ensures r.Some? ==> r.value == v.items[index]
  {
    Arith.MulLeIff(|v.items|, index, v.elementSize);
    if index * v.elementSize >= v.SizeBytes() then None else Some(v.items[index])
  }

  /** A pop followed by a push never needs to grow the buffer. */
  lemma PopThenPushNeverGrows<T>(v: Vector<T>, x: T)
    requires v.Valid() && |v.items| > 0
    ensures var p := PopBack(v, true);
            p.0 == Success && Size(p.1) < Capacity(p.1)
  {
  }
}
