/** The growing arrays of vkd3d: how much they grow by, and what that costs. */
module ArrayReserve {
  import opened Powers

  const SIZE_MAX: nat := 0xffff_ffff_ffff_ffff

  /** Sizes have 64 bits. */
  lemma SizesHave64Bits()
    ensures SIZE_MAX + 1 == Pow2(64)
  {
    assert Pow2(4) == 0x10 && Pow2(8) == 0x100 && Pow2(12) == 0x1000 && Pow2(16) == 0x1_0000;
    Pow2Sum(16, 16);
    Pow2Sum(32, 32);
  }

  /** The number of elements that a byte count can stand for. */
  function MaxCapacity(elementSize: nat): nat
    requires elementSize > 0
  {
    SIZE_MAX / elementSize
  }

  function Max(a: nat, b: nat): nat {
    if a > b then a else b
  }

  lemma TimesMonotone(a: nat, b: nat, k: nat)
    requires a <= b
    ensures a * k <= b * k
  {
    assert b * k == a * k + (b - a) * k;
  }

  /** `capacity` doubled `k` times is still less than `count`, and can be doubled once more within `max`. */
  predicate CanDouble(capacity: nat, count: nat, max: nat, k: nat) {
    capacity * Pow2(k) < count && capacity * Pow2(k) <= max / 2
  }

  /** `k` is the least number of doublings that reaches `count`, or else the last one that stays within `max`. */
  ghost predicate IsLeast(capacity: nat, count: nat, max: nat, k: nat) {
    !CanDouble(capacity, count, max, k) && forall j | 0 <= j < k :: CanDouble(capacity, count, max, j)
  }

  /** The capacity, or 4 if that is more, is doubled as often as necessary; what is too little then becomes `count`. */
  ghost predicate IsGrown(capacity: nat, count: nat, max: nat, c: nat) {
    exists k: nat :: IsLeast(Max(capacity, 4), count, max, k) && c == Max(Max(capacity, 4) * Pow2(k), count)
  }

  lemma LeastOnce(b: nat, count: nat, max: nat, k: nat, k': nat)
    requires IsLeast(b, count, max, k) && IsLeast(b, count, max, k')
    ensures k == k'
  {
    assert k < k' ==> CanDouble(b, count, max, k);
    assert k' < k ==> CanDouble(b, count, max, k');
  }

  /** There is only one such capacity. */
  lemma GrownOnce(capacity: nat, count: nat, max: nat, c: nat, c': nat)
    requires IsGrown(capacity, count, max, c) && IsGrown(capacity, count, max, c')
    ensures c == c'
  {
    var b := Max(capacity, 4);
    var k: nat :| IsLeast(b, count, max, k) && c == Max(b * Pow2(k), count);
    var k': nat :| IsLeast(b, count, max, k') && c' == Max(b * Pow2(k'), count);
    LeastOnce(b, count, max, k, k');
  }

  lemma DoubleOnce(b: nat, k: nat)
    ensures b * Pow2(k) * 2 == b * Pow2(k + 1)
  {
  }

  lemma AtLeast(b: nat, k: nat)
    ensures b <= b * Pow2(k)
  {
    TimesMonotone(1, Pow2(k), b);
  }

  lemma DoublingBounds(b: nat, count: nat, max: nat, k: nat)
    requires IsLeast(b, count, max, k)
    ensures b <= b * Pow2(k) && (b * Pow2(k) == b || b * Pow2(k) <= max)
  {
    if k == 0 {
    } else {
      assert CanDouble(b, count, max, k - 1);
      DoubleOnce(b, k - 1);
      AtLeast(b, k);
    }
  }

  /** It is enough, and within `max` as soon as four elements are. */
  lemma GrownBounds(capacity: nat, count: nat, max: nat, c: nat)
    requires IsGrown(capacity, count, max, c) && capacity <= max && count <= max
    ensures capacity <= c && count <= c && (c <= max <==> max >= 4)
  {
    var b := Max(capacity, 4);
    var k: nat :| IsLeast(b, count, max, k) && c == Max(b * Pow2(k), count);
    DoublingBounds(b, count, max, k);
  }

  lemma FitsBytes(c: nat, elementSize: nat)
    requires elementSize > 0
    ensures c * elementSize <= SIZE_MAX <==> c <= MaxCapacity(elementSize)
  {
    var q := MaxCapacity(elementSize);
    assert SIZE_MAX == q * elementSize + SIZE_MAX % elementSize;
    if c <= q { TimesMonotone(c, q, elementSize); } else { TimesMonotone(q + 1, c, elementSize); }
  }

  /** The new size in bytes does not wrap around exactly when four elements fit, as the first growth supposes. */
  lemma FitsExactly(capacity: nat, count: nat, elementSize: nat, c: nat)
    requires elementSize > 0 && capacity < count <= MaxCapacity(elementSize)
    requires IsGrown(capacity, count, MaxCapacity(elementSize), c)
    ensures c * elementSize <= SIZE_MAX <==> MaxCapacity(elementSize) >= 4
  {
    GrownBounds(capacity, count, MaxCapacity(elementSize), c);
    FitsBytes(c, elementSize);
  }

  /** How many elements a block has room for whose size has been computed for `c` of them. */
  function Room(c: nat, elementSize: nat): nat
    requires elementSize > 0
  {
    c * elementSize % (SIZE_MAX + 1) / elementSize
  }

  lemma Quotient(x: nat, q: nat, k: nat)
    requires k > 0 && q * k <= x < q * k + k
    ensures x / k == q
  {
    var d := x / k;
    assert x == d * k + x % k;
    if d < q { TimesMonotone(d + 1, q, k); }
    if q < d { TimesMonotone(q + 1, d, k); }
  }

  lemma QuotientMonotone(a: nat, b: nat, k: nat)
    requires a <= b && k > 0
    ensures a / k <= b / k
  {
    assert a == a / k * k + a % k && b == b / k * k + b % k;
    if b / k < a / k { TimesMonotone(b / k + 1, a / k, k); }
  }

  lemma RoomExactly(c: nat, elementSize: nat)
    requires elementSize > 0
    ensures Room(c, elementSize) >= c <==> c <= MaxCapacity(elementSize)
    ensures c <= MaxCapacity(elementSize) ==> Room(c, elementSize) == c
  {
    var bytes := c * elementSize;
    FitsBytes(c, elementSize);
    Quotient(bytes, c, elementSize);
    QuotientMonotone(bytes % (SIZE_MAX + 1), SIZE_MAX, elementSize);
  }

  method Grow(capacity: nat, count: nat, max: nat) returns (c: nat)
    ensures IsGrown(capacity, count, max, c)
  {
    c := Max(capacity, 4);
    ghost var k := 0;
    while c < count && c <= max / 2
      invariant c > 0 && c == Max(capacity, 4) * Pow2(k)
      invariant forall j | 0 <= j < k :: CanDouble(Max(capacity, 4), count, max, j)
      decreases count - c
    {
      DoubleOnce(Max(capacity, 4), k);
      c := c * 2;
      k := k + 1;
    }
    assert IsLeast(Max(capacity, 4), count, max, k);
    if c < count {
      c := count;
    }
  }

  /** A full array that needs one more element doubles, as long as it can. */
  lemma OneMore(capacity: nat, max: nat, c: nat)
    requires capacity <= max / 2 && IsGrown(capacity, capacity + 1, max, c)
    ensures c == if capacity < 4 then 4 else 2 * capacity
  {
    var b, count, k := Max(capacity, 4), capacity + 1, if capacity < 4 then 0 else 1;
    assert Pow2(0) == 1 && Pow2(1) == 2;
    assert capacity >= 4 ==> CanDouble(b, count, max, 0);
    assert IsLeast(b, count, max, k);
    GrownOnce(capacity, count, max, c, Max(b * Pow2(k), count));
  }

  /** `*elements` and `*capacity`. */
  class Vector<T(0)> {
    var elements: array<T>
    var capacity: nat

    constructor ()
      ensures capacity == 0 && fresh(elements)
    {
      elements, capacity := new T[0], 0;
    }

    ghost predicate Valid()
      reads this
    {
      capacity <= elements.Length
    }

    /** vkd3d_realloc, when it succeeds: a block of so many bytes that begins with what the old one held. */
    method Reallocate(bytes: nat, elementSize: nat) returns (a: array<T>)
      requires elementSize > 0
      ensures fresh(a) && a.Length == bytes / elementSize
      ensures forall i | 0 <= i < a.Length && i < elements.Length :: a[i] == elements[i]
    {
      a := new T[bytes / elementSize];
      for i := 0 to if a.Length < elements.Length then a.Length else elements.Length
        invariant forall j | 0 <= j < i :: a[j] == elements[j]
      {
        a[i] := elements[i];
      }
    }

    /** `allocates` tells whether there is memory. */
    method Reserve(count: nat, elementSize: nat, allocates: bool) returns (ok: bool)
      requires Valid() && elementSize > 0 && capacity <= MaxCapacity(elementSize)
      modifies this
      ensures ok <==> count <= old(capacity) || (count <= MaxCapacity(elementSize) && allocates)
      ensures ok ==> count <= capacity
      ensures !ok || count <= old(capacity) ==> elements == old(elements) && capacity == old(capacity)
      ensures ok && old(capacity) < count ==>
        IsGrown(old(capacity), count, MaxCapacity(elementSize), capacity) && fresh(elements)
      ensures Valid() <==> !ok || count <= old(capacity) || MaxCapacity(elementSize) >= 4
      ensures Valid() ==> elements[..old(capacity)] == old(elements[..capacity])
    {
      if count <= capacity {
        return true;
      }
      var maxCapacity := SIZE_MAX / elementSize;
      if maxCapacity < count {
        return false;
      }
      var newCapacity := Grow(capacity, count, maxCapacity);
      if !allocates {
        return false;
      }
      GrownBounds(capacity, count, maxCapacity, newCapacity);
      FitsExactly(capacity, count, elementSize, newCapacity);
      RoomExactly(newCapacity, elementSize);
      var newElements := Reallocate(newCapacity * elementSize % (SIZE_MAX + 1), elementSize);
      elements := newElements;
      capacity := newCapacity;
      return true;
    }

    /** Appends `xs` one element at a time. `copied` counts the elements that reallocations have moved. */
    method AppendAll(xs: seq<T>, elementSize: nat) returns (ghost copied: nat)
      requires Valid() && capacity == 0 && elementSize > 0
      requires MaxCapacity(elementSize) >= 4 && |xs| <= MaxCapacity(elementSize) / 2
      modifies this
      ensures Valid() && |xs| <= capacity && elements[..|xs|] == xs
      ensures xs != [] ==> copied < 2 * |xs|
    {
      copied := 0;
      for i := 0 to |xs|
        invariant Valid() && i <= capacity <= MaxCapacity(elementSize) && elements[..i] == xs[..i]
        invariant i > 0 ==> fresh(elements)
        invariant if i == 0 then capacity == 0 && copied == 0 else copied + 4 <= capacity && (capacity == 4 || capacity < 2 * i)
      {
        ghost var before := capacity;
        var ok := Reserve(i + 1, elementSize, true);
        if before < capacity {
          copied := copied + before;
          OneMore(before, MaxCapacity(elementSize), capacity);
        }
        elements[i] := xs[i];
      }
    }
  }
}
