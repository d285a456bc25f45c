/**
  The size classes of small allocations. `kmalloc` picks a class by size; `kfree` has only the
  address, and guesses the class from the object count that the slab header carries.
  */
module Kmalloc {
  import opened Arithmetic
  import opened Slub

  const SIZES: seq<nat> := [16, 32, 64, 92, 128, 196, 256, 384, 512, 768, 1024, 1363, 2048, 4096]

  /** The space that the objects of a slab share. */
  const SPACE := SLAB_SIZE - HEADER

  predicate Increasing(table: seq<nat>) {
    forall i, j :: 0 <= i < j < |table| ==> table[i] < table[j]
  }

  /** The first class above a size. */
  function FirstAbove(table: seq<nat>, size: nat): (i: nat)
    ensures i <= |table|
    ensures i < |table| ==> size < table[i]
    ensures forall j :: 0 <= j < i ==> table[j] <= size
  {
    if table == [] || size < table[0] then 0 else 1 + FirstAbove(table[1..], size)
  }

  /** The class for a request, 0 if there is none. */
  function ClassFor(table: seq<nat>, size: nat): nat {
    var i := FirstAbove(table, size);
    if i < |table| then table[i] else 0
  }

  /** The class guessed for a slab of `count` objects: the last one not above the average object. */
  function ClassOf(table: seq<nat>, count: nat): nat
    requires count > 0
  {
    var i := FirstAbove(table, SPACE / count);
    if i == |table| then 0 else if i == 0 then table[0] else table[i - 1]
  }

  /** `_kmalloc_block_for_size` */
  method BlockForSize(size: nat) returns (block: nat)
    ensures block == ClassFor(SIZES, size)
  {
    block := 0;
    var i := 0;
    while i < |SIZES|
      invariant 0 <= i <= |SIZES| && block == 0
      invariant forall j :: 0 <= j < i ==> SIZES[j] <= size
    {
      if size < SIZES[i] {
        assert i == FirstAbove(SIZES, size);
        return SIZES[i];
      }
      i := i + 1;
    }
  }

  /** `_kmalloc_get_block`, given the count of the slab the object lies in. */
  method GetBlock(count: nat) returns (block: nat)
    requires count > 0
    ensures block == ClassOf(SIZES, count)
  {
    var estimate := SPACE / count;
    var i := 0;
    while i < |SIZES|
      invariant 0 <= i <= |SIZES|
      invariant forall j :: 0 <= j < i ==> SIZES[j] <= estimate
    {
      if SIZES[i] > estimate {
        assert i == FirstAbove(SIZES, estimate);
        return if i == 0 then SIZES[i] else SIZES[i - 1];
      }
      i := i + 1;
    }
    return 0;
  }

  lemma TableIncreases()
    ensures Increasing(SIZES)
  {
  }

  lemma LeastAbove(table: seq<nat>, size: nat)
    requires Increasing(table) && exists i :: 0 <= i < |table| && size < table[i]
    ensures ClassFor(table, size) in table && size < ClassFor(table, size)
    ensures forall i :: 0 <= i < |table| && size < table[i] ==> ClassFor(table, size) <= table[i]
  {
    var i := FirstAbove(table, size);
    hide FirstAbove;
  }

  /** A request gets the smallest class of the table above its size. */
  lemma ClassIsLeast(size: nat)
    requires size < 4096
    ensures ClassFor(SIZES, size) in SIZES && size < ClassFor(SIZES, size)
    ensures forall i :: 0 <= i < |SIZES| && size < SIZES[i] ==> ClassFor(SIZES, size) <= SIZES[i]
  {
    TableIncreases();
    assert SIZES[13] == 4096;
    LeastAbove(SIZES, size);
  }

  lemma GreatestBelow(table: seq<nat>, count: nat)
    requires Increasing(table) && |table| > 0 && count > 0
    ensures var average, guess := SPACE / count, ClassOf(table, count);
            && (average < table[0] ==> guess == table[0])
            && (table[|table| - 1] <= average ==> guess == 0)
            && (table[0] <= average < table[|table| - 1] ==>
                  guess in table && guess <= average && forall i :: 0 <= i < |table| && table[i] <= average ==> table[i] <= guess)
  {
    var i := FirstAbove(table, SPACE / count);
    hide FirstAbove;
  }

  /** The class guessed is the greatest not above the average object, or the first; none from the last class on. */
  lemma GuessIsGreatest(count: nat)
    requires count > 0
    ensures var average, guess := 8184 / count, ClassOf(SIZES, count);
            && (average < 16 ==> guess == 16)
            && (4096 <= average ==> guess == 0)
            && (16 <= average < 4096 ==>
                  guess in SIZES && guess <= average && forall i :: 0 <= i < |SIZES| && SIZES[i] <= average ==> SIZES[i] <= guess)
  {
    TableIncreases();
    assert SIZES[0] == 16 && SIZES[13] == 4096;
    GreatestBelow(SIZES, count);
  }

  lemma DivideBound(a: nat, b: nat, q: nat)
    requires b > 0
    ensures q * b <= a ==> q <= a / b
    ensures a < (q + 1) * b ==> a / b <= q
  {
    var d := a / b;
    assert d * b <= a < d * b + b;
    if d < q {
      MultipleStep(d, q, b);
    }
    if q < d {
      MultipleStep(q, d, b);
      assert (q + 1) * b == q * b + b;
    }
  }

  /** The average object is at least as large as the real one, by at most s / c. */
  lemma EstimateBounds(size: nat)
    requires 0 < size < SPACE
    ensures var count := ObjectCount(size);
            count > 0 && size <= SPACE / count <= size + size / count
  {
    DivideBound(SPACE - 1, size, 1);
    Commute(size, ObjectCount(size));
    AverageBounds(SPACE, size, ObjectCount(size));
  }

  lemma AverageBounds(space: nat, size: nat, count: nat)
    requires count > 0 && size * count <= space <= size * count + size
    ensures size <= space / count <= size + size / count
  {
    DivideBound(space, count, size);
    QuotientRoom(size, count);
    DivideBound(space, count, size + size / count);
  }

  lemma Commute(a: nat, b: nat)
    ensures a * b == b * a
  {
  }

  lemma QuotientRoom(size: nat, count: nat)
    requires count > 0
    ensures size * count + size < (size + size / count + 1) * count
  {
    var q := size / count;
    assert size < q * count + count;
    Distribute(size, q + 1, count);
    Distribute(q, 1, count);
  }

  lemma Distribute(a: nat, b: nat, c: nat)
    ensures (a + b) * c == a * c + b * c
  {
  }

  /** The class of a slab is recovered exactly when there is a next class, and it exceeds the estimate. */
  lemma RecoveredExactly(table: seq<nat>, i: nat)
    requires Increasing(table) && i < |table| && 0 < table[i] < SPACE
    ensures ObjectCount(table[i]) > 0
    ensures ClassOf(table, ObjectCount(table[i])) == table[i]
       <==> i + 1 < |table| && SPACE / ObjectCount(table[i]) < table[i + 1]
  {
    EstimateBounds(table[i]);
    var k := FirstAbove(table, SPACE / ObjectCount(table[i]));
    assert k > i;
    if i + 1 < |table| && SPACE / ObjectCount(table[i]) < table[i + 1] {
      assert k == i + 1;
    }
  }

  /** In particular, when the next class exceeds s + s / c. */
  lemma RecoveredWhenSpaced(table: seq<nat>, i: nat)
    requires Increasing(table) && i + 1 < |table| && 0 < table[i] < SPACE
    requires ObjectCount(table[i]) > 0 && table[i] + table[i] / ObjectCount(table[i]) < table[i + 1]
    ensures ClassOf(table, ObjectCount(table[i])) == table[i]
  {
    EstimateBounds(table[i]);
    RecoveredExactly(table, i);
  }

  /** In the kernel's table every class but the last leaves room for the estimate. */
  lemma TableSpaced(i: nat)
    requires i + 1 < |SIZES|
    ensures 0 < SIZES[i] < SPACE && ObjectCount(SIZES[i]) > 0 && SPACE / ObjectCount(SIZES[i]) < SIZES[i + 1]
  {
    if i < 4 {
      assert i == 0 || i == 1 || i == 2 || i == 3;
    } else if i < 8 {
      assert i == 4 || i == 5 || i == 6 || i == 7;
    } else {
      assert i == 8 || i == 9 || i == 10 || i == 11 || i == 12;
    }
  }

  lemma TableRecovered(i: nat)
    requires i < |SIZES|
    ensures 0 < SIZES[i] < SPACE && ObjectCount(SIZES[i]) > 0
    ensures ClassOf(SIZES, ObjectCount(SIZES[i])) == if i + 1 < |SIZES| then SIZES[i] else 0
  {
    if i + 1 < |SIZES| {
      TableSpaced(i);
      RecoveredExactly(SIZES, i);
    } else {
      LastClassLost();
    }
  }

  lemma LastClassLost()
    ensures SIZES[13] == 4096 && ObjectCount(4096) == 1 && ClassOf(SIZES, 1) == 0
  {
  }

  /** `kmalloc` and `kfree` agree on the class exactly for requests below 2048 bytes. */
  lemma MallocFreeAgreeExactly(size: nat)
    requires 1 <= size < 4096
    ensures ClassFor(SIZES, size) > size
    ensures 0 < ClassFor(SIZES, size) < SPACE && ObjectCount(ClassFor(SIZES, size)) > 0
    ensures ClassOf(SIZES, ObjectCount(ClassFor(SIZES, size))) == ClassFor(SIZES, size) <==> size < 2048
  {
    var i := FirstAbove(SIZES, size);
    assert SIZES[13] == 4096 && SIZES[12] == 2048;
    TableRecovered(i);
  }

  /** From 4096 bytes on there is no class, although `kmalloc` sends 4096 here. */
  lemma NoLargeClass(size: nat)
    ensures ClassFor(SIZES, size) == 0 <==> 4096 <= size
  {
    assert SIZES[13] == 4096;
  }
}
