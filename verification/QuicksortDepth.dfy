/**
  How deep qsort's stack of pending partitions gets (disks/I/2/QSORT.C). The code compares pointer differences as
  signed 16-bit ints to find the larger part, so a part of 32768 bytes or more counts as the smaller one.
 */
module QuicksortDepth {
  import opened Arithmetic

  const STACK_ENTRIES := 16

  // --- pointer differences

  // A 16-bit word as an int.
  function Signed(x: int): int {
    var w := x % 0x10000;
    if w < 0x8000 then w else w - 0x10000
  }

  // The pointer to element p less the pointer to element q.
  function Difference(size: int, p: int, q: int): int { Signed(size * (p - q)) }

  // The area, with one element on either side for the pointers that step past it, lies in memory.
  predicate InMemory(nel: int, size: int) { size >= 1 && nel >= 1 && (nel + 2) * size <= 0x10000 }

  // No difference of two pointers that decides what is stacked leaves the positive ints.
  predicate SafeArea(nel: int, size: int) { (nel - 3) * size <= 0x7FFF }

  // The first difference, counted in elements, that is negative as an int.
  function Wraps(size: int): int
    requires size >= 1
  {
    (0x7FFF + size) / size
  }

  lemma Scaled(size: int, a: int, b: int)
    requires size >= 0 && a <= b
    ensures size * a <= size * b
  {
  }

  lemma WrapsFrom(size: int, d: int)
    requires size >= 1
    ensures size * d >= 0x8000 <==> d >= Wraps(size)
  {
    var w := Wraps(size);
    assert size * w <= 0x7FFF + size < size * w + size by {
      assert 0x7FFF + size == size * w + (0x7FFF + size) % size;
    }
    if d >= w {
      Scaled(size, w, d);
    } else {
      Scaled(size, d, w - 1);
      assert size * (w - 1) == size * w - size;
    }
  }

  lemma SafeIs(nel: int, size: int)
    requires size >= 1
    ensures SafeArea(nel, size) <==> nel - 3 < Wraps(size)
  {
    WrapsFrom(size, nel - 3);
    assert size * (nel - 3) == (nel - 3) * size;
  }

  // An area in memory has at most 21845 bytes to an element, so the first negative difference is 2 or more.
  lemma WrapsBounds(nel: int, size: int)
    requires InMemory(nel, size)
    ensures 2 <= Wraps(size) && size <= 0x5555 && nel <= 0xFFFE
  {
    Scaled(size, 3, nel + 2);
    WrapsFrom(size, 1);
    assert nel + 2 <= size * (nel + 2) by {
      Scaled(nel + 2, 1, size);
      assert (nel + 2) * size == size * (nel + 2);
    }
    assert size * (nel + 2) == (nel + 2) * size;
  }

  // What the code makes of a difference of d elements, from -1 on.
  lemma DifferenceIs(nel: int, size: int, p: int, q: int)
    requires InMemory(nel, size) && -1 <= p - q <= nel - 2
    ensures p - q < Wraps(size) ==> Difference(size, p, q) == size * (p - q)
    ensures p - q >= Wraps(size) ==> Difference(size, p, q) <= -4 * size
  {
    var d := p - q;
    WrapsBounds(nel, size);
    WrapsFrom(size, d);
    Scaled(size, -1, d);
    Scaled(size, d, nel - 2);
    assert size * (nel - 2) == (nel + 2) * size - 4 * size;
    SignedIs(size * d, size);
  }

  lemma SignedIs(x: int, size: int)
    requires size >= 1 && -0x8000 <= -size <= x <= 0x10000 - 4 * size
    ensures Signed(x) == if x < 0x8000 then x else x - 0x10000
  {
  }

  // --- the choice of the part to be stacked

  // Where a pass over base..r can leave its two pointers.
  predicate SplitShape(base: int, r: int, i: int, j: int) {
    base < i <= r + 1 && base - 1 <= j < r && j < i
  }

  // The test that stacks the right part.
  predicate TakesRight(size: int, base: int, r: int, i: int, j: int) {
    Difference(size, j, base) < Difference(size, r, i)
  }

  // Elements of the part that is stacked, and of the part that is sorted first.
  function Stacked(size: int, base: int, r: int, i: int, j: int): int {
    if TakesRight(size, base, r, i, j) then r - i + 1 else j - base + 1
  }

  function Kept(size: int, base: int, r: int, i: int, j: int): int {
    if TakesRight(size, base, r, i, j) then j - base + 1 else r - i + 1
  }

  // The part that is stacked has two elements, and fewer than the part that is sorted first.
  predicate StacksSmaller(size: int, base: int, r: int, i: int, j: int) {
    2 <= Stacked(size, base, r, i, j) < Kept(size, base, r, i, j)
  }

  // With neither difference negative the larger part is stacked; otherwise the part whose difference is negative
  // comes next, however large.
  lemma ChoiceIs(nel: int, size: int, base: int, r: int, i: int, j: int)
    requires InMemory(nel, size) && r - base + 1 <= nel && SplitShape(base, r, i, j)
    ensures j - base >= Wraps(size) ==> TakesRight(size, base, r, i, j)
    ensures r - i >= Wraps(size) ==> !TakesRight(size, base, r, i, j)
    ensures j - base < Wraps(size) && r - i < Wraps(size) ==> (TakesRight(size, base, r, i, j) <==> j - base < r - i)
  {
    var w := Wraps(size);
    DifferenceIs(nel, size, j, base);
    DifferenceIs(nel, size, r, i);
    NotBoth(nel, size, j - base, r - i);
    Scaled(size, -1, j - base);
    Scaled(size, -1, r - i);
    if j - base < r - i {
      Scaled(size, j - base + 1, r - i);
      assert size * (j - base + 1) == size * (j - base) + size;
    } else {
      Scaled(size, r - i, j - base);
    }
  }

  // Two negative differences would fill more than the memory.
  lemma NotBoth(nel: int, size: int, a: int, b: int)
    requires InMemory(nel, size) && a + b <= nel - 2
    ensures a < Wraps(size) || b < Wraps(size)
  {
    WrapsFrom(size, a);
    WrapsFrom(size, b);
    Scaled(size, a + b, nel - 2);
    assert size * (a + b) == size * a + size * b;
    assert size * (nel - 2) == (nel + 2) * size - 4 * size;
  }

  // In a safe area the test never stacks the smaller part.
  lemma ChoiceRight(nel: int, size: int, base: int, r: int, i: int, j: int)
    requires InMemory(nel, size) && SafeArea(nel, size) && r - base + 1 <= nel && SplitShape(base, r, i, j)
    ensures !StacksSmaller(size, base, r, i, j)
  {
    SafeIs(nel, size);
    ChoiceIs(nel, size, base, r, i, j);
  }

  // --- the depth

  // Entries that sorting n elements can need, w being the first negative difference: a partition of w + 3 elements
  // or more can lose two to the stack at a time; below that the stacked part is the larger one.
  function Depth(w: int, n: int): (d: nat)
    decreases if n < 0 then 0 else n
  {
    if n < 3 then 0
    else if n - 3 >= w then 1 + Depth(w, n - 2)
    else 1 + Depth(w, n / 2)
  }

  // More elements never need fewer entries.
  lemma {:induction false} DepthRises(w: int, n: int, m: int)
    requires n <= m
    ensures Depth(w, n) <= Depth(w, m)
    decreases if m < 0 then 0 else m
  {
    if n >= 3 {
      var n', m' := if n - 3 >= w then n - 2 else n / 2, if m - 3 >= w then m - 2 else m / 2;
      DepthRises(w, n', m');
    }
  }

  // Whatever the split, what is stacked and what comes next stay within the depth of the whole.
  lemma ChoiceDepth(nel: int, size: int, base: int, r: int, i: int, j: int)
    requires InMemory(nel, size) && r - base + 1 <= nel && SplitShape(base, r, i, j)
    ensures var w, n := Wraps(size), r - base + 1;
      && Depth(w, Stacked(size, base, r, i, j)) <= Depth(w, n)
      && Depth(w, Kept(size, base, r, i, j)) <= Depth(w, n)
      && (Stacked(size, base, r, i, j) >= 2 ==> Depth(w, Kept(size, base, r, i, j)) + 1 <= Depth(w, n))
  {
    var w, n := Wraps(size), r - base + 1;
    var a, b := Stacked(size, base, r, i, j), Kept(size, base, r, i, j);
    DepthRises(w, a, n);
    DepthRises(w, b, n);
    if a >= 2 {
      ChoiceIs(nel, size, base, r, i, j);
      DepthRises(w, b, if n - 3 >= w then n - 2 else n / 2);
    }
  }

  // --- the depth in closed form

  // Below the first negative difference the depth is a logarithm.
  lemma {:induction false} DepthIsLog(w: int, n: int, k: nat)
    requires n - 3 < w
    ensures Depth(w, n) <= k <==> n < 3 * Pow2(k)
    decreases k
  {
    if n >= 3 && k > 0 {
      DepthIsLog(w, n / 2, k - 1);
    }
  }

  // Above it two elements go with every entry.
  lemma {:induction false} DepthAbove(w: int, n: int, k: nat)
    requires n - 2 * k - 1 >= w && w >= 1
    ensures Depth(w, n) == k + Depth(w, n - 2 * k)
  {
    if k > 0 {
      DepthAbove(w, n, k - 1);
    }
  }

  // A safe area never needs the last entry.
  lemma SafeDepth(nel: int, size: int)
    requires InMemory(nel, size) && SafeArea(nel, size)
    ensures Depth(Wraps(size), nel) <= STACK_ENTRIES - 1
  {
    SafeIs(nel, size);
    WrapsBounds(nel, size);
    DepthIsLog(Wraps(size), nel, 15);
    PowFifteen();
  }

  lemma PowFifteen()
    ensures Pow2(12) == 4096 && Pow2(13) == 8192 && Pow2(15) == 32768
  {
    PowValues();
    assert Pow2(8) == 2 * Pow2(7);
    assert Pow2(9) == 2 * Pow2(8);
    assert Pow2(10) == 2 * Pow2(9);
    assert Pow2(11) == 2 * Pow2(10);
    assert Pow2(12) == 2 * Pow2(11);
    assert Pow2(13) == 2 * Pow2(12);
    assert Pow2(14) == 2 * Pow2(13);
    assert Pow2(15) == 2 * Pow2(14);
  }

  // Seventeen such partitions in an area are too many, whatever the size of an element.
  lemma TooDeep(nel: int, size: int)
    requires size >= 1 && (nel - 35) * size >= 0x8000
    ensures Depth(Wraps(size), nel) > STACK_ENTRIES
  {
    assert size * (nel - 35) == (nel - 35) * size;
    WrapsFrom(size, nel - 35);
    WrapsFrom(size, 0);
    DepthAbove(Wraps(size), nel, 17);
  }

  // p times two elements above n, where the depth is a logarithm.
  lemma DepthOver(w: int, n: int, p: nat, k: nat)
    requires w >= 1 && w + 1 <= n <= w + 2
    ensures Depth(w, n + 2 * p) <= p + k <==> n < 3 * Pow2(k)
  {
    DepthAbove(w, n + 2 * p, p);
    DepthIsLog(w, n, k);
  }

  // The limit in closed form, if w + 1 and w + 2 elements need the same k + 1 entries.
  lemma DepthLimit(w: int, nel: int, k: nat)
    requires 3 * Pow2(k) <= w + 1 && w + 2 < 3 * Pow2(k + 1) && k < STACK_ENTRIES
    ensures Depth(w, nel) <= STACK_ENTRIES <==> nel <= w + 2 + 2 * (STACK_ENTRIES - 1 - k)
  {
    var p := STACK_ENTRIES - 1 - k;
    var below, above := w + 2 + 2 * p, w + 1 + 2 * (p + 1);
    DepthOver(w, w + 2, p, k + 1);
    DepthOver(w, w + 1, p + 1, k);
    if nel <= below {
      DepthRises(w, nel, below);
    } else {
      DepthRises(w, above, nel);
    }
  }

  // For elements of two bytes the stack suffices up to 16392 of them, and no further.
  lemma WordsLimit(nel: int, size: int)
    requires size == 2
    ensures Depth(Wraps(size), nel) <= STACK_ENTRIES <==> nel <= 16392
  {
    PowFifteen();
    DepthLimit(Wraps(size), nel, 12);
  }
}
