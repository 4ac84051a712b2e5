/**
  The inputs that drive qsort's stack to its full depth. In a large area each pass leaves two elements on the stack
  and goes on with all the rest; below that each pass stacks the larger half. So the bound on the depth is exact,
  and sixteen entries suffice for every input of an area or are overrun by one of them.
 */
module QuicksortLimit {
  import opened QuicksortDepth
  import opened Quicksort

  // The comparator of ints.
  function Minus(x: int, y: int): int { x - y }

  lemma MinusIsPreorder()
    ensures TotalPreorder(Minus)
  {
  }

  // A pass whose pivot x is above all up to place e, and below all after it, puts the pivot there and splits before it.
  lemma SplitsAt(s: seq<int>, base: int, r: int, x: int, e: int)
    requires 0 <= base <= x < e <= r < |s| && x == base + (r - base) / 2
    requires forall k :: base <= k <= e && k != x ==> s[k] < s[x]
    requires forall k :: e < k <= r ==> s[k] > s[x]
    ensures WholePass(Minus, s, base, r) == Pass(s[x := s[e]][e := s[x]], e, e - 1, e)
  {
    var t := s[x := s[e]][e := s[x]];
    FirstRound(s, base, r, x, e);
    SecondRound(t, x + 1, e);
    TwoRounds(Pass(s, base, r, x), Pass(t, x + 1, e - 1, e), Pass(t, e, e - 1, e));
  }

  lemma TwoRounds(p: Pass<int>, q: Pass<int>, z: Pass<int>)
    requires PassOk(p) && PassOk(q) && Round(Minus, p) == q && z.i > z.j
    requires if q.i <= q.j then Round(Minus, q) == z else q == z
    ensures Rounds(Minus, p) == z
  {
    assert Rounds(Minus, p) == if q.i <= q.j then Rounds(Minus, q) else q;
  }

  // The first round swaps the pivot up to place e.
  lemma FirstRound(s: seq<int>, base: int, r: int, x: int, e: int)
    requires 0 <= base <= x < e <= r < |s|
    requires forall k :: base <= k <= e && k != x ==> s[k] < s[x]
    requires forall k :: e < k <= r ==> s[k] > s[x]
    ensures Round(Minus, Pass(s, base, r, x)) == Pass(s[x := s[e]][e := s[x]], x + 1, e - 1, e)
  {
    UpIs(Minus, s, s[x], base, x);
    DownIs(Minus, s, s[x], r, e);
  }

  // The second finds the pivot from below and the element before it from above.
  lemma SecondRound(s: seq<int>, i: int, e: int)
    requires 0 < i <= e < |s| && forall k :: i - 1 <= k < e ==> s[k] < s[e]
    ensures Round(Minus, Pass(s, i, e - 1, e)) == Pass(s, e, e - 1, e)
  {
    UpIs(Minus, s, s[e], i, e);
    DownIs(Minus, s, s[e], e - 1, e - 1);
  }

  // --- the input

  // The values of b with two larger ones in the middle and at the end.
  ghost function Topped(b: seq<int>, top: int): (c: seq<int>)
    requires |b| >= 2
    ensures |c| == |b| + 2
  {
    var m := (|b| + 1) / 2;
    b[m := top] + [b[m], top + 1]
  }

  // n values: a left half of zero and ones, the pivot 2, then the right half, the values of b above it.
  ghost function Halved(b: seq<int>, n: nat): (c: seq<int>)
    requires n >= 3 && |b| == n / 2
    ensures |c| == n
  {
    var m := (n - 1) / 2;
    seq(n, i requires 0 <= i < n =>
      if i == 0 then 0 else if i == m then 2 else if i <= m + 1 then 1 else b[i - m - 1] + 2)
  }

  // The least value comes first and only there, and no value is above the limit.
  ghost predicate Headed(s: seq<int>, limit: int) {
    && (forall i :: 0 <= i < |s| ==> 0 <= s[i] <= limit)
    && (|s| > 0 ==> s[0] == 0) && forall i :: 0 < i < |s| ==> s[i] > 0
  }

  // n elements of 2 * k + 2 values for k passes: w + 3 elements or more are topped by two, fewer are halved.
  ghost function Worst(w: int, n: nat, k: nat): (s: seq<int>)
    requires w >= 2
    ensures |s| == n && Headed(s, 2 * k + 1)
  {
    if k == 0 || n < 3 then seq(n, i => if i == 0 then 0 else 1)
    else if n - 3 >= w then Topped(Worst(w, n - 2, k - 1), 2 * k)
    else Halved(Worst(w, n / 2, k - 1), n)
  }

  // The two largest of c in the middle and at the end, the other values those of b.
  ghost predicate TopsTwo(c: seq<int>, b: seq<int>) {
    var n, m := |c|, (|c| - 1) / 2;
    && n >= 4 && |b| == n - 2 && c[n - 2] == b[m] && c[m] < c[n - 1]
    && (forall i :: 0 <= i < n - 2 && i != m ==> c[i] == b[i])
    && (forall i :: 0 <= i < n - 2 ==> b[i] < c[m])
  }

  // The left half of c below the pivot, the right half that of b above it.
  ghost predicate TopsHalf(c: seq<int>, b: seq<int>) {
    var n, m := |c|, (|c| - 1) / 2;
    && n >= 3 && |b| == n / 2 && c[m] == 2 && c[m + 1] == 1 && b[0] == 0
    && (forall i :: 0 <= i < m ==> c[i] < 2)
    && (forall i :: m + 1 < i < n ==> c[i] == b[i - m - 1] + 2)
    && (forall i :: 0 < i < |b| ==> b[i] > 0)
  }

  lemma ToppedShape(b: seq<int>, top: int)
    requires |b| >= 2 && forall i :: 0 <= i < |b| ==> b[i] < top
    ensures TopsTwo(Topped(b, top), b)
  {
  }

  lemma HalvedShape(b: seq<int>, n: nat, limit: int)
    requires n >= 3 && |b| == n / 2 && Headed(b, limit)
    ensures TopsHalf(Halved(b, n), b)
  {
  }

  // The values c, raised by v, stand in s from base on.
  ghost predicate StandsAt(s: seq<int>, base: int, c: seq<int>, v: int) {
    0 <= base && base + |c| <= |s| && forall k :: base <= k < base + |c| ==> s[k] == c[k - base] + v
  }

  // --- the passes over it

  lemma PassAbove(s: seq<int>, base: int, r: int, c: seq<int>, b: seq<int>, v: int)
    requires TopsTwo(c, b) && r == base + |c| - 1 && StandsAt(s, base, c, v)
    ensures var q := WholePass(Minus, s, base, r);
      q.i == r - 1 && q.j == r - 2 && |q.s| == |s| && StandsAt(q.s, base, b, v)
  {
    SplitsAt(s, base, r, base + (|c| - 1) / 2, r - 1);
  }

  lemma PassBelow(s: seq<int>, base: int, r: int, e: int, c: seq<int>, b: seq<int>, v: int)
    requires TopsHalf(c, b) && r == base + |c| - 1 && StandsAt(s, base, c, v) && e == base + (|c| + 1) / 2
    ensures var q := WholePass(Minus, s, base, r);
      q.i == e && q.j == e - 1 && |q.s| == |s| && StandsAt(q.s, e, b, v + 2)
  {
    SplitsAt(s, base, r, e - 1, e);
  }

  // Above the limit the last two elements are stacked, and the rest comes next.
  lemma StepAbove(size: int, m: Sorting<int>, c: seq<int>, b: seq<int>, v: int)
    requires InMemory(|m.s|, size) && |c| - 3 >= Wraps(size) >= 2
    requires TopsTwo(c, b) && m.r == m.base + |c| - 1 && StandsAt(m.s, m.base, c, v)
    ensures var t := Divide(Minus, size, m);
      && t.stack == m.stack + [Partition(m.r - 1, m.r)] && |t.s| == |m.s|
      && t.base == m.base && t.r == m.r - 2 && StandsAt(t.s, m.base, b, v)
  {
    PassAbove(m.s, m.base, m.r, c, b, v);
    ChoiceIs(|m.s|, size, m.base, m.r, m.r - 1, m.r - 2);
  }

  // Below it the left half is stacked, and the right half comes next.
  lemma StepBelow(size: int, m: Sorting<int>, e: int, c: seq<int>, b: seq<int>, v: int)
    requires InMemory(|m.s|, size) && |c| - 3 < Wraps(size) && Wraps(size) >= 2
    requires TopsHalf(c, b) && m.r == m.base + |c| - 1 && StandsAt(m.s, m.base, c, v) && e == m.base + (|c| + 1) / 2
    ensures var t := Divide(Minus, size, m);
      && t.stack == m.stack + [Partition(m.base, e - 1)] && |t.s| == |m.s|
      && t.base == e && t.r == m.r && StandsAt(t.s, e, b, v + 2)
  {
    PassBelow(m.s, m.base, m.r, e, c, b, v);
    StacksLeft(|m.s|, size, m.base, m.r, e);
    ChosenLeft(size, m, e);
  }

  lemma ChosenLeft(size: int, m: Sorting<int>, e: int)
    requires 0 <= m.base <= m.r < |m.s| && m.base < e - 1 && !TakesRight(size, m.base, m.r, e, e - 1)
    requires var q := WholePass(Minus, m.s, m.base, m.r); q.i == e && q.j == e - 1
    ensures Divide(Minus, size, m)
         == Sorting(WholePass(Minus, m.s, m.base, m.r).s, m.stack + [Partition(m.base, e - 1)], e, m.r)
  {
  }

  lemma StacksLeft(nel: int, size: int, base: int, r: int, e: int)
    requires InMemory(nel, size) && r - base + 1 <= nel && r - base - 2 < Wraps(size) && Wraps(size) >= 2
    requires base + 2 <= r && e == base + (r - base + 2) / 2
    ensures !TakesRight(size, base, r, e, e - 1)
  {
    ChoiceIs(nel, size, base, r, e, e - 1);
  }

  // Either way the pass stacks a partition and leaves the worst input of what comes next.
  lemma WorstStep(size: int, m: Sorting<int>, n: nat, k: nat, v: int) returns (t: Sorting<int>, n': nat, v': int)
    requires InMemory(|m.s|, size) && Wraps(size) >= 2 && n >= 3 && k > 0
    requires m.r == m.base + n - 1 && StandsAt(m.s, m.base, Worst(Wraps(size), n, k), v)
    ensures PassTo(Minus, size, m, t) && |t.stack| == |m.stack| + 1 && |t.s| == |m.s|
    ensures n' < n && Depth(Wraps(size), n) == 1 + Depth(Wraps(size), n')
    ensures t.r == t.base + n' - 1 && StandsAt(t.s, t.base, Worst(Wraps(size), n', k - 1), v')
  {
    var w := Wraps(size);
    n' := if n - 3 >= w then n - 2 else n / 2;
    var c, b := Worst(w, n, k), Worst(w, n', k - 1);
    if n - 3 >= w {
      ToppedShape(b, 2 * k);
    } else {
      HalvedShape(b, n, 2 * k - 1);
    }
    t, v' := DivideWorst(size, m, c, b, v);
  }

  lemma DivideWorst(size: int, m: Sorting<int>, c: seq<int>, b: seq<int>, v: int) returns (t: Sorting<int>, v': int)
    requires InMemory(|m.s|, size) && Wraps(size) >= 2 && |c| >= 3
    requires m.r == m.base + |c| - 1 && StandsAt(m.s, m.base, c, v)
    requires if |c| - 3 >= Wraps(size) then TopsTwo(c, b) else TopsHalf(c, b)
    ensures PassTo(Minus, size, m, t) && |t.stack| == |m.stack| + 1 && |t.s| == |m.s|
    ensures t.r == t.base + |b| - 1 && StandsAt(t.s, t.base, b, v')
  {
    t := Divide(Minus, size, m);
    if |c| - 3 >= Wraps(size) {
      StepAbove(size, m, c, b, v);
      v' := v;
    } else {
      StepBelow(size, m, m.base + (|c| + 1) / 2, c, b, v);
      v' := v + 2;
    }
    PassIs(Minus, size, m, t);
  }

  // Passes alone, one after the other.
  ghost predicate Passes(size: int, tr: seq<Sorting<int>>) { forall i :: 0 < i < |tr| ==> PassAt(size, tr, i) }

  ghost predicate PassAt(size: int, tr: seq<Sorting<int>>, i: int)
    requires 0 < i < |tr|
  {
    tr[i - 1].base < tr[i - 1].r && PassTo(Minus, size, tr[i - 1], tr[i])
  }

  // The passes over the worst input fill k entries, up to the depth of its length.
  lemma {:induction false} WorstPasses(size: int, m: Sorting<int>, n: nat, k: nat, v: int)
      returns (tr: seq<Sorting<int>>)
    requires InMemory(|m.s|, size) && Wraps(size) >= 2 && k <= Depth(Wraps(size), n)
    requires m.r == m.base + n - 1 && StandsAt(m.s, m.base, Worst(Wraps(size), n, k), v)
    ensures tr != [] && tr[0] == m && Passes(size, tr) && |Last(tr).stack| == |m.stack| + k
    decreases k
  {
    tr := [m];
    if k > 0 {
      var t, n', v' := WorstStep(size, m, n, k, v);
      var rest := WorstPasses(size, t, n', k - 1, v');
      tr := [m] + rest;
      PassesBefore(size, m, rest);
    }
  }

  lemma PassesBefore(size: int, m: Sorting<int>, rest: seq<Sorting<int>>)
    requires rest != [] && Passes(size, rest) && m.base < m.r && PassTo(Minus, size, m, rest[0])
    ensures Passes(size, [m] + rest) && Last([m] + rest) == Last(rest)
  {
    var tr := [m] + rest;
    forall i | 0 < i < |tr| ensures PassAt(size, tr, i) {
      if i > 1 {
        assert PassAt(size, rest, i - 1);
        assert tr[i - 1] == rest[i - 2] && tr[i] == rest[i - 1];
      }
    }
  }

  lemma PassesRun(size: int, s: seq<int>, tr: seq<Sorting<int>>)
    requires tr != [] && tr[0] == Start(s) && Passes(size, tr)
    ensures Run(Minus, size, s, tr)
  {
    forall i | 0 < i < |tr| ensures StepAt(Minus, size, tr, i) {
      assert PassAt(size, tr, i);
    }
  }

  // In every area some run comes to any depth up to that of the area, with elements of few values: the bound of
  // DepthSuffices is exact.
  lemma DepthReached(nel: nat, size: int, k: nat) returns (s: seq<int>, tr: seq<Sorting<int>>)
    requires InMemory(nel, size) && k <= Depth(Wraps(size), nel)
    ensures |s| == nel && Run(Minus, size, s, tr) && |Last(tr).stack| == k
    ensures forall i :: 0 <= i < nel ==> 0 <= s[i] < 2 * k + 2
  {
    WrapsBounds(nel, size);
    s := Worst(Wraps(size), nel, k);
    tr := WorstPasses(size, Start(s), nel, k, 0);
    PassesRun(size, s, tr);
  }

  // --- what that means

  // Values that an element of one byte can have.
  ghost predicate Bytes(s: seq<int>) { forall i :: 0 <= i < |s| ==> 0 <= s[i] < 0x100 }

  // Sixteen entries suffice for every run on the input.
  ghost predicate SixteenFor(size: int, s: seq<int>) {
    forall tr :: Run(Minus, size, s, tr) ==> |Last(tr).stack| <= STACK_ENTRIES
  }

  // Sixteen entries suffice for every input of an area, and for every input of values of one byte, if and only if
  // its depth is at most sixteen.
  lemma SixteenExact(nel: nat, size: int)
    requires InMemory(nel, size)
    ensures Depth(Wraps(size), nel) <= STACK_ENTRIES <==> forall s: seq<int> :: |s| == nel ==> SixteenFor(size, s)
    ensures Depth(Wraps(size), nel) <= STACK_ENTRIES <==>
      forall s: seq<int> :: |s| == nel && Bytes(s) ==> SixteenFor(size, s)
  {
    MinusIsPreorder();
    if Depth(Wraps(size), nel) <= STACK_ENTRIES {
      forall s: seq<int> | |s| == nel
        ensures SixteenFor(size, s)
      {
        forall tr | Run(Minus, size, s, tr)
          ensures |Last(tr).stack| <= STACK_ENTRIES
        {
          DepthSuffices(Minus, size, s, tr);
        }
      }
    } else {
      var s, tr := DepthReached(nel, size, STACK_ENTRIES + 1);
      assert Bytes(s) && !SixteenFor(size, s);
    }
  }

  // The pass over the whole of s stacks the larger part.
  ghost predicate StacksLarger(size: int, s: seq<int>) {
    |s| >= 1 && var q := WholePass(Minus, s, 0, |s| - 1); !StacksSmaller(size, 0, |s| - 1, q.i, q.j)
  }

  // The test finds the larger part on every input if and only if (nel - 3) * size is a positive int.
  lemma ChoiceExact(nel: nat, size: int)
    requires InMemory(nel, size)
    ensures SafeArea(nel, size) <==> forall s: seq<int> :: |s| == nel ==> StacksLarger(size, s)
    ensures SafeArea(nel, size) <==> forall s: seq<int> :: |s| == nel && Bytes(s) ==> StacksLarger(size, s)
  {
    MinusIsPreorder();
    WrapsBounds(nel, size);
    SafeIs(nel, size);
    if SafeArea(nel, size) {
      forall s: seq<int> | |s| == nel
        ensures StacksLarger(size, s)
      {
        SafeStacks(size, s);
      }
    } else {
      var s := ChoiceWrong(nel, size);
    }
  }

  lemma SafeStacks(size: int, s: seq<int>)
    requires TotalPreorder(Minus) && InMemory(|s|, size) && SafeArea(|s|, size)
    ensures StacksLarger(size, s)
  {
    var q := WholePass(Minus, s, 0, |s| - 1);
    PassSplit(Minus, s, 0, |s| - 1);
    ChoiceRight(|s|, size, 0, |s| - 1, q.i, q.j);
  }

  // In an area that is not safe it stacks two elements of an input with four values and goes on with the rest.
  lemma ChoiceWrong(nel: nat, size: int) returns (s: seq<int>)
    requires InMemory(nel, size) && !SafeArea(nel, size)
    ensures |s| == nel && Bytes(s) && !StacksLarger(size, s)
  {
    WrapsBounds(nel, size);
    SafeIs(nel, size);
    var b := Worst(Wraps(size), nel - 2, 0);
    s := Topped(b, 2);
    ToppedShape(b, 2);
    TwoStacked(size, s, b);
  }

  lemma TwoStacked(size: int, s: seq<int>, b: seq<int>)
    requires InMemory(|s|, size) && |s| - 3 >= Wraps(size) >= 2 && TopsTwo(s, b)
    ensures !StacksLarger(size, s)
  {
    PassAbove(s, 0, |s| - 1, s, b, 0);
    ChoiceIs(|s|, size, 0, |s| - 1, |s| - 2, |s| - 3);
  }

  // Whatever the size of an element, an area with (nel - 35) * size above the positive ints has a run that needs a
  // seventeenth entry.
  lemma StackOverruns(nel: nat, size: int) returns (s: seq<int>, tr: seq<Sorting<int>>)
    requires InMemory(nel, size) && (nel - 35) * size >= 0x8000
    ensures |s| == nel && Bytes(s) && Run(Minus, size, s, tr) && |Last(tr).stack| > STACK_ENTRIES
  {
    TooDeep(nel, size);
    s, tr := DepthReached(nel, size, STACK_ENTRIES + 1);
  }

  // Elements of two bytes: sixteen entries suffice for every input of up to 16392 of them, and no further.
  lemma WordsExact(nel: nat, size: int)
    requires InMemory(nel, size) && size == 2
    ensures nel <= 16392 <==> forall s: seq<int> :: |s| == nel ==> SixteenFor(size, s)
  {
    WordsLimit(nel, size);
    SixteenExact(nel, size);
  }
}
