/**
  The Aztec C library's qsort: a partition loop whose pivot pointer follows the pivot element through the
  swaps, and an explicit stack of pending partitions. Index k of the array stands for the element of
  `size` bytes at address area + size * k; a difference of two pointers is a signed 16-bit int.
 */
module Quicksort {
  import opened Arithmetic
  import opened QuicksortDepth

  // A pending partition: the elements l..r, both ends included.
  datatype Partition = Partition(l: int, r: int)

  // Names a chain of three elements, so that transitivity is used only where it is asked for.
  ghost predicate Chain<T>(x: T, y: T, z: T) { true }

  ghost predicate TotalPreorder<T(!new)>(compar: (T, T) -> int) {
    && (forall x, y :: compar(x, y) < 0 <==> compar(y, x) > 0)
    && (forall x, y, z {:trigger Chain(x, y, z)} ::
          Chain(x, y, z) && compar(x, y) <= 0 && compar(y, z) <= 0 ==> compar(x, z) <= 0)
  }

  ghost predicate Sorted<T>(compar: (T, T) -> int, s: seq<T>) {
    forall p, q :: 0 <= p < q < |s| ==> compar(s[p], s[q]) <= 0
  }

  // s and t agree outside lo..hi and permute each other's elements inside.
  ghost predicate Permutes<T>(s: seq<T>, t: seq<T>, lo: int, hi: int)
    requires 0 <= lo <= hi + 1 <= |s|
  {
    && |s| == |t|
    && (forall k :: 0 <= k < |s| && !(lo <= k <= hi) ==> s[k] == t[k])
    && multiset(s[lo..hi + 1]) == multiset(t[lo..hi + 1])
  }

  ghost predicate Inside(k: int, p: Partition) {
    p.l <= k <= p.r
  }

  // Elements p and q lie together in some partition still to be sorted.
  ghost predicate Together(pending: seq<Partition>, p: int, q: int) {
    exists d :: 0 <= d < |pending| && Inside(p, pending[d]) && Inside(q, pending[d])
  }

  // Every pair of elements is in order unless both belong to one pending partition.
  ghost predicate OrderedApart<T>(compar: (T, T) -> int, s: seq<T>, pending: seq<Partition>) {
    forall p, q :: 0 <= p < q < |s| ==> compar(s[p], s[q]) <= 0 || Together(pending, p, q)
  }

  // Pending partitions are disjoint intervals of the array.
  ghost predicate Disjoint(pending: seq<Partition>, n: int) {
    && (forall d :: 0 <= d < |pending| ==> 0 <= pending[d].l <= pending[d].r + 1 <= n)
    && (forall d, e :: 0 <= d < e < |pending| ==>
          pending[d].r < pending[e].l || pending[e].r < pending[d].l)
  }

  function Count(p: Partition): int { p.r - p.l + 1 }

  // Every pending partition can be sorted with the entries above it, w being the first negative difference.
  ghost predicate Room(pending: seq<Partition>, w: int, depth: int) {
    forall d :: 0 <= d < |pending| ==> d + Depth(w, Count(pending[d])) <= depth
  }

  ghost function Weight(p: Partition): nat {
    if Count(p) >= 1 then 2 * Count(p) - 1 else 0
  }

  ghost function TotalWeight(pending: seq<Partition>): nat {
    if pending == [] then 0 else TotalWeight(pending[..|pending| - 1]) + Weight(pending[|pending| - 1])
  }

  lemma HalfOf(x: int, size: int, d: int)
    requires size > 0 && x == size * d && 0 <= x < 0x10000
    ensures x % 0x10000 / size / 2 == d / 2
  {
    QuotientIs(x, size, d, 0);
  }

  lemma InsideMemory(size: int, n: int, d: int)
    requires InMemory(n, size) && 0 <= d < n
    ensures 0 <= size * d < 0x10000
  {
    Scaled(size, 0, d);
    Scaled(size, d + 1, n + 2);
    assert size * (d + 1) == size * d + size;
  }

  // The middle of base..r as the code computes it, from an unsigned difference.
  lemma MiddleExact(size: int, n: int, base: int, r: int)
    requires InMemory(n, size) && 0 <= base <= r < n
    ensures size > 0 && size * (r - base) % 0x10000 / size / 2 == (r - base) / 2
  {
    InsideMemory(size, n, r - base);
    HalfOf(size * (r - base), size, r - base);
  }

  // --- lemmas about permutations and pending partitions

  lemma SwapPermutes<T>(s: seq<T>, lo: int, hi: int, i: int, j: int)
    requires 0 <= lo <= i < j <= hi < |s|
    ensures Permutes(s, s[i := s[j]][j := s[i]], lo, hi)
  {
    var t := s[i := s[j]][j := s[i]];
    var u, v := s[lo..hi + 1], t[lo..hi + 1];
    assert v == u[i - lo := u[j - lo]][j - lo := u[i - lo]];
  }

  lemma PermutesTransitive<T>(s: seq<T>, t: seq<T>, u: seq<T>, lo: int, hi: int)
    requires 0 <= lo <= hi + 1 <= |s|
    requires Permutes(s, t, lo, hi) && Permutes(t, u, lo, hi)
    ensures Permutes(s, u, lo, hi)
  {
  }

  lemma PermutesSource<T>(s: seq<T>, t: seq<T>, lo: int, hi: int, k: int) returns (m: int)
    requires 0 <= lo <= k <= hi < |s|
    requires Permutes(s, t, lo, hi)
    ensures lo <= m <= hi && s[m] == t[k]
  {
    var u := s[lo..hi + 1];
    assert t[k] == t[lo..hi + 1][k - lo];
    assert t[k] in multiset(t[lo..hi + 1]);
    assert t[k] in u;
    var d :| 0 <= d < |u| && u[d] == t[k];
    m := lo + d;
  }

  lemma Slices<T>(s: seq<T>, lo: int, hi: int)
    requires 0 <= lo <= hi <= |s|
    ensures multiset(s) == multiset(s[..lo]) + multiset(s[lo..hi]) + multiset(s[hi..])
  {
    assert s == (s[..lo] + s[lo..hi]) + s[hi..];
  }

  lemma PermutesWhole<T>(s: seq<T>, t: seq<T>, lo: int, hi: int)
    requires 0 <= lo <= hi + 1 <= |s|
    requires Permutes(s, t, lo, hi)
    ensures multiset(s) == multiset(t)
  {
    Slices(s, lo, hi + 1);
    Slices(t, lo, hi + 1);
    assert s[..lo] == t[..lo];
    assert s[hi + 1..] == t[hi + 1..];
  }

  // Permuting a pending partition keeps everything outside it in order.
  lemma OrderedAfterPermutation<T>(compar: (T, T) -> int, s: seq<T>, t: seq<T>, rest: seq<Partition>, cur: Partition)
    requires 0 <= cur.l <= cur.r < |s|
    requires Disjoint(rest + [cur], |s|)
    requires OrderedApart(compar, s, rest + [cur])
    requires Permutes(s, t, cur.l, cur.r)
    ensures OrderedApart(compar, t, rest + [cur])
  {
    var pending := rest + [cur];
    assert pending[|rest|] == cur;
    forall p, q | 0 <= p < q < |t|
      ensures compar(t[p], t[q]) <= 0 || Together(pending, p, q)
    {
      if Inside(p, cur) && Inside(q, cur) {
      } else {
        var p', q' := p, q;
        if Inside(p, cur) { p' := PermutesSource(s, t, cur.l, cur.r, p); }
        if Inside(q, cur) { q' := PermutesSource(s, t, cur.l, cur.r, q); }
        assert compar(s[p'], s[q']) <= 0 || Together(pending, p', q');
        if Together(pending, p', q') {
          TogetherStays(rest, cur, |s|, p, q, p', q');
        }
      }
    }
  }

  // Moving an index inside cur does not change which pairs share another partition.
  lemma TogetherStays(rest: seq<Partition>, cur: Partition, n: int, p: int, q: int, p': int, q': int)
    requires Disjoint(rest + [cur], n)
    requires p == p' || (Inside(p, cur) && Inside(p', cur))
    requires q == q' || (Inside(q, cur) && Inside(q', cur))
    requires Together(rest + [cur], p', q')
    ensures Together(rest + [cur], p, q)
  {
    var pending := rest + [cur];
    var d :| 0 <= d < |pending| && Inside(p', pending[d]) && Inside(q', pending[d]);
    assert pending[|rest|] == cur;
    assert d < |rest| ==> pending[d].r < cur.l || cur.r < pending[d].l;
    assert Inside(p, pending[d]) && Inside(q, pending[d]);
  }

  // What one partition pass leaves behind.
  ghost predicate Split<T>(compar: (T, T) -> int, s: seq<T>, cur: Partition, i: int, j: int)
    requires 0 <= cur.l <= cur.r < |s|
  {
    && cur.l <= i <= cur.r + 1 && cur.l - 1 <= j <= cur.r && j < i
    && cur.l < i && j < cur.r
    && (forall p, q :: cur.l <= p < i && j < q <= cur.r && p < q ==> compar(s[p], s[q]) <= 0)
  }

  // Splitting the current partition in two keeps every pair accounted for.
  lemma OrderedAfterSplit<T>(compar: (T, T) -> int, s: seq<T>, rest: seq<Partition>, cur: Partition,
                             i: int, j: int, a: Partition, b: Partition)
    requires 0 <= cur.l <= cur.r < |s|
    requires Split(compar, s, cur, i, j)
    requires OrderedApart(compar, s, rest + [cur])
    requires (a == Partition(i, cur.r) && b == Partition(cur.l, j))
          || (a == Partition(cur.l, j) && b == Partition(i, cur.r))
    ensures OrderedApart(compar, s, rest + [a, b])
  {
    var old_, new_ := rest + [cur], rest + [a, b];
    assert new_[|rest|] == a && new_[|rest| + 1] == b;
    forall p, q | 0 <= p < q < |s|
      ensures compar(s[p], s[q]) <= 0 || Together(new_, p, q)
    {
      if Together(old_, p, q) {
        var d :| 0 <= d < |old_| && Inside(p, old_[d]) && Inside(q, old_[d]);
        if d < |rest| {
          assert new_[d] == old_[d];
        } else if q <= j || i <= p {
          assert (Inside(p, a) && Inside(q, a)) || (Inside(p, b) && Inside(q, b));
        }
      }
    }
  }

  // A pending partition of at most one element orders nothing and may be dropped.
  lemma OrderedWithoutTrivial<T>(compar: (T, T) -> int, s: seq<T>, rest: seq<Partition>, a: Partition, b: Partition)
    requires Count(a) <= 1
    requires OrderedApart(compar, s, rest + [a, b])
    ensures OrderedApart(compar, s, rest + [b])
  {
    var old_, new_ := rest + [a, b], rest + [b];
    forall p, q | 0 <= p < q < |s|
      ensures compar(s[p], s[q]) <= 0 || Together(new_, p, q)
    {
      if Together(old_, p, q) {
        var d :| 0 <= d < |old_| && Inside(p, old_[d]) && Inside(q, old_[d]);
        assert new_[if d < |rest| then d else |rest|] == old_[d];
      }
    }
  }

  lemma OrderedWhenDone<T>(compar: (T, T) -> int, s: seq<T>, last: Partition)
    requires Count(last) <= 1
    requires OrderedApart(compar, s, [last])
    ensures Sorted(compar, s)
  {
    forall p, q | 0 <= p < q < |s| ensures compar(s[p], s[q]) <= 0 {
      assert compar(s[p], s[q]) <= 0 || Together([last], p, q);
    }
  }

  // --- the passes as functions

  // The first element from i on that is not below the pivot.
  ghost function Up<T>(compar: (T, T) -> int, s: seq<T>, pivot: T, i: int): (k: int)
    requires 0 <= i <= |s|
    ensures i <= k <= |s|
    decreases |s| - i
  {
    if i == |s| || compar(s[i], pivot) >= 0 then i else Up(compar, s, pivot, i + 1)
  }

  // The last element up to j that is not above the pivot.
  ghost function Down<T>(compar: (T, T) -> int, s: seq<T>, pivot: T, j: int): (k: int)
    requires -1 <= j < |s|
    ensures -1 <= k <= j
    decreases j + 1
  {
    if j == -1 || compar(pivot, s[j]) >= 0 then j else Down(compar, s, pivot, j - 1)
  }

  lemma {:induction false} UpIs<T>(compar: (T, T) -> int, s: seq<T>, pivot: T, i: int, k: int)
    requires 0 <= i <= k < |s| && compar(s[k], pivot) >= 0
    requires forall m :: i <= m < k ==> compar(s[m], pivot) < 0
    ensures Up(compar, s, pivot, i) == k
    decreases k - i
  {
    if i < k {
      UpIs(compar, s, pivot, i + 1, k);
    }
  }

  lemma {:induction false} DownIs<T>(compar: (T, T) -> int, s: seq<T>, pivot: T, j: int, k: int)
    requires 0 <= k <= j < |s| && compar(pivot, s[k]) >= 0
    requires forall m :: k < m <= j ==> compar(pivot, s[m]) < 0
    ensures Down(compar, s, pivot, j) == k
    decreases j - k
  {
    if k < j {
      DownIs(compar, s, pivot, j - 1, k);
    }
  }

  // The array with the two scan pointers and the pivot pointer.
  datatype Pass<T> = Pass(s: seq<T>, i: int, j: int, x: int)

  ghost predicate PassOk<T>(p: Pass<T>) {
    0 <= p.x < |p.s| && 0 <= p.i <= |p.s| && -1 <= p.j < |p.s|
  }

  // One round of the inner loop.
  ghost function Round<T>(compar: (T, T) -> int, p: Pass<T>): (q: Pass<T>)
    requires PassOk(p)
    ensures PassOk(q) && |q.s| == |p.s| && (q.i <= q.j ==> q.j - q.i < p.j - p.i)
  {
    var i, j := Up(compar, p.s, p.s[p.x], p.i), Down(compar, p.s, p.s[p.x], p.j);
    if i < j then
      Pass(p.s[i := p.s[j]][j := p.s[i]], i + 1, j - 1, if i == p.x then j else if j == p.x then i else p.x)
    else if i == j then Pass(p.s, i + 1, j - 1, p.x)
    else Pass(p.s, i, j, p.x)
  }

  // Rounds until the pointers have crossed.
  ghost function Rounds<T>(compar: (T, T) -> int, p: Pass<T>): (q: Pass<T>)
    requires PassOk(p)
    ensures PassOk(q) && |q.s| == |p.s|
    decreases p.j - p.i
  {
    var q := Round(compar, p);
    if q.i <= q.j then Rounds(compar, q) else q
  }

  ghost predicate Below<T>(compar: (T, T) -> int, s: seq<T>, lo: int, hi: int, pivot: T) {
    forall k :: 0 <= lo <= k < hi <= |s| ==> compar(s[k], pivot) <= 0
  }

  ghost predicate Above<T>(compar: (T, T) -> int, s: seq<T>, lo: int, hi: int, pivot: T) {
    forall k :: 0 <= lo <= k < hi <= |s| ==> compar(pivot, s[k]) <= 0
  }

  lemma BelowAbove<T(!new)>(compar: (T, T) -> int, s: seq<T>, base: int, r: int, i: int, j: int, pivot: T)
    requires TotalPreorder(compar)
    requires 0 <= base < i <= r + 1 <= |s| && base - 1 <= j < r && j < i
    requires Below(compar, s, base, i, pivot) && Above(compar, s, j + 1, r + 1, pivot)
    ensures Split(compar, s, Partition(base, r), i, j)
  {
    forall p, q | base <= p < i && j < q <= r && p < q ensures compar(s[p], s[q]) <= 0 {
      assert Chain(s[p], pivot, s[q]);
    }
  }

  // What holds between two rounds of the partition loop.
  ghost predicate PassInvariant<T>(compar: (T, T) -> int, base: int, r: int, p: Pass<T>, pivot: T) {
    && 0 <= base <= p.x <= r < |p.s| && p.s[p.x] == pivot
    && base <= p.i <= r + 1 && base - 1 <= p.j <= r
    && ((p.i == base && p.j == r) || (base < p.i && p.j < r))
    && Below(compar, p.s, base, p.i, pivot) && Above(compar, p.s, p.j + 1, r + 1, pivot)
  }

  // Moving the two scan positions over elements that are already on their side.
  lemma AfterScans<T(!new)>(compar: (T, T) -> int, s: seq<T>, base: int, r: int, i0: int, j0: int, i: int, j: int,
                            pivot: T)
    requires TotalPreorder(compar)
    requires 0 <= base <= i0 <= i <= r < |s| && base <= j <= j0 <= r
    requires Below(compar, s, base, i0, pivot) && Above(compar, s, j0 + 1, r + 1, pivot)
    requires forall k :: i0 <= k < i ==> compar(s[k], pivot) < 0
    requires forall k :: j < k <= j0 ==> compar(pivot, s[k]) < 0
    requires compar(s[i], pivot) >= 0 && compar(pivot, s[j]) >= 0
    ensures i < j ==> Below(compar, s[i := s[j]][j := s[i]], base, i + 1, pivot)
    ensures i < j ==> Above(compar, s[i := s[j]][j := s[i]], j, r + 1, pivot)
    ensures i == j ==> Below(compar, s, base, i + 1, pivot) && Above(compar, s, j, r + 1, pivot)
    ensures i > j ==> Below(compar, s, base, i, pivot) && Above(compar, s, j + 1, r + 1, pivot)
  {
  }

  // An element ahead that is not below the pivot stops the upward scan at or before it.
  lemma {:induction false} UpFinds<T>(compar: (T, T) -> int, s: seq<T>, pivot: T, i: int, stop: int)
    requires 0 <= i <= stop < |s| && compar(s[stop], pivot) >= 0
    ensures var k := Up(compar, s, pivot, i);
      && i <= k <= stop && compar(s[k], pivot) >= 0 && forall m :: i <= m < k ==> compar(s[m], pivot) < 0
    decreases stop - i
  {
    if compar(s[i], pivot) < 0 {
      UpFinds(compar, s, pivot, i + 1, stop);
    }
  }

  lemma {:induction false} DownFinds<T>(compar: (T, T) -> int, s: seq<T>, pivot: T, j: int, stop: int)
    requires 0 <= stop <= j < |s| && compar(pivot, s[stop]) >= 0
    ensures var k := Down(compar, s, pivot, j);
      && stop <= k <= j && compar(pivot, s[k]) >= 0 && forall m :: k < m <= j ==> compar(pivot, s[m]) < 0
    decreases j - stop
  {
    if compar(pivot, s[j]) < 0 {
      DownFinds(compar, s, pivot, j - 1, stop);
    }
  }

  // Both scans stop inside the partition: at the pivot in the first round, after that at the last swap.
  lemma ScansStop<T(!new)>(compar: (T, T) -> int, base: int, r: int, p: Pass<T>, pivot: T)
    requires TotalPreorder(compar) && PassInvariant(compar, base, r, p, pivot) && p.i <= p.j
    ensures var i, j := Up(compar, p.s, pivot, p.i), Down(compar, p.s, pivot, p.j);
      && p.i <= i <= r && base <= j <= p.j
      && compar(p.s[i], pivot) >= 0 && (forall k :: p.i <= k < i ==> compar(p.s[k], pivot) < 0)
      && compar(pivot, p.s[j]) >= 0 && forall k :: j < k <= p.j ==> compar(pivot, p.s[k]) < 0
  {
    var start := p.i == base && p.j == r;
    UpFinds(compar, p.s, pivot, p.i, if start then p.x else p.j + 1);
    DownFinds(compar, p.s, pivot, p.j, if start then p.x else p.i - 1);
  }

  // A round keeps the pivot, the order around it and the elements, and brings the pointers closer.
  lemma RoundKeeps<T(!new)>(compar: (T, T) -> int, base: int, r: int, p: Pass<T>, pivot: T)
    requires TotalPreorder(compar) && PassInvariant(compar, base, r, p, pivot) && p.i <= p.j
    ensures var q := Round(compar, p);
      && PassInvariant(compar, base, r, q, pivot) && base < q.i && q.j < r && q.j - q.i < p.j - p.i
      && Permutes(p.s, q.s, base, r)
  {
    ScansStop(compar, base, r, p, pivot);
    var i, j := Up(compar, p.s, pivot, p.i), Down(compar, p.s, pivot, p.j);
    AfterScans(compar, p.s, base, r, p.i, p.j, i, j, pivot);
    if i < j {
      SwapPermutes(p.s, base, r, i, j);
    }
  }

  // All rounds together split the partition in order around the pivot.
  lemma {:induction false} RoundsSplit<T(!new)>(compar: (T, T) -> int, base: int, r: int, p: Pass<T>, pivot: T)
    requires TotalPreorder(compar) && PassInvariant(compar, base, r, p, pivot) && p.i <= p.j
    ensures var q := Rounds(compar, p);
      Split(compar, q.s, Partition(base, r), q.i, q.j) && Permutes(p.s, q.s, base, r)
    decreases p.j - p.i
  {
    var q := Round(compar, p);
    RoundKeeps(compar, base, r, p, pivot);
    if q.i <= q.j {
      RoundsSplit(compar, base, r, q, pivot);
      PermutesTransitive(p.s, q.s, Rounds(compar, q).s, base, r);
    } else {
      BelowAbove(compar, q.s, base, r, q.i, q.j, pivot);
    }
  }

  // --- the steps of the algorithm

  // The array, the stacked partitions and the current one.
  datatype Sorting<T> = Sorting(s: seq<T>, stack: seq<Partition>, base: int, r: int)

  // A whole pass over base..r, from the middle element as pivot.
  ghost function WholePass<T>(compar: (T, T) -> int, s: seq<T>, base: int, r: int): (q: Pass<T>)
    requires 0 <= base <= r < |s|
    ensures |q.s| == |s|
  {
    Rounds(compar, Pass(s, base, r, base + (r - base) / 2))
  }

  // One pass over the current partition and what is stacked after it; the stack has no bound here.
  ghost function Divide<T>(compar: (T, T) -> int, size: int, m: Sorting<T>): Sorting<T>
    requires 0 <= m.base <= m.r < |m.s|
  {
    var q := WholePass(compar, m.s, m.base, m.r);
    Choose(size, m.(s := q.s), q.i, q.j)
  }

  // The part that is stacked, and the part that comes next.
  ghost function Choose<T>(size: int, m: Sorting<T>, i: int, j: int): Sorting<T> {
    if TakesRight(size, m.base, m.r, i, j) then
      m.(stack := if i < m.r then m.stack + [Partition(i, m.r)] else m.stack, r := j)
    else
      m.(stack := if m.base < j then m.stack + [Partition(m.base, j)] else m.stack, base := i)
  }

  // t follows m by a pass. Sealed, so that only what is said about passes opens them.
  ghost predicate PassTo<T>(compar: (T, T) -> int, size: int, m: Sorting<T>, t: Sorting<T>) {
    forall x {:trigger Unfold(x)} :: Unfold(x) ==> 0 <= m.base <= m.r < |m.s| && t == Divide(compar, size, m)
  }

  lemma PassIs<T>(compar: (T, T) -> int, size: int, m: Sorting<T>, t: Sorting<T>)
    ensures PassTo(compar, size, m, t) <==> 0 <= m.base <= m.r < |m.s| && t == Divide(compar, size, m)
  {
    assert Unfold(0);
  }

  // t follows m by taking the last partition from the stack.
  ghost predicate PopTo<T>(m: Sorting<T>, t: Sorting<T>) {
    m.stack != [] && var k := |m.stack| - 1; t == Sorting(m.s, m.stack[..k], m.stack[k].l, m.stack[k].r)
  }

  function Start<T>(s: seq<T>): Sorting<T> { Sorting(s, [], 0, |s| - 1) }

  // A step of the loops: the first pass is made in any case, later ones while the current partition has two
  // elements; otherwise the next partition is taken from the stack.
  ghost predicate StepOf<T>(compar: (T, T) -> int, size: int, first: bool, m: Sorting<T>, t: Sorting<T>) {
    if first || m.base < m.r then PassTo(compar, size, m, t) else PopTo(m, t)
  }

  // The states of a run on the input s, as far as it has come.
  ghost predicate Run<T>(compar: (T, T) -> int, size: int, s: seq<T>, tr: seq<Sorting<T>>) {
    && tr != [] && tr[0] == Start(s)
    && forall i :: 0 < i < |tr| ==> StepAt(compar, size, tr, i)
  }

  ghost predicate StepAt<T>(compar: (T, T) -> int, size: int, tr: seq<Sorting<T>>, i: int)
    requires 0 < i < |tr|
  {
    StepOf(compar, size, i == 1, tr[i - 1], tr[i])
  }

  function Last<T>(tr: seq<T>): T
    requires tr != []
  {
    tr[|tr| - 1]
  }

  lemma RunMore<T>(compar: (T, T) -> int, size: int, s: seq<T>, tr: seq<Sorting<T>>, t: Sorting<T>)
    requires Run(compar, size, s, tr) && StepOf(compar, size, |tr| == 1, Last(tr), t)
    ensures Run(compar, size, s, tr + [t])
  {
    var more := tr + [t];
    forall i | 0 < i < |more| ensures StepAt(compar, size, more, i) {
      assert i < |tr| ==> StepAt(compar, size, tr, i);
    }
  }

  // --- what every step keeps

  // The current partition and the stacked ones: disjoint, with room on the stack, and all else in order.
  ghost predicate Accounted<T>(compar: (T, T) -> int, w: int, depth: int, m: Sorting<T>) {
    var pending := m.stack + [Partition(m.base, m.r)];
    && Disjoint(pending, |m.s|) && Room(pending, w, depth) && OrderedApart(compar, m.s, pending)
    && (forall d :: 0 <= d < |m.stack| ==> Count(m.stack[d]) >= 2)
  }

  ghost predicate Pending<T>(compar: (T, T) -> int, w: int, depth: int, m: Sorting<T>) {
    forall x {:trigger Unfold(x)} :: Unfold(x) ==> Accounted(compar, w, depth, m)
  }

  lemma PendingMeans<T>(compar: (T, T) -> int, w: int, depth: int, m: Sorting<T>)
    ensures Pending(compar, w, depth, m) <==> Accounted(compar, w, depth, m)
  {
    assert Unfold(0);
  }

  ghost function Work<T>(m: Sorting<T>): nat { TotalWeight(m.stack) + Weight(Partition(m.base, m.r)) }

  lemma PendingShape<T>(compar: (T, T) -> int, w: int, depth: int, m: Sorting<T>)
    requires Pending(compar, w, depth, m)
    ensures 0 <= m.base <= m.r + 1 <= |m.s| && |m.stack| <= depth
  {
    PendingMeans(compar, w, depth, m);
    assert (m.stack + [Partition(m.base, m.r)])[|m.stack|] == Partition(m.base, m.r);
  }

  lemma StartPending<T>(compar: (T, T) -> int, w: int, depth: int, s: seq<T>)
    requires |s| >= 1 && Depth(w, |s|) <= depth
    ensures Pending(compar, w, depth, Start(s))
  {
    PendingMeans(compar, w, depth, Start(s));
    var pending := [] + [Partition(0, |s| - 1)];
    forall p, q | 0 <= p < q < |s| ensures Together(pending, p, q) {
      assert Inside(p, pending[0]) && Inside(q, pending[0]);
    }
  }

  lemma DisjointHalves(rest: seq<Partition>, cur: Partition, n: int, a: Partition, b: Partition)
    requires Disjoint(rest + [cur], n)
    requires 0 <= cur.l <= a.l <= a.r + 1 <= cur.r + 1 <= n && cur.l <= b.l <= b.r + 1 <= cur.r + 1
    requires a.r < b.l || b.r < a.l
    ensures Disjoint(rest + [a, b], n) && Disjoint(rest + [b], n)
  {
    var old_ := rest + [cur];
    assert old_[|rest|] == cur;
    assert forall d :: 0 <= d < |rest| ==> old_[d] == rest[d];
  }

  lemma RoomHalves(rest: seq<Partition>, cur: Partition, w: int, depth: int, a: Partition, b: Partition)
    requires Room(rest + [cur], w, depth)
    requires Depth(w, Count(a)) <= Depth(w, Count(cur)) && Depth(w, Count(b)) <= Depth(w, Count(cur))
    ensures Room(rest + [b], w, depth)
    ensures Depth(w, Count(b)) + 1 <= Depth(w, Count(cur)) ==> Room(rest + [a, b], w, depth)
  {
    var old_ := rest + [cur];
    assert old_[|rest|] == cur;
    assert forall d :: 0 <= d < |rest| ==> old_[d] == rest[d];
  }

  // Replacing the current partition by its two parts, a stacked if it has two elements.
  lemma PendingAfterSplit<T>(compar: (T, T) -> int, w: int, depth: int, m: Sorting<T>, i: int, j: int,
                             a: Partition, b: Partition)
    requires 0 <= m.base <= m.r < |m.s|
    requires Accounted(compar, w, depth, m) && Split(compar, m.s, Partition(m.base, m.r), i, j)
    requires (a == Partition(i, m.r) && b == Partition(m.base, j))
          || (a == Partition(m.base, j) && b == Partition(i, m.r))
    requires var n := m.r - m.base + 1;
      && Depth(w, Count(a)) <= Depth(w, n) && Depth(w, Count(b)) <= Depth(w, n)
      && (Count(a) >= 2 ==> Depth(w, Count(b)) + 1 <= Depth(w, n))
    ensures Count(a) >= 2 ==> Accounted(compar, w, depth, Sorting(m.s, m.stack + [a], b.l, b.r))
    ensures Count(a) <= 1 ==> Accounted(compar, w, depth, Sorting(m.s, m.stack, b.l, b.r))
    ensures Weight(a) + Weight(b) < Weight(Partition(m.base, m.r))
  {
    var rest, cur := m.stack, Partition(m.base, m.r);
    OrderedAfterSplit(compar, m.s, rest, cur, i, j, a, b);
    DisjointHalves(rest, cur, |m.s|, a, b);
    RoomHalves(rest, cur, w, depth, a, b);
    if Count(a) >= 2 {
      assert rest + [a] + [b] == rest + [a, b];
    } else {
      OrderedWithoutTrivial(compar, m.s, rest, a, b);
    }
  }

  lemma TotalWeightPush(rest: seq<Partition>, p: Partition)
    ensures TotalWeight(rest + [p]) == TotalWeight(rest) + Weight(p)
  {
    assert (rest + [p])[..|rest|] == rest;
  }

  // Whichever part is stacked, the work goes down and the stack keeps within the depth.
  lemma ChoosePending<T>(compar: (T, T) -> int, size: int, depth: int, m: Sorting<T>, i: int, j: int)
    requires InMemory(|m.s|, size) && 0 <= m.base <= m.r < |m.s|
    requires Pending(compar, Wraps(size), depth, m) && Split(compar, m.s, Partition(m.base, m.r), i, j)
    ensures var c := Choose(size, m, i, j); Pending(compar, Wraps(size), depth, c) && Work(c) < Work(m)
  {
    var left, right := Partition(m.base, j), Partition(i, m.r);
    PendingMeans(compar, Wraps(size), depth, m);
    PendingMeans(compar, Wraps(size), depth, Choose(size, m, i, j));
    ChoiceDepth(|m.s|, size, m.base, m.r, i, j);
    if TakesRight(size, m.base, m.r, i, j) {
      PendingAfterSplit(compar, Wraps(size), depth, m, i, j, right, left);
      TotalWeightPush(m.stack, right);
    } else {
      PendingAfterSplit(compar, Wraps(size), depth, m, i, j, left, right);
      TotalWeightPush(m.stack, left);
    }
  }

  lemma PendingAfterPermutation<T>(compar: (T, T) -> int, w: int, depth: int, m: Sorting<T>, t: seq<T>)
    requires 0 <= m.base <= m.r < |m.s|
    requires Pending(compar, w, depth, m) && Permutes(m.s, t, m.base, m.r)
    ensures Pending(compar, w, depth, m.(s := t))
  {
    PendingMeans(compar, w, depth, m);
    PendingMeans(compar, w, depth, m.(s := t));
    OrderedAfterPermutation(compar, m.s, t, m.stack, Partition(m.base, m.r));
  }

  lemma PassSplit<T(!new)>(compar: (T, T) -> int, s: seq<T>, base: int, r: int)
    requires TotalPreorder(compar) && 0 <= base <= r < |s|
    ensures var q := WholePass(compar, s, base, r);
      Split(compar, q.s, Partition(base, r), q.i, q.j) && Permutes(s, q.s, base, r)
  {
    var p := Pass(s, base, r, base + (r - base) / 2);
    assert PassInvariant(compar, base, r, p, p.s[p.x]);
    assert WholePass(compar, s, base, r) == Rounds(compar, p);
    RoundsSplit(compar, base, r, p, p.s[p.x]);
  }

  lemma PassEnds<T(!new)>(compar: (T, T) -> int, s: seq<T>, base: int, r: int, x: int, q: Pass<T>)
    requires TotalPreorder(compar) && 0 <= base <= r < |s| && x == base + (r - base) / 2
    requires q == Rounds(compar, Pass(s, base, r, x))
    ensures q == WholePass(compar, s, base, r)
    ensures Split(compar, q.s, Partition(base, r), q.i, q.j) && Permutes(s, q.s, base, r)
  {
    WholeIs(compar, s, base, r, x);
    PassSplit(compar, s, base, r);
  }

  lemma WholeIs<T>(compar: (T, T) -> int, s: seq<T>, base: int, r: int, x: int)
    requires 0 <= base <= r < |s| && x == base + (r - base) / 2
    ensures WholePass(compar, s, base, r) == Rounds(compar, Pass(s, base, r, x))
  {
  }

  // A pass keeps the account, the elements and the depth, and lowers the work.
  lemma PassPending<T(!new)>(compar: (T, T) -> int, size: int, depth: int, m: Sorting<T>, t: Sorting<T>)
    requires TotalPreorder(compar) && InMemory(|m.s|, size) && PassTo(compar, size, m, t)
    requires Pending(compar, Wraps(size), depth, m)
    ensures Pending(compar, Wraps(size), depth, t) && Work(t) < Work(m)
    ensures multiset(t.s) == multiset(m.s) && |t.s| == |m.s|
  {
    PassIs(compar, size, m, t);
    var q := WholePass(compar, m.s, m.base, m.r);
    PassSplit(compar, m.s, m.base, m.r);
    PendingAfterPermutation(compar, Wraps(size), depth, m, q.s);
    PermutesWhole(m.s, q.s, m.base, m.r);
    ChoosePending(compar, size, depth, m.(s := q.s), q.i, q.j);
  }

  // So does taking the next partition from the stack, once the current one is done.
  lemma PopPending<T>(compar: (T, T) -> int, w: int, depth: int, m: Sorting<T>, t: Sorting<T>)
    requires Pending(compar, w, depth, m) && m.base >= m.r && PopTo(m, t)
    ensures Pending(compar, w, depth, t) && Work(t) <= Work(m) && t.s == m.s && 0 <= t.base < t.r < |t.s|
  {
    PendingMeans(compar, w, depth, m);
    PendingMeans(compar, w, depth, t);
    PopAccounted(compar, w, depth, m, t);
  }

  lemma PopAccounted<T>(compar: (T, T) -> int, w: int, depth: int, m: Sorting<T>, t: Sorting<T>)
    requires Accounted(compar, w, depth, m) && m.base >= m.r && PopTo(m, t)
    ensures Accounted(compar, w, depth, t) && Work(t) <= Work(m) && t.s == m.s && 0 <= t.base < t.r < |t.s|
  {
    var rest, cur := m.stack, Partition(m.base, m.r);
    RestHolds(rest, cur, |m.s|, w, depth);
    OrderedWithoutLast(compar, m.s, rest, cur);
    var k := |rest| - 1;
    LastApart(rest, t.stack, Partition(t.base, t.r), k);
    assert Count(rest[k]) >= 2 && forall d :: 0 <= d < |t.stack| ==> t.stack[d] == rest[d];
  }

  lemma RestHolds(rest: seq<Partition>, cur: Partition, n: int, w: int, depth: int)
    requires Disjoint(rest + [cur], n) && Room(rest + [cur], w, depth)
    ensures Disjoint(rest, n) && Room(rest, w, depth)
  {
    assert forall d :: 0 <= d < |rest| ==> (rest + [cur])[d] == rest[d];
  }

  lemma LastApart(rest: seq<Partition>, init: seq<Partition>, last: Partition, k: int)
    requires k == |rest| - 1 >= 0 && init == rest[..k] && last == rest[k]
    ensures init + [last] == rest && TotalWeight(rest) == TotalWeight(init) + Weight(last)
  {
  }

  lemma OrderedWithoutLast<T>(compar: (T, T) -> int, s: seq<T>, rest: seq<Partition>, cur: Partition)
    requires OrderedApart(compar, s, rest + [cur]) && Count(cur) <= 1
    ensures OrderedApart(compar, s, rest)
  {
    var old_ := rest + [cur];
    forall p, q | 0 <= p < q < |s|
      ensures compar(s[p], s[q]) <= 0 || Together(rest, p, q)
    {
      if Together(old_, p, q) {
        var d :| 0 <= d < |old_| && Inside(p, old_[d]) && Inside(q, old_[d]);
        assert rest[d] == old_[d];
      }
    }
  }

  // Every state of every run.
  lemma {:induction false} RunPending<T(!new)>(compar: (T, T) -> int, size: int, s: seq<T>, tr: seq<Sorting<T>>,
                                               i: int)
    requires TotalPreorder(compar) && InMemory(|s|, size) && Run(compar, size, s, tr) && 0 <= i < |tr|
    ensures Pending(compar, Wraps(size), Depth(Wraps(size), |s|), tr[i])
    ensures multiset(tr[i].s) == multiset(s) && |tr[i].s| == |s|
    decreases i
  {
    var depth := Depth(Wraps(size), |s|);
    if i == 0 {
      StartPending(compar, Wraps(size), depth, s);
    } else {
      RunPending(compar, size, s, tr, i - 1);
      assert StepAt(compar, size, tr, i);
      if i == 1 || tr[i - 1].base < tr[i - 1].r {
        PassPending(compar, size, depth, tr[i - 1], tr[i]);
      } else {
        PopPending(compar, Wraps(size), depth, tr[i - 1], tr[i]);
      }
    }
  }

  // On every input, after every step, the stack has no more entries than the depth of the whole.
  lemma DepthSuffices<T(!new)>(compar: (T, T) -> int, size: int, s: seq<T>, tr: seq<Sorting<T>>)
    requires TotalPreorder(compar) && InMemory(|s|, size) && Run(compar, size, s, tr)
    ensures |Last(tr).stack| <= Depth(Wraps(size), |s|)
  {
    RunPending(compar, size, s, tr, |tr| - 1);
    PendingShape(compar, Wraps(size), Depth(Wraps(size), |s|), Last(tr));
  }

  // --- the algorithm

  // The first unguarded scan: some element ahead stops it at or before `stop`.
  method ScanUp<T(!new)>(a: array<T>, compar: (T, T) -> int, pivot: T, start: int, ghost stop: int) returns (i: int)
    requires 0 <= start <= stop < a.Length
    requires compar(a[stop], pivot) >= 0
    ensures start <= i <= stop
    ensures compar(a[i], pivot) >= 0
    ensures forall k :: start <= k < i ==> compar(a[k], pivot) < 0
    ensures i == Up(compar, a[..], pivot, start)
  {
    i := start;
    while compar(a[i], pivot) < 0
      invariant start <= i <= stop
      invariant forall k :: start <= k < i ==> compar(a[k], pivot) < 0
      decreases stop - i
    {
      i := i + 1;
    }
    UpIs(compar, a[..], pivot, start, i);
  }

  // The second unguarded scan, downwards.
  method ScanDown<T(!new)>(a: array<T>, compar: (T, T) -> int, pivot: T, start: int, ghost stop: int) returns (j: int)
    requires 0 <= stop <= start < a.Length
    requires compar(pivot, a[stop]) >= 0
    ensures stop <= j <= start
    ensures compar(pivot, a[j]) >= 0
    ensures forall k :: j < k <= start ==> compar(pivot, a[k]) < 0
    ensures j == Down(compar, a[..], pivot, start)
  {
    j := start;
    while compar(pivot, a[j]) < 0
      invariant stop <= j <= start
      invariant forall k :: j < k <= start ==> compar(pivot, a[k]) < 0
      decreases j - stop
    {
      j := j - 1;
    }
    DownIs(compar, a[..], pivot, start, j);
  }

  // Swap elements i and j and let the pivot pointer follow the pivot.
  method SwapStep<T>(a: array<T>, base: int, r: int, i: int, j: int, x: int) returns (x': int)
    requires 0 <= base <= i < j <= r < a.Length && base <= x <= r
    modifies a
    ensures a[..] == old(a[..])[i := old(a[j])][j := old(a[i])]
    ensures Permutes(old(a[..]), a[..], base, r)
    ensures base <= x' <= r && a[x'] == old(a[x]) && x' == if i == x then j else if j == x then i else x
  {
    a[i], a[j] := a[j], a[i];
    SwapPermutes(old(a[..]), base, r, i, j);
    assert a[..] == old(a[..])[i := old(a[j])][j := old(a[i])];
    x' := x;
    if i == x {
      x' := j;
    } else if j == x {
      x' := i;
    }
  }

  // One round: both scans, the swap, and the step past the swapped pair.
  method PassRound<T(!new)>(a: array<T>, compar: (T, T) -> int, base: int, r: int,
                            i0: int, j0: int, x0: int, ghost pivot: T)
    returns (i: int, j: int, x: int)
    requires TotalPreorder(compar)
    requires PassInvariant(compar, base, r, Pass(a[..], i0, j0, x0), pivot) && i0 <= j0
    modifies a
    ensures Pass(a[..], i, j, x) == Round(compar, Pass(old(a[..]), i0, j0, x0))
    ensures PassInvariant(compar, base, r, Pass(a[..], i, j, x), pivot)
    ensures base < i && j < r && j - i < j0 - i0
    ensures Permutes(old(a[..]), a[..], base, r)
  {
    ghost var p := Pass(a[..], i0, j0, x0);
    ScansStop(compar, base, r, p, pivot);
    RoundKeeps(compar, base, r, p, pivot);
    i := ScanUp(a, compar, a[x0], i0, Up(compar, p.s, pivot, i0));
    j := ScanDown(a, compar, a[x0], j0, Down(compar, p.s, pivot, j0));
    x := x0;
    if i < j {
      x := SwapStep(a, base, r, i, j, x);
    }
    if i <= j {
      i, j := i + 1, j - 1;
    }
  }

  // Rounds until the pointers have crossed: the inner do-while of qsort.
  method AllRounds<T(!new)>(a: array<T>, compar: (T, T) -> int, base: int, r: int, x0: int)
    returns (i: int, j: int, x: int)
    requires TotalPreorder(compar) && 0 <= base <= x0 <= r < a.Length
    modifies a
    ensures Pass(a[..], i, j, x) == Rounds(compar, Pass(old(a[..]), base, r, x0))
  {
    ghost var pivot := a[x0];
    ghost var start := Pass(a[..], base, r, x0);
    i, j, x := PassRound(a, compar, base, r, base, r, x0, pivot);
    while i <= j
      invariant PassInvariant(compar, base, r, Pass(a[..], i, j, x), pivot)
      invariant Rounds(compar, start) == if i <= j then Rounds(compar, Pass(a[..], i, j, x)) else Pass(a[..], i, j, x)
      decreases j - i
    {
      i, j, x := PassRound(a, compar, base, r, i, j, x, pivot);
    }
  }

  method Middle(size: int, ghost nel: int, base: int, r: int) returns (x: int)
    requires InMemory(nel, size) && 0 <= base <= r < nel
    ensures x == base + (r - base) / 2
  {
    MiddleExact(size, nel, base, r);
    x := base + size * (r - base) % 0x10000 / size / 2;
  }

  // One pass over base..r.
  method PartitionPass<T(!new)>(a: array<T>, size: int, compar: (T, T) -> int, base: int, r: int)
    returns (i: int, j: int, x: int)
    requires TotalPreorder(compar) && InMemory(a.Length, size)
    requires 0 <= base <= r < a.Length
    modifies a
    ensures Permutes(old(a[..]), a[..], base, r)
    ensures Split(compar, a[..], Partition(base, r), i, j)
    ensures Pass(a[..], i, j, x) == WholePass(compar, old(a[..]), base, r)
  {
    var middle := Middle(size, a.Length, base, r);
    ghost var s := a[..];
    i, j, x := AllRounds(a, compar, base, r, middle);
    PassEnds(compar, s, base, r, middle, Pass(a[..], i, j, x));
  }

  // Stack one of base..j and i..r if it has two elements, and go on with the other.
  method StackPart<T>(stack: array<Partition>, size: int, sp: int, base: int, r: int, i: int, j: int, ghost s: seq<T>)
    returns (sp': int, base': int, r': int)
    requires 0 <= sp <= stack.Length
    requires |Choose(size, Sorting(s, stack[..sp], base, r), i, j).stack| <= stack.Length
    modifies stack
    ensures 0 <= sp' <= stack.Length
    ensures Sorting(s, stack[..sp'], base', r') == Choose(size, Sorting(s, old(stack[..sp]), base, r), i, j)
  {
    ghost var c := Choose(size, Sorting(s, stack[..sp], base, r), i, j);
    sp', base', r' := sp, base, r;
    if Difference(size, j, base) < Difference(size, r, i) {
      if i < r {
        stack[sp] := Partition(i, r);
        sp' := sp + 1;
      }
      r' := j;
    } else {
      if base < j {
        stack[sp] := Partition(base, j);
        sp' := sp + 1;
      }
      base' := i;
    }
    assert stack[..sp'] == c.stack;
  }

  // One pass over base..r and the choice after it, with room on the stack for the depth.
  method DivideStep<T(!new)>(a: array<T>, size: int, compar: (T, T) -> int, stack: array<Partition>,
                             sp: int, base: int, r: int)
    returns (sp': int, base': int, r': int)
    requires TotalPreorder(compar) && a as object != stack && InMemory(a.Length, size)
    requires 0 <= sp <= stack.Length && 0 <= base <= r < a.Length
    requires Pending(compar, Wraps(size), stack.Length, Sorting(a[..], stack[..sp], base, r))
    modifies a, stack
    ensures 0 <= sp' <= stack.Length
    ensures PassTo(compar, size, Sorting(old(a[..]), old(stack[..sp]), base, r),
                   Sorting(a[..], stack[..sp'], base', r'))
  {
    ghost var m := Sorting(a[..], stack[..sp], base, r);
    ChoiceFits(compar, size, stack.Length, m);
    var i, j, x := PartitionPass(a, size, compar, base, r);
    ghost var s := a[..];
    assert stack[..sp] == m.stack;
    sp', base', r' := StackPart(stack, size, sp, base, r, i, j, s);
    assert a[..] == s;
    DivideIs(compar, size, m, Pass(s, i, j, x), Sorting(s, stack[..sp'], base', r'));
  }

  // The stack has room for what a pass stacks.
  lemma ChoiceFits<T(!new)>(compar: (T, T) -> int, size: int, depth: int, m: Sorting<T>)
    requires TotalPreorder(compar) && InMemory(|m.s|, size) && 0 <= m.base <= m.r < |m.s|
    requires Pending(compar, Wraps(size), depth, m)
    ensures var q := WholePass(compar, m.s, m.base, m.r); |Choose(size, m.(s := q.s), q.i, q.j).stack| <= depth
  {
    PassIs(compar, size, m, Divide(compar, size, m));
    PassPending(compar, size, depth, m, Divide(compar, size, m));
    PendingShape(compar, Wraps(size), depth, Divide(compar, size, m));
  }

  // A pass that ends in q, and the choice after it, are one step.
  lemma DivideIs<T>(compar: (T, T) -> int, size: int, m: Sorting<T>, q: Pass<T>, t: Sorting<T>)
    requires 0 <= m.base <= m.r < |m.s|
    requires q == WholePass(compar, m.s, m.base, m.r)
    requires t == Choose(size, Sorting(q.s, m.stack, m.base, m.r), q.i, q.j)
    ensures PassTo(compar, size, m, t)
  {
    assert t == Divide(compar, size, m);
  }

  // The inner loop: passes until fewer than two elements are left of the current partition.
  method DivideAll<T(!new)>(a: array<T>, size: int, compar: (T, T) -> int, stack: array<Partition>,
                            sp0: int, base0: int, r0: int, ghost s: seq<T>, ghost tr0: seq<Sorting<T>>)
    returns (sp: int, base: int, r: int, ghost tr: seq<Sorting<T>>)
    requires TotalPreorder(compar) && a as object != stack && InMemory(a.Length, size)
    requires 0 <= sp0 <= stack.Length && 0 <= base0 <= r0 < a.Length && (|tr0| == 1 || base0 < r0)
    requires Run(compar, size, s, tr0) && Last(tr0) == Sorting(a[..], stack[..sp0], base0, r0)
    requires Pending(compar, Wraps(size), stack.Length, Last(tr0))
    modifies a, stack
    ensures 0 <= sp <= stack.Length && base >= r
    ensures Run(compar, size, s, tr) && |tr| > 1 && Last(tr) == Sorting(a[..], stack[..sp], base, r)
    ensures Pending(compar, Wraps(size), stack.Length, Last(tr))
    ensures Work(Last(tr)) < Work(Last(tr0)) && multiset(a[..]) == multiset(old(a[..]))
  {
    tr := tr0;
    sp, base, r := DivideStep(a, size, compar, stack, sp0, base0, r0);
    ghost var t := Sorting(a[..], stack[..sp], base, r);
    PassPending(compar, size, stack.Length, Last(tr), t);
    RunMore(compar, size, s, tr, t);
    tr := tr + [t];
    while base < r
      invariant 0 <= sp <= stack.Length && Run(compar, size, s, tr) && |tr| > 1
      invariant t == Last(tr) == Sorting(a[..], stack[..sp], base, r)
      invariant Pending(compar, Wraps(size), stack.Length, t)
      invariant Work(t) < Work(Last(tr0)) && multiset(a[..]) == multiset(old(a[..]))
      decreases Work(t)
    {
      PendingShape(compar, Wraps(size), stack.Length, t);
      sp, base, r := DivideStep(a, size, compar, stack, sp, base, r);
      t := Sorting(a[..], stack[..sp], base, r);
      PassPending(compar, size, stack.Length, Last(tr), t);
      RunMore(compar, size, s, tr, t);
      tr := tr + [t];
    }
  }

  // --sp and the two loads: the next partition comes from the stack.
  method PopPart<T>(stack: array<Partition>, sp0: int, ghost m: Sorting<T>)
    returns (sp: int, base: int, r: int, ghost t: Sorting<T>)
    requires 0 < sp0 <= stack.Length && m.stack == stack[..sp0]
    ensures 0 <= sp <= stack.Length && t == Sorting(m.s, stack[..sp], base, r) && PopTo(m, t)
  {
    sp := sp0 - 1;
    base, r := stack[sp].l, stack[sp].r;
    t := Sorting(m.s, stack[..sp], base, r);
    assert m.stack[..sp] == stack[..sp];
  }

  // The library routine with a stack of any length that the depth allows: a run of the steps, to its end.
  method SortWith<T(!new)>(a: array<T>, size: int, compar: (T, T) -> int, stack: array<Partition>)
      returns (ghost tr: seq<Sorting<T>>)
    requires TotalPreorder(compar) && a as object != stack
    requires InMemory(a.Length, size) && Depth(Wraps(size), a.Length) <= stack.Length
    modifies a, stack
    ensures Sorted(compar, a[..]) && multiset(a[..]) == multiset(old(a[..]))
    ensures Run(compar, size, old(a[..]), tr) && Last(tr).s == a[..]
    ensures Last(tr).stack == [] && Last(tr).base >= Last(tr).r
  {
    var sp, base, r := 0, 0, a.Length - 1;
    ghost var s := a[..];
    StartPending(compar, Wraps(size), stack.Length, s);
    assert stack[..0] == [];
    sp, base, r, tr := DivideAll(a, size, compar, stack, sp, base, r, s, [Start(s)]);
    while sp > 0
      invariant 0 <= sp <= stack.Length && base >= r
      invariant Run(compar, size, s, tr) && |tr| > 1 && Last(tr) == Sorting(a[..], stack[..sp], base, r)
      invariant Pending(compar, Wraps(size), stack.Length, Last(tr))
      invariant multiset(a[..]) == multiset(s)
      decreases Work(Last(tr))
    {
      ghost var t;
      sp, base, r, t := PopPart(stack, sp, Last(tr));
      PopPending(compar, Wraps(size), stack.Length, Last(tr), t);
      RunMore(compar, size, s, tr, t);
      sp, base, r, tr := DivideAll(a, size, compar, stack, sp, base, r, s, tr + [t]);
    }
    WorkDone(compar, Wraps(size), stack.Length, Last(tr));
  }

  lemma WorkDone<T>(compar: (T, T) -> int, w: int, depth: int, m: Sorting<T>)
    requires Pending(compar, w, depth, m) && m.stack == [] && m.base >= m.r
    ensures Sorted(compar, m.s)
  {
    PendingMeans(compar, w, depth, m);
    assert m.stack + [Partition(m.base, m.r)] == [Partition(m.base, m.r)];
    OrderedWhenDone(compar, m.s, Partition(m.base, m.r));
  }

  // The library routine: sixteen entries, which must be enough for the depth of the area.
  method Qsort<T(!new)>(a: array<T>, size: int, compar: (T, T) -> int)
    requires TotalPreorder(compar)
    requires InMemory(a.Length, size) && Depth(Wraps(size), a.Length) <= STACK_ENTRIES
    modifies a
    ensures Sorted(compar, a[..]) && multiset(a[..]) == multiset(old(a[..]))
  {
    var stack := new Partition[STACK_ENTRIES](_ => Partition(0, 0));
    ghost var tr := SortWith(a, size, compar, stack);
  }
}
