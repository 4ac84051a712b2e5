/**
  The Aztec C heap: malloc and free over a circular, address-ordered free list whose
  blocks are coalesced only when malloc walks over them, with a roving start pointer.
  Addresses are bytes; block sizes are counted in units of one 4-byte header.
 */
module Malloc {
  import opened Arithmetic

  const NULL := 0
  const UNIT := 4     // sizeof(FREE)
  const GRAIN := 1024

  datatype Header = Header(size: int, chain: int)

  type Memory = map<int, Header>

  // Units needed for a request: computed in 16-bit unsigned arithmetic.
  function UnitsFor(size: int): int {
    (size + UNIT - 1) % 0x1_0000 / UNIT + 1
  }

  // A block of UnitsFor(size) units holds size bytes exactly when the sum does not wrap, and then no smaller one does.
  lemma UnitsHold(size: int)
    requires 0 <= size <= 0xFFFF
    ensures (UnitsFor(size) - 1) * UNIT >= size <==> size <= 65532
    ensures (UnitsFor(size) - 2) * UNIT < size
  {
    if size <= 65532 {
      assert (size + 3) % 0x1_0000 == size + 3;
    } else {
      assert (size + 3) % 0x1_0000 == size + 3 - 0x1_0000;
    }
  }

  // --- the shape of the heap

  // First address after the block at p; the head is a bare header of size 0.
  ghost function Edge(mem: Memory, head: int, p: int): int
    requires p in mem
  {
    if p == head then head + UNIT else p + UNIT * mem[p].size
  }

  ghost predicate Apart(mem: Memory, head: int, p: int, q: int) {
    p in mem && q in mem && (Edge(mem, head, p) <= q || Edge(mem, head, q) <= p)
  }

  // The free list in address order: the head first, then disjoint non-empty blocks.
  ghost predicate FreeOrder(mem: Memory, head: int, F: seq<int>, brk: int) {
    && |F| >= 1 && F[0] == head && head in mem && mem[head].size == 0 && 0 < head
    && (forall i :: 0 <= i < |F| ==> F[i] in mem && Edge(mem, head, F[i]) <= brk)
    && (forall i :: 1 <= i < |F| ==> mem[F[i]].size >= 1)
    && (forall i, j :: 0 <= i < j < |F| ==> Edge(mem, head, F[i]) <= F[j])
  }

  function Succ(F: seq<int>, i: int): int
    requires 0 <= i < |F|
  {
    if i + 1 < |F| then i + 1 else 0
  }

  // The chain fields link F into one circle.
  ghost predicate Circle(mem: Memory, F: seq<int>) {
    forall i :: 0 <= i < |F| ==> Linked(mem, F, i)
  }

  ghost predicate Linked(mem: Memory, F: seq<int>, i: int)
    requires 0 <= i < |F|
  {
    F[i] in mem && mem[F[i]].chain == F[Succ(F, i)]
  }

  // Handed-out blocks carry a null chain and are disjoint from each other and from the free ones.
  ghost predicate LiveBlocks(mem: Memory, head: int, F: seq<int>, L: seq<int>, brk: int) {
    && (forall k :: 0 <= k < |L| ==> LiveBlock(mem, head, L[k], brk))
    && (forall k, m :: 0 <= k < m < |L| ==> Apart(mem, head, L[k], L[m]))
    && (forall i, k :: 1 <= i < |F| && 0 <= k < |L| ==> Apart(mem, head, F[i], L[k]))
  }

  ghost predicate LiveBlock(mem: Memory, head: int, p: int, brk: int) {
    && p in mem && head + UNIT <= p && mem[p].chain == NULL && mem[p].size >= 1
    && Edge(mem, head, p) <= brk
  }

  ghost function Total(mem: Memory, s: seq<int>): int {
    if s == [] then 0 else (if s[0] in mem then mem[s[0]].size else 0) + Total(mem, s[1..])
  }

  // k addresses the inside of a live block, past its header.
  ghost predicate Payload(mem: Memory, L: seq<int>, k: int) {
    exists m :: 0 <= m < |L| && InBlock(mem, L[m], k)
  }

  ghost predicate InBlock(mem: Memory, p: int, k: int) {
    p in mem && p + UNIT <= k < p + UNIT * mem[p].size
  }

  // --- runs of adjacent free blocks

  ghost predicate Adjacent(mem: Memory, F: seq<int>, i: int) {
    0 <= i < |F| - 1 && F[i] in mem && F[i] + UNIT * mem[F[i]].size == F[i + 1]
  }

  ghost predicate Run(mem: Memory, F: seq<int>, i: int, j: int) {
    0 <= i <= j < |F| && F[j] in mem && forall k :: i <= k < j ==> Adjacent(mem, F, k)
  }

  ghost function Span(mem: Memory, F: seq<int>, i: int, j: int): int
    requires Run(mem, F, i, j)
  {
    F[j] + UNIT * mem[F[j]].size - F[i]
  }

  // Some run of adjacent free blocks is at least `units` long.
  ghost predicate HasRun(mem: Memory, F: seq<int>, units: int) {
    exists i, j :: Run(mem, F, i, j) && Span(mem, F, i, j) >= UNIT * units
  }

  // --- coalescing block t with its successor

  function Merge(mem: Memory, p: int, q: int): Memory
    requires p in mem && q in mem
  {
    mem[p := Header(mem[p].size + mem[q].size, mem[q].chain)]
  }

  // Index in F of the element at index i of Without(F, t).
  function Kept(t: int, i: int): int { if i < t then i else i + 1 }

  function Without(F: seq<int>, t: int): (F': seq<int>)
    requires 0 <= t < |F|
    ensures |F'| == |F| - 1
    ensures forall i :: 0 <= i < |F'| ==> F'[i] == F[Kept(t, i)]
  {
    F[..t] + F[t + 1..]
  }

  lemma DistinctBlocks(mem: Memory, head: int, F: seq<int>, brk: int, i: int, j: int)
    requires FreeOrder(mem, head, F, brk) && 0 <= i < |F| && 0 <= j < |F|
    ensures F[i] == F[j] <==> i == j
  {
    if i < j {
      assert Edge(mem, head, F[i]) <= F[j];
    } else if j < i {
      assert Edge(mem, head, F[j]) <= F[i];
    }
  }

  // Only the block at t changes, and it now ends where block t + 1 ended.
  lemma MergedBlocks(mem: Memory, head: int, F: seq<int>, brk: int, t: int, i: int)
    requires FreeOrder(mem, head, F, brk)
    requires 1 <= t && Adjacent(mem, F, t) && 0 <= i < |F|
    ensures var mem' := Merge(mem, F[t], F[t + 1]);
            if i == t then Edge(mem', head, F[t]) == Edge(mem, head, F[t + 1]) && mem'[F[t]].size >= 1 && F[t] != head
            else mem'[F[i]] == mem[F[i]] && Edge(mem', head, F[i]) == Edge(mem, head, F[i])
  {
    DistinctBlocks(mem, head, F, brk, i, t);
    DistinctBlocks(mem, head, F, brk, t, 0);
    DistinctBlocks(mem, head, F, brk, t + 1, 0);
  }

  lemma MergeKeepsOrder(mem: Memory, head: int, F: seq<int>, brk: int, t: int)
    requires FreeOrder(mem, head, F, brk)
    requires 1 <= t && Adjacent(mem, F, t)
    ensures FreeOrder(Merge(mem, F[t], F[t + 1]), head, Without(F, t + 1), brk)
  {
    var mem', F' := Merge(mem, F[t], F[t + 1]), Without(F, t + 1);
    MergedBlocks(mem, head, F, brk, t, 0);
    forall i | 0 <= i < |F'|
      ensures F'[i] in mem' && Edge(mem', head, F'[i]) <= brk && (i >= 1 ==> mem'[F'[i]].size >= 1)
      ensures forall j :: i < j < |F'| ==> Edge(mem', head, F'[i]) <= F'[j]
    {
      assert F'[i] == F[Kept(t + 1, i)];
      MergedBlocks(mem, head, F, brk, t, Kept(t + 1, i));
      forall j | i < j < |F'| ensures Edge(mem', head, F'[i]) <= F'[j] {
        assert F'[j] == F[Kept(t + 1, j)];
      }
    }
  }

  lemma MergeKeepsCircle(mem: Memory, head: int, F: seq<int>, brk: int, t: int)
    requires FreeOrder(mem, head, F, brk) && Circle(mem, F)
    requires 1 <= t && Adjacent(mem, F, t)
    ensures Circle(Merge(mem, F[t], F[t + 1]), Without(F, t + 1))
  {
    var mem', F' := Merge(mem, F[t], F[t + 1]), Without(F, t + 1);
    forall i | 0 <= i < |F'| ensures Linked(mem', F', i) {
      MergedBlocks(mem, head, F, brk, t, Kept(t + 1, i));
      assert Linked(mem, F, Kept(t + 1, i)) && Linked(mem, F, t + 1);
    }
  }

  lemma MergeKeepsLive(mem: Memory, head: int, F: seq<int>, L: seq<int>, brk: int, t: int)
    requires FreeOrder(mem, head, F, brk) && LiveBlocks(mem, head, F, L, brk)
    requires 1 <= t && Adjacent(mem, F, t)
    ensures LiveBlocks(Merge(mem, F[t], F[t + 1]), head, Without(F, t + 1), L, brk)
    ensures forall k :: 0 <= k < |L| ==> F[t] != L[k]
  {
    var mem', F' := Merge(mem, F[t], F[t + 1]), Without(F, t + 1);
    forall k | 0 <= k < |L| ensures F[t] != L[k] && mem'[L[k]] == mem[L[k]] {
      assert Apart(mem, head, F[t], L[k]);
      assert LiveBlock(mem, head, L[k], brk);
    }
    forall k | 0 <= k < |L| ensures LiveBlock(mem', head, L[k], brk) {
      assert LiveBlock(mem, head, L[k], brk);
    }
    forall k, m | 0 <= k < m < |L| ensures Apart(mem', head, L[k], L[m]) {
      assert Apart(mem, head, L[k], L[m]);
    }
    forall i, k | 1 <= i < |F'| && 0 <= k < |L| ensures Apart(mem', head, F'[i], L[k]) {
      assert F'[i] == F[if i <= t then i else i + 1];
      assert Apart(mem, head, F[if i <= t then i else i + 1], L[k]);
      assert Apart(mem, head, F[t + 1], L[k]);
    }
  }

  // --- conservation of units

  lemma {:induction false} TotalFrame(mem: Memory, mem': Memory, s: seq<int>)
    requires forall i :: 0 <= i < |s| ==> s[i] in mem && s[i] in mem' && mem[s[i]].size == mem'[s[i]].size
    ensures Total(mem, s) == Total(mem', s)
  {
    if s != [] {
      assert mem[s[0]].size == mem'[s[0]].size;
      TotalFrame(mem, mem', s[1..]);
    }
  }

  lemma {:induction false} TotalAppend(mem: Memory, s: seq<int>, u: seq<int>)
    ensures Total(mem, s + u) == Total(mem, s) + Total(mem, u)
  {
    if s == [] {
      assert s + u == u;
    } else {
      assert (s + u)[1..] == s[1..] + u;
      TotalAppend(mem, s[1..], u);
    }
  }

  lemma TotalWithout(mem: Memory, s: seq<int>, t: int)
    requires 0 <= t < |s| && s[t] in mem
    ensures Total(mem, s) == Total(mem, Without(s, t)) + mem[s[t]].size
  {
    assert s == s[..t] + ([s[t]] + s[t + 1..]);
    TotalAppend(mem, s[..t], [s[t]] + s[t + 1..]);
    TotalAppend(mem, s[..t], s[t + 1..]);
    assert ([s[t]] + s[t + 1..])[1..] == s[t + 1..];
  }

  lemma TotalSnoc(mem: Memory, s: seq<int>, p: int)
    requires p in mem
    ensures Total(mem, s + [p]) == Total(mem, s) + mem[p].size
  {
    TotalAppend(mem, s, [p]);
  }

  // The whole invariant: one ordered circle through the head, disjoint free and live blocks,
  // and every unit obtained from sbrk in exactly one of them.
  ghost predicate WellFormed(mem: Memory, head: int, F: seq<int>, L: seq<int>, brk: int, obtained: int) {
    && FreeOrder(mem, head, F, brk)
    && Circle(mem, F)
    && LiveBlocks(mem, head, F, L, brk)
    && Total(mem, F) + Total(mem, L) == obtained
  }

  // Live headers unchanged, live blocks apart from the new free blocks.
  lemma LiveFrame(mem: Memory, mem': Memory, head: int, F: seq<int>, F': seq<int>, L: seq<int>, brk: int)
    requires LiveBlocks(mem, head, F, L, brk)
    requires forall k :: 0 <= k < |L| ==> L[k] in mem' && mem'[L[k]] == mem[L[k]]
    requires forall i, k :: 1 <= i < |F'| && 0 <= k < |L| ==> Apart(mem', head, F'[i], L[k])
    ensures LiveBlocks(mem', head, F', L, brk)
    ensures Total(mem', L) == Total(mem, L)
  {
    forall k | 0 <= k < |L| ensures LiveBlock(mem', head, L[k], brk) {
      assert LiveBlock(mem, head, L[k], brk);
    }
    forall k, m | 0 <= k < m < |L| ensures Apart(mem', head, L[k], L[m]) {
      assert Apart(mem, head, L[k], L[m]);
    }
    TotalFrame(mem, mem', L);
  }

  // --- splitting a free block in two

  function Cut(mem: Memory, p: int, units: int): Memory
    requires p in mem
  {
    var r := p + UNIT * units;
    mem[r := Header(mem[p].size - units, mem[p].chain)][p := Header(units, r)]
  }

  function Inserted(F: seq<int>, t: int, r: int): (F': seq<int>)
    requires 0 <= t < |F|
    ensures |F'| == |F| + 1
    ensures forall i :: 0 <= i < |F'| ==> F'[i] == if i <= t then F[i] else if i == t + 1 then r else F[i - 1]
  {
    F[..t + 1] + [r] + F[t + 1..]
  }

  lemma CutBlocks(mem: Memory, head: int, F: seq<int>, brk: int, t: int, units: int, i: int)
    requires FreeOrder(mem, head, F, brk)
    requires 1 <= t < |F| && 1 <= units < mem[F[t]].size && 0 <= i < |F|
    ensures var mem', r := Cut(mem, F[t], units), F[t] + UNIT * units;
            && r != F[i] && F[t] != head && r != head && F[t] < r
            && Edge(mem', head, r) == Edge(mem, head, F[t]) && mem'[r].chain == mem[F[t]].chain
            && if i == t then Edge(mem', head, F[t]) == r && mem'[F[t]] == Header(units, r)
               else mem'[F[i]] == mem[F[i]] && Edge(mem', head, F[i]) == Edge(mem, head, F[i])
  {
    DistinctBlocks(mem, head, F, brk, i, t);
    DistinctBlocks(mem, head, F, brk, t, 0);
    assert Edge(mem, head, head) <= F[t];
    if i < t {
      assert Edge(mem, head, F[i]) <= F[t];
    } else if t < i {
      assert Edge(mem, head, F[t]) <= F[i];
    }
  }

  // The block of the old list that stands at place i of the new one; the new block counts as its front.
  function Source(t: int, i: int): int { if i <= t then i else i - 1 }

  // Where the block at place i of the list ends after the cut.
  lemma CutEdge(mem: Memory, head: int, F: seq<int>, brk: int, t: int, units: int, i: int)
    requires FreeOrder(mem, head, F, brk)
    requires 1 <= t < |F| && 1 <= units < mem[F[t]].size && 0 <= i <= |F|
    ensures var mem', r := Cut(mem, F[t], units), F[t] + UNIT * units;
            var p := Inserted(F, t, r)[i];
            && p in mem' && p == (if i == t + 1 then r else F[Source(t, i)])
            && Edge(mem', head, p) == (if i == t then r else Edge(mem, head, F[Source(t, i)]))
            && (i >= 1 ==> mem'[p].size >= 1)
            && F[t] < r < Edge(mem, head, F[t])
  {
    CutBlocks(mem, head, F, brk, t, units, t);
    CutBlocks(mem, head, F, brk, t, units, Source(t, i));
    CutInside(mem, head, F, brk, t, units);
  }

  lemma CutInside(mem: Memory, head: int, F: seq<int>, brk: int, t: int, units: int)
    requires FreeOrder(mem, head, F, brk)
    requires 1 <= t < |F| && 1 <= units < mem[F[t]].size
    ensures F[t] < F[t] + UNIT * units < Edge(mem, head, F[t])
  {
    CutBlocks(mem, head, F, brk, t, units, 0);
  }

  lemma CutPair(mem: Memory, head: int, F: seq<int>, brk: int, t: int, units: int, i: int, j: int)
    requires FreeOrder(mem, head, F, brk)
    requires 1 <= t < |F| && 1 <= units < mem[F[t]].size && 0 <= i < j <= |F|
    ensures var mem', F' := Cut(mem, F[t], units), Inserted(F, t, F[t] + UNIT * units);
            F'[i] in mem' && Edge(mem', head, F'[i]) <= F'[j]
  {
    CutEdge(mem, head, F, brk, t, units, i);
    CutEdge(mem, head, F, brk, t, units, j);
    if Source(t, i) < Source(t, j) {
      assert Edge(mem, head, F[Source(t, i)]) <= F[Source(t, j)];
    }
  }

  lemma CutKeepsOrder(mem: Memory, head: int, F: seq<int>, brk: int, t: int, units: int)
    requires FreeOrder(mem, head, F, brk)
    requires 1 <= t < |F| && 1 <= units < mem[F[t]].size
    ensures FreeOrder(Cut(mem, F[t], units), head, Inserted(F, t, F[t] + UNIT * units), brk)
  {
    var mem', F' := Cut(mem, F[t], units), Inserted(F, t, F[t] + UNIT * units);
    CutBlocks(mem, head, F, brk, t, units, 0);
    forall i | 0 <= i < |F'|
      ensures F'[i] in mem' && Edge(mem', head, F'[i]) <= brk && (i >= 1 ==> mem'[F'[i]].size >= 1)
    {
      CutEdge(mem, head, F, brk, t, units, i);
      assert Edge(mem, head, F[Source(t, i)]) <= brk && Edge(mem, head, F[t]) <= brk;
    }
    forall i, j | 0 <= i < j < |F'| ensures Edge(mem', head, F'[i]) <= F'[j] {
      CutPair(mem, head, F, brk, t, units, i, j);
    }
  }

  lemma CutKeepsCircle(mem: Memory, head: int, F: seq<int>, brk: int, t: int, units: int)
    requires FreeOrder(mem, head, F, brk) && Circle(mem, F)
    requires 1 <= t < |F| && 1 <= units < mem[F[t]].size
    ensures Circle(Cut(mem, F[t], units), Inserted(F, t, F[t] + UNIT * units))
  {
    var mem', r := Cut(mem, F[t], units), F[t] + UNIT * units;
    var F' := Inserted(F, t, r);
    forall i | 0 <= i < |F'| ensures Linked(mem', F', i) {
      var o := if i <= t then i else i - 1;
      CutBlocks(mem, head, F, brk, t, units, o);
      assert Linked(mem, F, o);
      assert i == t + 1 ==> F'[i] == r && F'[Succ(F', i)] == F[Succ(F, t)];
      assert i != t + 1 ==> F'[i] == F[o];
    }
  }

  lemma CutKeepsLive(mem: Memory, head: int, F: seq<int>, L: seq<int>, brk: int, t: int, units: int)
    requires FreeOrder(mem, head, F, brk) && LiveBlocks(mem, head, F, L, brk)
    requires 1 <= t < |F| && 1 <= units < mem[F[t]].size
    ensures var mem', F' := Cut(mem, F[t], units), Inserted(F, t, F[t] + UNIT * units);
            LiveBlocks(mem', head, F', L, brk) && Total(mem', L) == Total(mem, L)
  {
    var mem', r := Cut(mem, F[t], units), F[t] + UNIT * units;
    var F' := Inserted(F, t, r);
    forall k | 0 <= k < |L| ensures mem'[L[k]] == mem[L[k]] {
      assert Apart(mem, head, F[t], L[k]) && LiveBlock(mem, head, L[k], brk);
    }
    forall i, k | 1 <= i < |F'| && 0 <= k < |L| ensures Apart(mem', head, F'[i], L[k]) {
      CutKeepsApart(mem, head, F, L, brk, t, units, i, k);
    }
    LiveFrame(mem, mem', head, F, F', L, brk);
  }

  lemma CutKeepsApart(mem: Memory, head: int, F: seq<int>, L: seq<int>, brk: int, t: int, units: int, i: int, k: int)
    requires FreeOrder(mem, head, F, brk) && LiveBlocks(mem, head, F, L, brk)
    requires 1 <= t < |F| && 1 <= units < mem[F[t]].size && 1 <= i <= |F| && 0 <= k < |L|
    ensures Apart(Cut(mem, F[t], units), head, Inserted(F, t, F[t] + UNIT * units)[i], L[k])
  {
    var r, o := F[t] + UNIT * units, if i <= t then i else i - 1;
    assert Inserted(F, t, r)[i] == if i == t + 1 then r else F[o];
    CutBlocks(mem, head, F, brk, t, units, o);
    assert Apart(mem, head, F[o], L[k]) && LiveBlock(mem, head, L[k], brk);
    assert Apart(mem, head, F[t], L[k]);
  }

  lemma CutKeepsTotal(mem: Memory, head: int, F: seq<int>, brk: int, t: int, units: int)
    requires FreeOrder(mem, head, F, brk)
    requires 1 <= t < |F| && 1 <= units < mem[F[t]].size
    ensures Total(Cut(mem, F[t], units), Inserted(F, t, F[t] + UNIT * units)) == Total(mem, F)
  {
    var mem', r := Cut(mem, F[t], units), F[t] + UNIT * units;
    var F' := Inserted(F, t, r);
    forall i | 0 <= i < |F| ensures F[i] in mem && F[i] in mem' && (i != t ==> mem'[F[i]].size == mem[F[i]].size) {
      CutBlocks(mem, head, F, brk, t, units, i);
    }
    TotalCut(mem, mem', F, t, r);
  }

  lemma TotalCut(mem: Memory, mem': Memory, F: seq<int>, t: int, r: int)
    requires 0 <= t < |F| && r in mem' && forall i :: 0 <= i < |F| ==> F[i] in mem && F[i] in mem'
    requires forall i :: 0 <= i < |F| && i != t ==> mem'[F[i]].size == mem[F[i]].size
    requires mem'[F[t]].size + mem'[r].size == mem[F[t]].size
    ensures Total(mem', Inserted(F, t, r)) == Total(mem, F)
  {
    var F' := Inserted(F, t, r);
    TotalWithout(mem, F, t);
    TotalFrame(mem, mem', Without(F, t));
    assert Without(F', t + 1) == F;
    TotalWithout(mem', F', t + 1);
    TotalWithout(mem', F, t);
  }

  lemma CutKeeps(mem: Memory, head: int, F: seq<int>, L: seq<int>, brk: int, obtained: int, t: int, units: int)
    requires WellFormed(mem, head, F, L, brk, obtained)
    requires 1 <= t < |F| && 1 <= units < mem[F[t]].size
    ensures WellFormed(Cut(mem, F[t], units), head, Inserted(F, t, F[t] + UNIT * units), L, brk, obtained)
  {
    CutKeepsOrder(mem, head, F, brk, t, units);
    CutKeepsCircle(mem, head, F, brk, t, units);
    CutKeepsLive(mem, head, F, L, brk, t, units);
    CutKeepsTotal(mem, head, F, brk, t, units);
  }

  lemma MergeKeeps(mem: Memory, head: int, F: seq<int>, L: seq<int>, brk: int, obtained: int, t: int)
    requires WellFormed(mem, head, F, L, brk, obtained)
    requires 1 <= t && Adjacent(mem, F, t)
    ensures WellFormed(Merge(mem, F[t], F[t + 1]), head, Without(F, t + 1), L, brk, obtained)
    ensures forall k :: 0 <= k < |L| ==> F[t] != L[k]
  {
    var mem', F' := Merge(mem, F[t], F[t + 1]), Without(F, t + 1);
    MergeKeepsOrder(mem, head, F, brk, t);
    MergeKeepsCircle(mem, head, F, brk, t);
    MergeKeepsLive(mem, head, F, L, brk, t);
    TotalFrame(mem, mem', L);
    TotalWithout(mem, F, t + 1);
    TotalWithout(mem, F', t);
    TotalWithout(mem', F', t);
    forall i | 0 <= i < |F'| && i != t ensures mem'[F'[i]].size == mem[F'[i]].size {
      MergedBlocks(mem, head, F, brk, t, Kept(t + 1, i));
    }
    TotalFrame(mem, mem', Without(F', t));
  }

  // --- handing a free block out, and taking one back

  function Unlink(mem: Memory, q: int, p: int): Memory
    requires q in mem && p in mem
  {
    mem[q := Header(mem[q].size, mem[p].chain)][p := Header(mem[p].size, NULL)]
  }

  function Link(mem: Memory, q: int, hole: int): Memory
    requires q in mem && hole in mem
  {
    mem[hole := Header(mem[hole].size, mem[q].chain)][q := Header(mem[q].size, hole)]
  }

  // Both change chain fields only.
  ghost predicate SameSizes(mem: Memory, mem': Memory) {
    forall p :: (p in mem <==> p in mem') && (p in mem ==> mem'[p].size == mem[p].size)
  }

  lemma OrderFrame(mem: Memory, mem': Memory, head: int, F: seq<int>, brk: int)
    requires SameSizes(mem, mem') && FreeOrder(mem, head, F, brk)
    ensures FreeOrder(mem', head, F, brk)
  {
    forall i | 0 <= i < |F| ensures F[i] in mem' && Edge(mem', head, F[i]) == Edge(mem, head, F[i]) {
    }
  }

  lemma ApartFrame(mem: Memory, mem': Memory, head: int, p: int, q: int)
    requires SameSizes(mem, mem') && Apart(mem, head, p, q)
    ensures Apart(mem', head, p, q) && Apart(mem', head, q, p)
  {
  }

  lemma OrderWithout(mem: Memory, head: int, F: seq<int>, brk: int, t: int)
    requires FreeOrder(mem, head, F, brk) && 1 <= t < |F|
    ensures FreeOrder(mem, head, Without(F, t), brk)
  {
    var F' := Without(F, t);
    forall i | 0 <= i < |F'|
      ensures F'[i] == F[Kept(t, i)] && F'[i] in mem && Edge(mem, head, F'[i]) <= brk
      ensures i >= 1 ==> mem[F'[i]].size >= 1
      ensures forall j :: i < j < |F'| ==> Edge(mem, head, F'[i]) <= F'[j]
    {
      forall j | i < j < |F'| ensures Edge(mem, head, F'[i]) <= F'[j] {
        assert F'[j] == F[Kept(t, j)];
      }
    }
  }

  lemma UnlinkKeepsCircle(mem: Memory, head: int, F: seq<int>, brk: int, t: int)
    requires FreeOrder(mem, head, F, brk) && Circle(mem, F) && 1 <= t < |F|
    ensures Circle(Unlink(mem, F[t - 1], F[t]), Without(F, t))
  {
    var mem', F' := Unlink(mem, F[t - 1], F[t]), Without(F, t);
    forall i | 0 <= i < |F'| ensures Linked(mem', F', i) {
      var o := Kept(t, i);
      DistinctBlocks(mem, head, F, brk, o, t);
      DistinctBlocks(mem, head, F, brk, o, t - 1);
      assert Linked(mem, F, o) && Linked(mem, F, t);
      UnlinkKeepsLink(mem, F, t, i, o);
    }
  }

  lemma UnlinkKeepsLink(mem: Memory, F: seq<int>, t: int, i: int, o: int)
    requires 1 <= t < |F| && 0 <= i < |F| - 1 && o == Kept(t, i) && F[t - 1] in mem
    requires Linked(mem, F, o) && Linked(mem, F, t) && F[o] != F[t] && (F[o] == F[t - 1] <==> o == t - 1)
    ensures Linked(Unlink(mem, F[t - 1], F[t]), Without(F, t), i)
  {
    var F' := Without(F, t);
    assert F'[i] == F[o];
    if o == t - 1 {
      assert F'[Succ(F', i)] == F[Succ(F, t)];
    } else {
      assert F'[Succ(F', i)] == F[Succ(F, o)];
    }
  }

  lemma UnlinkKeepsLive(mem: Memory, head: int, F: seq<int>, L: seq<int>, brk: int, t: int)
    requires FreeOrder(mem, head, F, brk) && LiveBlocks(mem, head, F, L, brk) && 1 <= t < |F|
    ensures LiveBlocks(Unlink(mem, F[t - 1], F[t]), head, Without(F, t), L + [F[t]], brk)
    ensures forall k :: 0 <= k < |L| ==> F[t - 1] != L[k] && F[t] != L[k]
  {
    var mem', F', L' := Unlink(mem, F[t - 1], F[t]), Without(F, t), L + [F[t]];
    DistinctBlocks(mem, head, F, brk, t, 0);
    DistinctBlocks(mem, head, F, brk, t, t - 1);
    forall k | 0 <= k < |L| ensures F[t - 1] != L[k] && F[t] != L[k] && LiveBlock(mem', head, L[k], brk) {
      assert LiveBlock(mem, head, L[k], brk) && Apart(mem, head, F[t], L[k]);
      if t > 1 { assert Apart(mem, head, F[t - 1], L[k]); }
    }
    assert Edge(mem, head, F[0]) <= F[t];
    assert LiveBlock(mem', head, F[t], brk);
    forall k, m | 0 <= k < m < |L'| ensures Apart(mem', head, L'[k], L'[m]) {
      if m < |L| { ApartFrame(mem, mem', head, L[k], L[m]); } else { ApartFrame(mem, mem', head, F[t], L[k]); }
    }
    forall i, k | 1 <= i < |F'| && 0 <= k < |L'| ensures Apart(mem', head, F'[i], L'[k]) {
      assert F'[i] == F[Kept(t, i)];
      if k < |L| {
        ApartFrame(mem, mem', head, F[Kept(t, i)], L[k]);
      }
    }
  }

  lemma UnlinkKeeps(mem: Memory, head: int, F: seq<int>, L: seq<int>, brk: int, obtained: int, t: int)
    requires WellFormed(mem, head, F, L, brk, obtained) && 1 <= t < |F|
    ensures WellFormed(Unlink(mem, F[t - 1], F[t]), head, Without(F, t), L + [F[t]], brk, obtained)
    ensures forall k :: 0 <= k < |L| ==> F[t - 1] != L[k] && F[t] != L[k]
  {
    var mem', F', L' := Unlink(mem, F[t - 1], F[t]), Without(F, t), L + [F[t]];
    OrderWithout(mem, head, F, brk, t);
    OrderFrame(mem, mem', head, F', brk);
    UnlinkKeepsCircle(mem, head, F, brk, t);
    UnlinkKeepsLive(mem, head, F, L, brk, t);
    TotalWithout(mem, F, t);
    TotalSnoc(mem, L, F[t]);
    TotalFrame(mem, mem', F');
    assert forall k :: 0 <= k < |L'| ==> LiveBlock(mem', head, L'[k], brk);
    TotalFrame(mem, mem', L');
  }

  // hole belongs between F[i] and its successor.
  ghost predicate Between(F: seq<int>, i: int, hole: int) {
    0 <= i < |F| && F[i] < hole && (i + 1 < |F| ==> hole < F[i + 1])
  }

  // F' is F with hole in its place.
  ghost predicate IsInserted(F: seq<int>, F': seq<int>, hole: int) {
    exists i :: Between(F, i, hole) && IsInsertedAt(F, F', i, hole)
  }

  ghost predicate IsInsertedAt(F: seq<int>, F': seq<int>, i: int, hole: int) {
    0 <= i < |F| && F' == Inserted(F, i, hole)
  }

  lemma LinkKeepsOrder(mem: Memory, head: int, F: seq<int>, L: seq<int>, brk: int, i: int, k: int)
    requires FreeOrder(mem, head, F, brk) && LiveBlocks(mem, head, F, L, brk)
    requires 0 <= k < |L| && Between(F, i, L[k])
    ensures FreeOrder(mem, head, Inserted(F, i, L[k]), brk)
    ensures L[k] != head
  {
    var hole := L[k];
    var F' := Inserted(F, i, hole);
    assert LiveBlock(mem, head, hole, brk);
    forall a | 0 <= a < |F|
      ensures a <= i ==> Edge(mem, head, F[a]) <= hole
      ensures a > i ==> Edge(mem, head, hole) <= F[a]
    {
      if 1 <= a { assert Apart(mem, head, F[a], hole); }
      if a < i { assert Edge(mem, head, F[a]) <= F[i]; }
      if i + 1 < a { assert Edge(mem, head, F[i + 1]) <= F[a]; }
    }
    forall a | 0 <= a < |F'|
      ensures F'[a] in mem && Edge(mem, head, F'[a]) <= brk && (a >= 1 ==> mem[F'[a]].size >= 1)
      ensures forall b :: a < b < |F'| ==> Edge(mem, head, F'[a]) <= F'[b]
    {
      assert F'[a] == if a <= i then F[a] else if a == i + 1 then hole else F[a - 1];
      forall b | a < b < |F'| ensures Edge(mem, head, F'[a]) <= F'[b] {
        assert F'[b] == if b <= i then F[b] else if b == i + 1 then hole else F[b - 1];
      }
    }
  }

  lemma LinkKeepsCircle(mem: Memory, head: int, F: seq<int>, hole: int, brk: int, i: int)
    requires FreeOrder(mem, head, F, brk) && Circle(mem, F) && hole in mem
    requires 0 <= i < |F| && forall a :: 0 <= a < |F| ==> F[a] != hole
    ensures Circle(Link(mem, F[i], hole), Inserted(F, i, hole))
  {
    var mem', F' := Link(mem, F[i], hole), Inserted(F, i, hole);
    forall a | 0 <= a < |F'| ensures Linked(mem', F', a) {
      var o := if a <= i then a else a - 1;
      DistinctBlocks(mem, head, F, brk, o, i);
      assert Linked(mem, F, o) && Linked(mem, F, i);
      LinkKeepsLink(mem, F, hole, i, a, o);
    }
  }

  lemma LinkKeepsLink(mem: Memory, F: seq<int>, hole: int, i: int, a: int, o: int)
    requires hole in mem && 0 <= i < |F| && 0 <= a <= |F| && o == if a <= i then a else a - 1
    requires Linked(mem, F, o) && Linked(mem, F, i) && F[o] != hole && F[i] != hole && (F[o] == F[i] <==> o == i)
    ensures Linked(Link(mem, F[i], hole), Inserted(F, i, hole), a)
  {
    var F' := Inserted(F, i, hole);
    if a == i + 1 {
      assert F'[a] == hole && F'[Succ(F', a)] == F[Succ(F, i)];
    } else {
      assert F'[a] == F[o];
      assert a != i ==> F'[Succ(F', a)] == F[Succ(F, o)];
    }
  }

  // A live block keeps away from the block that goes back to the list.
  lemma LinkKeepsOne(mem: Memory, head: int, F: seq<int>, L: seq<int>, brk: int, i: int, k: int, m: int)
    requires FreeOrder(mem, head, F, brk) && LiveBlocks(mem, head, F, L, brk)
    requires 0 <= k < |L| && 0 <= i < |F| && 0 <= m < |L| - 1
    ensures var p := Without(L, k)[m]; var mem' := Link(mem, F[i], L[k]);
            F[i] != p && L[k] != p && LiveBlock(mem', head, p, brk) && Apart(mem', head, L[k], p)
  {
    var mem', o := Link(mem, F[i], L[k]), Kept(k, m);
    assert Without(L, k)[m] == L[o];
    assert LiveBlock(mem, head, L[o], brk) && LiveBlock(mem, head, L[k], brk);
    if i >= 1 { assert Apart(mem, head, F[i], L[o]); }
    if o < k { ApartFrame(mem, mem', head, L[o], L[k]); } else { ApartFrame(mem, mem', head, L[k], L[o]); }
  }

  lemma LinkKeepsLive(mem: Memory, head: int, F: seq<int>, L: seq<int>, brk: int, i: int, k: int)
    requires FreeOrder(mem, head, F, brk) && LiveBlocks(mem, head, F, L, brk)
    requires 0 <= k < |L| && 0 <= i < |F|
    ensures LiveBlocks(Link(mem, F[i], L[k]), head, Inserted(F, i, L[k]), Without(L, k), brk)
    ensures forall m :: 0 <= m < |Without(L, k)| ==> F[i] != Without(L, k)[m] && L[k] != Without(L, k)[m]
  {
    var mem', F', L' := Link(mem, F[i], L[k]), Inserted(F, i, L[k]), Without(L, k);
    forall m | 0 <= m < |L'|
      ensures F[i] != L'[m] && L[k] != L'[m] && LiveBlock(mem', head, L'[m], brk)
      ensures Apart(mem', head, L[k], L'[m])
    {
      LinkKeepsOne(mem, head, F, L, brk, i, k, m);
    }
    forall m, n | 0 <= m < n < |L'| ensures Apart(mem', head, L'[m], L'[n]) {
      assert L'[m] == L[Kept(k, m)] && L'[n] == L[Kept(k, n)];
      ApartFrame(mem, mem', head, L[Kept(k, m)], L[Kept(k, n)]);
    }
    forall a, m | 1 <= a < |F'| && 0 <= m < |L'| && a != i + 1 ensures Apart(mem', head, F'[a], L'[m]) {
      var o := if a <= i then a else a - 1;
      assert F'[a] == F[o] && L'[m] == L[Kept(k, m)];
      ApartFrame(mem, mem', head, F[o], L[Kept(k, m)]);
    }
  }

  lemma LiveInMemory(mem: Memory, head: int, F: seq<int>, L: seq<int>, brk: int)
    requires LiveBlocks(mem, head, F, L, brk)
    ensures forall m :: 0 <= m < |L| ==> L[m] in mem
  {
    forall m | 0 <= m < |L| ensures L[m] in mem {
      assert LiveBlock(mem, head, L[m], brk);
    }
  }

  lemma LinkKeeps(mem: Memory, head: int, F: seq<int>, L: seq<int>, brk: int, obtained: int, i: int, k: int)
    requires WellFormed(mem, head, F, L, brk, obtained)
    requires 0 <= k < |L| && Between(F, i, L[k])
    ensures WellFormed(Link(mem, F[i], L[k]), head, Inserted(F, i, L[k]), Without(L, k), brk, obtained)
    ensures forall m :: 0 <= m < |Without(L, k)| ==> F[i] != Without(L, k)[m] && L[k] != Without(L, k)[m]
  {
    var mem', F', L' := Link(mem, F[i], L[k]), Inserted(F, i, L[k]), Without(L, k);
    assert LiveBlock(mem, head, L[k], brk);
    LinkKeepsOrder(mem, head, F, L, brk, i, k);
    OrderFrame(mem, mem', head, F', brk);
    forall a | 0 <= a < |F| ensures F[a] != L[k] {
      if a >= 1 { assert Apart(mem, head, F[a], L[k]); }
    }
    LinkKeepsCircle(mem, head, F, L[k], brk, i);
    LinkKeepsLive(mem, head, F, L, brk, i, k);
    LiveInMemory(mem, head, F, L, brk);
    LinkKeepsTotal(mem, mem', F, L, i, k);
  }

  lemma TotalInserted(mem: Memory, F: seq<int>, i: int, r: int)
    requires 0 <= i < |F| && r in mem
    ensures Total(mem, Inserted(F, i, r)) == Total(mem, F) + mem[r].size
  {
    assert Without(Inserted(F, i, r), i + 1) == F;
    TotalWithout(mem, Inserted(F, i, r), i + 1);
  }

  lemma {:induction false} TotalSameSizes(mem: Memory, mem': Memory, s: seq<int>)
    requires SameSizes(mem, mem')
    ensures Total(mem, s) == Total(mem', s)
  {
    if s != [] {
      var p := s[0];
      assert p in mem <==> p in mem';
      TotalSameSizes(mem, mem', s[1..]);
    }
  }

  lemma LinkKeepsTotal(mem: Memory, mem': Memory, F: seq<int>, L: seq<int>, i: int, k: int)
    requires SameSizes(mem, mem')
    requires 0 <= k < |L| && 0 <= i < |F| && L[k] in mem
    ensures Total(mem', Inserted(F, i, L[k])) + Total(mem', Without(L, k)) == Total(mem, F) + Total(mem, L)
  {
    TotalWithout(mem, L, k);
    TotalInserted(mem, F, i, L[k]);
    TotalSameSizes(mem, mem', Inserted(F, i, L[k]));
    TotalSameSizes(mem, mem', Without(L, k));
  }

  // A fresh region above every block joins the live blocks.
  lemma GrowKeeps(mem: Memory, head: int, F: seq<int>, L: seq<int>, brk: int, obtained: int, p: int, units: int)
    requires WellFormed(mem, head, F, L, brk, obtained) && brk <= p && 1 <= units && head + UNIT <= brk
    ensures WellFormed(mem[p := Header(units, NULL)], head, F, L + [p], p + UNIT * units, obtained + units)
  {
    var mem', L' := mem[p := Header(units, NULL)], L + [p];
    var brk' := p + UNIT * units;
    forall i | 0 <= i < |F| ensures F[i] != p && mem'[F[i]] == mem[F[i]] && Edge(mem, head, F[i]) <= p {
      assert Edge(mem, head, F[i]) <= brk;
    }
    forall i | 0 <= i < |F| ensures Linked(mem', F, i) {
      assert Linked(mem, F, i);
    }
    forall k | 0 <= k < |L|
      ensures LiveBlock(mem', head, L[k], brk') && mem'[L[k]] == mem[L[k]] && Edge(mem, head, L[k]) <= p
    {
      assert LiveBlock(mem, head, L[k], brk);
    }
    assert LiveBlock(mem', head, p, brk');
    forall k, m | 0 <= k < m < |L'| ensures Apart(mem', head, L'[k], L'[m]) {
      if m < |L| { assert Apart(mem, head, L[k], L[m]); }
    }
    forall i, k | 1 <= i < |F| && 0 <= k < |L'| ensures Apart(mem', head, F[i], L'[k]) {
      if k < |L| { assert Apart(mem, head, F[i], L[k]); }
    }
    TotalFrame(mem, mem', F);
    TotalFrame(mem, mem', L);
    TotalSnoc(mem', L, p);
  }

  // --- runs survive coalescing

  lemma MergeKeepsAdjacent(mem: Memory, head: int, F: seq<int>, brk: int, t: int, i: int)
    requires FreeOrder(mem, head, F, brk) && 1 <= t && Adjacent(mem, F, t)
    requires 0 <= i && Adjacent(mem, F, Kept(t, i))
    ensures Adjacent(Merge(mem, F[t], F[t + 1]), Without(F, t + 1), i)
  {
    var mem', F' := Merge(mem, F[t], F[t + 1]), Without(F, t + 1);
    assert F'[i] == F[Kept(t + 1, i)] && F'[i + 1] == F[Kept(t + 1, i + 1)];
    MergedBlocks(mem, head, F, brk, t, Kept(t + 1, i));
    if i < t {
      DistinctBlocks(mem, head, F, brk, i, t);
    } else if i == t {
      assert mem'[F[t]].size == mem[F[t]].size + mem[F[t + 1]].size;
    }
  }

  lemma MergedEnd(mem: Memory, head: int, F: seq<int>, brk: int, t: int, j: int)
    requires FreeOrder(mem, head, F, brk) && 1 <= t && Adjacent(mem, F, t) && 0 <= j < |F|
    ensures var mem', o := Merge(mem, F[t], F[t + 1]), if j == t + 1 then t else j;
            F[o] in mem' && F[o] + UNIT * mem'[F[o]].size >= F[j] + UNIT * mem[F[j]].size
  {
    MergedBlocks(mem, head, F, brk, t, j);
    DistinctBlocks(mem, head, F, brk, t + 1, 0);
  }

  lemma MergeKeepsRun(mem: Memory, head: int, F: seq<int>, brk: int, t: int, i: int, j: int) returns (i': int, j': int)
    requires FreeOrder(mem, head, F, brk) && 1 <= t && Adjacent(mem, F, t)
    requires Run(mem, F, i, j)
    ensures Run(Merge(mem, F[t], F[t + 1]), Without(F, t + 1), i', j')
    ensures Span(Merge(mem, F[t], F[t + 1]), Without(F, t + 1), i', j') >= Span(mem, F, i, j)
  {
    var mem', F' := Merge(mem, F[t], F[t + 1]), Without(F, t + 1);
    i', j' := if i <= t then i else i - 1, if j <= t then j else j - 1;
    MergedLinks(mem, head, F, brk, t, i, j, mem', F', i', j');
    MergedEnd(mem, head, F, brk, t, j);
    assert F'[j'] == F[if j == t + 1 then t else j];
    assert F'[i'] == F[if i == t + 1 then t else i];
    assert i == t + 1 ==> F[t] <= F[i];
  }

  lemma MergedLinks(mem: Memory, head: int, F: seq<int>, brk: int, t: int, i: int, j: int,
                    mem': Memory, F': seq<int>, i': int, j': int)
    requires FreeOrder(mem, head, F, brk) && 1 <= t && Adjacent(mem, F, t) && Run(mem, F, i, j)
    requires mem' == Merge(mem, F[t], F[t + 1]) && F' == Without(F, t + 1)
    requires i' == (if i <= t then i else i - 1) && j' == (if j <= t then j else j - 1)
    ensures forall k :: i' <= k < j' ==> Adjacent(mem', F', k)
  {
    forall k | i' <= k < j' ensures Adjacent(mem', F', k) {
      assert Adjacent(mem, F, Kept(t, k));
      MergeKeepsAdjacent(mem, head, F, brk, t, k);
    }
  }

  lemma MergeKeepsHasRun(mem: Memory, head: int, F: seq<int>, brk: int, t: int, units: int)
    requires FreeOrder(mem, head, F, brk) && 1 <= t && Adjacent(mem, F, t)
    ensures HasRun(mem, F, units) ==> HasRun(Merge(mem, F[t], F[t + 1]), Without(F, t + 1), units)
  {
    if HasRun(mem, F, units) {
      var i, j :| Run(mem, F, i, j) && Span(mem, F, i, j) >= UNIT * units;
      var i', j' := MergeKeepsRun(mem, head, F, brk, t, i, j);
    }
  }

  // --- the walk round the list

  // Node k is coalesced with everything that follows it and still too small.
  ghost predicate Settled(mem: Memory, F: seq<int>, units: int, k: int) {
    0 <= k < |F| && F[k] in mem && mem[F[k]].size < units && !Adjacent(mem, F, k)
  }

  // k lies strictly between l and t, going round from l.
  predicate Passed(l: int, t: int, k: int) {
    if l < t then l < k < t else k > l || k < t
  }

  ghost predicate AllSettled(mem: Memory, F: seq<int>, units: int, l: int, t: int) {
    forall k :: 0 <= k < |F| && Passed(l, t, k) ==> Settled(mem, F, units, k)
  }

  ghost predicate Walked(mem: Memory, F: seq<int>, units: int, l: int, t: int) {
    forall x {:trigger Unfold(x)} :: Unfold(x) ==> AllSettled(mem, F, units, l, t)
  }

  lemma WalkStarts(mem: Memory, F: seq<int>, units: int, l: int)
    requires 0 <= l < |F|
    ensures Walked(mem, F, units, l, Succ(F, l))
  {
    assert AllSettled(mem, F, units, l, Succ(F, l));
  }

  // Steps from t round to l.
  function Distance(n: int, l: int, t: int): int {
    if l >= t then l - t else l - t + n
  }

  lemma NoRunLeft(mem: Memory, head: int, F: seq<int>, brk: int, units: int)
    requires FreeOrder(mem, head, F, brk)
    requires forall k :: 0 <= k < |F| ==> Settled(mem, F, units, k)
    ensures !HasRun(mem, F, units)
  {
    forall i, j | Run(mem, F, i, j) ensures Span(mem, F, i, j) < UNIT * units {
      assert Settled(mem, F, units, i) && Settled(mem, F, units, j);
      assert i < j ==> Adjacent(mem, F, i);
    }
  }

  // Where the roving pointer goes when block t + 1 is absorbed.
  function Moved(n: int, l: int, t: int): int {
    if l == t + 1 then (if t + 2 < n then t + 1 else 0) else if l > t + 1 then l - 1 else l
  }

  lemma MergeKeepsWalked(mem: Memory, head: int, F: seq<int>, brk: int, units: int, l: int, t: int)
    requires FreeOrder(mem, head, F, brk) && 1 <= t && Adjacent(mem, F, t) && 0 <= l < |F|
    requires Walked(mem, F, units, l, t)
    ensures Walked(Merge(mem, F[t], F[t + 1]), Without(F, t + 1), units, Moved(|F|, l, t), t)
  {
    var mem', F' := Merge(mem, F[t], F[t + 1]), Without(F, t + 1);
    assert Unfold(0);
    forall k | 0 <= k < |F'| && Passed(Moved(|F|, l, t), t, k) ensures Settled(mem', F', units, k) {
      var o := Kept(t + 1, k);
      assert Passed(l, t, o);
      assert Settled(mem, F, units, o);
      MergedBlocks(mem, head, F, brk, t, o);
      assert F'[k] == F[o] && (k + 1 < |F'| ==> F'[k + 1] == F[Kept(t + 1, k + 1)]);
    }
  }

  ghost predicate SameLive(mem: Memory, mem': Memory, L: seq<int>) {
    && (forall k :: 0 <= k < |L| ==> L[k] in mem && L[k] in mem' && mem'[L[k]] == mem[L[k]])
    && (forall a :: a in mem && Payload(mem, L, a) ==> a in mem' && mem'[a] == mem[a])
  }

  // The headers and the contents of the live blocks are as they were.
  ghost predicate LiveUntouched(mem: Memory, mem': Memory, L: seq<int>) {
    forall x {:trigger Unfold(x)} :: Unfold(x) ==> SameLive(mem, mem', L)
  }

  // A header of a free block never lies inside a live one.
  lemma FreeNotPayload(mem: Memory, head: int, F: seq<int>, L: seq<int>, brk: int, i: int, a: int)
    requires FreeOrder(mem, head, F, brk) && LiveBlocks(mem, head, F, L, brk)
    requires 0 <= i < |F| && F[i] <= a && a + UNIT <= Edge(mem, head, F[i])
    ensures !Payload(mem, L, a)
    ensures forall k :: 0 <= k < |L| ==> L[k] != a
  {
    forall k | 0 <= k < |L| ensures !InBlock(mem, L[k], a) && L[k] != a {
      assert LiveBlock(mem, head, L[k], brk);
      if i >= 1 { assert Apart(mem, head, F[i], L[k]); }
    }
  }

  // Writing one header outside the live blocks leaves them untouched.
  lemma UntouchedByWrite(mem: Memory, mem': Memory, L: seq<int>, a: int, h: Header)
    requires LiveUntouched(mem, mem', L)
    requires !Payload(mem, L, a) && forall k :: 0 <= k < |L| ==> L[k] != a
    ensures LiveUntouched(mem, mem'[a := h], L)
  {
    assert Unfold(0);
  }

  // Untouched twice is untouched.
  lemma UntouchedTransitive(mem: Memory, mem': Memory, mem'': Memory, L: seq<int>)
    requires LiveUntouched(mem, mem', L) && LiveUntouched(mem', mem'', L)
    ensures LiveUntouched(mem, mem'', L)
  {
    assert Unfold(0);
    forall a | a in mem && Payload(mem, L, a) ensures a in mem'' && mem''[a] == mem[a] {
      var m :| 0 <= m < |L| && InBlock(mem, L[m], a);
      assert InBlock(mem', L[m], a);
    }
  }

  // Some gap of the ordered list takes the block.
  lemma {:induction false} FindGap(F: seq<int>, hole: int, i: int) returns (g: int)
    requires forall a, b :: 0 <= a < b < |F| ==> F[a] < F[b]
    requires hole !in F && 0 <= i < |F| && F[i] < hole
    ensures Between(F, g, hole)
    decreases |F| - i
  {
    if i + 1 < |F| && F[i + 1] < hole {
      g := FindGap(F, hole, i + 1);
    } else {
      g := i;
    }
  }

  lemma Ascending(mem: Memory, head: int, F: seq<int>, brk: int)
    requires FreeOrder(mem, head, F, brk)
    ensures forall a, b :: 0 <= a < b < |F| ==> F[a] < F[b]
  {
    forall a, b | 0 <= a < b < |F| ensures F[a] < F[b] {
      assert Edge(mem, head, F[a]) <= F[b];
    }
  }

  lemma SomeGap(mem: Memory, head: int, F: seq<int>, L: seq<int>, brk: int, obtained: int, hole: int) returns (g: int)
    requires Inv(mem, head, F, L, brk, obtained) && head < hole && hole !in F
    ensures Between(F, g, hole)
  {
    InvMeans(mem, head, F, L, brk, obtained);
    Ascending(mem, head, F, brk);
    g := FindGap(F, hole, 0);
  }

  // The test that ends the walk of free, in terms of positions.
  lemma WalkEnds(mem: Memory, head: int, F: seq<int>, L: seq<int>, brk: int, obtained: int, i: int, hole: int)
    requires Inv(mem, head, F, L, brk, obtained) && 0 <= i < |F|
    requires head < hole && hole !in F
    ensures F[i] in mem && mem[F[i]].chain == F[Succ(F, i)]
    ensures var tp, chain := F[i], mem[F[i]].chain;
            (!(tp > hole || hole > chain) || (tp >= chain && (hole > tp || hole < chain))) <==> Between(F, i, hole)
  {
    InvMeans(mem, head, F, L, brk, obtained);
    Ascending(mem, head, F, brk);
    assert Linked(mem, F, i);
    assert F[Succ(F, i)] in F;
  }

  // The test that lets malloc coalesce, in terms of positions.
  lemma CoalesceTest(mem: Memory, head: int, F: seq<int>, L: seq<int>, brk: int, obtained: int, t: int)
    requires Inv(mem, head, F, L, brk, obtained) && 0 <= t < |F|
    ensures F[t] in mem
    ensures F[t] != mem[F[t]].chain && F[t] + UNIT * mem[F[t]].size == mem[F[t]].chain
       <==> 1 <= t && Adjacent(mem, F, t)
    ensures t == 0 ==> !Adjacent(mem, F, t)
    ensures 1 <= t && Adjacent(mem, F, t) ==>
      mem[F[t]].chain == F[t + 1] && F[t + 1] in mem && mem[F[t + 1]].chain == F[Succ(F, t + 1)]
  {
    InvMeans(mem, head, F, L, brk, obtained);
    Ascending(mem, head, F, brk);
    assert Linked(mem, F, t);
    if t + 1 < |F| {
      assert Linked(mem, F, t + 1);
      assert Edge(mem, head, F[0]) <= F[t + 1];
    }
  }

  lemma OnceLive(mem: Memory, head: int, F: seq<int>, L: seq<int>, brk: int, k: int)
    requires LiveBlocks(mem, head, F, L, brk) && 0 <= k < |L|
    ensures forall m :: 0 <= m < |L| && L[m] == L[k] ==> m == k
  {
    forall m | 0 <= m < |L| && m != k ensures L[m] != L[k] {
      assert LiveBlock(mem, head, L[k], brk) && LiveBlock(mem, head, L[m], brk);
      if m < k { assert Apart(mem, head, L[m], L[k]); } else { assert Apart(mem, head, L[k], L[m]); }
    }
  }

  // The chain field tells live blocks from free ones.
  lemma HeaderState(mem: Memory, head: int, F: seq<int>, L: seq<int>, brk: int, obtained: int, hole: int)
    requires Inv(mem, head, F, L, brk, obtained)
    requires hole in F || hole in L
    ensures hole in mem
    ensures mem[hole].chain == NULL <==> hole in L
    ensures hole in L ==> hole !in F && head < hole
  {
    InvMeans(mem, head, F, L, brk, obtained);
    if hole in L {
      var k :| 0 <= k < |L| && L[k] == hole;
      assert LiveBlock(mem, head, hole, brk);
      forall i | 0 <= i < |F| ensures F[i] != hole {
        if i >= 1 { assert Apart(mem, head, F[i], hole); }
      }
    } else {
      var i :| 0 <= i < |F| && F[i] == hole;
      assert Linked(mem, F, i);
      Ascending(mem, head, F, brk);
    }
  }

  // A live block's header never lies inside another live block.
  lemma LiveNotPayload(mem: Memory, head: int, F: seq<int>, L: seq<int>, brk: int, k: int)
    requires LiveBlocks(mem, head, F, L, brk) && 0 <= k < |L|
    ensures !Payload(mem, L, L[k])
  {
    forall m | 0 <= m < |L| ensures !InBlock(mem, L[m], L[k]) {
      assert LiveBlock(mem, head, L[k], brk) && LiveBlock(mem, head, L[m], brk);
      if m < k { assert Apart(mem, head, L[m], L[k]); }
      if k < m { assert Apart(mem, head, L[k], L[m]); }
    }
  }

  // Freeing block k writes only its own header and that of the free block before it.
  lemma FreedUntouched(mem: Memory, head: int, F: seq<int>, L: seq<int>, brk: int, i: int, k: int)
    requires FreeOrder(mem, head, F, brk) && LiveBlocks(mem, head, F, L, brk)
    requires 0 <= i < |F| && 0 <= k < |L| && L[k] in mem
    ensures LiveUntouched(mem, Link(mem, F[i], L[k]), Without(L, k))
  {
    var L' := Without(L, k);
    LinkKeepsLive(mem, head, F, L, brk, i, k);
    LiveInMemory(mem, head, F, L, brk);
    assert SameLive(mem, mem, L');
    LiveNotPayload(mem, head, F, L, brk, k);
    FreeNotPayload(mem, head, F, L, brk, i, F[i]);
    assert forall a :: Payload(mem, L', a) ==> Payload(mem, L, a);
    UntouchedByWrite(mem, mem, L', L[k], Header(mem[L[k]].size, mem[F[i]].chain));
    UntouchedByWrite(mem, mem[L[k] := Header(mem[L[k]].size, mem[F[i]].chain)], L', F[i], Header(mem[F[i]].size, L[k]));
  }

  // --- the invariant as the allocator's methods carry it

  ghost predicate Inv(mem: Memory, head: int, F: seq<int>, L: seq<int>, brk: int, obtained: int) {
    forall x {:trigger Unfold(x)} :: Unfold(x) ==> WellFormed(mem, head, F, L, brk, obtained)
  }

  lemma InvMeans(mem: Memory, head: int, F: seq<int>, L: seq<int>, brk: int, obtained: int)
    ensures Inv(mem, head, F, L, brk, obtained) <==> WellFormed(mem, head, F, L, brk, obtained)
  {
    assert Unfold(0);
  }

  lemma StartInv(mem: Memory, head: int, brk: int)
    requires 0 < head && head in mem && mem[head] == Header(0, head) && head + UNIT <= brk
    ensures Inv(mem, head, [head], [], brk, 0)
  {
    assert Linked(mem, [head], 0);
    assert WellFormed(mem, head, [head], [], brk, 0);
  }

  // Node i of the list: its header, and where its chain leads.
  // The node before t and node t are two.
  lemma TwoNodes(mem: Memory, head: int, F: seq<int>, L: seq<int>, brk: int, obtained: int, t: int)
    requires Inv(mem, head, F, L, brk, obtained) && 1 <= t < |F|
    ensures F[t - 1] in mem && F[t] in mem && F[t - 1] != F[t] && 0 < F[t - 1] && 0 < F[t]
  {
    Node(mem, head, F, L, brk, obtained, t - 1);
    Node(mem, head, F, L, brk, obtained, t);
  }

  lemma Node(mem: Memory, head: int, F: seq<int>, L: seq<int>, brk: int, obtained: int, i: int)
    requires Inv(mem, head, F, L, brk, obtained) && 0 <= i < |F|
    ensures F[i] in mem && mem[F[i]].chain == F[Succ(F, i)] && 0 < F[i]
    ensures i == 0 ==> F[i] == head && mem[F[i]].size == 0
    ensures forall j :: 0 <= j < |F| && F[j] == F[i] ==> j == i
    ensures F[i] + UNIT * mem[F[i]].size <= brk || i == 0
  {
    InvMeans(mem, head, F, L, brk, obtained);
    Ascending(mem, head, F, brk);
    assert Linked(mem, F, i);
    forall j | 0 <= j < |F| && F[j] == F[i] ensures j == i {
      DistinctBlocks(mem, head, F, brk, i, j);
    }
    DistinctBlocks(mem, head, F, brk, i, 0);
  }

  lemma FreeStep(mem: Memory, head: int, F: seq<int>, L: seq<int>, brk: int, obtained: int, i: int, k: int)
    requires Inv(mem, head, F, L, brk, obtained)
    requires 0 <= k < |L| && Between(F, i, L[k])
    ensures F[i] in mem && L[k] in mem && F[i] != NULL
    ensures Inv(Link(mem, F[i], L[k]), head, Inserted(F, i, L[k]), Without(L, k), brk, obtained)
    ensures LiveUntouched(mem, Link(mem, F[i], L[k]), Without(L, k))
    ensures forall m :: 0 <= m < |L| && L[m] == L[k] ==> m == k
  {
    InvMeans(mem, head, F, L, brk, obtained);
    InvMeans(Link(mem, F[i], L[k]), head, Inserted(F, i, L[k]), Without(L, k), brk, obtained);
    LinkKeeps(mem, head, F, L, brk, obtained, i, k);
    LiveInMemory(mem, head, F, L, brk);
    FreedUntouched(mem, head, F, L, brk, i, k);
    OnceLive(mem, head, F, L, brk, k);
    Ascending(mem, head, F, brk);
  }

  lemma MergeStep(mem: Memory, head: int, F: seq<int>, L: seq<int>, brk: int, obtained: int, l: int, t: int, units: int)
    requires Inv(mem, head, F, L, brk, obtained) && 1 <= t && Adjacent(mem, F, t) && 0 <= l < |F|
    ensures F[t + 1] in mem
    ensures Inv(Merge(mem, F[t], F[t + 1]), head, Without(F, t + 1), L, brk, obtained)
    ensures LiveUntouched(mem, Merge(mem, F[t], F[t + 1]), L)
    ensures HasRun(mem, F, units) ==> HasRun(Merge(mem, F[t], F[t + 1]), Without(F, t + 1), units)
    ensures Walked(mem, F, units, l, t) ==>
      Walked(Merge(mem, F[t], F[t + 1]), Without(F, t + 1), units, Moved(|F|, l, t), t)
    ensures var l' := Moved(|F|, l, t);
            0 <= l' < |F| - 1 && Without(F, t + 1)[l'] != NULL
            && Without(F, t + 1)[l'] == if F[l] == F[t + 1] then F[Succ(F, t + 1)] else F[l]
  {
    InvMeans(mem, head, F, L, brk, obtained);
    Ascending(mem, head, F, brk);
    MergeKeeps(mem, head, F, L, brk, obtained, t);
    InvMeans(Merge(mem, F[t], F[t + 1]), head, Without(F, t + 1), L, brk, obtained);
    MergeKeepsHasRun(mem, head, F, brk, t, units);
    if Walked(mem, F, units, l, t) {
      MergeKeepsWalked(mem, head, F, brk, units, l, t);
    }
    DistinctBlocks(mem, head, F, brk, t + 1, l);
    DistinctBlocks(mem, head, F, brk, t, 0);
    LiveInMemory(mem, head, F, L, brk);
    assert SameLive(mem, mem, L);
    FreeNotPayload(mem, head, F, L, brk, t, F[t]);
    UntouchedByWrite(mem, mem, L, F[t], Header(mem[F[t]].size + mem[F[t + 1]].size, mem[F[t + 1]].chain));
  }

  // Handing out the whole of block t.
  lemma TakeStep(mem: Memory, head: int, F: seq<int>, L: seq<int>, brk: int, obtained: int, t: int)
    requires Inv(mem, head, F, L, brk, obtained) && 1 <= t < |F|
    ensures F[t - 1] in mem && F[t] in mem && F[t - 1] != F[t]
    ensures Inv(Unlink(mem, F[t - 1], F[t]), head, Without(F, t), L + [F[t]], brk, obtained)
    ensures LiveUntouched(mem, Unlink(mem, F[t - 1], F[t]), L)
  {
    InvMeans(mem, head, F, L, brk, obtained);
    UnlinkKeeps(mem, head, F, L, brk, obtained, t);
    InvMeans(Unlink(mem, F[t - 1], F[t]), head, Without(F, t), L + [F[t]], brk, obtained);
    DistinctBlocks(mem, head, F, brk, t - 1, t);
    DistinctBlocks(mem, head, F, brk, 0, t);
    LiveInMemory(mem, head, F, L, brk);
    assert SameLive(mem, mem, L);
    FreeNotPayload(mem, head, F, L, brk, t - 1, F[t - 1]);
    FreeNotPayload(mem, head, F, L, brk, t, F[t]);
    UntouchedByWrite(mem, mem, L, F[t - 1], Header(mem[F[t - 1]].size, mem[F[t]].chain));
    UntouchedByWrite(mem, mem[F[t - 1] := Header(mem[F[t - 1]].size, mem[F[t]].chain)], L, F[t],
                     Header(mem[F[t]].size, NULL));
  }

  // Cutting block t in two free blocks.
  lemma CutStep(mem: Memory, head: int, F: seq<int>, L: seq<int>, brk: int, obtained: int, t: int, units: int)
    requires Inv(mem, head, F, L, brk, obtained) && 1 <= t < |F| && F[t] in mem && 1 <= units < mem[F[t]].size
    ensures Inv(Cut(mem, F[t], units), head, Inserted(F, t, F[t] + UNIT * units), L, brk, obtained)
    ensures LiveUntouched(mem, Cut(mem, F[t], units), L)
  {
    InvMeans(mem, head, F, L, brk, obtained);
    CutKeeps(mem, head, F, L, brk, obtained, t, units);
    InvMeans(Cut(mem, F[t], units), head, Inserted(F, t, F[t] + UNIT * units), L, brk, obtained);
    var r := F[t] + UNIT * units;
    DistinctBlocks(mem, head, F, brk, 0, t);
    LiveInMemory(mem, head, F, L, brk);
    assert SameLive(mem, mem, L);
    FreeNotPayload(mem, head, F, L, brk, t, F[t]);
    FreeNotPayload(mem, head, F, L, brk, t, r);
    UntouchedByWrite(mem, mem, L, r, Header(mem[F[t]].size - units, mem[F[t]].chain));
    UntouchedByWrite(mem, mem[r := Header(mem[F[t]].size - units, mem[F[t]].chain)], L, F[t], Header(units, r));
  }

  // The three headers of a split as malloc leaves them.
  function Carve(mem: Memory, q: int, p: int, units: int): Memory
    requires q in mem && p in mem
  {
    var r := p + UNIT * units;
    mem[q := Header(mem[q].size, r)][r := Header(mem[p].size - units, mem[p].chain)][p := Header(units, NULL)]
  }

  // The same for a heap before and after.
  lemma TakenWhole(mem: Memory, mem': Memory, head: int, F: seq<int>, F': seq<int>, L: seq<int>, L': seq<int>,
                   brk: int, obtained: int, t: int, q: int, p: int)
    requires Inv(mem, head, F, L, brk, obtained) && 1 <= t < |F| && F[t - 1] == q && F[t] == p && q in mem && p in mem
    requires mem' == Unlink(mem, q, p) && F' == Without(F, t) && L' == L + [p]
    ensures Inv(mem', head, F', L', brk, obtained) && LiveUntouched(mem, mem', L) && q in F'
  {
    TakeStep(mem, head, F, L, brk, obtained, t);
    assert F'[t - 1] == q;
  }

  lemma TakenFront(mem: Memory, mem': Memory, head: int, F: seq<int>, F': seq<int>, L: seq<int>, L': seq<int>,
                   brk: int, obtained: int, t: int, q: int, p: int, units: int)
    requires Inv(mem, head, F, L, brk, obtained) && 1 <= t < |F| && F[t - 1] == q && F[t] == p && q in mem && p in mem
    requires 1 <= units < mem[p].size
    requires mem' == Carve(mem, q, p, units) && F' == F[t := p + UNIT * units] && L' == L + [p]
    ensures Inv(mem', head, F', L', brk, obtained) && LiveUntouched(mem, mem', L) && q in F'
  {
    CarveStep(mem, head, F, L, brk, obtained, t, units);
    SameHeap(Carve(mem, F[t - 1], F[t], units), mem', head, F[t := F[t] + UNIT * units], F', L, L + [F[t]], L', brk,
             obtained, mem);
    assert F'[t - 1] == q;
  }

  lemma SameHeap(mem: Memory, mem': Memory, head: int, F: seq<int>, F': seq<int>, L0: seq<int>, L: seq<int>,
                 L': seq<int>, brk: int, obtained: int, before: Memory)
    requires mem == mem' && F == F' && L == L' && Inv(mem, head, F, L, brk, obtained) && LiveUntouched(before, mem, L0)
    ensures Inv(mem', head, F', L', brk, obtained) && LiveUntouched(before, mem', L0)
  {
  }

  // Handing out the first units of block t; the rest takes its place in the list.
  lemma CarveStep(mem: Memory, head: int, F: seq<int>, L: seq<int>, brk: int, obtained: int, t: int, units: int)
    requires Inv(mem, head, F, L, brk, obtained) && 1 <= t < |F| && F[t] in mem && F[t - 1] in mem
    requires 1 <= units < mem[F[t]].size
    ensures F[t - 1] != F[t]
    ensures Inv(Carve(mem, F[t - 1], F[t], units), head, F[t := F[t] + UNIT * units], L + [F[t]], brk, obtained)
    ensures LiveUntouched(mem, Carve(mem, F[t - 1], F[t], units), L)
  {
    var p, q, r := F[t], F[t - 1], F[t] + UNIT * units;
    CarveApart(mem, head, F, L, brk, obtained, t, units);
    CutStep(mem, head, F, L, brk, obtained, t, units);
    var mem1, F1 := Cut(mem, p, units), Inserted(F, t, r);
    TakeStep(mem1, head, F1, L, brk, obtained, t);
    UntouchedTransitive(mem, mem1, Unlink(mem1, F1[t - 1], F1[t]), L);
    CarveIsBoth(mem, q, p, units);
    assert Without(F1, t) == F[t := r];
    SameHeap(Unlink(mem1, F1[t - 1], F1[t]), Carve(mem, F[t - 1], F[t], units), head, Without(F1, t),
             F[t := F[t] + UNIT * units], L, L + [F1[t]], L + [F[t]], brk, obtained, mem);
  }

  lemma CarveApart(mem: Memory, head: int, F: seq<int>, L: seq<int>, brk: int, obtained: int, t: int, units: int)
    requires Inv(mem, head, F, L, brk, obtained) && 1 <= t < |F| && F[t] in mem && 1 <= units < mem[F[t]].size
    ensures F[t - 1] != F[t] && F[t - 1] != F[t] + UNIT * units
  {
    InvMeans(mem, head, F, L, brk, obtained);
    CutBlocks(mem, head, F, brk, t, units, t - 1);
    DistinctBlocks(mem, head, F, brk, t - 1, t);
  }

  lemma CarveIsBoth(mem: Memory, q: int, p: int, units: int)
    requires q in mem && p in mem && q != p && units >= 1 && q != p + UNIT * units
    ensures Unlink(Cut(mem, p, units), q, p) == Carve(mem, q, p, units)
  {
  }

  lemma GrowStep(mem: Memory, head: int, F: seq<int>, L: seq<int>, brk: int, obtained: int, units: int)
    requires Inv(mem, head, F, L, brk, obtained) && 1 <= units && head + UNIT <= brk
    ensures Inv(mem[brk := Header(units, NULL)], head, F, L + [brk], brk + UNIT * units, obtained + units)
    ensures LiveUntouched(mem, mem[brk := Header(units, NULL)], L)
  {
    InvMeans(mem, head, F, L, brk, obtained);
    GrowKeeps(mem, head, F, L, brk, obtained, brk, units);
    InvMeans(mem[brk := Header(units, NULL)], head, F, L + [brk], brk + UNIT * units, obtained + units);
    LiveInMemory(mem, head, F, L, brk);
    assert SameLive(mem, mem, L);
    forall k | 0 <= k < |L| ensures L[k] != brk && !InBlock(mem, L[k], brk) {
      assert LiveBlock(mem, head, L[k], brk);
    }
    UntouchedByWrite(mem, mem, L, brk, Header(units, NULL));
  }

  // One step of the walk past a settled node.
  lemma WalkOn(mem: Memory, F: seq<int>, units: int, l: int, t: int)
    requires 0 <= l < |F| && 0 <= t < |F| && l != t
    requires Walked(mem, F, units, l, t) && Settled(mem, F, units, t)
    ensures Walked(mem, F, units, l, Succ(F, t))
    ensures Distance(|F|, l, Succ(F, t)) < Distance(|F|, l, t)
  {
    assert Unfold(0);
    forall k | 0 <= k < |F| && Passed(l, Succ(F, t), k) ensures Settled(mem, F, units, k) {
      assert k == t || Passed(l, t, k);
    }
  }

  // Back at the roving pointer, every run of adjacent free blocks is known to be too small.
  lemma WalkedRound(mem: Memory, head: int, F: seq<int>, L: seq<int>, brk: int, obtained: int, units: int, l: int)
    requires Inv(mem, head, F, L, brk, obtained) && 0 <= l < |F|
    requires Walked(mem, F, units, l, l) && Settled(mem, F, units, l)
    ensures !HasRun(mem, F, units)
  {
    InvMeans(mem, head, F, L, brk, obtained);
    assert Unfold(0);
    forall k | 0 <= k < |F| ensures Settled(mem, F, units, k) {
      assert k == l || Passed(l, l, k);
    }
    NoRunLeft(mem, head, F, brk, units);
  }

  class Heap {
    const head: int           // address of the static list head
    var mem: Memory           // every header cell in use
    var last: int             // the roving pointer; null before the first malloc
    var brk: int              // $MEMRY: first address not yet handed out by sbrk
    var sbot: int             // lowest address the heap may not reach
    ghost var F: seq<int>     // the free list in address order, head first
    ghost var L: seq<int>     // the blocks handed out
    ghost var obtained: int   // units obtained from sbrk

    ghost predicate Valid()
      reads this
    {
      && 0 < head && head + UNIT <= brk <= sbot <= 0xFFFF
      && if last == NULL then F == [head] && L == [] && obtained == 0 && head in mem && mem[head].size == 0
         else last in F && Inv(mem, head, F, L, brk, obtained)
    }

    constructor (head: int, brk: int, sbot: int)
      requires 0 < head && head + UNIT <= brk <= sbot <= 0xFFFF
      ensures Valid() && L == [] && last == NULL
      ensures this.head == head && this.brk == brk && this.sbot == sbot
    {
      this.head, this.brk, this.sbot := head, brk, sbot;
      mem, last := map[head := Header(0, NULL)], NULL;
      F, L, obtained := [head], [], 0;
    }

    // sbrk moves the break up if the new value stays below the stack.
    method Sbrk(size: int) returns (p: int)
      requires 0 <= size <= 0xFFFF
      modifies this`brk
      ensures if old(brk) + size <= sbot && old(brk) + size <= 0xFFFF then p == old(brk) && brk == old(brk) + size
              else p == -1 && brk == old(brk)
    {
      if brk + size > 0xFFFF || sbot < brk + size {
        p := -1;
      } else {
        p := brk;
        brk := brk + size;
      }
    }

    // The walk of free: from the roving pointer to the block that precedes the hole.
    method FindPlace(hole: int) returns (tp: int, ghost i: int)
      requires Valid() && last != NULL
      requires head < hole && hole !in F
      ensures Between(F, i, hole) && F[i] == tp
    {
      i :| 0 <= i < |F| && F[i] == last;
      ghost var g := SomeGap(mem, head, F, L, brk, obtained, hole);
      tp := last;
      WalkEnds(mem, head, F, L, brk, obtained, i, hole);
      while tp > hole || hole > mem[tp].chain
        invariant 0 <= i < |F| && F[i] == tp && tp in mem && mem[tp].chain == F[Succ(F, i)]
        invariant Between(F, i, hole) <==>
          || !(tp > hole || hole > mem[tp].chain)
          || (tp >= mem[tp].chain && (hole > tp || hole < mem[tp].chain))
        decreases Distance(|F|, g, i)
      {
        if tp >= mem[tp].chain && (hole > tp || hole < mem[tp].chain) {
          break;
        }
        tp := mem[tp].chain;
        i := Succ(F, i);
        WalkEnds(mem, head, F, L, brk, obtained, i, hole);
      }
    }

    method LinkAfter(tp: int, hole: int)
      requires tp in mem && hole in mem && tp != hole
      modifies this`mem, this`last
      ensures mem == Link(old(mem), tp, hole) && last == tp
    {
      mem := mem[hole := Header(mem[hole].size, mem[tp].chain)];
      mem := mem[tp := Header(mem[tp].size, hole)];
      last := tp;
    }

    // free: link the block in at its place, or refuse one that is free already.
    method Free(area: int) returns (status: int)
      requires Valid() && last != NULL
      requires area - UNIT in F || area - UNIT in L
      modifies this`mem, this`last, this`F, this`L
      ensures Valid() && last != NULL
      ensures area - UNIT !in old(L) ==>
        status == -1 && mem == old(mem) && last == old(last) && F == old(F) && L == old(L)
      ensures area - UNIT in old(L) ==> status == 0 && LiveUntouched(old(mem), mem, L)
      ensures area - UNIT in old(L) ==> IsInserted(old(F), F, area - UNIT)
      ensures forall k :: 0 <= k < |old(L)| && old(L)[k] == area - UNIT ==> L == Without(old(L), k)
    {
      var hole := area - UNIT;
      HeaderState(mem, head, F, L, brk, obtained, hole);
      if mem[hole].chain != NULL {
        return -1;
      }
      ghost var k :| 0 <= k < |L| && L[k] == hole;
      var tp;
      ghost var i;
      tp, i := FindPlace(hole);
      FreeStep(mem, head, F, L, brk, obtained, i, k);
      LinkAfter(tp, hole);
      F, L := Inserted(F, i, hole), Without(L, k);
      assert F[i] == last;
      assert IsInsertedAt(old(F), F, i, hole);
      status := 0;
    }

    // tp takes over the size and the chain of its successor; the roving pointer leaves the successor.
    method JoinNext(tp: int)
      requires tp in mem && mem[tp].chain in mem
      modifies this`mem, this`last
      ensures mem == Merge(old(mem), tp, old(mem)[tp].chain)
      ensures last == if old(last) == old(mem)[tp].chain then old(mem)[old(mem)[tp].chain].chain else old(last)
    {
      if last == mem[tp].chain {
        last := mem[mem[tp].chain].chain;
      }
      var q := mem[tp].chain;
      mem := mem[tp := Header(mem[tp].size + mem[q].size, mem[q].chain)];
    }

    // One round of malloc's inner loop: tp absorbs the block that follows it.
    method Absorb(tp: int, ghost t: int, ghost l0: int, ghost units: int) returns (ghost l: int)
      requires Valid() && last != NULL
      requires 1 <= t && Adjacent(mem, F, t) && F[t] == tp && 0 <= l0 < |F| && F[l0] == last
      requires Walked(mem, F, units, l0, t)
      modifies this`mem, this`last, this`F
      ensures Valid() && last != NULL
      ensures F == Without(old(F), t + 1)
      ensures 0 <= l < |F| && F[l] == last && Walked(mem, F, units, l, t)
      ensures old(HasRun(mem, F, units)) ==> HasRun(mem, F, units)
      ensures LiveUntouched(old(mem), mem, L)
    {
      CoalesceTest(mem, head, F, L, brk, obtained, t);
      MergeStep(mem, head, F, L, brk, obtained, l0, t, units);
      JoinNext(tp);
      l := Moved(|F|, l0, t);
      F := Without(F, t + 1);
      assert F[l] == last;
    }

    // The inner loop of malloc: absorb every block that follows tp without a gap.
    method Coalesce(tp: int, ghost t: int, ghost l0: int, ghost units: int) returns (ghost l: int)
      requires Valid() && last != NULL
      requires 0 <= t < |F| && F[t] == tp && 0 <= l0 < |F| && F[l0] == last
      requires Walked(mem, F, units, l0, t)
      modifies this`mem, this`last, this`F
      ensures Valid() && last != NULL
      ensures t < |F| <= |old(F)| && F[..t + 1] == old(F[..t + 1]) && 0 <= l < |F| && F[l] == last
      ensures Walked(mem, F, units, l, t) && !Adjacent(mem, F, t)
      ensures |F| == |old(F)| ==> F == old(F) && l == l0
      ensures t == 0 ==> F == old(F)
      ensures old(HasRun(mem, F, units)) ==> HasRun(mem, F, units)
      ensures LiveUntouched(old(mem), mem, L)
    {
      l := l0;
      StillUntouched(mem, head, F, L, brk, obtained);
      CoalesceTest(mem, head, F, L, brk, obtained, t);
      while tp != mem[tp].chain && tp + UNIT * mem[tp].size == mem[tp].chain
        invariant Valid() && last != NULL
        invariant 0 <= t < |F| <= |old(F)| && F[t] == tp && tp in mem && F[..t + 1] == old(F[..t + 1])
        invariant 0 <= l < |F| && F[l] == last && Walked(mem, F, units, l, t)
        invariant |F| == |old(F)| || t == 0 ==> F == old(F) && l == l0
        invariant old(HasRun(mem, F, units)) ==> HasRun(mem, F, units)
        invariant LiveUntouched(old(mem), mem, L)
        invariant tp != mem[tp].chain && tp + UNIT * mem[tp].size == mem[tp].chain <==> 1 <= t && Adjacent(mem, F, t)
        invariant t == 0 ==> !Adjacent(mem, F, t)
        decreases |F|
      {
        ghost var mem0 := mem;
        l := Absorb(tp, t, l, units);
        UntouchedTransitive(old(mem), mem0, mem, L);
        CoalesceTest(mem, head, F, L, brk, obtained, t);
      }
    }

    // tp leaves the list whole, or its first units do; the roving pointer stays before it.
    method TakeWhole(prev: int, tp: int)
      requires prev in mem && tp in mem && prev != tp
      modifies this`mem, this`last
      ensures mem == Unlink(old(mem), prev, tp) && last == prev
    {
      mem := mem[prev := Header(mem[prev].size, mem[tp].chain)];
      last := prev;
      mem := mem[tp := Header(mem[tp].size, NULL)];
    }

    method TakeFront(prev: int, tp: int, units: int)
      requires prev in mem && tp in mem && prev != tp && units >= 1
      modifies this`mem, this`last
      ensures mem == Carve(old(mem), prev, tp, units) && last == prev
    {
      last := tp + UNIT * units;
      mem := mem[prev := Header(mem[prev].size, last)];
      mem := mem[last := Header(mem[tp].size - units, mem[tp].chain)];
      mem := mem[tp := Header(units, mem[tp].chain)];
      last := prev;
      mem := mem[tp := Header(mem[tp].size, NULL)];
    }

    // The end of a successful walk: hand out tp, or its first units.
    method Take(prev: int, tp: int, units: int, ghost t: int) returns (r: int)
      requires Valid() && last != NULL
      requires 1 <= t < |F| && F[t] == tp && F[t - 1] == prev
      requires tp in mem && 1 <= units <= mem[tp].size
      modifies this`mem, this`last, this`F, this`L
      ensures Valid() && last == prev != NULL
      ensures r == tp + UNIT != NULL && L == old(L) + [tp] && tp in mem && mem[tp].size == units
      ensures LiveUntouched(old(mem), mem, old(L))
    {
      TwoNodes(mem, head, F, L, brk, obtained, t);
      if mem[tp].size == units {
        TakeAll(prev, tp, t);
      } else {
        TakePart(prev, tp, units, t);
      }
      r := tp + UNIT;
    }

    method TakeAll(prev: int, tp: int, ghost t: int)
      requires Valid() && last != NULL && 1 <= t < |F| && F[t] == tp && F[t - 1] == prev
      requires prev in mem && tp in mem && prev != tp && 0 < prev
      modifies this`mem, this`last, this`F, this`L
      ensures Valid() && last == prev && L == old(L) + [tp] && tp in mem && mem[tp].size == old(mem)[tp].size
      ensures LiveUntouched(old(mem), mem, old(L))
    {
      TakeWhole(prev, tp);
      F, L := Without(F, t), L + [tp];
      TakenWhole(old(mem), mem, head, old(F), F, old(L), L, brk, obtained, t, prev, tp);
    }

    method TakePart(prev: int, tp: int, units: int, ghost t: int)
      requires Valid() && last != NULL && 1 <= t < |F| && F[t] == tp && F[t - 1] == prev
      requires prev in mem && tp in mem && prev != tp && 0 < prev && 1 <= units < mem[tp].size
      modifies this`mem, this`last, this`F, this`L
      ensures Valid() && last == prev && L == old(L) + [tp] && tp in mem && mem[tp].size == units
      ensures LiveUntouched(old(mem), mem, old(L))
    {
      TakeFront(prev, tp, units);
      F, L := F[t := tp + UNIT * units], L + [tp];
      TakenFront(old(mem), mem, head, old(F), F, old(L), L, brk, obtained, t, prev, tp, units);
    }

    // sbrk for another grain, freed at once.  Only asked for when no run of free blocks is long enough.
    method Grow(ghost units: int) returns (ok: bool, ghost l: int)
      requires Valid() && last != NULL
      requires !HasRun(mem, F, units)
      modifies this
      ensures Valid() && last != NULL && sbot == old(sbot) && L == old(L)
      ensures ok <==> old(brk) + GRAIN <= sbot
      ensures ok ==> 0 <= l < |F| && F[l] == last && Walked(mem, F, units, l, Succ(F, l))
      ensures ok ==> brk == old(brk) + GRAIN && obtained == old(obtained) + GRAIN / UNIT
      ensures !ok ==>
        brk == old(brk) && obtained == old(obtained) && F == old(F) && mem == old(mem) && last == old(last)
      ensures LiveUntouched(old(mem), mem, L)
    {
      StillUntouched(mem, head, F, L, brk, obtained);
      GrowStep(mem, head, F, L, brk, obtained, GRAIN / UNIT);
      var tp := Sbrk(GRAIN);
      if tp == -1 {
        return false, 0;
      }
      mem := mem[tp := Header(GRAIN / UNIT, NULL)];
      ghost var mem1 := mem;
      L := L + [tp];
      obtained := obtained + GRAIN / UNIT;
      assert L[|L| - 1] == tp;
      var _ := Free(tp + UNIT);
      assert L == old(L);
      UntouchedTransitive(old(mem), mem1, mem, L);
      ok := true;
      l :| 0 <= l < |F| && F[l] == last;
      WalkStarts(mem, F, units, l);
    }

    // The first call makes the head a list of its own.
    method Start() returns (prev: int, ghost l: int)
      requires Valid()
      modifies this`mem, this`last
      ensures Valid() && last != NULL && 0 <= l < |F| && F[l] == last == prev
      ensures old(last) != NULL ==> mem == old(mem) && last == old(last)
      ensures LiveUntouched(old(mem), mem, L)
    {
      prev := last;
      if prev == NULL {
        mem := mem[head := mem[head].(chain := head)];
        last, prev := head, head;
        StartInv(mem, head, brk);
        assert SameLive(old(mem), mem, L);
      } else {
        StillUntouched(mem, head, F, L, brk, obtained);
      }
      l :| 0 <= l < |F| && F[l] == last;
    }

    // Past a node that is too small: step on from it, or grow the heap when the walk is back at the start.
    method Onward(tp: int, ghost units: int, ghost t0: int, ghost l0: int)
        returns (ok: bool, from: int, ghost t: int, ghost l: int)
      requires Valid() && last != NULL
      requires 0 <= l0 < |F| && F[l0] == last && 0 <= t0 < |F| && F[t0] == tp
      requires Walked(mem, F, units, l0, t0) && Settled(mem, F, units, t0)
      modifies this
      ensures Valid() && last != NULL && sbot == old(sbot) && L == old(L)
      ensures LiveUntouched(old(mem), mem, L)
      ensures UNIT * (obtained - old(obtained)) == brk - old(brk)
      ensures ok ==>
        0 <= l < |F| && F[l] == last && 0 <= t < |F| && F[t] == from && Walked(mem, F, units, l, Succ(F, t))
      ensures ok && brk == old(brk) ==>
        F == old(F) && mem == old(mem) && Distance(|F|, l, Succ(F, t)) < Distance(|F|, l0, t0)
      ensures ok && brk != old(brk) ==> brk > old(brk) && !old(HasRun(mem, F, units))
      ensures !ok ==> brk == old(brk) && brk + GRAIN > sbot && !HasRun(mem, F, units) && !old(HasRun(mem, F, units))
    {
      ok, from, t, l := true, tp, t0, l0;
      if tp == last {
        Node(mem, head, F, L, brk, obtained, l);
        WalkedRound(mem, head, F, L, brk, obtained, units, l);
        ok, l := Grow(units);
        from, t := last, l;
      } else {
        StillUntouched(mem, head, F, L, brk, obtained);
        WalkOn(mem, F, units, l, t);
      }
    }

    // One round of malloc's outer loop at tp: hand out a block, give up, or name the node to step from.
    method Visit(prev: int, tp: int, units: int, ghost t0: int, ghost l0: int)
        returns (done: bool, r: int, from: int, ghost t: int, ghost l: int)
      requires Valid() && last != NULL && 1 <= units
      requires 0 <= l0 < |F| && F[l0] == last && 0 <= t0 < |F| && F[t0] == tp && (t0 >= 1 ==> F[t0 - 1] == prev)
      requires Walked(mem, F, units, l0, t0)
      modifies this
      ensures Valid() && last != NULL && sbot == old(sbot)
      ensures LiveUntouched(old(mem), mem, old(L))
      ensures UNIT * (obtained - old(obtained)) == brk - old(brk)
      ensures done && r != NULL ==>
        L == old(L) + [r - UNIT] && r - UNIT in mem && mem[r - UNIT].size == units && brk == old(brk)
      ensures done && r == NULL ==>
        L == old(L) && brk == old(brk) && brk + GRAIN > sbot && !HasRun(mem, F, units) && !old(HasRun(mem, F, units))
      ensures !done ==> L == old(L) && 0 <= l < |F| && F[l] == last && 0 <= t < |F| && F[t] == from
      ensures !done ==> Walked(mem, F, units, l, Succ(F, t))
      ensures !done && brk == old(brk) ==>
        && (|F| < |old(F)| || (|F| == |old(F)| && Distance(|F|, l, Succ(F, t)) < Distance(|F|, l0, t0)))
        && (old(HasRun(mem, F, units)) ==> HasRun(mem, F, units))
      ensures !done && brk != old(brk) ==> brk > old(brk) && !old(HasRun(mem, F, units))
    {
      t, from, r := t0, tp, NULL;
      l := Coalesce(tp, t0, l0, units);
      ghost var mem1 := mem;
      Node(mem, head, F, L, brk, obtained, t);
      if mem[tp].size >= units {
        done := true;
        r := Take(prev, tp, units, t);
      } else {
        var ok;
        ok, from, t, l := Onward(tp, units, t, l);
        done := !ok;
      }
      UntouchedTransitive(old(mem), mem1, mem, old(L));
    }

    // malloc: the first fit at or after the roving pointer.
    method Malloc(size: int) returns (r: int)
      requires Valid() && 0 <= size <= 0xFFFF
      modifies this
      ensures Valid() && last != NULL && sbot == old(sbot)
      ensures LiveUntouched(old(mem), mem, old(L))
      ensures UNIT * (obtained - old(obtained)) == brk - old(brk)
      ensures r != NULL ==> L == old(L) + [r - UNIT] && r - UNIT in mem && mem[r - UNIT].size == UnitsFor(size)
      ensures r == NULL ==> L == old(L) && brk + GRAIN > sbot && !HasRun(mem, F, UnitsFor(size))
      ensures old(last != NULL && HasRun(mem, F, UnitsFor(size))) ==> r != NULL && brk == old(brk)
    {
      var units := UnitsFor(size);
      var prev;
      ghost var l, t;
      prev, l := Start();
      t := Succ(F, l);
      WalkStarts(mem, F, units, l);
      Node(mem, head, F, L, brk, obtained, l);
      var tp := mem[prev].chain;
      while true
        invariant Valid() && last != NULL && sbot == old(sbot) && L == old(L)
        invariant 0 <= l < |F| && F[l] == last && 0 <= t < |F| && F[t] == tp && (t >= 1 ==> F[t - 1] == prev)
        invariant Walked(mem, F, units, l, t)
        invariant LiveUntouched(old(mem), mem, L) && UNIT * (obtained - old(obtained)) == brk - old(brk)
        invariant old(last != NULL && HasRun(mem, F, units)) ==> HasRun(mem, F, units) && brk == old(brk)
        decreases sbot - brk, |F|, Distance(|F|, l, t)
      {
        ghost var mem0 := mem;
        var done;
        done, r, prev, t, l := Visit(prev, tp, units, t, l);
        UntouchedTransitive(old(mem), mem0, mem, old(L));
        if done {
          return;
        }
        Node(mem, head, F, L, brk, obtained, t);
        tp := mem[prev].chain;
        t := Succ(F, t);
      }
    }

    // The program writes into a block it holds.
    method Store(area: int, offset: int, value: Header)
      requires Valid() && area - UNIT in L && area - UNIT in mem
      requires 0 <= offset && offset + UNIT <= UNIT * (mem[area - UNIT].size - 1)
      modifies this`mem
      ensures Valid() && mem == old(mem)[area + offset := value]
    {
      ghost var k :| 0 <= k < |L| && L[k] == area - UNIT;
      assert last != NULL;
      var a := area + offset;
      StoreStep(mem, head, F, L, brk, obtained, k, a, value);
      mem := mem[a := value];
    }

    // The areas the program holds are the live blocks, in order.
    ghost predicate Holds(held: seq<int>)
      reads this
    {
      |held| == |L| && forall k :: 0 <= k < |held| ==> held[k] - UNIT == L[k]
    }

    method FreeHeld(held: seq<int>, k: int) returns (held': seq<int>)
      requires Valid() && Holds(held) && 0 <= k < |held|
      modifies this
      ensures Valid() && Holds(held') && brk == old(brk) && obtained == old(obtained)
    {
      assert L[k] == held[k] - UNIT && L[k] in L;
      var _ := Free(held[k]);
      held' := held[..k] + held[k + 1..];
    }

    method StoreHeld(held: seq<int>, k: int, offset: int, value: Header)
      requires Valid() && Holds(held) && 0 <= k < |held|
      modifies this
      ensures Valid() && Holds(held) && brk == old(brk) && obtained == old(obtained)
    {
      assert L[k] == held[k] - UNIT && L[k] in L;
      HeaderState(mem, head, F, L, brk, obtained, L[k]);
      if 0 <= offset && offset + UNIT <= UNIT * (mem[held[k] - UNIT].size - 1) {
        Store(held[k], offset, value);
      }
    }

    // Any run of calls: malloc, free of a held area, a store into a held area, sbrk by the program itself.
    // What the break moved is what the heap's units take and what the program took for itself.
    method Run(calls: seq<Call>) returns (held: seq<int>, ghost own: nat)
      requires Valid() && L == []
      modifies this
      ensures Valid() && Holds(held)
      ensures last != NULL ==> WellFormed(mem, head, F, L, brk, obtained)
      ensures UNIT * (obtained - old(obtained)) + own == brk - old(brk)
    {
      held, own := [], 0;
      for n := 0 to |calls|
        invariant Valid() && Holds(held) && UNIT * (obtained - old(obtained)) + own == brk - old(brk)
      {
        match calls[n] {
          case DoMalloc(size) =>
            if 0 <= size <= 0xFFFF {
              var r := Malloc(size);
              held := if r != NULL then held + [r] else held;
            }
          case DoFree(k) =>
            if 0 <= k < |held| {
              held := FreeHeld(held, k);
            }
          case DoStore(k, offset, value) =>
            if 0 <= k < |held| {
              StoreHeld(held, k, offset, value);
            }
          case DoSbrk(size) =>
            if 0 <= size <= 0xFFFF {
              SbrkStep(mem, head, F, L, brk, obtained, last, size);
              var p := Sbrk(size);
              own := own + if p == -1 then 0 else size;
            }
        }
      }
      InvMeans(mem, head, F, L, brk, obtained);
    }
  }

  // What a program can do with its heap.
  datatype Call = DoMalloc(size: int) | DoFree(k: int) | DoStore(k: int, offset: int, value: Header) | DoSbrk(size: int)

  // Only the headers of the free and live blocks matter, and the break may be higher.
  lemma InvFrame(mem: Memory, mem': Memory, head: int, F: seq<int>, L: seq<int>, brk: int, brk': int, obtained: int)
    requires WellFormed(mem, head, F, L, brk, obtained) && brk <= brk'
    requires forall i :: 0 <= i < |F| ==> F[i] in mem' && mem'[F[i]] == mem[F[i]]
    requires forall k :: 0 <= k < |L| ==> L[k] in mem' && mem'[L[k]] == mem[L[k]]
    ensures WellFormed(mem', head, F, L, brk', obtained)
  {
    forall i | 0 <= i < |F| ensures Linked(mem', F, i) {
      assert Linked(mem, F, i);
    }
    forall k | 0 <= k < |L| ensures LiveBlock(mem', head, L[k], brk') {
      assert LiveBlock(mem, head, L[k], brk);
    }
    forall k, m | 0 <= k < m < |L| ensures Apart(mem', head, L[k], L[m]) {
      assert Apart(mem, head, L[k], L[m]);
    }
    forall i, k | 1 <= i < |F| && 0 <= k < |L| ensures Apart(mem', head, F[i], L[k]) {
      assert Apart(mem, head, F[i], L[k]);
    }
    TotalFrame(mem, mem', F);
    TotalFrame(mem, mem', L);
  }

  lemma StoreStep(mem: Memory, head: int, F: seq<int>, L: seq<int>, brk: int, obtained: int, k: int, a: int, h: Header)
    requires Inv(mem, head, F, L, brk, obtained)
    requires 0 <= k < |L| && L[k] in mem && L[k] + UNIT <= a && a + UNIT <= L[k] + UNIT * mem[L[k]].size
    ensures Inv(mem[a := h], head, F, L, brk, obtained)
  {
    InvMeans(mem, head, F, L, brk, obtained);
    assert LiveBlock(mem, head, L[k], brk);
    forall i | 0 <= i < |F| ensures F[i] != a {
      if i >= 1 { assert Apart(mem, head, F[i], L[k]); }
    }
    forall m | 0 <= m < |L| ensures L[m] != a {
      if m < k { assert Apart(mem, head, L[m], L[k]); }
      if k < m { assert Apart(mem, head, L[k], L[m]); }
      assert LiveBlock(mem, head, L[m], brk);
    }
    LiveInMemory(mem, head, F, L, brk);
    InvFrame(mem, mem[a := h], head, F, L, brk, brk, obtained);
    InvMeans(mem[a := h], head, F, L, brk, obtained);
  }

  lemma SbrkStep(mem: Memory, head: int, F: seq<int>, L: seq<int>, brk: int, obtained: int, last: int, size: int)
    requires 0 <= size
    requires last != NULL ==> Inv(mem, head, F, L, brk, obtained)
    ensures last != NULL ==> Inv(mem, head, F, L, brk + size, obtained)
  {
    if last != NULL {
      InvMeans(mem, head, F, L, brk, obtained);
      LiveInMemory(mem, head, F, L, brk);
      InvFrame(mem, mem, head, F, L, brk, brk + size, obtained);
      InvMeans(mem, head, F, L, brk + size, obtained);
    }
  }

  lemma StillUntouched(mem: Memory, head: int, F: seq<int>, L: seq<int>, brk: int, obtained: int)
    requires Inv(mem, head, F, L, brk, obtained)
    ensures LiveUntouched(mem, mem, L)
  {
    InvMeans(mem, head, F, L, brk, obtained);
    LiveInMemory(mem, head, F, L, brk);
    assert SameLive(mem, mem, L);
  }
}
