/**
  The symbol table of the CP/M assembler (disks/J/AS3SYM.ASM): hash chains of packed entries in memory that
  stand for a map from keys to types and values. A key is the 7-bit hash of the whole identifier together
  with its first sixteen characters.
 */
module SymbolTable {
  import opened Arithmetic

  type byte = x: int | 0 <= x < 0x100
  type word = x: int | 0 <= x < 0x10000

  const FIXD := 5
  const HSIZE := 128

  datatype Key = Key(hash: int, name: seq<byte>)

  // A symbol as entered: where it lies, its key, its type and its value.
  datatype Symbol = Symbol(addr: int, key: Key, kind: int, value: int)

  function End(s: Symbol): int { s.addr + FIXD + |s.key.name| }

  // --- memory

  function WordAt(m: seq<byte>, a: int): int
    requires 0 <= a < |m| - 1
  {
    m[a] as int + 0x100 * m[a + 1] as int
  }

  // The bytes from s.addr on are the entry of s, linked to the entry at `link`.
  ghost predicate Stored(m: seq<byte>, s: Symbol, link: int) {
    && 1 <= |s.key.name| <= 16 && 0 <= s.key.hash < HSIZE && 0 <= s.kind < 16
    && 0 < s.addr && End(s) <= |m|
    && WordAt(m, s.addr) == link
    && m[s.addr + 2] == 16 * s.kind + |s.key.name| - 1
    && m[s.addr + 3..End(s) - 2] == s.key.name
    && WordAt(m, End(s) - 2) == s.value
  }

  // An entry is its own bytes and nothing else.
  lemma StoredFrame(m: seq<byte>, after: seq<byte>, s: Symbol, link: int)
    requires Stored(m, s, link) && |after| == |m|
    requires forall a :: s.addr <= a < End(s) ==> after[a] == m[a]
    ensures Stored(after, s, link)
  {
    assert after[s.addr + 3..End(s) - 2] == m[s.addr + 3..End(s) - 2];
  }

  // A new type nibble, or a new value, makes the entry of the changed symbol.
  lemma StoredKind(m: seq<byte>, s: Symbol, link: int, a: int)
    requires Stored(m, s, link) && 0 <= a < 16
    ensures 0 <= m[s.addr + 2] % 16 + 16 * a < 0x100
    ensures Stored(m[s.addr + 2 := m[s.addr + 2] % 16 + 16 * a], s.(kind := a), link)
  {
    var after := m[s.addr + 2 := m[s.addr + 2] % 16 + 16 * a];
    assert after[s.addr + 3..End(s) - 2] == m[s.addr + 3..End(s) - 2];
  }

  lemma StoredValue(m: seq<byte>, s: Symbol, link: int, v: word)
    requires Stored(m, s, link)
    ensures Stored(m[End(s) - 2 := v % 0x100][End(s) - 1 := v / 0x100], s.(value := v), link)
  {
    var after := m[End(s) - 2 := v % 0x100][End(s) - 1 := v / 0x100];
    assert after[s.addr + 3..End(s) - 2] == m[s.addr + 3..End(s) - 2];
  }

  lemma StoredNew(m: seq<byte>, s: Symbol, link: word)
    requires 1 <= |s.key.name| <= 16 && 0 <= s.key.hash < HSIZE && s.kind == 0 && s.value == 0
    requires 0 < s.addr && End(s) <= |m|
    requires m[s.addr] == link % 0x100 && m[s.addr + 1] == link / 0x100 && m[s.addr + 2] == |s.key.name| - 1
    requires m[s.addr + 3..End(s) - 2] == s.key.name && m[End(s) - 2] == 0 && m[End(s) - 1] == 0
    ensures Stored(m, s, link)
  {
  }

  lemma NameIn(m: seq<byte>, at: int, name: seq<byte>)
    requires 0 <= at && at + |name| <= |m| && forall k :: at <= k < at + |name| ==> m[k] == name[k - at]
    ensures m[at..at + |name|] == name
  {
  }

  // --- chains

  // The latest of the first n symbols with this hash: the head of its chain, or 0.
  ghost function Head(syms: seq<Symbol>, h: int, n: int): int
    requires 0 <= n <= |syms|
  {
    if n == 0 then 0
    else if syms[n - 1].key.hash == h then syms[n - 1].addr
    else Head(syms, h, n - 1)
  }

  // The symbol that heads the chain; the chain holds no other above it.
  ghost function HeadIndex(syms: seq<Symbol>, h: int, n: int): (i: int)
    requires 0 <= n <= |syms|
    ensures -1 <= i < n
    ensures i == -1 ==> Head(syms, h, n) == 0
    ensures i >= 0 ==> Head(syms, h, n) == syms[i].addr && syms[i].key.hash == h
    ensures forall j :: i < j < n ==> syms[j].key.hash != h
  {
    if n == 0 then -1
    else if syms[n - 1].key.hash == h then n - 1
    else HeadIndex(syms, h, n - 1)
  }

  // Heads depend on places and hashes only.
  lemma {:induction false} HeadFrame(syms: seq<Symbol>, more: seq<Symbol>, h: int, n: int)
    requires 0 <= n <= |syms| && n <= |more|
    requires forall i :: 0 <= i < n ==> more[i].addr == syms[i].addr && more[i].key == syms[i].key
    ensures Head(more, h, n) == Head(syms, h, n)
  {
    if n > 0 {
      HeadFrame(syms, more, h, n - 1);
    }
  }

  // Symbols lie one above the other.
  ghost predicate Ascending(syms: seq<Symbol>) {
    forall i, j :: 0 <= i < j < |syms| ==> End(syms[i]) <= syms[j].addr
  }

  // A chain only leads down.
  lemma ChainDescends(syms: seq<Symbol>, i: int)
    requires Ascending(syms) && 0 <= i < |syms| && forall k :: 0 <= k < |syms| ==> 0 < syms[k].addr
    ensures Head(syms, syms[i].key.hash, i) < syms[i].addr
  {
    var j := HeadIndex(syms, syms[i].key.hash, i);
    if j >= 0 {
      assert End(syms[j]) <= syms[i].addr;
    }
  }

  // --- the table as a map

  // The latest of the first n symbols with this key, or -1.
  ghost function Latest(syms: seq<Symbol>, k: Key, n: int): (i: int)
    requires 0 <= n <= |syms|
    ensures -1 <= i < n
    ensures i >= 0 ==> syms[i].key == k
    ensures forall j :: i < j < n ==> syms[j].key != k
  {
    if n == 0 then -1 else if syms[n - 1].key == k then n - 1 else Latest(syms, k, n - 1)
  }

  datatype Meaning = Meaning(kind: int, value: int)

  // The map that the symbols stand for.
  ghost function AsMap(syms: seq<Symbol>): map<Key, Meaning> {
    if syms == [] then map[]
    else
      var s := syms[|syms| - 1];
      AsMap(syms[..|syms| - 1])[s.key := Meaning(s.kind, s.value)]
  }

  // Looking a key up in the map is finding its latest symbol.
  lemma {:induction false} MapIsLatest(syms: seq<Symbol>, k: Key)
    ensures k in AsMap(syms) <==> Latest(syms, k, |syms|) >= 0
    ensures var i := Latest(syms, k, |syms|);
      i >= 0 ==> AsMap(syms)[k] == Meaning(syms[i].kind, syms[i].value)
  {
    if syms != [] {
      var front := syms[..|syms| - 1];
      MapIsLatest(front, k);
      LatestPrefix(syms, front, k, |front|);
    }
  }

  lemma {:induction false} LatestPrefix(syms: seq<Symbol>, front: seq<Symbol>, k: Key, n: int)
    requires 0 <= n <= |front| <= |syms| && front == syms[..|front|]
    ensures Latest(syms, k, n) == Latest(front, k, n)
  {
    if n > 0 {
      LatestPrefix(syms, front, k, n - 1);
    }
  }

  // Changing the latest symbol of a key changes the map at that key and nowhere else.
  lemma {:induction false} MapOfChange(syms: seq<Symbol>, c: int, s: Symbol)
    requires 0 <= c < |syms| && s.key == syms[c].key && forall j :: c < j < |syms| ==> syms[j].key != s.key
    ensures AsMap(syms[c := s]) == AsMap(syms)[s.key := Meaning(s.kind, s.value)]
  {
    var n := |syms| - 1;
    if c == n {
      assert syms[c := s][..n] == syms[..n];
    } else {
      MapOfChange(syms[..n], c, s);
      assert syms[c := s][..n] == syms[..n][c := s];
      assert syms[n].key != s.key;
    }
  }

  lemma MapOfEntry(syms: seq<Symbol>, s: Symbol)
    ensures AsMap(syms + [s]) == AsMap(syms)[s.key := Meaning(s.kind, s.value)]
  {
    assert (syms + [s])[..|syms|] == syms;
  }

  // --- hashing

  function Sum(s: seq<byte>): nat {
    if s == [] then 0 else Sum(s[..|s| - 1]) + s[|s| - 1]
  }

  function Truncated(s: seq<byte>): seq<byte> { if |s| < 17 then s else s[..16] }

  // What LOOKUP takes for the identifier.
  function KeyOf(id: seq<byte>): Key { Key(Sum(id) % HSIZE, Truncated(id)) }

  // Identifiers of up to sixteen characters are told apart.
  lemma ShortKeys(a: seq<byte>, b: seq<byte>)
    requires |a| <= 16 && |b| <= 16
    ensures KeyOf(a) == KeyOf(b) <==> a == b
  {
  }

  lemma {:induction false} SumOfChange(s: seq<byte>, i: nat, c: byte)
    requires i < |s|
    ensures Sum(s[i := c]) == Sum(s) - s[i] + c
  {
    var n := |s| - 1;
    if i == n {
      assert s[i := c][..n] == s[..n];
    } else {
      SumOfChange(s[..n], i, c);
      assert s[i := c][..n] == s[..n][i := c];
    }
  }

  // Longer ones that differ in one character: always among the first sixteen, and after them if and only if the two
  // codes differ modulo the size of the hash table.
  lemma LongKeys(s: seq<byte>, i: nat, c: byte)
    requires 16 < |s| && i < |s| && c != s[i]
    ensures KeyOf(s[i := c]) != KeyOf(s) <==> i < 16 || c % HSIZE != s[i] % HSIZE
  {
    var t := s[i := c];
    if i < 16 {
      assert Truncated(t)[i] == c && Truncated(s)[i] == s[i];
    } else {
      assert t[..16] == s[..16];
      SumOfChange(s, i, c);
      SameResidue(Sum(s), c, s[i]);
    }
  }

  lemma SameResidue(x: int, c: int, d: int)
    requires 0 <= c < 0x100 && 0 <= d < 0x100 && c != d
    ensures (x - d + c) % HSIZE == x % HSIZE <==> c % HSIZE == d % HSIZE
  {
    Residues(x, c - d);
  }

  lemma Residues(x: int, d: int)
    requires -0x100 < d < 0x100
    ensures (x + d) % 128 == x % 128 <==> d == 0 || d == 128 || d == -128
  {
    var k, r := x / 128, x % 128;
    assert x + d == 128 * k + (r + d);
    RestOf(k, r + d);
  }

  lemma RestOf(k: int, y: int)
    ensures (128 * k + y) % 128 == y % 128
  {
    var q := y / 128;
    assert 128 * k + y == 128 * (k + q) + y % 128;
  }

  // --- the packed table

  // Memory and hash table hold exactly these symbols, below `top`. (Opened by mentioning Unfold.)
  ghost predicate Holds(m: seq<byte>, heads: seq<word>, syms: seq<Symbol>, top: int) {
    forall x {:trigger Unfold(x)} :: Unfold(x) ==> Packed(m, heads, syms, top)
  }

  lemma HoldsMeans(m: seq<byte>, heads: seq<word>, syms: seq<Symbol>, top: int)
    ensures Holds(m, heads, syms, top) <==> Packed(m, heads, syms, top)
  {
    assert Unfold(0);
  }

  lemma HeadHeld(m: seq<byte>, heads: seq<word>, syms: seq<Symbol>, top: int, h: int)
    requires Holds(m, heads, syms, top) && 0 <= h < HSIZE
    ensures |heads| == HSIZE && heads[h] == Head(syms, h, |syms|)
  {
    assert Unfold(0);
  }

  lemma SymbolHeld(m: seq<byte>, heads: seq<word>, syms: seq<Symbol>, top: int, i: int)
    requires Holds(m, heads, syms, top) && 0 <= i < |syms|
    ensures Stored(m, syms[i], Head(syms, syms[i].key.hash, i)) && End(syms[i]) <= top
  {
    assert Unfold(0);
    assert StoredAt(m, syms, i);
  }

  ghost predicate Packed(m: seq<byte>, heads: seq<word>, syms: seq<Symbol>, top: int) {
    && |heads| == HSIZE && Ascending(syms)
    && (forall i :: 0 <= i < |syms| ==> End(syms[i]) <= top)
    && AllStored(m, syms)
    && (forall h :: 0 <= h < HSIZE ==> heads[h] == Head(syms, h, |syms|))
  }

  // The entries are where the symbols say, each linked to the one before it in its chain.
  ghost predicate AllStored(m: seq<byte>, syms: seq<Symbol>) {
    forall i :: 0 <= i < |syms| ==> StoredAt(m, syms, i)
  }

  ghost predicate StoredAt(m: seq<byte>, syms: seq<Symbol>, i: int)
    requires 0 <= i < |syms|
  {
    Stored(m, syms[i], Head(syms, syms[i].key.hash, i))
  }

  lemma StoredBelow(m: seq<byte>, after: seq<byte>, syms: seq<Symbol>, more: seq<Symbol>, i: int)
    requires |after| == |m| && 0 <= i < |syms| <= |more| && more[..|syms|] == syms && StoredAt(m, syms, i)
    requires forall a :: syms[i].addr <= a < End(syms[i]) ==> after[a] == m[a]
    ensures StoredAt(after, more, i)
  {
    assert forall k :: 0 <= k < |syms| ==> more[k] == syms[k];
    HeadFrame(syms, more, syms[i].key.hash, i);
    StoredFrame(m, after, syms[i], Head(syms, syms[i].key.hash, i));
  }

  lemma StoredMore(m: seq<byte>, after: seq<byte>, syms: seq<Symbol>, s: Symbol, top: int)
    requires AllStored(m, syms) && |after| == |m| && forall i :: 0 <= i < |syms| ==> End(syms[i]) <= top
    requires forall a :: 0 <= a < top && a < |m| ==> after[a] == m[a]
    requires Stored(after, s, Head(syms, s.key.hash, |syms|))
    ensures AllStored(after, syms + [s])
  {
    var more := syms + [s];
    forall i | 0 <= i < |more|
      ensures StoredAt(after, more, i)
    {
      if i < |syms| {
        FirstStored(m, after, syms, more, s, top, i);
      } else {
        LastStored(after, syms, more, s);
      }
    }
  }

  lemma FirstStored(m: seq<byte>, after: seq<byte>, syms: seq<Symbol>, more: seq<Symbol>, s: Symbol, top: int, i: int)
    requires AllStored(m, syms) && |after| == |m| && forall i :: 0 <= i < |syms| ==> End(syms[i]) <= top
    requires forall a :: 0 <= a < top && a < |m| ==> after[a] == m[a]
    requires more == syms + [s] && 0 <= i < |syms|
    ensures StoredAt(after, more, i)
  {
    assert StoredAt(m, syms, i);
    StoredBelow(m, after, syms, more, i);
  }

  lemma LastStored(m: seq<byte>, syms: seq<Symbol>, more: seq<Symbol>, s: Symbol)
    requires more == syms + [s] && Stored(m, s, Head(syms, s.key.hash, |syms|))
    ensures StoredAt(m, more, |syms|)
  {
    HeadFrame(syms, more, s.key.hash, |syms|);
  }

  // A new entry at the top, linked to the old head of its chain and made the new head.
  lemma HoldsMore(m: seq<byte>, after: seq<byte>, heads: seq<word>, syms: seq<Symbol>, top: int, s: Symbol, newTop: int)
    requires Holds(m, heads, syms, top) && |after| == |m| && |heads| == HSIZE && 0 <= s.key.hash < HSIZE
    requires s.addr == top < 0x10000 && End(s) <= newTop && forall a :: 0 <= a < top && a < |m| ==> after[a] == m[a]
    requires Stored(after, s, heads[s.key.hash])
    ensures Holds(after, heads[s.key.hash := top], syms + [s], newTop)
  {
    var more := syms + [s];
    HoldsMeans(m, heads, syms, top);
    StoredMore(m, after, syms, s, top);
    forall h | 0 <= h < HSIZE
      ensures heads[s.key.hash := top][h] == Head(more, h, |more|)
    {
      HeadFrame(syms, more, h, |syms|);
    }
    HoldsMeans(after, heads[s.key.hash := top], more, newTop);
  }

  lemma StoredChange(m: seq<byte>, after: seq<byte>, syms: seq<Symbol>, c: int, s: Symbol)
    requires AllStored(m, syms) && Ascending(syms) && |after| == |m| && 0 <= c < |syms|
    requires s.addr == syms[c].addr && s.key == syms[c].key
    requires forall a :: 0 <= a < |m| && !(s.addr <= a < End(s)) ==> after[a] == m[a]
    requires Stored(after, s, Head(syms, s.key.hash, c))
    ensures AllStored(after, syms[c := s])
  {
    var changed := syms[c := s];
    forall i | 0 <= i < |syms|
      ensures StoredAt(after, changed, i)
    {
      HeadFrame(syms, changed, changed[i].key.hash, i);
      if i != c {
        assert StoredAt(m, syms, i);
        assert End(syms[i]) <= s.addr || End(s) <= syms[i].addr;
        StoredFrame(m, after, syms[i], Head(syms, syms[i].key.hash, i));
      }
    }
  }

  // One entry rewritten in place, with its place, key and link kept.
  lemma HoldsChange(m: seq<byte>, after: seq<byte>, heads: seq<word>, syms: seq<Symbol>, top: int, c: int, s: Symbol)
    requires Holds(m, heads, syms, top) && |after| == |m| && 0 <= c < |syms|
    requires s.addr == syms[c].addr && s.key == syms[c].key
    requires forall a :: 0 <= a < |m| && !(s.addr <= a < End(s)) ==> after[a] == m[a]
    requires Stored(after, s, Head(syms, s.key.hash, c))
    ensures Holds(after, heads, syms[c := s], top)
  {
    HoldsMeans(m, heads, syms, top);
    StoredChange(m, after, syms, c, s);
    forall h | 0 <= h < HSIZE
      ensures Head(syms[c := s], h, |syms|) == Head(syms, h, |syms|)
    {
      HeadFrame(syms, syms[c := s], h, |syms|);
    }
    HoldsMeans(after, heads, syms[c := s], top);
  }

  datatype Definition = Definition(id: seq<byte>, meaning: Meaning)

  predicate Definable(d: Definition) {
    1 <= |d.id| && 0 <= d.meaning.kind < 16 && 0 <= d.meaning.value < 0x10000
  }

  // The map after a run of definitions.
  ghost function Defined(m: map<Key, Meaning>, defs: seq<Definition>): map<Key, Meaning> {
    if defs == [] then m
    else
      var d := defs[|defs| - 1];
      Defined(m, defs[..|defs| - 1])[KeyOf(d.id) := d.meaning]
  }

  // The top of the table after an identifier: a new one takes its characters and FIXD bytes.
  ghost function TopAfter(m: map<Key, Meaning>, top: int, id: seq<byte>): int {
    if KeyOf(id) in m then top else top + |Truncated(id)| + FIXD
  }

  ghost function TopAfterAll(m: map<Key, Meaning>, top: int, defs: seq<Definition>): int {
    if defs == [] then top
    else
      var init := defs[..|defs| - 1];
      TopAfter(Defined(m, init), TopAfterAll(m, top, init), defs[|defs| - 1].id)
  }

  // The top never comes down.
  lemma {:induction false} TopRises(m: map<Key, Meaning>, top: int, defs: seq<Definition>, n: nat)
    requires n <= |defs|
    ensures TopAfterAll(m, top, defs[..n]) <= TopAfterAll(m, top, defs)
    ensures top <= TopAfterAll(m, top, defs)
    decreases |defs|
  {
    if n < |defs| {
      TopRises(m, top, defs[..|defs| - 1], n);
      assert defs[..|defs| - 1][..n] == defs[..n];
    } else {
      assert defs[..n] == defs;
      if defs != [] {
        TopRises(m, top, defs[..|defs| - 1], 0);
      }
    }
  }

  // One more definition of a run.
  lemma NextDefinition(m: map<Key, Meaning>, top: int, defs: seq<Definition>, n: nat)
    requires n < |defs|
    ensures Defined(m, defs[..n + 1]) == Defined(m, defs[..n])[KeyOf(defs[n].id) := defs[n].meaning]
    ensures TopAfterAll(m, top, defs[..n + 1])
         == TopAfter(Defined(m, defs[..n]), TopAfterAll(m, top, defs[..n]), defs[n].id)
    ensures top <= TopAfterAll(m, top, defs[..n]) && TopAfterAll(m, top, defs[..n + 1]) <= TopAfterAll(m, top, defs)
  {
    assert defs[..n + 1][..n] == defs[..n];
    TopRises(m, top, defs, n + 1);
    TopRises(m, top, defs[..n], 0);
  }

  /** The table with its cells; `syms` is what it stands for. */
  class Table {
    const mem: array<byte>
    const hasht: array<word>
    var sytop: word
    var symax: word
    var syadr: word
    var hashc: byte
    var accum: seq<byte>      // the accumulator, ACCLEN characters
    ghost var syms: seq<Symbol>
    ghost var current: int    // the symbol at SYADR, or -1

    ghost predicate TableOk()
      reads this, mem, hasht
    {
      && mem.Length == 0x10000 && hasht.Length == HSIZE && 0 < sytop <= symax <= 0x10000 - 69
      && Holds(mem[..], hasht[..], syms, sytop)
    }

    ghost predicate Valid()
      reads this, mem, hasht
    {
      && TableOk()
      && if current == -1 then syadr == 0
         else 0 <= current < |syms| && syadr == syms[current].addr
              && forall j :: current < j < |syms| ==> syms[j].key != syms[current].key
    }

    // The map that the table stands for.
    ghost function Contents(): map<Key, Meaning>
      reads this
    {
      AsMap(syms)
    }

    // INISY
    constructor (base: word, top: word)
      requires 0 < base <= top <= 0x10000 - 69
      ensures Valid() && Contents() == map[] && sytop == base && symax == top && fresh(mem) && fresh(hasht)
    {
      mem := new byte[0x10000](_ => 0);
      hasht := new word[HSIZE](_ => 0);
      sytop, symax, syadr, hashc, accum := base, top, 0, 0, [];
      syms, current := [], -1;
      new;
      HoldsMeans(mem[..], hasht[..], [], base);
    }

    // CHASH: the characters added with overflow, then masked to seven bits.
    method Chash()
      modifies `hashc
      ensures hashc == Sum(accum) % HSIZE
    {
      var a: byte := 0;
      for i := 0 to |accum|
        invariant a == Sum(accum[..i]) % 0x100
      {
        assert accum[..i + 1][..i] == accum[..i];
        a := (a + accum[i]) % 0x100;
      }
      assert accum[..|accum|] == accum;
      SumMask(Sum(accum));
      hashc := a % HSIZE;
    }

    static lemma SumMask(n: nat)
      ensures n % 0x100 % HSIZE == n % HSIZE
    {
      var q, m := n / 0x100, n % 0x100;
      Mod128(n, 2 * q + m / 128, m % 128);
    }

    static lemma Mod128(n: int, q: int, r: int)
      requires n == 128 * q + r && 0 <= r < 128
      ensures n % HSIZE == r
    {
    }

    // GETLN and LOOK1: length and characters of the entry at SYADR against those of the accumulator.
    method SameName(ghost s: Symbol, ghost link: int) returns (same: bool)
      requires Stored(mem[..], s, link) && syadr == s.addr && 1 <= |accum| <= 16
      ensures same == (s.key.name == accum)
    {
      if mem[syadr + 2] % 16 + 1 != |accum| {
        return false;
      }
      ghost var m := mem[..];
      ghost var chars := m[s.addr + 3..End(s) - 2];
      assert chars == s.key.name && |s.key.name| == |accum|;
      var i := 0;
      while i < |accum|
        invariant 0 <= i <= |accum| && forall k :: 0 <= k < i ==> chars[k] == accum[k]
      {
        assert m[s.addr + 3 + i] == chars[i];
        if accum[i] != mem[syadr + 3 + i] {
          return false;
        }
        i := i + 1;
      }
      assert chars == accum;
      return true;
    }

    // LOOK0: down the chain of the hash code.
    method Walk()
      requires TableOk() && hashc < HSIZE && 1 <= |accum| <= 16
      modifies `syadr, `current
      ensures Valid() && current == Latest(syms, Key(hashc, accum), |syms|)
    {
      ghost var k := Key(hashc, accum);
      ghost var n := |syms|;
      HeadHeld(mem[..], hasht[..], syms, sytop, hashc);
      syadr := hasht[hashc];
      while syadr != 0
        invariant 0 <= n <= |syms| && syadr == Head(syms, hashc, n)
        invariant forall j :: n <= j < |syms| ==> syms[j].key != k
        decreases n
      {
        ghost var i := HeadIndex(syms, hashc, n);
        ghost var s := syms[i];
        SymbolHeld(mem[..], hasht[..], syms, sytop, i);
        var same := SameName(s, Head(syms, hashc, i));
        if same {
          current := i;
          return;
        }
        assert WordAt(mem[..], s.addr) == Head(syms, hashc, i);
        syadr := mem[syadr] as int + 0x100 * mem[syadr + 1] as int;
        n := i;
      }
      current := -1;
      ghost var i := HeadIndex(syms, hashc, n);
      if i >= 0 {
        SymbolHeld(mem[..], hasht[..], syms, sytop, i);
      }
    }

    // LOOKUP: find the symbol of the accumulator; the accumulator is cut to sixteen characters.
    method Lookup()
      requires Valid() && 1 <= |accum|
      modifies `hashc, `accum, `syadr, `current
      ensures Valid() && accum == Truncated(old(accum)) && Key(hashc, accum) == KeyOf(old(accum))
      ensures syadr != 0 <==> KeyOf(old(accum)) in Contents()
      ensures syadr != 0 ==>
        && syms[current].key == KeyOf(old(accum))
        && Contents()[KeyOf(old(accum))] == Meaning(syms[current].kind, syms[current].value)
    {
      Chash();
      if |accum| >= 17 {
        accum := accum[..16];
      }
      Walk();
      MapIsLatest(syms, Key(hashc, accum));
      if current >= 0 {
        SymbolHeld(mem[..], hasht[..], syms, sytop, current);
      }
    }

    // ENT2: the characters of the name.
    method WriteName(at: int, name: seq<byte>)
      requires mem.Length == 0x10000 && 0 <= at && at + |name| <= 0x10000
      modifies mem
      ensures forall k :: at <= k < at + |name| ==> mem[k] == name[k - at]
      ensures forall a :: 0 <= a < 0x10000 && !(at <= a < at + |name|) ==> mem[a] == old(mem[a])
    {
      var i := 0;
      while i < |name|
        invariant 0 <= i <= |name|
        invariant forall k :: at <= k < at + i ==> mem[k] == name[k - at]
        invariant forall a :: 0 <= a < 0x10000 && !(at <= a < at + i) ==> mem[a] == old(mem[a])
      {
        mem[at + i] := name[i];
        i := i + 1;
      }
    }

    // ENT1: write an entry of undefined type and value 0 at SYTOP, linked to the old head of its chain.
    method WriteEntry(p: int, link: word, ghost hash: int)
      requires mem.Length == 0x10000 && 0 < p && p + FIXD + 16 < 0x10000 && 1 <= |accum| && 0 <= hash < HSIZE
      modifies mem
      ensures Stored(mem[..], Symbol(p, Key(hash, Truncated(accum)), 0, 0), link)
      ensures forall a :: 0 <= a < p ==> mem[a] == old(mem[a])
    {
      var name := if |accum| < 17 then accum else accum[..16];
      var b := |name|;
      mem[p], mem[p + 1] := link % 0x100, link / 0x100;
      mem[p + 2] := b - 1;
      WriteName(p + 3, name);
      WriteZeros(p + 3 + b);
      NameIn(mem[..], p + 3, name);
      StoredNew(mem[..], Symbol(p, Key(hash, name), 0, 0), link);
    }

    // A value of 0.
    method WriteZeros(at: int)
      requires mem.Length == 0x10000 && 0 <= at < 0xFFFF
      modifies mem
      ensures mem[at] == mem[at + 1] == 0
      ensures forall a :: 0 <= a < 0x10000 && a != at && a != at + 1 ==> mem[a] == old(mem[a])
    {
      mem[at], mem[at + 1] := 0, 0;
    }

    // The symbol at SYADR becomes the head of its chain.
    method Relink()
      requires hashc < hasht.Length
      modifies hasht
      ensures hasht[..] == old(hasht[..])[hashc := syadr]
    {
      hasht[hashc] := syadr;
    }

    // ENTER: the accumulator under the hash code of the last LOOKUP becomes the current symbol,
    // undefined and with value 0; false when the table is full.
    method Enter() returns (ok: bool)
      requires Valid() && 1 <= |accum| <= 64 && hashc < HSIZE
      modifies `sytop, `syadr, `syms, `current, mem, hasht
      ensures ok == (old(sytop) + |accum| + FIXD < symax)
      ensures !ok ==> TableOk() && syms == old(syms) && sytop == old(sytop)
      ensures ok ==> sytop == old(sytop) + |accum| + FIXD
      ensures ok ==>
        Valid() && syadr != 0 && syms == old(syms) + [Symbol(old(sytop), Key(hashc, Truncated(accum)), 0, 0)]
                     && current == |old(syms)|
      ensures ok ==> Contents() == old(Contents())[Key(hashc, Truncated(accum)) := Meaning(0, 0)]
    {
      var newTop := sytop + |accum| + FIXD;
      syadr := sytop;
      if newTop >= symax {
        return false;
      }
      var link := hasht[hashc];
      ghost var s := Symbol(sytop, Key(hashc, Truncated(accum)), 0, 0);
      HeadHeld(mem[..], hasht[..], syms, sytop, hashc);
      Relink();
      WriteEntry(syadr, link, hashc);
      HoldsMore(old(mem[..]), mem[..], old(hasht[..]), syms, sytop, s, newTop);
      MapOfEntry(syms, s);
      sytop := newTop;
      current := |syms|;
      syms := syms + [s];
      return true;
    }

    // SETTY: the type of the current symbol, the low four bits of A.
    method SetTy(a: byte)
      requires Valid() && current >= 0
      modifies `syms, mem
      ensures Valid() && syms == old(syms)[current := old(syms)[current].(kind := a % 16)]
      ensures Contents() == old(Contents())[syms[current].key := Meaning(a % 16, syms[current].value)]
    {
      SymbolHeld(mem[..], hasht[..], syms, sytop, current);
      ghost var s := syms[current].(kind := a % 16);
      StoredKind(mem[..], syms[current], Head(syms, s.key.hash, current), a % 16);
      LowNibble(a);
      mem[syadr + 2] := mem[syadr + 2] % 16 + a * 16 % 0x100;
      assert mem[..] == old(mem[..])[s.addr + 2 := mem[s.addr + 2]];
      HoldsChange(old(mem[..]), mem[..], hasht[..], syms, sytop, current, s);
      MapOfChange(syms, current, s);
      syms := syms[current := s];
    }

    static lemma LowNibble(a: byte)
      ensures a * 16 % 0x100 == 16 * (a % 16)
    {
      assert a * 16 == 0x100 * (a / 16) + 16 * (a % 16);
    }

    // GETTY
    method GetTy() returns (a: int)
      requires Valid() && current >= 0
      ensures a == syms[current].kind
    {
      SymbolHeld(mem[..], hasht[..], syms, sytop, current);
      a := mem[syadr + 2] / 16;
    }

    // VALADR: the value follows the characters.
    method ValAdr() returns (hl: int)
      requires Valid() && current >= 0
      ensures hl == End(syms[current]) - 2
    {
      SymbolHeld(mem[..], hasht[..], syms, sytop, current);
      hl := syadr + (mem[syadr + 2] % 16 + 1) + 3;
    }

    method PutWord(hl: int, v: word)
      requires 0 <= hl < mem.Length - 1
      modifies mem
      ensures mem[..] == old(mem[..])[hl := v % 0x100][hl + 1 := v / 0x100]
    {
      mem[hl], mem[hl + 1] := v % 0x100, v / 0x100;
    }

    // SETVAL: the value of the current symbol.
    method SetVal(v: word)
      requires Valid() && current >= 0
      modifies `syms, mem
      ensures Valid() && syms == old(syms)[current := old(syms)[current].(value := v)]
      ensures Contents() == old(Contents())[syms[current].key := Meaning(syms[current].kind, v)]
    {
      SymbolHeld(mem[..], hasht[..], syms, sytop, current);
      ghost var s := syms[current].(value := v);
      var hl := ValAdr();
      StoredValue(mem[..], syms[current], Head(syms, s.key.hash, current), v);
      PutWord(hl, v);
      HoldsChange(old(mem[..]), mem[..], hasht[..], syms, sytop, current, s);
      MapOfChange(syms, current, s);
      syms := syms[current := s];
    }

    // GETVAL
    method GetVal() returns (v: int)
      requires Valid() && current >= 0
      ensures v == syms[current].value
    {
      SymbolHeld(mem[..], hasht[..], syms, sytop, current);
      var hl := ValAdr();
      v := mem[hl] as int + 0x100 * mem[hl + 1] as int;
    }

    // Look up, and enter if new: the identifier's symbol is the current one.
    method Resolve(id: seq<byte>) returns (ok: bool)
      requires Valid() && 1 <= |id|
      modifies `accum, `hashc, `syadr, `current, `sytop, `syms, mem, hasht
      ensures ok ==> sytop == TopAfter(old(Contents()), old(sytop), id)
      ensures ok <==> KeyOf(id) in old(Contents()) || TopAfter(old(Contents()), old(sytop), id) < symax
      ensures ok ==> Valid() && current >= 0 && syms[current].key == KeyOf(id)
      ensures ok ==> Contents() == old(Contents()) || Contents() == old(Contents())[KeyOf(id) := Meaning(0, 0)]
      ensures !ok ==> TableOk() && Contents() == old(Contents()) && KeyOf(id) !in Contents()
    {
      accum := id;
      Lookup();
      if syadr == 0 {
        ok := Enter();
      } else {
        ok := true;
      }
    }

    // A label or an equate as the assembler defines it: look up, enter if new, set type and value.
    method Define(id: seq<byte>, kind: byte, v: word) returns (ok: bool)
      requires Valid() && 1 <= |id| && kind < 16
      modifies `accum, `hashc, `syadr, `current, `sytop, `syms, mem, hasht
      ensures ok <==> KeyOf(id) in old(Contents()) || TopAfter(old(Contents()), old(sytop), id) < symax
      ensures ok ==> sytop == TopAfter(old(Contents()), old(sytop), id)
      ensures ok ==> Valid() && Contents() == old(Contents())[KeyOf(id) := Meaning(kind as int, v as int)]
      ensures !ok ==> TableOk() && Contents() == old(Contents()) && KeyOf(id) !in Contents()
    {
      ok := Resolve(id);
      if ok {
        SetTy(kind);
        SetVal(v);
      }
    }

    // A whole run of definitions: up to the first that finds the table full, the packed table is the map
    // that the definitions make. The run gets through exactly when all new identifiers fit below SYMAX.
    method DefineAll(defs: seq<Definition>) returns (done: nat)
      requires Valid() && forall i :: 0 <= i < |defs| ==> Definable(defs[i])
      modifies `accum, `hashc, `syadr, `current, `sytop, `syms, mem, hasht
      ensures done <= |defs| && Contents() == Defined(old(Contents()), defs[..done])
      ensures done == |defs| ==> Valid()
      ensures done < |defs| ==> KeyOf(defs[done].id) !in Contents()
      ensures done == |defs| <==>
        TopAfterAll(old(Contents()), old(sytop), defs) == old(sytop)
        || TopAfterAll(old(Contents()), old(sytop), defs) < symax
    {
      done := 0;
      while done < |defs|
        invariant 0 <= done <= |defs| && Valid() && Contents() == Defined(old(Contents()), defs[..done])
        invariant sytop == TopAfterAll(old(Contents()), old(sytop), defs[..done])
        invariant sytop == old(sytop) || sytop < symax
      {
        NextDefinition(old(Contents()), old(sytop), defs, done);
        var d := defs[done];
        var ok := Define(d.id, d.meaning.kind, d.meaning.value);
        if !ok {
          return;
        }
        done := done + 1;
      }
      assert defs[..|defs|] == defs;
    }
  }
}
