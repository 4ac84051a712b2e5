/**
  The CP/M 2.2 directory as the BDOS searches it: which entries match a file control block, and why a
  search may stop at the high-water mark.
 */
module BdosDirectory {

  type byte = x: int | 0 <= x < 0x100
  type word = x: int | 0 <= x < 0x10000

  // User number, eight letters and a type of three; bit 7 of a letter is an attribute.
  type Name = s: seq<byte> | |s| == 12 witness [0, 0, 0, 0, 0, 0, 0, 0, 0, 0, 0, 0]

  // The 32 bytes of a directory entry, the last sixteen read as sixteen byte or eight word block numbers.
  datatype Entry = Entry(name: Name, ext: byte, s1: byte, s2: byte, rc: byte, ptrs: seq<word>)

  const WILD: byte := 0x3F
  const EMPTY: byte := 0xE5

  predicate Live(e: Entry) { e.name[0] != EMPTY }

  // One of the fifteen bytes before the record count.
  function ByteAt(e: Entry, i: int): byte
    requires 0 <= i < 15
  {
    if i < 12 then e.name[i] else if i == 12 then e.ext else if i == 13 then e.s1 else e.s2
  }

  // SAMEXT: both extents lie in the same directory entry; only bits 0 to 4 are compared.
  predicate SameExt(a: byte, c: byte, exm: int)
    requires exm >= 0
  {
    ((a - a % (exm + 1)) - (c - c % (exm + 1))) % 32 == 0
  }

  // Byte i of the control block accepts byte i of the entry.
  predicate Agrees(f: Entry, e: Entry, i: int, exm: int)
    requires 0 <= i < 15 && exm >= 0
  {
    || ByteAt(f, i) == WILD
    || i == 13
    || (if i == 12 then SameExt(f.ext, e.ext, exm) else (ByteAt(f, i) - ByteAt(e, i)) % 128 == 0)
  }

  // The first count bytes of the control block accept the entry.
  predicate Matches(f: Entry, e: Entry, count: int, exm: int)
    requires 0 <= count <= 15 && exm >= 0
  {
    forall i :: 0 <= i < count ==> Agrees(f, e, i, exm)
  }

  // The least matching place in from..limit, or limit.
  ghost function NextMatch(dir: seq<Entry>, f: Entry, count: int, exm: int, from: int, limit: int): (n: int)
    requires 0 <= count <= 15 && exm >= 0 && 0 <= from <= limit <= |dir|
    ensures from <= n <= limit
    ensures n < limit ==> Matches(f, dir[n], count, exm)
    ensures forall i :: from <= i < n ==> !Matches(f, dir[i], count, exm)
    decreases limit - from
  {
    if from == limit || Matches(f, dir[from], count, exm) then from
    else NextMatch(dir, f, count, exm, from + 1, limit)
  }

  // The matching places before `to`, in order; up to the length, what a scan of the whole directory gives.
  ghost function MatchesBefore(dir: seq<Entry>, f: Entry, count: int, exm: int, to: int): (r: seq<int>)
    requires 0 <= count <= 15 && exm >= 0 && 0 <= to <= |dir|
  {
    if to == 0 then []
    else
      var before := MatchesBefore(dir, f, count, exm, to - 1);
      if Matches(f, dir[to - 1], count, exm) then before + [to - 1] else before
  }

  ghost function AllMatches(dir: seq<Entry>, f: Entry, count: int, exm: int): seq<int>
    requires 0 <= count <= 15 && exm >= 0
  {
    MatchesBefore(dir, f, count, exm, |dir|)
  }

  // The scan gives exactly the matching places and each one once, in rising order.
  lemma {:induction false} MatchesBeforeExact(dir: seq<Entry>, f: Entry, count: int, exm: int, to: int)
    requires 0 <= count <= 15 && exm >= 0 && 0 <= to <= |dir|
    ensures var r := MatchesBefore(dir, f, count, exm, to);
      && (forall i :: i in r <==> 0 <= i < to && Matches(f, dir[i], count, exm))
      && (forall j, k :: 0 <= j < k < |r| ==> r[j] < r[k])
  {
    if to > 0 {
      MatchesBeforeExact(dir, f, count, exm, to - 1);
      var before := MatchesBefore(dir, f, count, exm, to - 1);
      assert forall k :: 0 <= k < |before| ==> before[k] in before;
    }
  }

  // Where nothing matches the scan adds nothing.
  lemma {:induction false} SkipToNext(dir: seq<Entry>, f: Entry, count: int, exm: int, from: int, n: int)
    requires 0 <= count <= 15 && exm >= 0 && 0 <= from <= n <= |dir|
    requires forall i :: from <= i < n ==> !Matches(f, dir[i], count, exm)
    ensures MatchesBefore(dir, f, count, exm, from) == MatchesBefore(dir, f, count, exm, n)
  {
    if from < n {
      SkipToNext(dir, f, count, exm, from, n - 1);
    }
  }

  // --- the high-water mark

  // No live entry lies at or above the mark.
  ghost predicate BelowMark(dir: seq<Entry>, mark: int) {
    forall i :: 0 <= i < |dir| && Live(dir[i]) ==> i < mark
  }

  // Where a search stops: a search for empty entries runs on to the end.
  function Limit(dir: seq<Entry>, mark: int, f: Entry): int
    requires mark >= 0
  {
    if f.name[0] == EMPTY || mark > |dir| then |dir| else mark
  }

  // A first byte of a file: no wild card, and one that no empty entry can match.
  predicate OfFile(first: byte) { first != WILD && first % 128 != EMPTY % 128 }

  // A first byte that an empty entry matches only if it is the empty mark itself.
  predicate Discerning(first: byte) { first == EMPTY || OfFile(first) }

  lemma UserNumberDiscerns(first: byte)
    ensures first <= 31 ==> OfFile(first)
    ensures OfFile(first) ==> first != EMPTY
  {
  }

  // Stopping at the mark loses no match.
  lemma MarkLosesNothing(dir: seq<Entry>, mark: int, f: Entry, count: int, exm: int)
    requires 1 <= count <= 15 && exm >= 0 && mark >= 0 && BelowMark(dir, mark) && Discerning(f.name[0])
    ensures forall i :: Limit(dir, mark, f) <= i < |dir| ==> !Matches(f, dir[i], count, exm)
  {
    forall i | Limit(dir, mark, f) <= i < |dir|
      ensures !Matches(f, dir[i], count, exm)
    {
      assert !Live(dir[i]);
      assert !Agrees(f, dir[i], 0, exm);
    }
  }

  // And it can lose one for every other first byte: the empty entry above the mark matches.
  lemma MarkCanLose(f: Entry, e: Entry, exm: int)
    requires exm >= 0 && !Discerning(f.name[0]) && !Live(e)
    ensures BelowMark([e], 0) && Limit([e], 0, f) == 0 && Matches(f, e, 1, exm)
  {
  }
}
