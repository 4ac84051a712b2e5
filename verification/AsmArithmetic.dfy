/**
  The 16-bit arithmetic of the CP/M assembler's operand module: shift-and-add multiplication,
  restoring division by rotation, shifts, and byte-wise logic, each proved against the integers.
 */
module AsmArithmetic {
  import opened Arithmetic

  type word = x: int | 0 <= x < 0x1_0000
  type bit = x: int | 0 <= x < 2

  const WORD := 0x1_0000

  // --- multiplication

  lemma ModMinusMultiple(a: int, k: int)
    ensures (a - WORD * k) % WORD == a % WORD
  {
  }

  // Reducing a sum and a factor modulo 2^16 does not change the sum's residue.
  lemma ModSumProduct(x: int, y: int, q: int)
    ensures (x % WORD + (y % WORD) * q) % WORD == (x + y * q) % WORD
  {
    var i, j := x / WORD, y / WORD;
    FactorOut(y % WORD, j, q, y);
    ModMinusMultiple(x + y * q, i + j * q);
  }

  lemma FactorOut(y': int, j: int, q: int, y: int)
    requires y' == y - WORD * j
    ensures y' * q == y * q - WORD * (j * q)
  {
  }

  // MULF: HL times DE, exact modulo 2^16.
  method Mulf(hl: word, de: word) returns (r: word)
    ensures r == hl * de % WORD
  {
    var bc: word, d: word := hl, de;
    r := 0;
    while true
      invariant Multiplied(r, d, bc, hl * de % WORD)
      decreases if bc == 0 then 0 else bc + 1
    {
      var carry, half := bc % 2, bc / 2;
      MultiplyStep(r, d, bc, hl * de % WORD);
      bc := half;
      if carry == 1 {
        r := (r + d) % WORD;
      } else if bc == 0 {
        return;
      }
      d := d * 2 % WORD;
    }
  }

  // What is left to be added comes to the product.
  predicate Multiplied(r: int, d: int, bc: int, product: int) { (r + d * bc) % WORD == product }

  lemma MultiplyStep(r: int, d: int, bc: int, product: int)
    requires 0 <= r < WORD && 0 <= bc && Multiplied(r, d, bc, product)
    ensures bc % 2 == 1 ==> Multiplied((r + d) % WORD, d * 2 % WORD, bc / 2, product)
    ensures bc % 2 == 0 ==> Multiplied(r, d * 2 % WORD, bc / 2, product)
    ensures bc == 0 ==> r == product
  {
    if bc % 2 == 1 {
      OddStep(r, d, bc, bc / 2, product);
    } else {
      EvenStep(r, d, bc, bc / 2, product);
    }
  }

  lemma OddStep(r: int, d: int, bc: int, q: int, product: int)
    requires bc == 2 * q + 1 && Multiplied(r, d, bc, product)
    ensures Multiplied((r + d) % WORD, d * 2 % WORD, q, product)
  {
    ModSumProduct(r + d, d * 2, q);
    TwiceAndOne(d, q, bc);
  }

  lemma TwiceAndOne(d: int, q: int, bc: int)
    requires bc == 2 * q + 1
    ensures d * bc == d + d * 2 * q
  {
  }

  lemma EvenStep(r: int, d: int, bc: int, q: int, product: int)
    requires 0 <= r < WORD && bc == 2 * q && Multiplied(r, d, bc, product)
    ensures Multiplied(r, d * 2 % WORD, q, product)
  {
    var y, z := (d * 2 % WORD) * q, d * 2 * q;
    ModSumProduct(r, d * 2, q);
    Twice(d, q, bc);
    SameSum(r, y, z);
  }

  lemma SameSum(r: int, y: int, z: int)
    requires 0 <= r < WORD && (r % WORD + y) % WORD == (r + z) % WORD
    ensures (r + y) % WORD == (r + z) % WORD
  {
  }

  lemma Twice(d: int, q: int, bc: int)
    requires bc == 2 * q
    ensures d * bc == d * 2 * q
  {
  }

  // --- division

  // m shifted left k places, without bound.
  function Shl(m: int, k: nat): int {
    if k == 0 then m else 2 * Shl(m, k - 1)
  }

  lemma {:induction false} ShlSum(m: int, n: int, k: nat)
    ensures Shl(m + n, k) == Shl(m, k) + Shl(n, k)
  {
    if k > 0 { ShlSum(m, n, k - 1); }
  }

  lemma {:induction false} ShlOrder(m: int, n: int, k: nat)
    ensures m < n <==> Shl(m, k) < Shl(n, k)
    ensures m >= 0 ==> Shl(m, k) >= 0
  {
    if k > 0 { ShlOrder(m, n, k - 1); }
  }

  lemma {:induction false} ShlTwice(m: int, j: nat, k: nat)
    ensures Shl(Shl(m, j), k) == Shl(m, j + k)
  {
    if k > 0 { ShlTwice(m, j, k - 1); }
  }

  lemma ShlFour(m: int)
    ensures Shl(m, 4) == 16 * m
  {
    assert Shl(m, 0) == m;
    assert Shl(m, 1) == 2 * m;
    assert Shl(m, 2) == 4 * m;
    assert Shl(m, 3) == 8 * m;
  }

  lemma ShlWord(m: int)
    ensures Shl(m, 16) == WORD * m
  {
    ShlFour(m);
    ShlFour(Shl(m, 4));
    ShlTwice(m, 4, 4);
    ShlFour(Shl(m, 8));
    ShlTwice(m, 8, 4);
    ShlFour(Shl(m, 12));
    ShlTwice(m, 12, 4);
  }

  lemma PowBelow(k: nat)
    requires k < 16
    ensures 1 <= Shl(1, k) <= 0x8000
  {
    ShlTwice(1, k, 15 - k);
    ShlOrder(0, 1, k);
    ShlPositive(0, k);
    ShlPositive(Shl(1, k), 15 - k);
    ShlWord(1);
    assert Shl(1, 16) == 2 * Shl(1, 15);
  }

  // The dividend's remaining bits, left-aligned after k steps: m counts in units of 2^k.
  ghost predicate Aligned(k: nat, rest: int, m: int) {
    k <= 16 && 0 <= rest < WORD && rest == Shl(m, k)
  }

  // A multiple of 2^k below another leaves room for any k-bit number.
  lemma ShlGap(m: int, n: int, k: nat, low: int)
    requires Shl(m, k) < Shl(n, k) && 0 <= low < Shl(1, k)
    ensures Shl(m, k) + low < Shl(n, k)
  {
    ShlOrder(m, n, k);
    ShlOrder(n, m + 1, k);
    ShlSum(m, 1, k);
  }

  // Quotient bits below the aligned rest do not reach the top bit, and doubling keeps the alignment.
  lemma ShiftAligned(k: nat, rest: int, m: int, low: int) returns (m': int)
    requires k < 16 && Aligned(k, rest, m) && 0 <= low < Shl(1, k)
    ensures rest + low < WORD
    ensures (rest + low) / 0x8000 == rest / 0x8000
    ensures (2 * (rest + low)) % WORD == 2 * rest % WORD + 2 * low
    ensures Aligned(k + 1, 2 * rest % WORD, m')
  {
    var half := Shl(1, 15 - k);
    ShlTwice(1, 15 - k, k);
    ShlTwice(1, 15, 1);
    ShlWord(1);
    assert Shl(half, k) == 0x8000;
    ShlSum(half, half, k);
    assert Shl(half + half, k) == WORD;
    ShlGap(m, half + half, k, low);
    if rest < 0x8000 {
      ShlGap(m, half, k, low);
      m' := m;
    } else {
      m' := m - half;
      ShlSum(m', half, k);
    }
  }

  // The state of DIVE after k quotient bits: x * 2^k == hi * 2^16 + rest, the bits of q are the
  // low end of DE except the last, which is in the carry, and hi == q * y + rem (qy stands for q * y).
  ghost predicate Divided(x: int, y: int, k: nat, de: int, carry: int, rem: int, hi: int, rest: int, m: int, q: int,
                          qy: int)
  {
    && Aligned(k, rest, m)
    && Shl(x, k) == hi * WORD + rest && 0 <= hi < Shl(1, k)
    && 0 <= q < Shl(1, k) && carry == q % 2 && de == rest + q / 2
    && hi == qy + rem && 0 <= rem <= hi
    && (if y > 0 then rem < y else q == Shl(1, k) - 1 && qy == 0)
  }

  // One round of DIVE on values: rotate DE, bring the bit down, subtract if possible.
  lemma DivideStep(x: int, y: int, k: nat, de: int, carry: int, rem: int, hi: int, rest: int, m: int, q: int, qy: int)
      returns (hi': int, rest': int, m': int, q': int, qy': int)
    requires k < 16 && 0 <= y && Divided(x, y, k, de, carry, rem, hi, rest, m, q, qy)
    ensures 0 <= de < WORD && 2 * rem + 1 < WORD
    ensures var t := 2 * rem + de / 0x8000;
            && q' == (if t < y then 2 * q else 2 * q + 1) && qy' == (if t < y then 2 * qy else 2 * qy + y)
            && Divided(x, y, k + 1, 2 * de % WORD + carry, if t < y then 0 else 1, if t < y then t else t - y,
                       hi', rest', m', q', qy')
  {
    m' := ShiftAligned(k, rest, m, q / 2);
    PowBelow(k);
    var top := de / 0x8000;
    var t := 2 * rem + top;
    hi', rest' := 2 * hi + top, 2 * rest % WORD;
    assert 2 * rest == top * WORD + rest';
    q', qy' := if t < y then 2 * q else 2 * q + 1, if t < y then 2 * qy else 2 * qy + y;
    assert q' / 2 == q;
    assert 2 * de % WORD + carry == rest' + q;
    assert Shl(1, k + 1) == 2 * Shl(1, k) && Shl(x, k + 1) == 2 * Shl(x, k);
  }

  lemma {:induction false} ShlPositive(m: int, k: nat)
    requires m >= 0
    ensures Shl(m, k) >= m
  {
    if k > 0 { ShlPositive(m, k - 1); }
  }

  lemma ProductStep(q: int, y: int)
    ensures (2 * q) * y == 2 * (q * y)
    ensures (2 * q + 1) * y == 2 * (q * y) + y
  {
  }

  ghost predicate Dividing(x: int, y: int, k: nat, de: int, carry: int, rem: int, hi: int, rest: int, m: int, q: int,
                           qy: int)
  {
    forall z {:trigger Unfold(z)} :: Unfold(z) ==> Divided(x, y, k, de, carry, rem, hi, rest, m, q, qy) && qy == q * y
  }

  lemma DivideStart(x: word, y: word)
    ensures Dividing(x, y, 0, x, 0, 0, 0, x, x, 0, 0)
  {
  }

  lemma DividingStep(x: int, y: int, k: nat, de: int, carry: int, rem: int, hi: int, rest: int, m: int, q: int, qy: int)
      returns (hi': int, rest': int, m': int, q': int, qy': int)
    requires k < 16 && 0 <= y && Dividing(x, y, k, de, carry, rem, hi, rest, m, q, qy)
    ensures 0 <= de < WORD && 0 <= rem && 2 * rem + 1 < WORD
    ensures var t := 2 * rem + de / 0x8000;
            Dividing(x, y, k + 1, 2 * de % WORD + carry, if t < y then 0 else 1, if t < y then t else t - y,
                     hi', rest', m', q', qy')
  {
    assert Unfold(0);
    ProductStep(q, y);
    hi', rest', m', q', qy' := DivideStep(x, y, k, de, carry, rem, hi, rest, m, q, qy);
  }

  // DIVE: quotient and remainder for every nonzero divisor; all ones and the dividend for a zero one.
  // The doubling of the remainder drops a carry that is never set.
  method Dive(x: word, y: word) returns (quotient: word, remainder: word)
    ensures y != 0 ==> quotient == x / y && remainder == x % y
    ensures y == 0 ==> quotient == 0xFFFF && remainder == x
  {
    var de: int, carry: int, rem: int := x, 0, 0;
    var bnum := 17;
    ghost var hi: int, rest: int, m: int, q: int, qy: int := 0, x, x, 0, 0;
    DivideStart(x, y);
    ghost var k := 0;
    while bnum > 1
      invariant 1 <= bnum <= 17 && k == 17 - bnum
      invariant Dividing(x, y, k, de, carry, rem, hi, rest, m, q, qy)
      decreases bnum
    {
      de, carry, rem, hi, rest, m, q, qy := DiveRound(x, y, k, de, carry, rem, hi, rest, m, q, qy);
      bnum := bnum - 1;
      k := k + 1;
    }
    DivideEnd(x, y, de, carry, rem, hi, rest, m, q, qy);
    quotient, remainder := 2 * de % WORD + carry, rem;
  }

  method DiveRound(ghost x: int, y: word, ghost k: nat, de: int, carry: int, rem: int,
                   ghost hi: int, ghost rest: int, ghost m: int, ghost q: int, ghost qy: int)
      returns (de': int, carry': int, rem': int,
               ghost hi': int, ghost rest': int, ghost m': int, ghost q': int, ghost qy': int)
    requires k < 16 && Dividing(x, y, k, de, carry, rem, hi, rest, m, q, qy)
    ensures Dividing(x, y, k + 1, de', carry', rem', hi', rest', m', q', qy')
  {
    hi', rest', m', q', qy' := DividingStep(x, y, k, de, carry, rem, hi, rest, m, q, qy);
    de', carry', rem' := DivideRound(de, carry, rem, y);
  }

  // DLOOP: the rotations, the 16-bit doubling, the subtraction, and adding back after a borrow.
  method DivideRound(de: int, carry: int, rem: int, y: int) returns (de': int, carry': int, rem': int)
    requires 0 <= de < WORD && 0 <= rem && 2 * rem + 1 < WORD && 0 <= y < WORD
    ensures var t := 2 * rem + de / 0x8000;
            && de' == 2 * de % WORD + carry && carry' == (if t < y then 0 else 1) && rem' == if t < y then t else t - y
  {
    var out := de / 0x8000;
    de' := 2 * de % WORD + carry;
    var t := 2 * rem % WORD + out;
    var diff := (t - y) % WORD;
    if t < y {
      rem', carry' := (diff + y) % WORD, 0;
    } else {
      rem', carry' := diff, 1;
    }
  }

  lemma DivideEnd(x: int, y: int, de: int, carry: int, rem: int, hi: int, rest: int, m: int, q: int, qy: int)
    requires 0 <= x < WORD && 0 <= y && Dividing(x, y, 16, de, carry, rem, hi, rest, m, q, qy)
    ensures 2 * de % WORD + carry == q < WORD && 0 <= rem < WORD
    ensures y != 0 ==> q == x / y && rem == x % y
    ensures y == 0 ==> q == 0xFFFF && rem == x
  {
    assert Unfold(0);
    ShlWord(1);
    ShlWord(x);
    assert hi == x && rest == 0;
    if y != 0 {
      QuotientIs(x, y, q, rem);
    }
  }

  // --- shifts, negation and logic

  // a shifted right n places.
  function Shr(a: nat, n: nat): nat {
    if n == 0 then a else Shr(a / 2, n - 1)
  }

  lemma DoubleMod(a: int)
    ensures (a % WORD + a % WORD) % WORD == 2 * a % WORD
  {
    var k := a / WORD;
    assert a % WORD + a % WORD == 2 * a - WORD * (2 * k);
    ModMinusMultiple(2 * a, 2 * k);
  }

  // SHL0: the value doubled `count` times in HL.
  method ShiftLeft(hl: word, count: nat) returns (r: word)
    ensures r == Shl(hl, count) % WORD
  {
    r := hl;
    var done := 0;
    while done < count
      invariant 0 <= done <= count && r == Shl(hl, done) % WORD
    {
      DoubleMod(Shl(hl, done));
      r := (r + r) % WORD;
      done := done + 1;
    }
  }

  // SHR0: zero-filled right shifts through the carry, high byte first.
  method ShiftRight(hl: word, count: nat) returns (r: word)
    ensures r == Shr(hl, count)
  {
    r := hl;
    var a := count;
    while a > 0
      invariant 0 <= a <= count && Shr(hl, count) == Shr(r, a)
    {
      var h, l := r / 256, r % 256;
      var carry := h % 2;
      r := h / 2 * 256 + (l / 2 + carry * 128);
      a := a - 1;
    }
  }

  // NEGF: byte-wise 0 - HL with borrow.
  method Negf(hl: word) returns (r: word)
    ensures r == if hl == 0 then 0 else WORD - hl
  {
    var h, l := hl / 256, hl % 256;
    var low, borrow := (0 - l) % 256, if l > 0 then 1 else 0;
    assert low == if l > 0 then 256 - l else 0;
    var high := (0 - h - borrow) % 256;
    assert high == if h + borrow > 0 then 256 - h - borrow else 0;
    r := high * 256 + low;
  }

  datatype Logic = AndBits | OrBits | XorBits

  function BitOf(op: Logic, x: bit, y: bit): bit {
    match op
    case AndBits => if x == 1 && y == 1 then 1 else 0
    case OrBits => if x == 1 || y == 1 then 1 else 0
    case XorBits => if x == y then 0 else 1
  }

  // The operation on the n low bits of a and b.
  function Bitwise(op: Logic, n: nat, a: nat, b: nat): nat {
    if n == 0 then 0 else 2 * Bitwise(op, n - 1, a / 2, b / 2) + BitOf(op, a % 2, b % 2)
  }

  lemma {:induction false} BitwiseBound(op: Logic, n: nat, a: nat, b: nat)
    ensures Bitwise(op, n, a, b) < Shl(1, n)
  {
    if n > 0 { BitwiseBound(op, n - 1, a / 2, b / 2); }
  }

  // The low k bits and the bits above them are worked on separately.
  lemma {:induction false} BitwiseSplit(op: Logic, k: nat, n: nat, a: nat, a': nat, b: nat, b': nat, x: nat, y: nat)
    requires x == Shl(a, k) + a' && y == Shl(b, k) + b' && a' < Shl(1, k) && b' < Shl(1, k)
    ensures Bitwise(op, k + n, x, y) == Shl(Bitwise(op, n, a, b), k) + Bitwise(op, k, a', b')
  {
    if k > 0 {
      HalveAbove(a, k, a');
      HalveAbove(b, k, b');
      BitwiseSplit(op, k - 1, n, a, a' / 2, b, b' / 2, x / 2, y / 2);
      BitwiseJoin(op, k - 1 + n, k - 1, x, y, a', b', Shl(Bitwise(op, n, a, b), k - 1));
    }
  }

  // One more low bit on both sides.
  lemma BitwiseJoin(op: Logic, m: nat, j: nat, x: nat, y: nat, u: nat, v: nat, r: int)
    requires x % 2 == u % 2 && y % 2 == v % 2
    requires Bitwise(op, m, x / 2, y / 2) == r + Bitwise(op, j, u / 2, v / 2)
    ensures Bitwise(op, m + 1, x, y) == 2 * r + Bitwise(op, j + 1, u, v)
  {
  }

  lemma HalveAbove(a: nat, k: nat, a': nat)
    requires k > 0
    ensures (Shl(a, k) + a') / 2 == Shl(a, k - 1) + a' / 2 && (Shl(a, k) + a') % 2 == a' % 2
  {
    assert Shl(a, k) == 2 * Shl(a, k - 1);
  }

  lemma ShlByte(m: int)
    ensures Shl(m, 8) == 256 * m
  {
    ShlFour(m);
    ShlFour(Shl(m, 4));
    ShlTwice(m, 4, 4);
  }

  // --- what the logic means

  // Bit k of a number.
  function BitAt(x: nat, k: nat): int { x / Pow2(k) % 2 }

  // The bit r is that of the operation on the bits x and y.
  predicate BitIs(op: Logic, x: int, y: int, r: int) {
    match op
    case AndBits => r == 1 <==> x == 1 && y == 1
    case OrBits => r == 1 <==> x == 1 || y == 1
    case XorBits => r == 1 <==> (x == 1) != (y == 1)
  }

  lemma BitBelow(x: nat, k: nat)
    requires k > 0
    ensures BitAt(x, k) == BitAt(x / 2, k - 1)
  {
    HalfOfQuotient(x, Pow2(k - 1));
  }

  // Every bit of the result is that of the operation on the bits of the operands.
  lemma {:induction false} BitwiseBits(op: Logic, n: nat, a: nat, b: nat, k: nat)
    requires k < n
    ensures BitIs(op, BitAt(a, k), BitAt(b, k), BitAt(Bitwise(op, n, a, b), k))
    decreases n
  {
    var r := Bitwise(op, n, a, b);
    assert r / 2 == Bitwise(op, n - 1, a / 2, b / 2) && r % 2 == BitOf(op, a % 2, b % 2);
    if k == 0 {
      assert Pow2(0) == 1;
    } else {
      BitBelow(a, k);
      BitBelow(b, k);
      BitBelow(r, k);
      BitwiseBits(op, n - 1, a / 2, b / 2, k - 1);
    }
  }

  // What both numbers have and what one of them has add up to the numbers; exactly one has the difference.
  lemma {:induction false} LogicSums(n: nat, a: nat, b: nat)
    requires a < Shl(1, n) && b < Shl(1, n)
    ensures Bitwise(AndBits, n, a, b) + Bitwise(OrBits, n, a, b) == a + b
    ensures Bitwise(XorBits, n, a, b) == Bitwise(OrBits, n, a, b) - Bitwise(AndBits, n, a, b)
  {
    if n > 0 {
      assert Shl(1, n) == 2 * Shl(1, n - 1);
      LogicSums(n - 1, a / 2, b / 2);
    }
  }

  // ANDOP, OROP, XOROP: high bytes, then low bytes.
  method Logical(op: Logic, de: word, hl: word) returns (r: word)
    ensures r == Bitwise(op, 16, hl, de)
    ensures forall k :: 0 <= k < 16 ==> BitIs(op, BitAt(hl, k), BitAt(de, k), BitAt(r, k))
  {
    forall k | 0 <= k < 16
      ensures BitIs(op, BitAt(hl, k), BitAt(de, k), BitAt(Bitwise(op, 16, hl, de), k))
    {
      BitwiseBits(op, 16, hl, de, k);
    }
    var h := Bitwise(op, 8, hl / 256, de / 256);
    var l := Bitwise(op, 8, hl % 256, de % 256);
    BitwiseBound(op, 8, hl / 256, de / 256);
    BitwiseBound(op, 8, hl % 256, de % 256);
    ShlByte(1);
    ShlByte(hl / 256);
    ShlByte(de / 256);
    BitwiseSplit(op, 8, 8, hl / 256, hl % 256, de / 256, de % 256, hl, de);
    ShlByte(h);
    r := h * 256 + l;
  }
}
