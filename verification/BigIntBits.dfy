/** Bitwise operations of `src/runtime/bigint.rs`: two's complement words
    against the bits of integers of unbounded width. */
module BigIntBits {
  import opened Bits
  import opened Limbs
  import opened LimbShifts
  import opened BigInt

  /** Bit `i` of an integer, as if written in two's complement without end. */
  predicate Bit(x: int, i: nat) {
    (x / Pow2(i)) % 2 == 1
  }

  // ---------------------------------------------------------- bits of numbers

  lemma EvenPow2(n: nat)
    requires n > 0
    ensures Pow2(n) % 2 == 0
  {
    var half := Pow2(n - 1);
    assert Pow2(n) == 2 * half;
  }

  lemma EvenProduct(a: int, k: int)
    requires k % 2 == 0
    ensures (a * k) % 2 == 0
  {
    var h := k / 2;
    assert k == 2 * h;
    assert a * (2 * h) == 2 * (a * h);
  }

  /** Bits below `n` do not see multiples of two to the `n`. */
  lemma BitMod(x: int, m: nat, q: int, n: nat, i: nat)
    requires i < n && x == q * Pow2(n) + m
    ensures Bit(x, i) <==> Bit(m, i)
  {
    Pow2Add(n - i, i);
    EvenPow2(n - i);
    ModParity(x, m, q, Pow2(n - i), Pow2(i));
  }

  lemma ModParity(x: int, m: nat, q: int, e: nat, p: nat)
    requires e % 2 == 0 && p > 0 && x == q * (e * p) + m
    ensures (x / p) % 2 == (m / p) % 2
  {
    var h, r := m / p, m % p;
    assert m == h * p + r;
    SplitMultiple(q, e, p, h, r, x);
    var even := q * e;
    EvenProduct(q, e);
    IntDivUnique(x, p, even + h, r);
    ParitySum(even, h);
  }

  lemma SplitMultiple(q: int, e: nat, p: nat, h: nat, r: nat, x: int)
    requires x == q * (e * p) + (h * p + r)
    ensures x == (q * e + h) * p + r
  {
    assert q * (e * p) == (q * e) * p;
    assert (q * e + h) * p == (q * e) * p + h * p;
  }

  lemma ParitySum(even: int, h: int)
    requires even % 2 == 0
    ensures (even + h) % 2 == h % 2
  {
  }

  /** Above its width, every bit of a number is its sign. */
  lemma BitHigh(x: int, n: nat, i: nat)
    requires n <= i && -(Pow2(n) as int) <= x < Pow2(n)
    ensures Bit(x, i) <==> x < 0
  {
    Pow2Monotone(n, i);
    if x < 0 {
      IntDivUnique(x, Pow2(i), -1, x + Pow2(i));
    } else {
      IntDivUnique(x, Pow2(i), 0, x);
    }
  }

  /** The top bit of a number below two to the `n`. */
  lemma TopBit(m: nat, n: nat)
    requires n > 0 && m < Pow2(n)
    ensures Bit(m, n - 1) <==> m >= Pow2(n - 1)
  {
    var half := Pow2(n - 1);
    if m >= half {
      IntDivUnique(m, half, 1, m - half);
    } else {
      IntDivUnique(m, half, 0, m);
    }
  }

  /** Limbs above do not change the bits of a limb. */
  lemma WordParity(limb: nat, above: nat, m: nat, c: nat)
    requires m > 0 && m * c == B && c % 2 == 0
    ensures ((limb + B * above) / m) % 2 == (limb / m) % 2
  {
    ShrColumn(above, limb, m, c);
    EvenProduct(above % m, c);
    EvenProduct(above / m, B);
    LimbParity(limb / m, (above % m) * c, B * (above / m));
  }

  /** Bit `i` of a limb list is bit `i % 32` of limb `i / 32`. */
  lemma LimbBit(s: seq<u32>, k: nat, j: nat)
    requires k < |s| && j < 32
    ensures Bit(Val(s), 32 * k + j) <==> Bit(s[k], j)
  {
    ShiftScale(32 * k + j, k, j);
    ShrSplit(s, k, Pow2(j));
    HighPrepend(s, k);
    Halves(j);
    EvenPow2(32 - j);
    WordParity(s[k], High(s, k + 1), Pow2(j), Pow2(32 - j));
  }

  lemma LimbParity(a: int, even: int, alsoEven: int)
    requires even % 2 == 0 && alsoEven % 2 == 0
    ensures (a + even + alsoEven) % 2 == a % 2
  {
  }

  // ----------------------------------------------------- two's complement

  lemma {:induction false} LowInverted(s: seq<u32>, t: seq<u32>, n: nat)
    requires n <= |s| == |t| && forall i :: 0 <= i < n ==> t[i] == B - 1 - s[i]
    ensures Low(t, n) + Low(s, n) == P(n) - 1
  {
    if n > 0 {
      LowInverted(s, t, n - 1);
      assert t[n - 1] * P(n - 1) + s[n - 1] * P(n - 1) == (B - 1) * P(n - 1) by {
        assert (t[n - 1] + s[n - 1]) * P(n - 1) == t[n - 1] * P(n - 1) + s[n - 1] * P(n - 1);
      }
    }
  }

  method Invert(s: seq<u32>) returns (t: seq<u32>)
    ensures |t| == |s| && Val(t) == P(|s|) - 1 - Val(s)
  {
    t := [];
    for i := 0 to |s|
      invariant |t| == i && forall k :: 0 <= k < i ==> t[k] == B - 1 - s[k]
    {
      t := t + [B - 1 - s[i]];
    }
    LowInverted(s, t, |s|);
  }

  /** Adds one, within the same number of words; the last carry is lost. */
  method Increment(s: seq<u32>) returns (t: seq<u32>)
    ensures |t| == |s| && Val(t) == if Val(s) + 1 < P(|s|) then Val(s) + 1 else 0
  {
    t := s;
    var carry: nat := 1;
    var i := 0;
    while i < |s| && carry != 0
      invariant i <= |s| == |t| && carry <= 1
      invariant Val(t) + carry * P(i) == Val(s) + 1
    {
      var sum := t[i] + carry;
      CarryStep(sum, P(i));
      assert sum * P(i) == t[i] * P(i) + carry * P(i);
      LowUpdate(t, i, sum % B, |s|);
      t := t[i := sum % B];
      carry := sum / B;
      i := i + 1;
    }
    LowBound(s, |s|);
    LowBound(t, |s|);
  }

  /** Subtracts one, within the same number of words. */
  method Decrement(s: seq<u32>) returns (t: seq<u32>)
    requires Val(s) > 0
    ensures |t| == |s| && Val(t) == Val(s) - 1
  {
    t := s;
    var borrow: nat := 1;
    var i := 0;
    while i < |s| && borrow != 0
      invariant i <= |s| == |t| && borrow <= 1
      invariant Val(t) == Val(s) - 1 + borrow * P(i)
    {
      var digit := if t[i] >= borrow then t[i] - borrow else B + t[i] - borrow;
      LowUpdate(t, i, digit, |s|);
      BorrowStep(t[i], digit, P(i));
      borrow := if t[i] >= borrow then 0 else 1;
      t := t[i := digit];
      i := i + 1;
    }
    LowBound(t, |s|);
    assert borrow == 0;
  }

  lemma BorrowStep(was: nat, digit: nat, p: nat)
    ensures digit + 1 == was ==> was * p == digit * p + p
    ensures was == 0 && digit == B - 1 ==> digit * p + p == B * p && was * p == 0
  {
  }

  /** The low words are the remainder. */
  lemma LowIsMod(s: seq<u32>, n: nat)
    ensures Low(s, n) == Val(s) % P(n)
  {
    LowBound(s, n);
    if n <= |s| {
      HighIsVal(s, n);
      DivUnique(Val(s), P(n), High(s, n), Low(s, n));
    } else {
      LowPast(s, n);
      DivUnique(Val(s), P(n), 0, Val(s));
    }
  }

  lemma NegatedMod(x: int, p: nat)
    requires x >= 0 && p > 0
    ensures (-x) % p == if x % p == 0 then 0 else p - x % p
  {
    var q, r := x / p, x % p;
    assert x == q * p + r;
    assert (-q) * p == -(q * p) && (-q - 1) * p == -(q * p) - p;
    if r == 0 {
      IntDivUnique(-x, p, -q, 0);
    } else {
      IntDivUnique(-x, p, -q - 1, p - r);
    }
  }

  /** The number in two's complement: its remainder by two to the width, also
      where the words do not hold all limbs. */
  method TwosComplementWords(b: Big, words: nat) returns (out: seq<u32>)
    requires Valid(b)
    ensures |out| == words && Val(out) == V(b) % P(words)
    ensures |b.limbs| <= words ==> Val(out) == if V(b) >= 0 then V(b) else V(b) + P(words)
  {
    var copied := if |b.limbs| < words then |b.limbs| else words;
    out := b.limbs[..copied] + seq(words - copied, _ => 0);
    LowSame(out, b.limbs, words);
    LowIsMod(b.limbs, words);
    ValPositive(b);
    if |b.limbs| <= words {
      LowPast(b.limbs, words);
    }
    if b.sign >= 0 {
      return;
    }
    NegatedMod(Val(b.limbs), P(words));
    LowBound(b.limbs, words);
    out := Invert(out);
    out := Increment(out);
  }

  /** The signed number that the words stand for. */
  method FromTwosComplementWords(words: seq<u32>) returns (r: Big)
    ensures Valid(r)
    ensures words == [] ==> V(r) == 0
    ensures words != [] ==> V(r) == if words[|words| - 1] >= 0x8000_0000 then Val(words) - P(|words|) else Val(words)
  {
    if words == [] {
      return Zero;
    }
    if words[|words| - 1] < 0x8000_0000 {
      r := FromParts(1, words);
      return;
    }
    NormalLow(words);
    var magnitude := Decrement(words);
    magnitude := Invert(magnitude);
    LowBound(words, |words|);
    r := FromParts(-1, magnitude);
  }

  // ------------------------------------------------------- bitwise operations

  /** `op` applies `f` to the bits of two words. */
  ghost predicate Bitwise(op: (u32, u32) -> u32, f: (bool, bool) -> bool) {
    forall a: u32, b: u32, i: nat :: i < 32 ==> (Bit(op(a, b), i) <==> f(Bit(a, i), Bit(b, i)))
  }

  /** The width in bits leaves room for the sign. */
  lemma WidthFits(b: Big, bits: nat, n: nat)
    requires Valid(b) && n >= bits + 2
    requires b.limbs == [] ==> bits == 0
    requires b.limbs != [] ==> Val(b.limbs) < Pow2(bits)
    ensures -(Pow2(n - 2) as int) < V(b) < Pow2(n - 2)
  {
    ValPositive(b);
    Pow2Monotone(bits, n - 2);
  }

  /** The words hold enough limbs. */
  lemma LimbsFit(b: Big, words: nat, n: nat)
    requires Valid(b) && n == 32 * words && n >= 2 && -(Pow2(n - 2) as int) < V(b) < Pow2(n - 2)
    ensures |b.limbs| <= words
  {
    ValPositive(b);
    if |b.limbs| > words {
      NormalLow(b.limbs);
      PMonotone(words, |b.limbs| - 1);
      PIsPow2(words);
      Pow2Monotone(n - 2, n);
    }
  }

  /** Below the width, the words have the bits of the number. */
  lemma WordBitsOf(b: Big, words: nat, out: seq<u32>, n: nat, i: nat)
    requires n == 32 * words && i < n
    requires (V(b) >= 0 ==> Val(out) == V(b)) && (V(b) < 0 ==> Val(out) == V(b) + P(words))
    ensures Bit(Val(out), i) <==> Bit(V(b), i)
  {
    PIsPow2(words);
    BitMod(V(b), Val(out), if V(b) < 0 then -1 else 0, n, i);
  }

  /** The signed reading of words has their bits below the width, and its sign above. */
  lemma SignedBits(x: int, out: seq<u32>, words: nat, n: nat, i: nat)
    requires words > 0 && |out| == words && n == 32 * words
    requires x == if out[words - 1] >= 0x8000_0000 then Val(out) - P(words) else Val(out)
    ensures Bit(x, i) <==> Bit(Val(out), if i < n then i else n - 1)
  {
    PIsPow2(words);
    LowBound(out, words);
    if i < n {
      BitMod(x, Val(out), if x == Val(out) then 0 else -1, n, i);
    } else {
      TopBit(Val(out), n);
      TopWord(out, words, n);
      BitHigh(x, n - 1, i);
    }
  }

  /** The top bit of the last word is the top bit of the whole. */
  lemma TopWord(out: seq<u32>, words: nat, n: nat)
    requires words > 0 && |out| == words && n == 32 * words
    ensures out[words - 1] >= 0x8000_0000 <==> Val(out) >= Pow2(n - 1)
    ensures Pow2(n) == 2 * Pow2(n - 1)
  {
    var p := P(words - 1);
    PIsPow2(words - 1);
    Pow2Half();
    Pow2Add(31, 32 * (words - 1));
    LowBound(out, words - 1);
    HalfWord(Low(out, words - 1), out[words - 1], p);
  }

  lemma Pow2Half()
    ensures Pow2(31) == 0x8000_0000
  {
    Pow2Of32();
    assert Pow2(32) == 2 * Pow2(31);
  }

  lemma HalfWord(low: nat, top: nat, p: nat)
    requires low < p
    ensures top >= 0x8000_0000 <==> low + top * p >= 0x8000_0000 * p
  {
    if top >= 0x8000_0000 {
      ScaleUp(0x8000_0000, top, p);
    } else {
      ScaleUp(top + 1, 0x8000_0000, p);
      assert (top + 1) * p == top * p + p;
    }
  }

  /** Word by word, the operation acts on every bit. */
  lemma WordsBits(op: (u32, u32) -> u32, f: (bool, bool) -> bool, l: seq<u32>, r: seq<u32>, out: seq<u32>, i: nat)
    requires Bitwise(op, f) && |l| == |r| == |out| && i < 32 * |out|
    requires forall k :: 0 <= k < |out| ==> out[k] == op(l[k], r[k])
    ensures Bit(Val(out), i) <==> f(Bit(Val(l), i), Bit(Val(r), i))
  {
    var k, j := i / 32, i % 32;
    LimbBit(out, k, j);
    LimbBit(l, k, j);
    LimbBit(r, k, j);
    assert Bit(op(l[k], r[k]), j) <==> f(Bit(l[k], j), Bit(r[k], j));
  }

  lemma ResultBits(op: (u32, u32) -> u32, f: (bool, bool) -> bool, a: Big, b: Big, words: nat, n: nat,
                   l: seq<u32>, r: seq<u32>, out: seq<u32>, x: int, i: nat)
    requires Bitwise(op, f) && |l| == |r| == |out| == words && words > 0 && n == 32 * words
    requires forall k :: 0 <= k < |out| ==> out[k] == op(l[k], r[k])
    requires (V(a) >= 0 ==> Val(l) == V(a)) && (V(a) < 0 ==> Val(l) == V(a) + P(words))
    requires (V(b) >= 0 ==> Val(r) == V(b)) && (V(b) < 0 ==> Val(r) == V(b) + P(words))
    requires -(Pow2(n - 2) as int) < V(a) < Pow2(n - 2) && -(Pow2(n - 2) as int) < V(b) < Pow2(n - 2)
    requires x == if out[words - 1] >= 0x8000_0000 then Val(out) - P(words) else Val(out)
    ensures Bit(x, i) <==> f(Bit(V(a), i), Bit(V(b), i))
  {
    var j := if i < n then i else n - 1;
    SignedBits(x, out, words, n, i);
    WordsBits(op, f, l, r, out, j);
    WordBitsOf(a, words, l, n, j);
    WordBitsOf(b, words, r, n, j);
    if i >= n {
      BitHigh(V(a), n - 2, i);
      BitHigh(V(a), n - 2, n - 1);
      BitHigh(V(b), n - 2, i);
      BitHigh(V(b), n - 2, n - 1);
    }
  }

  /** Every bit of the result, to any height, is the operation on the bits of the operands. */
  method BitwiseOp(a: Big, b: Big, op: (u32, u32) -> u32, ghost f: (bool, bool) -> bool) returns (r: Big)
    requires Valid(a) && Valid(b) && Bitwise(op, f)
    ensures Valid(r) && forall i: nat :: Bit(V(r), i) <==> f(Bit(V(a), i), Bit(V(b), i))
  {
    var aBits := BitLength(a.limbs);
    var bBits := BitLength(b.limbs);
    var width := (if aBits > bBits then aBits else bBits) + 2;
    var words := (width + 31) / 32;
    ghost var n := 32 * words;
    WidthFits(a, aBits, n);
    WidthFits(b, bBits, n);
    LimbsFit(a, words, n);
    LimbsFit(b, words, n);
    var left := TwosComplementWords(a, words);
    var right := TwosComplementWords(b, words);
    var out: seq<u32> := [];
    for idx := 0 to words
      invariant |out| == idx && forall k :: 0 <= k < idx ==> out[k] == op(left[k], right[k])
    {
      out := out + [op(left[idx], right[idx])];
    }
    r := FromTwosComplementWords(out);
    forall i: nat
      ensures Bit(V(r), i) <==> f(Bit(V(a), i), Bit(V(b), i))
    {
      ResultBits(op, f, a, b, words, n, left, right, out, V(r), i);
    }
  }

  /** Complement is minus one minus the number, which flips every bit. */
  method BitNot(b: Big) returns (r: Big)
    requires Valid(b)
    ensures Valid(r) && V(r) == -1 - V(b)
    ensures forall i: nat :: Bit(V(r), i) <==> !Bit(V(b), i)
  {
    var negated := Negated(b);
    var one := FromI64(1);
    r := BigInt.Sub(negated, one);
    forall i: nat
      ensures Bit(V(r), i) <==> !Bit(V(b), i)
    {
      FlippedBit(V(b), i);
    }
  }

  lemma FlippedBit(x: int, i: nat)
    ensures Bit(-1 - x, i) <==> !Bit(x, i)
  {
    var p := Pow2(i);
    var q, r := x / p, x % p;
    assert x == q * p + r;
    assert (-1 - q) * p == -1 * p - q * p;
    IntDivUnique(-1 - x, p, -1 - q, p - 1 - r);
  }

  // ------------------------------------------------------------- the words

  /** The operation on the low `n` bits of two words. */
  function WordOp(f: (bool, bool) -> bool, n: nat, a: nat, b: nat): nat {
    if n == 0 then 0
    else 2 * WordOp(f, n - 1, a / 2, b / 2) + if f(a % 2 == 1, b % 2 == 1) then 1 else 0
  }

  lemma {:induction false} WordOpBound(f: (bool, bool) -> bool, n: nat, a: nat, b: nat)
    ensures WordOp(f, n, a, b) < Pow2(n)
  {
    if n > 0 {
      WordOpBound(f, n - 1, a / 2, b / 2);
    }
  }

  /** Halving moves every bit down. */
  lemma HalvedBit(x: nat, i: nat)
    requires i > 0
    ensures Bit(x, i) <==> Bit(x / 2, i - 1)
  {
    var p := Pow2(i - 1);
    var h := x / 2;
    var q, r := h / p, h % p;
    assert h == q * p + r && x == 2 * h + x % 2;
    assert q * (2 * p) == 2 * (q * p);
    IntDivUnique(x, 2 * p, q, 2 * r + x % 2);
  }

  lemma {:induction false} WordOpBits(f: (bool, bool) -> bool, n: nat, a: nat, b: nat, i: nat)
    requires i < n
    ensures Bit(WordOp(f, n, a, b), i) <==> f(Bit(a, i), Bit(b, i))
  {
    var x := WordOp(f, n, a, b);
    if i == 0 {
      assert Pow2(0) == 1;
    } else {
      WordOpBits(f, n - 1, a / 2, b / 2, i - 1);
      HalvedBit(x, i);
      HalvedBit(a, i);
      HalvedBit(b, i);
    }
  }

  /** The operation on whole 32-bit words. */
  function OnWords(f: (bool, bool) -> bool): (u32, u32) -> u32 {
    (a, b) => Word(f, a, b)
  }

  function Word(f: (bool, bool) -> bool, a: u32, b: u32): u32 {
    var n := WordWidth();
    WordOpBound(f, n, a, b);
    WordWidthIs();
    WordOp(f, n, a, b)
  }

  function WordWidth(): nat {
    32
  }

  lemma WordWidthIs()
    ensures Pow2(WordWidth()) == B
  {
    Pow2Of32();
  }

  lemma OnWordsBitwise(f: (bool, bool) -> bool)
    ensures Bitwise(OnWords(f), f)
  {
    forall a: u32, b: u32, i: nat | i < 32
      ensures Bit(OnWords(f)(a, b), i) <==> f(Bit(a, i), Bit(b, i))
    {
      WordOpBits(f, WordWidth(), a, b, i);
    }
  }

  method BitAnd(a: Big, b: Big) returns (r: Big)
    requires Valid(a) && Valid(b)
    ensures Valid(r) && forall i: nat :: Bit(V(r), i) <==> Bit(V(a), i) && Bit(V(b), i)
  {
    OnWordsBitwise((x, y) => x && y);
    r := BitwiseOp(a, b, OnWords((x, y) => x && y), (x, y) => x && y);
  }

  method BitOr(a: Big, b: Big) returns (r: Big)
    requires Valid(a) && Valid(b)
    ensures Valid(r) && forall i: nat :: Bit(V(r), i) <==> Bit(V(a), i) || Bit(V(b), i)
  {
    OnWordsBitwise((x, y) => x || y);
    r := BitwiseOp(a, b, OnWords((x, y) => x || y), (x, y) => x || y);
  }

  method BitXor(a: Big, b: Big) returns (r: Big)
    requires Valid(a) && Valid(b)
    ensures Valid(r) && forall i: nat :: Bit(V(r), i) <==> (Bit(V(a), i) != Bit(V(b), i))
  {
    OnWordsBitwise((x, y) => x != y);
    r := BitwiseOp(a, b, OnWords((x, y) => x != y), (x, y) => x != y);
  }
}
