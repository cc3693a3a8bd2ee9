/** Arbitrary-precision integers of `src/runtime/bigint.rs`, against the integers. */
module BigInt {
  import opened Bits
  import opened Common
  import opened Limbs
  import opened LimbShifts
  import Text

  datatype Big = Big(sign: int, limbs: seq<u32>)

  /** One representation per number: no leading zero limb, and sign zero only for zero. */
  predicate Valid(b: Big) {
    -1 <= b.sign <= 1 && Normal(b.limbs) && (b.sign == 0 <==> b.limbs == [])
  }

  /** The integer a representation stands for. */
  function V(b: Big): int {
    if b.sign < 0 then -(Val(b.limbs) as int) else if b.sign == 0 then 0 else Val(b.limbs)
  }

  lemma ValPositive(b: Big)
    requires Valid(b)
    ensures b.sign == 0 <==> V(b) == 0
    ensures b.sign < 0 <==> V(b) < 0
    ensures Val(b.limbs) == if V(b) < 0 then -V(b) else V(b)
  {
    if b.limbs != [] {
      NormalLow(b.limbs);
    }
  }

  /** Structural equality is equality of numbers. */
  lemma Canonical(a: Big, b: Big)
    requires Valid(a) && Valid(b)
    ensures a == b <==> V(a) == V(b)
  {
    if V(a) == V(b) {
      ValPositive(a);
      ValPositive(b);
      NormalUnique(a.limbs, b.limbs);
    }
  }

  const Zero: Big := Big(0, [])

  method FromParts(sign: int, limbs: seq<u32>) returns (r: Big)
    ensures Valid(r) && V(r) == if sign < 0 then -(Val(limbs) as int) else Val(limbs)
  {
    var trimmed := Trim(limbs);
    if trimmed == [] {
      return Zero;
    }
    return Big(if sign < 0 then -1 else 1, trimmed);
  }

  method FromU64(value: nat) returns (r: Big)
    ensures Valid(r) && V(r) == value
  {
    if value == 0 {
      return Zero;
    }
    var magnitude: nat := value;
    var limbs: seq<u32> := [];
    while magnitude != 0
      invariant Val(limbs) + magnitude * P(|limbs|) == value
      invariant magnitude == 0 ==> limbs != [] && limbs[|limbs| - 1] != 0
    {
      PushWord(limbs, magnitude);
      limbs := limbs + [magnitude % B];
      magnitude := magnitude / B;
    }
    return Big(1, limbs);
  }

  lemma PushWord(limbs: seq<u32>, magnitude: nat)
    ensures Val(limbs + [magnitude % B]) + (magnitude / B) * P(|limbs| + 1) == Val(limbs) + magnitude * P(|limbs|)
  {
    LowPush(limbs, magnitude % B);
    CarryStep(magnitude, P(|limbs|));
  }

  method FromI64(value: int) returns (r: Big)
    ensures Valid(r) && V(r) == value
  {
    r := FromU64(if value < 0 then -value else value);
    if value < 0 {
      ValPositive(r);
      r := Big(-1, r.limbs);
    }
  }

  /** The number as a machine integer, exactly when it fits. */
  method ToI64(b: Big) returns (r: Option<int>)
    requires Valid(b)
    ensures r == if -0x8000_0000_0000_0000 <= V(b) < 0x8000_0000_0000_0000 then Some(V(b)) else None
  {
    ValPositive(b);
    if b.sign == 0 {
      return Some(0);
    }
    if |b.limbs| > 2 {
      ThreeLimbs(b.limbs);
      return None;
    }
    var low, high := At(b.limbs, 0), At(b.limbs, 1);
    var magnitude := low + high * B;
    TwoLimbs(b.limbs);
    if b.sign > 0 {
      return if magnitude <= 0x7FFF_FFFF_FFFF_FFFF then Some(magnitude) else None;
    }
    return if magnitude <= 0x8000_0000_0000_0000 then Some(-magnitude) else None;
  }

  lemma ThreeLimbs(s: seq<u32>)
    requires Normal(s) && |s| > 2
    ensures Val(s) >= 0x1_0000_0000_0000_0000
  {
    NormalLow(s);
    PMonotone(2, |s| - 1);
    assert P(0) == 1 && P(1) == B && P(2) == B * B;
  }

  lemma TwoLimbs(s: seq<u32>)
    requires |s| <= 2
    ensures Val(s) == At(s, 0) + At(s, 1) * B
  {
    LowPast(s, 2);
    assert Low(s, 1) == Low(s, 0) + At(s, 0) * P(0);
    assert P(0) == 1 && P(1) == B;
  }

  method Negated(b: Big) returns (r: Big)
    requires Valid(b)
    ensures Valid(r) && V(r) == -V(b)
  {
    if b.sign == 0 {
      return b;
    }
    return Big(-b.sign, b.limbs);
  }

  method Abs(b: Big) returns (r: Big)
    requires Valid(b)
    ensures Valid(r) && V(r) == if V(b) < 0 then -V(b) else V(b)
  {
    ValPositive(b);
    if b.sign < 0 {
      r := Negated(b);
    } else {
      return b;
    }
  }

  // ---------------------------------------------------- order, sum, difference

  method Cmp(a: Big, b: Big) returns (r: Order)
    requires Valid(a) && Valid(b)
    ensures r == Compare(V(a), V(b))
  {
    ValPositive(a);
    ValPositive(b);
    if a.sign < b.sign {
      return Less;
    }
    if a.sign > b.sign {
      return Greater;
    }
    if a.sign == 0 {
      return Equal;
    }
    if a.sign > 0 {
      r := CmpLimbs(a.limbs, b.limbs);
    } else {
      r := CmpLimbs(b.limbs, a.limbs);
    }
  }

  /** The difference of two magnitudes, with the sign of the first if it is larger. */
  method SubMagnitudes(sign: int, a: seq<u32>, b: seq<u32>) returns (r: Big)
    requires Normal(a) && Normal(b) && (sign == 1 || sign == -1)
    ensures Valid(r) && V(r) == sign * (Val(a) - Val(b))
  {
    var order := CmpLimbs(a, b);
    if order == Equal {
      return Zero;
    }
    if order == Greater {
      NotShorter(a, b);
      var limbs := Limbs.Sub(a, b);
      r := FromParts(sign, limbs);
    } else {
      NotShorter(b, a);
      var limbs := Limbs.Sub(b, a);
      r := FromParts(-sign, limbs);
    }
  }

  lemma NotShorter(a: seq<u32>, b: seq<u32>)
    requires Normal(a) && Normal(b) && Val(a) > Val(b)
    ensures |b| <= |a|
  {
    if |a| < |b| {
      LongerIsLarger(b, a);
    }
  }

  method Sub(a: Big, b: Big) returns (r: Big)
    requires Valid(a) && Valid(b)
    ensures Valid(r) && V(r) == V(a) - V(b)
  {
    if b.sign == 0 {
      return a;
    }
    if a.sign == 0 {
      r := Negated(b);
    } else if a.sign != b.sign {
      var limbs := Limbs.Add(a.limbs, b.limbs);
      r := FromParts(a.sign, limbs);
    } else {
      r := SubMagnitudes(a.sign, a.limbs, b.limbs);
    }
  }

  method Add(a: Big, b: Big) returns (r: Big)
    requires Valid(a) && Valid(b)
    ensures Valid(r) && V(r) == V(a) + V(b)
  {
    if a.sign == 0 {
      return b;
    }
    if b.sign == 0 {
      return a;
    }
    if a.sign == b.sign {
      var limbs := Limbs.Add(a.limbs, b.limbs);
      r := FromParts(a.sign, limbs);
    } else if a.sign == 1 {
      var opposite := Negated(b);
      r := Sub(a, opposite);
    } else {
      var opposite := Negated(a);
      r := Sub(b, opposite);
    }
  }

  // ------------------------------------------------------- product and power

  lemma SignedProduct(x: int, y: int)
    ensures (-x) * y == -(x * y) && x * (-y) == -(x * y) && (-x) * (-y) == x * y
  {
  }

  method Mul(a: Big, b: Big) returns (r: Big)
    requires Valid(a) && Valid(b)
    ensures Valid(r) && V(r) == V(a) * V(b)
  {
    if a.sign == 0 || b.sign == 0 {
      return Zero;
    }
    var limbs := Limbs.Mul(a.limbs, b.limbs);
    SignedProduct(Val(a.limbs), Val(b.limbs));
    r := FromParts(if a.sign == b.sign then 1 else -1, limbs);
  }

  function Power(x: int, n: nat): int {
    if n == 0 then 1 else x * Power(x, n - 1)
  }

  lemma {:induction false} PowerSquare(x: int, n: nat)
    ensures Power(x * x, n) == Power(x, 2 * n)
  {
    if n > 0 {
      PowerSquare(x, n - 1);
      assert Power(x, 2 * n) == x * Power(x, 2 * n - 1);
      assert Power(x, 2 * n - 1) == x * Power(x, 2 * n - 2);
      assert x * (x * Power(x, 2 * n - 2)) == (x * x) * Power(x, 2 * n - 2);
    }
  }

  lemma PowerOdd(out: int, x: int, n: nat)
    requires n % 2 == 1
    ensures out * Power(x, n) == (out * x) * Power(x, n - 1)
  {
    assert out * (x * Power(x, n - 1)) == (out * x) * Power(x, n - 1);
  }

  /** Repeated squaring computes the power. */
  method Pow(b: Big, exponent: nat) returns (out: Big)
    requires Valid(b)
    ensures Valid(out) && V(out) == Power(V(b), exponent)
  {
    var base, e := b, exponent;
    out := FromI64(1);
    while e != 0
      invariant Valid(base) && Valid(out)
      invariant V(out) * Power(V(base), e) == Power(V(b), exponent)
    {
      if e % 2 == 1 {
        PowerOdd(V(out), V(base), e);
        out := Mul(out, base);
      }
      PowerSquare(V(base), e / 2);
      e := e / 2;
      if e != 0 {
        base := Mul(base, base);
      }
    }
  }

  // ------------------------------------------------------------------ shifts

  method ShlBits(b: Big, bits: nat) returns (r: Big)
    requires Valid(b)
    ensures Valid(r) && V(r) == V(b) * Pow2(bits)
  {
    if b.sign == 0 {
      return Zero;
    }
    if bits == 0 {
      return b;
    }
    var limbs := Shl(b.limbs, bits);
    SignedProduct(Val(b.limbs), Pow2(bits));
    r := FromParts(b.sign, limbs);
  }

  /** Division by a power of two, rounding down. */
  method ShrBitsArithmetic(b: Big, bits: nat) returns (r: Big)
    requires Valid(b)
    ensures Valid(r) && V(r) == V(b) / Pow2(bits)
  {
    ValPositive(b);
    if b.sign == 0 {
      return Zero;
    }
    if bits == 0 {
      return b;
    }
    var limbs := Shr(b.limbs, bits);
    var quotient := FromParts(1, limbs);
    if b.sign > 0 {
      return quotient;
    }
    var dropped := HasLowBits(b.limbs, bits);
    NegatedDivision(Val(b.limbs), Pow2(bits));
    if dropped {
      var one := FromI64(1);
      quotient := Add(quotient, one);
    }
    r := Negated(quotient);
  }

  /** Rounding the negative down is rounding the magnitude up. */
  lemma NegatedDivision(x: int, m: nat)
    requires m > 0 && x >= 0
    ensures (-x) / m == if x % m == 0 then -(x / m) else -(x / m) - 1
  {
    var q, r := x / m, x % m;
    assert x == q * m + r;
    if r == 0 {
      IntDivUnique(-x, m, -q, 0);
    } else {
      assert (-q - 1) * m == -(q * m) - m;
      IntDivUnique(-x, m, -q - 1, m - r);
    }
  }

  lemma IntDivUnique(x: int, m: nat, q: int, r: nat)
    requires m > 0 && x == q * m + r && r < m
    ensures x / m == q && x % m == r
  {
    var a, b := x / m, x % m;
    assert x == a * m + b;
    if a < q {
      IntStrict(a, q, m, b);
    } else if q < a {
      IntStrict(q, a, m, r);
    }
  }

  lemma IntStrict(a: int, q: int, m: nat, b: nat)
    requires a < q && b < m
    ensures a * m + b < q * m
  {
    IntScale(a + 1, q, m);
    assert (a + 1) * m == a * m + m;
  }

  lemma IntScale(a: int, b: int, m: nat)
    requires a <= b
    ensures a * m <= b * m
  {
    assert 0 <= (b - a) * m;
  }

  // ---------------------------------------------------------------- division

  /** `q` and `r` divide `a` by `b`, rounding down: the remainder has the divisor's sign. */
  predicate Divides(a: int, b: int, q: int, r: int) {
    a == q * b + r && (if b > 0 then 0 <= r < b else b < r <= 0)
  }

  /** Only one pair does. */
  lemma DividesUnique(a: int, b: int, q: int, r: int, p: int, s: int)
    requires b != 0 && Divides(a, b, q, r) && Divides(a, b, p, s)
    ensures q == p && r == s
  {
    if b > 0 {
      IntDivUnique(a, b, q, r);
      IntDivUnique(a, b, p, s);
    } else {
      assert -a == q * -b + -r && -a == p * -b + -s;
      IntDivUnique(-a, -b, q, -r);
      IntDivUnique(-a, -b, p, -s);
    }
  }

  /** The divisor, shifted to the length of the remainder or one less, fits into it. */
  lemma ShiftFits(r: nat, d: nat, rBits: nat, dBits: nat, shift: nat)
    requires rBits > 0 && Pow2(rBits - 1) <= r && d < Pow2(dBits) && dBits + shift < rBits
    ensures d * Pow2(shift) <= r
  {
    Pow2Add(dBits, shift);
    ScaleUp(d, Pow2(dBits), Pow2(shift));
    Pow2Monotone(dBits + shift, rBits - 1);
  }

  /** A number not below another has at least as many bits. */
  lemma BitsOrdered(r: nat, d: nat, rBits: nat, dBits: nat)
    requires d <= r && r < Pow2(rBits) && dBits > 0 && Pow2(dBits - 1) <= d
    ensures dBits <= rBits
  {
    if rBits < dBits {
      Pow2Monotone(rBits, dBits - 1);
    }
  }

  lemma Reduce(a: int, q: int, d: int, r: int, m: int)
    requires a == q * d + r
    ensures a == (q + m) * d + (r - d * m)
  {
    assert (q + m) * d == q * d + d * m;
  }

  /** The largest shift of the divisor that fits into the remainder, and the shifted divisor. */
  method FitShift(remainder: Big, divisor: Big) returns (shift: nat, shifted: Big)
    requires Valid(remainder) && Valid(divisor) && 0 < V(divisor) <= V(remainder)
    ensures Valid(shifted) && V(shifted) == V(divisor) * Pow2(shift) && 0 < V(shifted) <= V(remainder)
  {
    ValPositive(remainder);
    ValPositive(divisor);
    var rBits := BitLength(remainder.limbs);
    var dBits := BitLength(divisor.limbs);
    BitsOrdered(V(remainder), V(divisor), rBits, dBits);
    shift := rBits - dBits;
    shifted := ShlBits(divisor, shift);
    var order := Cmp(shifted, remainder);
    if order == Greater {
      if shift == 0 {
        assert false;
      } else {
        shift := shift - 1;
        ShiftFits(V(remainder), V(divisor), rBits, dBits, shift);
        shifted := ShlBits(divisor, shift);
      }
    }
    ScaleUp(1, V(divisor), Pow2(shift));
  }

  /** Division of magnitudes by shifting and subtracting. */
  method AbsDivMod(a: Big, d: Big) returns (quotient: Big, remainder: Big)
    requires Valid(a) && Valid(d) && V(a) >= 0 && V(d) > 0
    ensures Valid(quotient) && Valid(remainder)
    ensures V(a) == V(quotient) * V(d) + V(remainder) && 0 <= V(remainder) < V(d) && V(quotient) >= 0
  {
    quotient, remainder := Zero, a;
    var one := FromI64(1);
    var order := Cmp(remainder, d);
    while order != Less
      invariant Valid(quotient) && Valid(remainder) && V(remainder) >= 0 && V(quotient) >= 0
      invariant V(a) == V(quotient) * V(d) + V(remainder)
      invariant order == Compare(V(remainder), V(d))
      decreases V(remainder)
    {
      var shift, shifted := FitShift(remainder, d);
      Reduce(V(a), V(quotient), V(d), V(remainder), Pow2(shift));
      remainder := Sub(remainder, shifted);
      var unit := ShlBits(one, shift);
      quotient := Add(quotient, unit);
      order := Cmp(remainder, d);
    }
  }

  /** Floor division: nothing for a zero divisor, else Python's quotient and remainder. */
  method DivModFloor(a: Big, d: Big) returns (r: Option<(Big, Big)>)
    requires Valid(a) && Valid(d)
    ensures r.None? <==> V(d) == 0
    ensures r.Some? ==> Valid(r.value.0) && Valid(r.value.1) && Divides(V(a), V(d), V(r.value.0), V(r.value.1))
  {
    ValPositive(a);
    ValPositive(d);
    if d.sign == 0 {
      return None;
    }
    if a.sign == 0 {
      return Some((Zero, Zero));
    }
    var absA := Abs(a);
    var absD := Abs(d);
    var quotient, remainder := AbsDivMod(absA, absD);
    FloorSigns(V(a), V(d), V(quotient), V(remainder));
    if a.sign != d.sign {
      quotient := Negated(quotient);
    }
    if a.sign < 0 {
      remainder := Negated(remainder);
    }
    ValPositive(remainder);
    if remainder.sign != 0 && a.sign != d.sign {
      var one := FromI64(1);
      quotient := Sub(quotient, one);
      remainder := Add(remainder, d);
    }
    return Some((quotient, remainder));
  }

  /** From the division of the magnitudes to the floor division. */
  lemma FloorSigns(a: int, d: int, q: int, r: int)
    requires a != 0 && d != 0 && q >= 0 && r >= 0
    requires var x, y := if a < 0 then -a else a, if d < 0 then -d else d;
             x == q * y + r && r < y
    ensures var same := (a < 0) == (d < 0);
            var q1, r1 := if same then q else -q, if a < 0 then -r else r;
            if r1 != 0 && !same then Divides(a, d, q1 - 1, r1 + d) else Divides(a, d, q1, r1)
  {
    SignedProduct(q, d);
    SignedProduct(q, -d);
    var same := (a < 0) == (d < 0);
    var q1: int := if same then q else -q;
    assert (q1 - 1) * d == q1 * d - d;
  }

  // --------------------------------------------------------- text and numbers

  method MulSmall(b: Big, small: u32) returns (r: Big)
    requires Valid(b)
    ensures Valid(r) && V(r) == V(b) * small
  {
    if b.sign == 0 || small == 0 {
      return Zero;
    }
    if small == 1 {
      return b;
    }
    var limbs := Limbs.MulSmall(b.limbs, small);
    SignedProduct(Val(b.limbs), small);
    r := FromParts(b.sign, limbs);
  }

  method AddSmall(b: Big, small: u32) returns (r: Big)
    requires Valid(b)
    ensures Valid(r) && V(r) == V(b) + small
  {
    if small == 0 {
      return b;
    }
    if b.sign == 0 {
      r := FromU64(small);
    } else if b.sign < 0 {
      var other := FromU64(small);
      r := Add(b, other);
    } else {
      var limbs := Limbs.AddSmall(b.limbs, small);
      r := FromParts(1, limbs);
    }
  }

  method DivModSmallPositive(b: Big, divisor: u32) returns (quotient: Big, rem: u32)
    requires Valid(b) && V(b) >= 0 && divisor > 0
    ensures Valid(quotient) && V(quotient) >= 0 && V(b) == V(quotient) * divisor + rem && rem < divisor
  {
    ValPositive(b);
    if b.sign == 0 {
      return Zero, 0;
    }
    var limbs;
    limbs, rem := DivModSmall(b.limbs, divisor);
    quotient := FromParts(1, limbs);
  }

  /** `char::to_digit`. */
  function ToDigit(c: char, radix: nat): Option<nat> {
    var d := if '0' <= c <= '9' then c as int - '0' as int
             else if 'a' <= c <= 'z' then c as int - 'a' as int + 10
             else if 'A' <= c <= 'Z' then c as int - 'A' as int + 10
             else 36;
    if d < radix <= 36 then Some(d) else None
  }

  /** `char::from_digit`. */
  function FromDigit(d: nat): (c: char)
    requires d < 36
    ensures c != '-' && forall radix :: d < radix <= 36 ==> ToDigit(c, radix) == Some(d)
  {
    if d < 10 then '0' + d as char else 'a' + (d - 10) as char
  }

  /** A character is the digit `d` exactly when it stands at place `d` of 0 to 9
      and the letters behind, in either case, and the radix is larger; printed
      are the small letters. */
  lemma DigitsOfRadix(c: char, d: nat, radix: nat)
    requires d < 36 && radix <= 36
    ensures ToDigit(c, radix) == Some(d)
       <==> d < radix && (c == (Text.DIGITS + Text.SMALL)[d] || c == (Text.DIGITS + Text.CAPITAL)[d])
    ensures FromDigit(d) == (Text.DIGITS + Text.SMALL)[d]
  {
    Text.DigitPlace(d);
  }

  function OneMoreDigit(high: nat, radix: nat, d: nat): nat {
    high * radix + d
  }

  /** The number a text denotes in a radix, if it is digits only. */
  function Denoted(text: string, radix: nat): Option<nat> {
    if text == "" then Some(0)
    else
      match (Denoted(text[..|text| - 1], radix), ToDigit(text[|text| - 1], radix))
      case (Some(high), Some(d)) => Some(OneMoreDigit(high, radix, d))
      case _ => None
  }

  lemma {:induction false} DenotedFails(text: string, i: nat, radix: nat)
    requires i < |text| && ToDigit(text[i], radix) == None
    ensures Denoted(text, radix) == None
  {
    if i < |text| - 1 {
      DenotedFails(text[..|text| - 1], i, radix);
    }
  }

  lemma DigitUpper(c: char, radix: nat)
    ensures ToDigit(Text.UpperChar(c), radix) == ToDigit(c, radix)
  {
  }

  lemma {:induction false} DenotedUpper(text: string, radix: nat)
    ensures Denoted(Text.Upper(text), radix) == Denoted(text, radix)
  {
    if text != "" {
      var n := |text| - 1;
      DigitUpper(text[n], radix);
      DenotedUpper(text[..n], radix);
      assert Text.Upper(text)[..n] == Text.Upper(text[..n]);
    }
  }

  /** A digit text denotes the same number in either case. */
  lemma DenotedAnyCase(a: string, b: string, radix: nat)
    requires Text.SameLetters(a, b)
    ensures Denoted(a, radix) == Denoted(b, radix)
  {
    Text.UpperSame(a, b);
    DenotedUpper(a, radix);
    DenotedUpper(b, radix);
  }

  /** Reading succeeds exactly on non-empty digit texts in a radix from 2 to 36, with their number. */
  method FromStrRadix(text: string, radix: u32) returns (r: Option<Big>)
    ensures r.Some? <==> 2 <= radix <= 36 && text != "" && Denoted(text, radix).Some?
    ensures r.Some? ==> Valid(r.value) && V(r.value) == Denoted(text, radix).value
  {
    if !(2 <= radix <= 36) || text == "" {
      return None;
    }
    var out := Zero;
    for i := 0 to |text|
      invariant Valid(out) && Denoted(text[..i], radix) == Some(V(out))
    {
      assert text[..i + 1][..i] == text[..i];
      var digit := ToDigit(text[i], radix);
      if digit == None {
        DenotedFails(text, i, radix);
        return None;
      }
      out := MulSmall(out, radix);
      out := AddSmall(out, digit.value);
    }
    assert text[..|text|] == text;
    return Some(out);
  }

  /** A digit text, most significant digit first, without leading zeros. */
  predicate Shortest(text: string) {
    |text| > 1 ==> text[0] != '0'
  }

  lemma DenotedSnoc(text: string, radix: nat, high: nat, d: nat)
    requires text != "" && Denoted(text[..|text| - 1], radix) == Some(high) && ToDigit(text[|text| - 1], radix) == Some(d)
    ensures Denoted(text, radix) == Some(OneMoreDigit(high, radix, d))
  {
  }

  lemma {:induction false} DenotedCons(c: char, text: string, radix: nat)
    requires ToDigit(c, radix).Some? && Denoted(text, radix).Some?
    ensures Denoted([c] + text, radix) == Some(ToDigit(c, radix).value * Exp(radix, |text|) + Denoted(text, radix).value)
  {
    var all, d := [c] + text, ToDigit(c, radix).value;
    if text == "" {
      assert all == [c] && all[..0] == "";
      DenotedSnoc(all, radix, 0, d);
    } else {
      var init, last := text[..|text| - 1], ToDigit(text[|text| - 1], radix).value;
      assert all[..|all| - 1] == [c] + init;
      DenotedCons(c, init, radix);
      var low := Denoted(init, radix).value;
      DenotedSnoc(text, radix, low, last);
      DenotedSnoc(all, radix, d * Exp(radix, |init|) + low, last);
      ConsStep(d, Exp(radix, |init|), low, radix, last);
    }
  }

  function Exp(radix: nat, n: nat): nat {
    if n == 0 then 1 else Exp(radix, n - 1) * radix
  }

  lemma ConsStep(d: nat, e: nat, low: nat, radix: nat, last: nat)
    ensures OneMoreDigit(d * e + low, radix, last) == d * (e * radix) + OneMoreDigit(low, radix, last)
  {
  }

  lemma PrintStep(value: nat, quotient: nat, rem: nat, radix: nat, e: nat, text: nat, total: nat)
    requires value == quotient * radix + rem && value * e + text == total
    ensures quotient * (e * radix) + (rem * e + text) == total
  {
    assert (quotient * radix + rem) * e == quotient * (e * radix) + rem * e;
  }

  predicate NoCapital(text: string) {
    forall i :: 0 <= i < |text| ==> !('A' <= text[i] <= 'Z')
  }

  /** The digits of a positive number, each from a division by the radix. */
  method PrintDigits(b: Big, radix: u32) returns (text: string)
    requires Valid(b) && V(b) > 0 && 2 <= radix <= 36
    ensures text != "" && Denoted(text, radix) == Some(V(b)) && text[0] != '0' && text[0] != '-'
    ensures NoCapital(text)
  {
    var value := b;
    text := "";
    while value.sign != 0
      invariant Valid(value) && V(value) >= 0 && Denoted(text, radix).Some?
      invariant V(value) * Exp(radix, |text|) + Denoted(text, radix).value == V(b)
      invariant NoCapital(text) && (text != "" ==> text[0] != '-')
      invariant V(value) == 0 ==> text != "" && text[0] != '0'
      decreases V(value)
    {
      ValPositive(value);
      var quotient, rem := DivModSmallPositive(value, radix);
      PrintStep(V(value), V(quotient), rem, radix, Exp(radix, |text|), Denoted(text, radix).value, V(b));
      Smaller(V(value), V(quotient), rem, radix);
      DenotedCons(FromDigit(rem), text, radix);
      text := [FromDigit(rem)] + text;
      value := quotient;
    }
  }

  lemma Smaller(value: nat, quotient: nat, rem: nat, radix: nat)
    requires value == quotient * radix + rem && radix >= 2 && value > 0
    ensures quotient < value
    ensures quotient == 0 ==> rem > 0
  {
    if quotient > 0 {
      assert quotient * radix >= quotient * 2;
    }
  }

  /** Printing gives the one shortest digit text of the magnitude without
      capitals, behind a minus sign if negative. */
  method ToStrRadix(b: Big, radix: u32) returns (r: Option<string>)
    requires Valid(b)
    ensures r.Some? <==> 2 <= radix <= 36
    ensures r.Some? ==> NoCapital(r.value)
    ensures r.Some? && V(b) >= 0 ==> r.value != "" && Denoted(r.value, radix) == Some(V(b)) && Shortest(r.value)
    ensures r.Some? && V(b) < 0 ==> |r.value| > 1 && r.value[0] == '-' && Denoted(r.value[1..], radix) == Some(-V(b))
                                    && Shortest(r.value[1..])
  {
    if !(2 <= radix <= 36) {
      return None;
    }
    ValPositive(b);
    if b.sign == 0 {
      assert Denoted("0"[..0], radix) == Some(0);
      assert Denoted("0", radix) == Some(0);
      return Some("0");
    }
    var magnitude := Abs(b);
    var text := PrintDigits(magnitude, radix);
    if b.sign < 0 {
      assert (['-'] + text)[1..] == text;
      return Some(['-'] + text);
    }
    return Some(text);
  }

  /** A number survives printing and reading, in capitals too, exactly when it
      is not negative: the reader takes no sign. */
  method RadixRoundTrip(b: Big, radix: u32, capitals: bool) returns (back: Option<Big>)
    requires Valid(b) && 2 <= radix <= 36
    ensures V(b) >= 0 ==> back == Some(b)
    ensures V(b) < 0 ==> back == None
  {
    var text := ToStrRadix(b, radix);
    if V(b) < 0 {
      assert ToDigit(text.value[0], radix) == None;
      DenotedFails(text.value, 0, radix);
    }
    var shown := if capitals then Text.Upper(text.value) else text.value;
    Text.UpperIs(text.value, Text.Upper(text.value));
    DenotedAnyCase(shown, text.value, radix);
    back := FromStrRadix(shown, radix);
    if back.Some? {
      Canonical(back.value, b);
    }
  }
}
