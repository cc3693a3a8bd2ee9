/** Magnitudes of `src/runtime/bigint.rs`: little-endian lists of 32-bit limbs,
    against the natural numbers they stand for. */
module Limbs {
  const B: nat := 0x1_0000_0000

  type u32 = n: nat | n < 0x1_0000_0000

  /** `B` to the `n`. */
  function P(n: nat): (r: nat)
    ensures r > 0
  {
    if n == 0 then 1 else B * P(n - 1)
  }

  /** `limbs.get(i).copied().unwrap_or(0)`. */
  function At(s: seq<u32>, i: nat): u32 {
    if i < |s| then s[i] else 0
  }

  /** The number in the first `n` limbs, zeros past the end. */
  function Low(s: seq<u32>, n: nat): nat {
    if n == 0 then 0 else Low(s, n - 1) + At(s, n - 1) * P(n - 1)
  }

  function Val(s: seq<u32>): nat {
    Low(s, |s|)
  }

  /** No leading zero limb. */
  predicate Normal(s: seq<u32>) {
    s != [] ==> s[|s| - 1] != 0
  }

  // ------------------------------------------------------------ the value

  lemma {:induction false} LowBound(s: seq<u32>, n: nat)
    ensures Low(s, n) < P(n)
  {
    if n > 0 {
      LowBound(s, n - 1);
      TopDigit(Low(s, n - 1), At(s, n - 1), P(n - 1));
    }
  }

  lemma ScaleUp(a: nat, b: nat, d: nat)
    requires a <= b
    ensures a * d <= b * d
  {
    var more := b - a;
    assert b * d == a * d + more * d;
  }

  lemma TopDigit(low: nat, digit: nat, p: nat)
    requires low < p && digit < B
    ensures low + digit * p < B * p
  {
    ScaleUp(digit + 1, B, p);
    assert (digit + 1) * p == digit * p + p;
  }

  lemma {:induction false} LowPast(s: seq<u32>, n: nat)
    requires n >= |s|
    ensures Low(s, n) == Val(s)
  {
    if n > |s| {
      LowPast(s, n - 1);
      assert 0 * P(n - 1) == 0;
    }
  }

  lemma {:induction false} LowSame(s: seq<u32>, t: seq<u32>, n: nat)
    requires forall i :: 0 <= i < n ==> At(s, i) == At(t, i)
    ensures Low(s, n) == Low(t, n)
  {
    if n > 0 {
      LowSame(s, t, n - 1);
    }
  }

  lemma LowPush(s: seq<u32>, x: u32)
    ensures Low(s + [x], |s|) == Val(s)
    ensures Val(s + [x]) == Val(s) + x * P(|s|)
  {
    LowSame(s + [x], s, |s|);
    assert At(s + [x], |s|) == x;
  }

  lemma {:induction false} LowUpdate(s: seq<u32>, k: nat, x: u32, n: nat)
    requires k < |s| && k < n
    ensures Low(s[k := x], n) == Low(s, n) - s[k] * P(k) + x * P(k)
  {
    if k == n - 1 {
      LowSame(s[k := x], s, k);
    } else {
      LowUpdate(s, k, x, n - 1);
    }
  }

  /** Splitting a sum into its digit and its carry. */
  lemma CarryStep(sum: nat, p: nat)
    ensures (sum % B) * p + (sum / B) * (B * p) == sum * p
  {
    var d, c := sum % B, sum / B;
    assert d + B * c == sum;
    assert (d + B * c) * p == d * p + c * (B * p);
  }

  // --------------------------------------------------------- normal forms

  /** The trailing zero limbs removed. */
  method Trim(limbs: seq<u32>) returns (r: seq<u32>)
    ensures Normal(r) && Val(r) == Val(limbs) && r <= limbs
  {
    r := limbs;
    while r != [] && r[|r| - 1] == 0
      invariant r <= limbs && Val(r) == Val(limbs)
      decreases |r|
    {
      LowPush(r[..|r| - 1], 0);
      assert r == r[..|r| - 1] + [0];
      assert 0 * P(|r| - 1) == 0;
      r := r[..|r| - 1];
    }
  }

  lemma {:induction false} PMonotone(m: nat, n: nat)
    requires m <= n
    ensures P(m) <= P(n)
  {
    if m < n {
      PMonotone(m, n - 1);
      assert P(n - 1) <= B * P(n - 1);
    }
  }

  lemma NormalLow(s: seq<u32>)
    requires Normal(s) && s != []
    ensures P(|s| - 1) <= Val(s)
  {
    assert P(|s| - 1) <= s[|s| - 1] * P(|s| - 1);
  }

  /** A longer normal number is larger. */
  lemma LongerIsLarger(a: seq<u32>, b: seq<u32>)
    requires Normal(a) && |b| < |a|
    ensures Val(b) < Val(a)
  {
    NormalLow(a);
    LowBound(b, |b|);
    PMonotone(|b|, |a| - 1);
  }

  lemma DigitDecides(x: nat, dx: nat, y: nat, dy: nat, p: nat)
    requires x < p && dx < dy
    ensures x + dx * p < y + dy * p
  {
    ScaleUp(dx + 1, dy, p);
    assert (dx + 1) * p == dx * p + p;
  }

  lemma {:induction false} SameTop(a: seq<u32>, b: seq<u32>, k: nat, n: nat)
    requires k <= n && forall i :: k <= i < n ==> At(a, i) == At(b, i)
    ensures Low(a, n) - Low(b, n) == Low(a, k) - Low(b, k)
  {
    if k < n {
      SameTop(a, b, k, n - 1);
    }
  }

  /** The highest different limb decides. */
  lemma HighestDecides(a: seq<u32>, b: seq<u32>, k: nat)
    requires |a| == |b| && k < |a| && a[k] < b[k] && forall i :: k < i < |a| ==> a[i] == b[i]
    ensures Val(a) < Val(b)
  {
    LowBound(a, k);
    DigitDecides(Low(a, k), a[k], Low(b, k), b[k], P(k));
    SameTop(a, b, k + 1, |a|);
  }

  datatype Order = Less | Equal | Greater

  function Compare(x: int, y: int): Order {
    if x < y then Less else if x == y then Equal else Greater
  }

  method CmpLimbs(left: seq<u32>, right: seq<u32>) returns (r: Order)
    requires Normal(left) && Normal(right)
    ensures r == Compare(Val(left), Val(right))
  {
    if |left| < |right| {
      LongerIsLarger(right, left);
      return Less;
    }
    if |left| > |right| {
      LongerIsLarger(left, right);
      return Greater;
    }
    var k := |left|;
    while k > 0
      invariant 0 <= k <= |left| && forall i :: k <= i < |left| ==> left[i] == right[i]
    {
      k := k - 1;
      if left[k] < right[k] {
        HighestDecides(left, right, k);
        return Less;
      }
      if left[k] > right[k] {
        HighestDecides(right, left, k);
        return Greater;
      }
    }
    assert left == right;
    return Equal;
  }

  /** A number has one normal form. */
  lemma NormalUnique(a: seq<u32>, b: seq<u32>)
    requires Normal(a) && Normal(b) && Val(a) == Val(b)
    ensures a == b
  {
    if |a| < |b| {
      LongerIsLarger(b, a);
    } else if |b| < |a| {
      LongerIsLarger(a, b);
    } else {
      EqualFrom(a, b, |a|);
    }
  }

  lemma {:induction false} EqualFrom(a: seq<u32>, b: seq<u32>, k: nat)
    requires |a| == |b| && k <= |a| && Val(a) == Val(b) && forall i :: k <= i < |a| ==> a[i] == b[i]
    ensures a == b
  {
    if k > 0 {
      if a[k - 1] < b[k - 1] {
        HighestDecides(a, b, k - 1);
      } else if a[k - 1] > b[k - 1] {
        HighestDecides(b, a, k - 1);
      } else {
        EqualFrom(a, b, k - 1);
      }
    }
  }

  // ------------------------------------------------------ sum and difference

  /** `v + carry B^i` grows by one column. */
  lemma AddColumn(v: nat, x: nat, y: nat, l: nat, r: nat, carry: nat, p: nat)
    requires v + carry * p == x + y
    ensures var sum := l + r + carry;
            v + (sum % B) * p + (sum / B) * (B * p) == (x + l * p) + (y + r * p)
  {
    var sum := l + r + carry;
    CarryStep(sum, p);
    assert sum * p == l * p + r * p + carry * p;
  }

  method Add(left: seq<u32>, right: seq<u32>) returns (out: seq<u32>)
    ensures Val(out) == Val(left) + Val(right)
  {
    var len := if |left| > |right| then |left| else |right|;
    out := [];
    var carry: nat := 0;
    for idx := 0 to len
      invariant |out| == idx && carry <= 1
      invariant Val(out) + carry * P(idx) == Low(left, idx) + Low(right, idx)
    {
      var sum := At(left, idx) + At(right, idx) + carry;
      AddColumn(Val(out), Low(left, idx), Low(right, idx), At(left, idx), At(right, idx), carry, P(idx));
      LowPush(out, sum % B);
      out := out + [sum % B];
      carry := sum / B;
    }
    LowPast(left, len);
    LowPast(right, len);
    if carry != 0 {
      LowPush(out, carry);
      out := out + [carry];
    }
  }

  /** A column of a difference: `diff` is one digit, with a borrow if it was negative. */
  lemma SubColumn(v: nat, x: nat, y: nat, l: nat, r: nat, borrow: nat, digit: nat, next: nat, p: nat)
    requires v + y == x + borrow * p
    requires digit + r + borrow == l + next * B
    ensures (v + digit * p) + (y + r * p) == (x + l * p) + next * (B * p)
  {
    assert (digit + r + borrow) * p == digit * p + r * p + borrow * p;
    assert (l + next * B) * p == l * p + next * (B * p);
  }

  method Sub(left: seq<u32>, right: seq<u32>) returns (out: seq<u32>)
    requires |right| <= |left| && Val(right) <= Val(left)
    ensures Val(out) == Val(left) - Val(right)
  {
    out := [];
    var borrow: nat := 0;
    for idx := 0 to |left|
      invariant |out| == idx && borrow <= 1
      invariant Val(out) + Low(right, idx) == Low(left, idx) + borrow * P(idx)
    {
      var diff: int := left[idx] - At(right, idx) - borrow;
      var digit, next := if diff < 0 then diff + B else diff, if diff < 0 then 1 else 0;
      SubColumn(Val(out), Low(left, idx), Low(right, idx), left[idx], At(right, idx), borrow, digit, next, P(idx));
      LowPush(out, digit);
      out := out + [digit];
      borrow := next;
    }
    LowPast(right, |left|);
    LowBound(out, |left|);
    assert borrow == 0;
  }

  // ------------------------------------------------------------- products

  lemma {:induction false} PAdd(m: nat, n: nat)
    ensures P(m + n) == P(m) * P(n)
  {
    if m > 0 {
      PAdd(m - 1, n);
      assert B * (P(m - 1) * P(n)) == (B * P(m - 1)) * P(n);
    }
  }

  lemma ProductBound(l: nat, r: nat, m: nat)
    requires l <= m && r <= m
    ensures l * r <= m * m
  {
    assert l * r <= l * m;
    assert l * m <= m * m;
  }

  /** `d + l r + carry` as a limb and a carry: it always fits in two limbs. */
  method MulStep(d: u32, l: u32, r: u32, carry: u32) returns (digit: u32, next: u32)
    ensures digit + B * next == d + l * r + carry
  {
    var product := l * r;
    assert product <= MAX_PRODUCT by {
      LimbProduct(l, r, 0xFFFF_FFFF);
    }
    digit, next := Columns(d, product, carry);
  }

  const MAX_PRODUCT: nat := 0xFFFF_FFFE_0000_0001

  lemma LimbProduct(l: nat, r: nat, m: nat)
    requires l <= m && r <= m && m == 0xFFFF_FFFF
    ensures l * r <= MAX_PRODUCT
  {
    ProductBound(l, r, m);
    assert m * m == MAX_PRODUCT;
  }

  method Columns(d: u32, product: nat, carry: u32) returns (digit: u32, next: u32)
    requires product <= MAX_PRODUCT
    ensures digit + B * next == d + product + carry
  {
    var sum := d + product + carry;
    digit, next := sum % B, sum / B;
  }

  /** One limb of the product row: the value grows by `l r` in column `p q`. */
  lemma MulColumn(v: nat, base: nat, row: nat, d: nat, l: nat, r: nat, carry: nat, digit: nat, next: nat, p: nat, q: nat, pq: nat)
    requires pq == p * q && v + carry * pq == base + l * p * row
    requires digit + B * next == d + l * r + carry
    ensures v - d * pq + digit * pq + next * (B * pq) == base + l * p * (row + r * q)
  {
    assert (digit + B * next) * pq == digit * pq + next * (B * pq);
    assert (d + l * r + carry) * pq == d * pq + l * r * pq + carry * pq;
    Regroup(l, r, p, q);
    assert l * p * (row + r * q) == l * p * row + l * p * (r * q);
  }

  lemma Regroup(l: nat, r: nat, p: nat, q: nat)
    ensures l * r * (p * q) == l * p * (r * q)
  {
    assert l * r * (p * q) == l * (r * (p * q));
    assert r * (p * q) == p * (r * q);
    assert l * (p * (r * q)) == l * p * (r * q);
  }

  lemma DropZero(a: nat, p: nat)
    ensures 0 * p == 0 && a + 0 == a
  {
  }

  /** Adds `left` times `right`, shifted by `i` limbs, into `out`. */
  method MulRow(before: seq<u32>, i: nat, l: u32, right: seq<u32>) returns (out: seq<u32>)
    requires i + |right| < |before| && forall k :: i + |right| <= k < |before| ==> before[k] == 0
    ensures |out| == |before| && Val(out) == Val(before) + l * P(i) * Val(right)
    ensures forall k :: i + |right| < k < |out| ==> out[k] == 0
  {
    out := before;
    var carry: u32 := 0;
    ghost var n := |before|;
    for j := 0 to |right|
      invariant |out| == n && (forall k :: i + |right| <= k < n ==> out[k] == 0)
      invariant Val(out) + carry * P(i + j) == Val(before) + l * P(i) * Low(right, j)
    {
      var idx := i + j;
      var digit, next := MulStep(out[idx], l, right[j], carry);
      PAdd(i, j);
      MulColumn(Val(out), Val(before), Low(right, j), out[idx], l, right[j], carry, digit, next, P(i), P(j), P(idx));
      LowUpdate(out, idx, digit, n);
      out := out[idx := digit];
      carry := next;
    }
    if carry != 0 {
      LowUpdate(out, i + |right|, carry, n);
      DropZero(0, P(i + |right|));
      out := out[i + |right| := carry];
    }
  }

  lemma {:induction false} LowZeros(s: seq<u32>, n: nat)
    requires forall i :: 0 <= i < |s| ==> s[i] == 0
    ensures Low(s, n) == 0
  {
    if n > 0 {
      LowZeros(s, n - 1);
      DropZero(0, P(n - 1));
    }
  }

  method Mul(left: seq<u32>, right: seq<u32>) returns (out: seq<u32>)
    ensures Val(out) == Val(left) * Val(right)
  {
    out := seq(|left| + |right|, _ => 0);
    LowZeros(out, |out|);
    for i := 0 to |left|
      invariant |out| == |left| + |right| && (forall k :: i + |right| <= k < |out| ==> out[k] == 0)
      invariant Val(out) == Low(left, i) * Val(right)
    {
      MulRows(Low(left, i), left[i], P(i), Val(right));
      out := MulRow(out, i, left[i], right);
    }
  }

  lemma MulRows(low: nat, l: nat, p: nat, r: nat)
    ensures low * r + l * p * r == (low + l * p) * r
  {
  }

  method MulSmall(limbs: seq<u32>, small: u32) returns (out: seq<u32>)
    ensures Val(out) == Val(limbs) * small
  {
    out := [];
    var carry: u32 := 0;
    for idx := 0 to |limbs|
      invariant |out| == idx
      invariant Val(out) + carry * P(idx) == Low(limbs, idx) * small
    {
      var digit, next := MulStep(0, limbs[idx], small, carry);
      SmallColumn(Val(out), Low(limbs, idx), limbs[idx], small, carry, digit, next, P(idx));
      LowPush(out, digit);
      out := out + [digit];
      carry := next;
    }
    if carry != 0 {
      LowPush(out, carry);
      out := out + [carry];
    }
  }

  lemma SmallColumn(v: nat, x: nat, l: nat, small: nat, carry: nat, digit: nat, next: nat, p: nat)
    requires v + carry * p == x * small && digit + B * next == l * small + carry
    ensures v + digit * p + next * (B * p) == (x + l * p) * small
  {
    assert (digit + B * next) * p == digit * p + next * (B * p);
    assert (l * small + carry) * p == l * small * p + carry * p;
    assert (x + l * p) * small == x * small + l * p * small;
    assert l * small * p == l * p * small;
  }

  /** Adds a limb, carrying as far as needed. */
  method AddSmall(limbs: seq<u32>, small: u32) returns (out: seq<u32>)
    ensures Val(out) == Val(limbs) + small
  {
    out := limbs;
    var carry: u32 := small;
    var idx := 0;
    while carry != 0
      invariant idx <= |out| == |limbs|
      invariant Val(out) + carry * P(idx) == Val(limbs) + small
      decreases carry != 0, |limbs| - idx
    {
      if idx >= |out| {
        LowPush(out, carry);
        out := out + [carry];
        return;
      }
      var sum := out[idx] + carry;
      AddColumn(0, 0, carry * P(idx), out[idx], 0, carry, P(idx));
      CarryStep(sum, P(idx));
      assert sum * P(idx) == out[idx] * P(idx) + carry * P(idx);
      LowUpdate(out, idx, sum % B, |out|);
      out := out[idx := sum % B];
      carry := sum / B;
      idx := idx + 1;
    }
  }

  // --------------------------------------------------- division by one limb

  /** The number in the limbs from `k` on. */
  function High(s: seq<u32>, k: nat): nat
    requires k <= |s|
    decreases |s| - k
  {
    if k == |s| then 0 else s[k] + B * High(s, k + 1)
  }

  lemma {:induction false} HighIsVal(s: seq<u32>, k: nat)
    requires k <= |s|
    ensures Low(s, k) + High(s, k) * P(k) == Val(s)
    decreases |s| - k
  {
    if k < |s| {
      HighIsVal(s, k + 1);
      assert (s[k] + B * High(s, k + 1)) * P(k) == s[k] * P(k) + High(s, k + 1) * (B * P(k));
    } else {
      DropZero(0, P(k));
    }
  }

  lemma DivColumn(high: nat, q: nat, rem: nat, limb: nat, d: nat)
    requires d > 0 && high == q * d + rem && rem < d <= B && limb < B
    ensures var value := rem * B + limb;
            limb + B * high == (value / d + B * q) * d + value % d && value / d < B
  {
    var value := rem * B + limb;
    var digit, next := value / d, value % d;
    assert value == digit * d + next;
    assert limb + B * (q * d + rem) == value + B * (q * d);
    assert (digit + B * q) * d == digit * d + B * (q * d);
    DigitFits(digit, next, value, d);
  }

  lemma DigitFits(digit: nat, next: nat, value: nat, d: nat)
    requires value == digit * d + next && value < B * d
    ensures digit < B
  {
    if digit >= B {
      ScaleUp(B, digit, d);
    }
  }

  method DivModSmall(limbs: seq<u32>, divisor: u32) returns (quotient: seq<u32>, rem: u32)
    requires divisor > 0
    ensures Val(limbs) == Val(quotient) * divisor + rem && rem < divisor
  {
    quotient := seq(|limbs|, _ => 0);
    rem := 0;
    var idx := |limbs|;
    while idx > 0
      invariant 0 <= idx <= |limbs| == |quotient| && rem < divisor
      invariant High(limbs, idx) == High(quotient, idx) * divisor + rem
    {
      idx := idx - 1;
      var value := rem * B + limbs[idx];
      DivColumn(High(limbs, idx + 1), High(quotient, idx + 1), rem, limbs[idx], divisor);
      HighUpdate(quotient, idx, value / divisor, idx + 1);
      quotient := quotient[idx := value / divisor];
      rem := value % divisor;
    }
    HighIsVal(limbs, 0);
    HighIsVal(quotient, 0);
  }

  lemma {:induction false} HighUpdate(s: seq<u32>, k: nat, x: u32, m: nat)
    requires k < m <= |s|
    ensures High(s[k := x], m) == High(s, m)
    decreases |s| - m
  {
    if m < |s| {
      HighUpdate(s, k, x, m + 1);
    }
  }
}
