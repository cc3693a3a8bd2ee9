/**
 Numbers as dict keys (src/runtime/mod.rs): an integer is compared with a float
 through the rounding of the integer, and hashed by it, so that equality is not
 transitive.  It is on a set of numbers exactly when no float in it stands for
 two integers; then, and only then, a dict with such keys is a map.
 */
module DictNumbers {
  import opened Common
  import opened Bits
  import opened Limbs
  import opened LimbShifts
  import opened DictBackend
  import opened DictRuns

  // -------------------------------------------------- integers as doubles

  /** The distance of doubles at `n`: 53 binary digits above it hold `n`. */
  function Unit(n: nat): (u: nat)
    ensures u > 0
  {
    if n < 0x20_0000_0000_0000 then 1 else 2 * Unit(n / 2)
  }

  /** The nearest multiple of `u`, of two the even one. */
  function RoundTo(n: nat, u: nat): nat
    requires u > 0
  {
    var q, rest := n / u, n % u;
    if 2 * rest > u || (2 * rest == u && q % 2 == 1) then (q + 1) * u else q * u
  }

  /** `n as f64`. */
  function Rounded(n: nat): nat {
    RoundTo(n, Unit(n))
  }

  /** `n` has at most 53 significant binary digits. */
  predicate Exact(n: nat) {
    n % Unit(n) == 0
  }

  lemma {:induction false} UnitPower(n: nat) returns (k: nat)
    ensures Unit(n) == Pow2(k) && n < 0x20_0000_0000_0000 * Unit(n)
    ensures n >= 0x20_0000_0000_0000 ==> n >= 0x10_0000_0000_0000 * Unit(n)
  {
    if n < 0x20_0000_0000_0000 {
      k := 0;
    } else {
      var half := UnitPower(n / 2);
      k := half + 1;
    }
  }

  lemma RoundedExact(n: nat)
    requires Exact(n)
    ensures Rounded(n) == n
  {
  }

  /** A multiple of a power of two by a factor of 53 digits is exact. */
  lemma {:induction false} FactorExact(m: nat, k: nat)
    requires m <= 0x20_0000_0000_0000
    ensures Exact(m * Pow2(k))
  {
    if m * Pow2(k) >= 0x20_0000_0000_0000 {
      if k == 0 {
        assert Unit(m) == 2 by {
          assert Unit(m / 2) == 1;
        }
      } else {
        var half := m * Pow2(k - 1);
        assert m * Pow2(k) == 2 * half;
        FactorExact(m, k - 1);
        DoubleMod(half, Unit(half));
      }
    }
  }

  lemma DoubleMod(a: nat, u: nat)
    requires u > 0 && a % u == 0
    ensures (2 * a) % (2 * u) == 0
  {
    var q := a / u;
    assert a == q * u;
    assert 2 * a == q * (2 * u);
    MultipleMod(q, 2 * u);
  }

  lemma MultipleMod(q: nat, u: nat)
    requires u > 0
    ensures (q * u) % u == 0 && (q * u) / u == q
  {
    DivUnique(q * u, u, q, 0);
  }

  lemma FactorBelow(m: nat, n: nat, u: nat)
    requires m * u < n * u
    ensures m < n
  {
    var d := m - n;
    assert d * u == m * u - n * u;
  }

  /** The exact form of an exact number. */
  lemma ExactFactor(n: nat) returns (m: nat, k: nat)
    requires Exact(n)
    ensures n == m * Pow2(k) && m < 0x20_0000_0000_0000 && n < 0x20_0000_0000_0000 * Pow2(k)
  {
    k := UnitPower(n);
    m := n / Unit(n);
    assert n == m * Unit(n);
    FactorBelow(m, 0x20_0000_0000_0000, Unit(n));
  }

  /** From the leading digit of `n` on, exact numbers are multiples of its unit. */
  lemma ExactIsMultiple(k: nat, r: nat) returns (c: nat)
    requires 0x10_0000_0000_0000 * Pow2(k) <= r && Exact(r)
    ensures r == c * Pow2(k)
  {
    var m, j := ExactFactor(r);
    LeadingDigit(k, j);
    c := LowerFactor(m, j, k);
  }

  lemma LowerFactor(m: nat, j: nat, k: nat) returns (c: nat)
    requires k <= j
    ensures m * Pow2(j) == c * Pow2(k)
  {
    c := m * Pow2(j - k);
    Pow2Add(j - k, k);
    Associative(m, Pow2(j - k), Pow2(k));
  }

  lemma LeadingDigit(k: nat, j: nat)
    requires 0x10_0000_0000_0000 * Pow2(k) < 0x20_0000_0000_0000 * Pow2(j)
    ensures k <= j
  {
    if j < k {
      Pow2Monotone(j + 1, k);
    }
  }

  lemma Associative(a: nat, b: nat, c: nat)
    ensures a * (b * c) == (a * b) * c
  {
  }

  lemma NearestMultiple(n: nat, u: nat, c: nat)
    requires u > 0
    ensures Distance(RoundTo(n, u), n) <= Distance(c * u, n)
  {
    var q, rest := n / u, n % u;
    assert n == q * u + rest && (q + 1) * u == q * u + u;
    if c <= q {
      Scaled(c, q, u);
    } else {
      Scaled(q + 1, c, u);
    }
  }

  lemma Scaled(a: nat, b: nat, u: nat)
    requires a <= b
    ensures a * u <= b * u
  {
  }

  function Distance(a: nat, b: nat): nat {
    if a < b then b - a else a - b
  }

  lemma RoundedIsExact(n: nat)
    ensures Exact(Rounded(n))
  {
    var u := Unit(n);
    var k := UnitPower(n);
    var q := n / u;
    assert n == q * u + n % u;
    FactorBelow(q, 0x20_0000_0000_0000, u);
    FactorExact(q, k);
    FactorExact(q + 1, k);
  }

  /** No exact number is nearer than the rounded one. */
  lemma RoundedNearest(n: nat, r: nat)
    requires Exact(r)
    ensures Exact(Rounded(n)) && Distance(Rounded(n), n) <= Distance(r, n)
  {
    RoundedIsExact(n);
    var u := Unit(n);
    var k := UnitPower(n);
    if n < 0x20_0000_0000_0000 {
      NearestMultiple(n, u, n);
    } else if r < 0x10_0000_0000_0000 * u {
      NearestMultiple(n, u, 0x10_0000_0000_0000);
    } else {
      var c := ExactIsMultiple(k, r);
      NearestMultiple(n, u, c);
    }
  }

  lemma OtherMultiple(q: nat, c: nat, u: nat)
    ensures c * u + u <= q * u || c == q || c == q + 1 || c * u >= q * u + 2 * u
    ensures (q + 1) * u == q * u + u
  {
    if c < q {
      Scaled(c + 1, q, u);
    } else if c > q + 1 {
      Scaled(q + 2, c, u);
    }
  }

  /** Only halfway between two multiples are both as near. */
  lemma Halfway(n: nat, u: nat, base: nat, rest: nat, near: nat, other: nat)
    requires n == base + rest && rest < u && near == (if 2 * rest > u then base + u else if 2 * rest < u then base else near)
    requires near == base || near == base + u
    requires other + u <= base || other == base || other == base + u || other >= base + 2 * u
    requires other != near && Distance(other, n) == Distance(near, n)
    ensures 2 * rest == u
  {
  }

  lemma TieIsEven(n: nat, u: nat, c: nat)
    requires u > 0 && Distance(c * u, n) == Distance(RoundTo(n, u), n) && c * u != RoundTo(n, u)
    ensures RoundTo(n, u) / u % 2 == 0
  {
    var base, rest := NearForm(n, u);
    OtherMultiple(n / u, c, u);
    Halfway(n, u, base, rest, RoundTo(n, u), c * u);
    HalfwayIsEven(n, u);
  }

  lemma NearForm(n: nat, u: nat) returns (base: nat, rest: nat)
    requires u > 0
    ensures base == n / u * u && rest == n % u < u && n == base + rest
    ensures RoundTo(n, u) == base || RoundTo(n, u) == base + u
    ensures 2 * rest > u ==> RoundTo(n, u) == base + u
    ensures 2 * rest < u ==> RoundTo(n, u) == base
  {
    base, rest := n / u * u, n % u;
    assert (n / u + 1) * u == base + u;
  }

  lemma HalfwayIsEven(n: nat, u: nat)
    requires u > 0 && 2 * (n % u) == u
    ensures RoundTo(n, u) / u % 2 == 0
  {
    var q := n / u;
    MultipleMod(if q % 2 == 1 then q + 1 else q, u);
  }

  /** If another exact number is as near, the rounded one is the even multiple of the unit. */
  lemma RoundedEven(n: nat, r: nat)
    requires Exact(r) && Distance(r, n) == Distance(Rounded(n), n) && r != Rounded(n)
    ensures Rounded(n) / Unit(n) % 2 == 0
  {
    var u := Unit(n);
    var k := UnitPower(n);
    if n < 0x20_0000_0000_0000 {
      TieIsEven(n, u, r);
    } else if r < 0x10_0000_0000_0000 * u {
      NearestMultiple(n, u, 0x10_0000_0000_0000);
      BelowLeading(n, u);
    } else {
      var c := ExactIsMultiple(k, r);
      TieIsEven(n, u, c);
    }
  }

  lemma BelowLeading(n: nat, u: nat)
    requires u > 0 && n >= 0x10_0000_0000_0000 * u
    ensures RoundTo(n, u) >= 0x10_0000_0000_0000 * u
  {
    var q := n / u;
    assert n == q * u + n % u && (q + 1) * u == q * u + u;
    FactorBelow(0x10_0000_0000_0000, q + 1, u);
    Scaled(0x10_0000_0000_0000, q, u);
  }

  // -------------------------------------------------- big integers as doubles

  /** A double that holds a natural number, none if infinite. */
  type Double = Option<nat>

  function Finite(n: nat): Double {
    if n < Pow2(1024) then Some(n) else None
  }

  /** `value * 4294967296.0 + limb`, each operation rounded. */
  function ScaleAdd(value: Double, limb: u32): Double {
    if value.None? then None
    else
      var scaled := Finite(Rounded(value.value * B));
      if scaled.None? then None else Finite(Rounded(scaled.value + limb))
  }

  /** A loop over the limbs of `n` from the highest down. */
  function OverLimbs(n: nat, step: (Double, u32) -> Double): Double {
    if n == 0 then Some(0) else step(OverLimbs(n / B, step), n % B)
  }

  function ToF64(n: nat): Double {
    OverLimbs(n, ScaleAdd)
  }

  method LimbsToF64(limbs: seq<u32>) returns (value: Double)
    ensures value == ToF64(Val(limbs))
  {
    ScaleAddZero();
    value := Some(0);
    var k: nat := |limbs|;
    while k > 0
      invariant k <= |limbs| && value == OverLimbs(High(limbs, k), ScaleAdd)
    {
      k := k - 1;
      OneMoreLimb(limbs, k, ScaleAdd);
      value := ScaleAdd(value, limbs[k]);
    }
    HighAll(limbs);
  }

  lemma HighAll(limbs: seq<u32>)
    ensures High(limbs, 0) == Val(limbs)
  {
    HighIsVal(limbs, 0);
  }

  lemma ScaleAddZero()
    ensures ScaleAdd(Some(0), 0) == Some(0)
  {
    RoundedExact(0);
  }

  lemma OneMoreLimb(limbs: seq<u32>, k: nat, step: (Double, u32) -> Double)
    requires k < |limbs| && step(Some(0), 0) == Some(0)
    ensures OverLimbs(High(limbs, k), step) == step(OverLimbs(High(limbs, k + 1), step), limbs[k])
  {
    DivUnique(High(limbs, k), B, High(limbs, k + 1), limbs[k]);
  }

  /** Nothing is lost in a step that a double holds. */
  lemma ScaleAddExact(high: nat, limb: u32)
    requires Exact(high * B) && Exact(high * B + limb) && high * B + limb < Pow2(1024)
    ensures ScaleAdd(Some(high), limb) == Some(high * B + limb)
  {
    RoundedExact(high * B);
    RoundedExact(high * B + limb);
  }

  /** A number that a double holds is converted without loss. */
  lemma {:induction false} ToF64Exact(n: nat)
    requires Exact(n) && n < Pow2(1024)
    ensures ToF64(n) == Some(n)
  {
    if n > 0 {
      ExactPrefix(n);
      ToF64Exact(n / B);
      assert n == n / B * B + n % B;
      ScaleAddExact(n / B, n % B);
    }
  }

  /** The limbs above the lowest are exact, in their place and out of it. */
  lemma ExactPrefix(n: nat)
    requires Exact(n)
    ensures Exact(n / B) && Exact(n / B * B)
  {
    var m, k := ExactFactor(n);
    Pow2Of32();
    if k >= 32 {
      Pow2Add(k - 32, 32);
      Associative(m, Pow2(k - 32), B);
      MultipleMod(m * Pow2(k - 32), B);
      FactorExact(m, k - 32);
    } else {
      Pow2Add(32 - k, k);
      PrefixSmall(m, Pow2(32 - k), Pow2(k));
      FactorExact(n / B, 0);
      FactorExact(n / B, 32);
    }
  }

  lemma PrefixSmall(m: nat, a: nat, b: nat)
    requires a > 0 && b > 0
    ensures a * b > 0 && m * b / (a * b) <= m
  {
    var q := m * b / (a * b);
    assert q * (a * b) <= m * b;
    Associative(q, a, b);
    FactorBelow(q * a, m + 1, b);
    Scaled(1, a, q);
  }

  // ---------------------------------------------------------------- numbers

  type i64 = n: int | -0x8000_0000_0000_0000 <= n < 0x8000_0000_0000_0000

  predicate FitsI64(n: int) {
    -0x8000_0000_0000_0000 <= n < 0x8000_0000_0000_0000
  }

  /** A double: one that is an integer, with both zeros as one, or not. */
  datatype Float = NaN(bits: nat) | Infinite(negative: bool) | Whole(n: int) | Fraction(r: real)

  datatype Number = Bool(b: bool) | Int(i: i64) | Big(n: int) | Float(f: Float)

  function Abs(n: int): nat {
    if n < 0 then -n else n
  }

  function Signed(n: int, magnitude: nat): int {
    if n < 0 then -(magnitude as int) else magnitude
  }

  /** Whole doubles have 53 significant digits and are finite. */
  ghost predicate Valid(x: Number) {
    x.Float? && x.f.Whole? ==> Exact(Abs(x.f.n)) && Abs(x.f.n) < Pow2(1024)
  }

  function Integer(x: Number): int
    requires !x.Float?
  {
    match x
    case Bool(b) => if b then 1 else 0
    case Int(i) => i
    case Big(n) => n
  }

  /** The float an integer is compared with: rounded, or exact for a big one. */
  function AsFloat(x: Number): Float
    requires !x.Float?
  {
    if x.Big? then Whole(x.n) else I64AsFloat(Integer(x))
  }

  /** `n as f64`. */
  function I64AsFloat(n: int): Float {
    Whole(Signed(n, Rounded(Abs(n))))
  }

  function BigAsFloat(n: int): Float {
    var value := ToF64(Abs(n));
    if value.Some? then Whole(Signed(n, value.value)) else Infinite(n < 0)
  }

  /** `value_key_equal` on numbers. */
  predicate Equal(x: Number, y: Number) {
    if x.Float? && y.Float? then x.f == y.f
    else if x.Float? then AsFloat(y) == x.f
    else if y.Float? then AsFloat(x) == y.f
    else Integer(x) == Integer(y)
  }

  /** What the hash of a number is computed from. */
  datatype Hashed = HashedFloat(f: Float) | HashedBig(n: int)

  function HashedOf(x: Number): Hashed {
    match x
    case Float(f) => HashedFloat(f)
    case Big(n) =>
      if FitsI64(n) then HashedFloat(I64AsFloat(n))
      else if BigAsFloat(n) == Whole(n) then HashedFloat(Whole(n))
      else HashedBig(n)
    case _ => HashedFloat(I64AsFloat(Integer(x)))
  }

  lemma WholeIsRounded(n: int)
    requires Exact(Abs(n)) && Abs(n) < Pow2(1024)
    ensures I64AsFloat(n) == Whole(n) && BigAsFloat(n) == Whole(n)
  {
    RoundedExact(Abs(n));
    ToF64Exact(Abs(n));
  }

  lemma FitsI64Is(n: int)
    ensures FitsI64(n) <==> -(Pow2(63) as int) <= n < Pow2(63)
  {
    Pow2Of32();
    Pow2Add(32, 31);
    assert Pow2(32) == 2 * Pow2(31);
  }

  lemma {:induction false} ToF64IsDouble(n: nat)
    ensures ToF64(n).Some? ==> Exact(ToF64(n).value) && ToF64(n).value < Pow2(1024)
  {
    if n == 0 {
      assert Unit(0) == 1;
    } else {
      ScaleAddIsDouble(OverLimbs(n / B, ScaleAdd), n % B);
    }
  }

  lemma ScaleAddIsDouble(value: Double, limb: u32)
    ensures ScaleAdd(value, limb).Some? ==> Exact(ScaleAdd(value, limb).value) && ScaleAdd(value, limb).value < Pow2(1024)
  {
    if value.Some? && Finite(Rounded(value.value * B)).Some? {
      RoundedIsExact(Rounded(value.value * B) + limb);
    }
  }

  /** A big integer becomes a double or infinite, and what is beyond all doubles is infinite. */
  lemma BigAsDouble(n: int)
    ensures Valid(Float(BigAsFloat(n)))
  {
    ToF64IsDouble(Abs(n));
  }

  /** Bools are the integers 1 and 0. */
  lemma BoolsAreIntegers(x: Number)
    requires Valid(x)
    ensures Equal(Bool(true), x) <==> Equal(Int(1), x)
    ensures Equal(Bool(false), x) <==> Equal(Int(0), x)
    ensures HashedOf(Bool(true)) == HashedOf(Int(1)) && HashedOf(Bool(false)) == HashedOf(Int(0))
  {
  }

  /** Equal numbers are hashed alike. */
  lemma EqualHashAlike(x: Number, y: Number)
    requires Valid(x) && Valid(y) && Equal(x, y)
    ensures HashedOf(x) == HashedOf(y)
  {
    if x.Big? && y.Float? {
      WholeIsRounded(x.n);
    } else if x.Float? && y.Big? {
      WholeIsRounded(y.n);
    }
  }

  // ------------------------------------------------------- when it is transitive

  ghost predicate Transitive(nums: seq<Number>) {
    forall x, y, z :: x in nums && y in nums && z in nums && Equal(x, y) && Equal(y, z) ==> Equal(x, z)
  }

  /** A float that is the float of an integer among `nums` is so of that
      integer in every form, and of no other. */
  ghost predicate Separate(nums: seq<Number>) {
    forall f, x, y :: f in nums && x in nums && y in nums && f.Float? && !x.Float? && !y.Float? && AsFloat(x) == f.f ==>
      (AsFloat(y) == f.f <==> Integer(y) == Integer(x))
  }

  /** Equality is transitive exactly on separate numbers. */
  lemma TransitiveExactly(nums: seq<Number>)
    ensures Transitive(nums) <==> Separate(nums)
  {
    if Separate(nums) {
      forall x, y, z | x in nums && y in nums && z in nums && Equal(x, y) && Equal(y, z)
        ensures Equal(x, z)
      {
        SeparateStep(nums, x, y, z);
      }
    }
    if Transitive(nums) {
      forall f, x, y | f in nums && x in nums && y in nums && f.Float? && !x.Float? && !y.Float? && AsFloat(x) == f.f
        ensures AsFloat(y) == f.f <==> Integer(y) == Integer(x)
      {
        TransitiveStep(nums, f, x, y);
      }
    }
  }

  lemma SeparateStep(nums: seq<Number>, x: Number, y: Number, z: Number)
    requires Separate(nums) && x in nums && y in nums && z in nums && Equal(x, y) && Equal(y, z)
    ensures Equal(x, z)
  {
  }

  lemma TransitiveStep(nums: seq<Number>, f: Number, x: Number, y: Number)
    requires Transitive(nums) && f in nums && x in nums && y in nums
    requires f.Float? && !x.Float? && !y.Float? && AsFloat(x) == f.f
    ensures AsFloat(y) == f.f <==> Integer(y) == Integer(x)
  {
    assert Equal(x, f) && Equal(f, x);
    assert AsFloat(y) == f.f ==> Equal(f, y);
    assert Integer(y) == Integer(x) ==> Equal(y, x);
  }

  /** Integers in the form that arithmetic gives them: big only beyond `i64`. */
  ghost predicate Normalised(nums: seq<Number>) {
    forall x :: x in nums && x.Big? ==> !FitsI64(x.n)
  }

  /** Among normalised numbers: no float is the float of two different integers. */
  lemma SeparateNormalised(nums: seq<Number>)
    requires Normalised(nums)
    ensures Separate(nums) <==>
            forall f, x, y :: f in nums && x in nums && y in nums && f.Float? && !x.Float? && !y.Float? ==>
              (AsFloat(x) == f.f && AsFloat(y) == f.f ==> Integer(x) == Integer(y))
  {
  }

  /** Integers up to 2**53 are no trouble in any company. */
  lemma SmallSeparate(nums: seq<Number>)
    requires forall x :: x in nums && !x.Float? ==> Abs(Integer(x)) <= 0x20_0000_0000_0000
    ensures Separate(nums)
  {
    forall x | x in nums && !x.Float?
      ensures AsFloat(x) == Whole(Integer(x))
    {
      FactorExact(Abs(Integer(x)), 0);
      RoundedExact(Abs(Integer(x)));
    }
  }

  // ------------------------------------------------------- numbers as dict keys

  /** The keys of some numbers, under any function from what is hashed to a hash. */
  function KeyOf(nums: seq<Number>, mix: Hashed -> u64, i: nat): Key
    requires i < |nums|
  {
    Key(i, Some(mix(HashedOf(nums[i]))), (j: nat) => j < |nums| && Equal(nums[i], nums[j]))
  }

  function KeysOf(nums: seq<Number>, mix: Hashed -> u64): (keys: seq<Key>)
    ensures |keys| == |nums| && forall i :: 0 <= i < |nums| ==> keys[i] == KeyOf(nums, mix, i)
  {
    seq(|nums|, i requires 0 <= i < |nums| => KeyOf(nums, mix, i))
  }

  lemma SameIsEqual(nums: seq<Number>, mix: Hashed -> u64, i: nat, j: nat)
    requires i < |nums| && j < |nums| && Valid(nums[i]) && Valid(nums[j])
    ensures Same(KeyOf(nums, mix, i), KeyOf(nums, mix, j)) <==> Equal(nums[i], nums[j])
  {
    if Equal(nums[i], nums[j]) {
      EqualHashAlike(nums[i], nums[j]);
    }
  }

  /** Numbers as keys fall into classes, and every run over them answers like a
      map, exactly when they are separate. */
  lemma NumbersLawful(nums: seq<Number>, mix: Hashed -> u64)
    requires forall x :: x in nums ==> Valid(x)
    ensures (exists cls: Classing :: AllAnswer(cls, KeysOf(nums, mix))) <==> Separate(nums)
  {
    var keys := KeysOf(nums, mix);
    forall cls: Classing
      ensures AllAnswer(cls, keys) <==> Lawful(cls, keys)
    {
      AnswersAsMap(cls, keys);
    }
    ClassesExist(keys);
    TransitiveExactly(nums);
    EquivalentNumbers(nums, mix);
  }

  lemma EquivalentNumbers(nums: seq<Number>, mix: Hashed -> u64)
    requires forall x :: x in nums ==> Valid(x)
    ensures Equivalence(KeysOf(nums, mix)) <==> Transitive(nums)
  {
    if Equivalence(KeysOf(nums, mix)) {
      forall x, y, z | x in nums && y in nums && z in nums && Equal(x, y) && Equal(y, z)
        ensures Equal(x, z)
      {
        var i, j, k :| 0 <= i < |nums| && nums[i] == x && 0 <= j < |nums| && nums[j] == y && 0 <= k < |nums| && nums[k] == z;
        TransitiveNumbers(nums, mix, i, j, k);
      }
    }
    if Transitive(nums) {
      EquivalentKeys(nums, mix);
    }
  }

  lemma TransitiveNumbers(nums: seq<Number>, mix: Hashed -> u64, i: nat, j: nat, k: nat)
    requires forall x :: x in nums ==> Valid(x)
    requires Equivalence(KeysOf(nums, mix)) && i < |nums| && j < |nums| && k < |nums|
    requires Equal(nums[i], nums[j]) && Equal(nums[j], nums[k])
    ensures Equal(nums[i], nums[k])
  {
    var keys := KeysOf(nums, mix);
    assert keys[i] in keys && keys[j] in keys && keys[k] in keys;
    SameIsEqual(nums, mix, i, j);
    SameIsEqual(nums, mix, j, k);
    SameIsEqual(nums, mix, i, k);
  }

  /** The number of a key among those of `nums`. */
  lemma NumberOf(nums: seq<Number>, mix: Hashed -> u64, key: Key) returns (i: nat)
    requires key in KeysOf(nums, mix)
    ensures i < |nums| && key == KeyOf(nums, mix, i)
  {
    i :| i < |nums| && KeysOf(nums, mix)[i] == key;
  }

  lemma EquivalentKeys(nums: seq<Number>, mix: Hashed -> u64)
    requires (forall x :: x in nums ==> Valid(x)) && Transitive(nums)
    ensures Equivalence(KeysOf(nums, mix))
  {
    var keys := KeysOf(nums, mix);
    forall a, b | a in keys && b in keys
      ensures a.hash.Some? && b.hash.Some? && Same(a, a) && (Same(a, b) ==> Same(b, a))
    {
      var i := NumberOf(nums, mix, a);
      var j := NumberOf(nums, mix, b);
      SameIsEqual(nums, mix, i, i);
      SameIsEqual(nums, mix, i, j);
      SameIsEqual(nums, mix, j, i);
    }
    forall a, b, c | a in keys && b in keys && c in keys && Same(a, b) && Same(b, c)
      ensures Same(a, c)
    {
      var i := NumberOf(nums, mix, a);
      var j := NumberOf(nums, mix, b);
      var k := NumberOf(nums, mix, c);
      SameIsEqual(nums, mix, i, j);
      SameIsEqual(nums, mix, j, k);
      SameIsEqual(nums, mix, i, k);
    }
  }

  // ------------------------------------------------------- 2**53 and its neighbour

  const TWO_53: i64 := 0x20_0000_0000_0000

  /** 2**53, 2**53 + 1 and 2.0**53. */
  const NEIGHBOURS: seq<Number> := [Int(TWO_53), Int(TWO_53 + 1), Float(Whole(TWO_53))]

  lemma NeighboursRounded()
    ensures I64AsFloat(TWO_53) == Whole(TWO_53) && I64AsFloat(TWO_53 + 1) == Whole(TWO_53)
    ensures forall x :: x in NEIGHBOURS ==> Valid(x)
  {
    assert Unit(TWO_53 / 2) == 1 && Unit((TWO_53 + 1) / 2) == 1;
    assert Unit(TWO_53) == 2 && Unit(TWO_53 + 1) == 2;
    assert Pow2(1024) > TWO_53 by {
      Pow2Of32();
      Pow2Add(32, 32);
      Pow2Monotone(64, 1024);
    }
  }

  /** The two integers are equal to the float, and all three hashed alike, but
      the integers are not equal; a run of a dict with these keys answers as no
      map does. */
  method NeighboursRun(bits: nat, mix: Hashed -> u64) returns (outs: seq<Option<Value>>)
    requires bits == 32 || bits == 64
    ensures !Separate(NEIGHBOURS)
    ensures var keys := KeysOf(NEIGHBOURS, mix);
      && keys[0].hash == keys[1].hash == keys[2].hash
      && forall cls :: !MapAnswers(cls, SplitOps(keys[0], keys[1], keys[2]), outs)
  {
    NeighboursRounded();
    var keys := KeysOf(NEIGHBOURS, mix);
    outs := SplitRun(bits, keys[0], keys[1], keys[2]);
  }
}
