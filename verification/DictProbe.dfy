/**
 The probe sequence of the dict backend (src/runtime/dict_backend.rs).

 From the slot of the hash, each round moves to 5 * slot + perturb + 1 modulo
 the table size while `perturb` is shifted right by five bits.  Once `perturb`
 is zero the sequence is the congruential generator x -> 5x + 1 modulo a power
 of two, which runs through every residue.
 */
module DictProbe {
  import opened Bits

  const PERTURB_SHIFT := 5

  /** `MAX_PERTURB_ROUNDS` for a given pointer width. */
  function PerturbRounds(bits: nat): nat {
    bits / PERTURB_SHIFT + 2
  }

  function Perturb(hash: nat, round: nat): nat {
    if round == 0 then hash else Perturb(hash, round - 1) / 32
  }

  /** One move, with the word-size wrap-around and the mask of the source. */
  function NextSlot(bits: nat, size: nat, slot: nat, perturb: nat): (s: nat)
    requires size > 0
    ensures s < size
  {
    (slot * 5 + perturb + 1) % Pow2(bits) % size
  }

  /** The slot looked at in the given round. */
  function Probe(bits: nat, size: nat, hash: nat, round: nat): (s: nat)
    requires size > 0
    ensures s < size
  {
    if round == 0 then hash % size
    else NextSlot(bits, size, Probe(bits, size, hash, round - 1), Perturb(hash, round - 1))
  }

  /** The word size in steps of five bits, and two more rounds. */
  lemma RoundsOfWord()
    ensures PerturbRounds(32) == 8 && PerturbRounds(64) == 14
  {
  }

  /** Every round takes five bits off the hash. */
  lemma {:induction false} PerturbIs(hash: nat, round: nat)
    ensures Perturb(hash, round) == ShiftRight(hash, 5 * round)
  {
    if round > 0 {
      PerturbIs(hash, round - 1);
      ShiftedMore(hash, 5 * (round - 1));
    }
  }

  lemma {:induction false} ShiftedOne(x: nat, n: nat)
    ensures ShiftRight(x, n + 1) == ShiftRight(x, n) / 2
  {
    if n > 0 {
      ShiftedOne(x / 2, n - 1);
    }
  }

  lemma ShiftedMore(x: nat, n: nat)
    ensures ShiftRight(x, n + 5) == ShiftRight(x, n) / 32
  {
    ShiftedOne(x, n);
    ShiftedOne(x, n + 1);
    ShiftedOne(x, n + 2);
    ShiftedOne(x, n + 3);
    ShiftedOne(x, n + 4);
  }

  /** A move is to five times the slot and what is left of the hash and one, in the table. */
  lemma ProbeMoves(bits: nat, k: nat, hash: nat, round: nat)
    requires k <= bits
    ensures Probe(bits, Pow2(k), hash, 0) == hash % Pow2(k)
    ensures Probe(bits, Pow2(k), hash, round + 1)
         == (5 * Probe(bits, Pow2(k), hash, round) + ShiftRight(hash, 5 * round) + 1) % Pow2(k)
  {
    PerturbIs(hash, round);
    WrapHarmless(bits, k, Probe(bits, Pow2(k), hash, round) * 5 + Perturb(hash, round) + 1);
  }

  // ------------------------------------------------- perturb runs out of bits

  lemma {:induction false} PerturbVanishes(hash: nat, bits: nat, round: nat)
    requires hash < Pow2(bits) && 5 * round >= bits
    ensures Perturb(hash, round) == 0
  {
    PerturbBelow(hash, bits, round);
  }

  lemma {:induction false} PerturbBelow(hash: nat, bits: nat, round: nat)
    requires hash < Pow2(bits)
    ensures Perturb(hash, round) < (if 5 * round >= bits then 1 else Pow2(bits - 5 * round))
  {
    if round > 0 {
      PerturbBelow(hash, bits, round - 1);
      var left := bits - 5 * (round - 1);
      if left > 5 {
        Pow2Add(5, left - 5);
        Pow2Of5();
      } else if left > 0 {
        Pow2Monotone(left, 5);
        Pow2Of5();
      }
    }
  }

  lemma Pow2Of5()
    ensures Pow2(5) == 32
  {
    assert Pow2(3) == 8 && Pow2(5) == 4 * Pow2(3);
  }

  // ------------------------------------------------ divisibility by 2^k

  /** 2^k divides a. */
  predicate Twos(k: nat, a: nat) {
    k == 0 || (a % 2 == 0 && Twos(k - 1, a / 2))
  }

  lemma {:induction false} TwosMultiple(k: nat, q: nat, p: nat)
    requires p == Pow2(k) * q
    ensures Twos(k, p)
  {
    if k > 0 {
      assert p == 2 * (Pow2(k - 1) * q);
      TwosMultiple(k - 1, q, p / 2);
    }
  }

  lemma {:induction false} TwosLarge(k: nat, a: nat)
    requires Twos(k, a) && a > 0
    ensures a >= Pow2(k)
  {
    if k > 0 {
      TwosLarge(k - 1, a / 2);
    }
  }

  lemma {:induction false} TwosOddFactor(k: nat, a: nat, b: nat, p: nat)
    requires b % 2 == 1 && p == b * a && Twos(k, p)
    ensures Twos(k, a)
  {
    if k > 0 {
      HalveFactor(a, b, p);
      TwosOddFactor(k - 1, a / 2, b, p / 2);
    }
  }

  lemma HalveFactor(a: nat, b: nat, p: nat)
    requires b % 2 == 1 && p == b * a && p % 2 == 0
    ensures a % 2 == 0 && p / 2 == b * (a / 2)
  {
    var h := b / 2;
    OddProduct(a, h);
    assert p == 2 * (h * a) + a;
    var half := a / 2;
    EvenProduct(half, b);
    assert p == 2 * (b * half);
  }

  lemma OddProduct(a: nat, h: nat)
    ensures (2 * h + 1) * a == 2 * (h * a) + a
  {
  }

  lemma EvenProduct(half: nat, b: nat)
    ensures b * (2 * half) == 2 * (b * half)
  {
  }

  // ---------------------------------------------- the generator x -> 5x + 1

  /** 1 + 5 + ... + 5^(n-1). */
  function Geom(n: nat): nat {
    if n == 0 then 0 else 5 * Geom(n - 1) + 1
  }

  lemma Affine(a: nat, h: nat)
    ensures a * (5 * h + 1) == 5 * (a * h) + a
  {
  }

  lemma {:induction false} GeomAdd(m: nat, n: nat)
    ensures Geom(m + n) == Geom(m) + (4 * Geom(m) + 1) * Geom(n)
  {
    if n > 0 {
      GeomAdd(m, n - 1);
      Affine(4 * Geom(m) + 1, Geom(n - 1));
    }
  }

  lemma {:induction false} GeomParity(n: nat)
    ensures Geom(n) % 2 == n % 2
  {
    if n > 0 {
      GeomParity(n - 1);
    }
  }

  lemma DoublePoly(g: nat) returns (p: nat)
    ensures p == (2 * g + 1) * g && g + (4 * g + 1) * g == 2 * p
  {
    var square := g * g;
    assert (4 * g + 1) * g == 4 * square + g;
    assert (2 * g + 1) * g == 2 * square + g;
    p := 2 * square + g;
  }

  lemma TwosGeomHalf(k: nat, m: nat)
    requires Twos(k + 1, Geom(2 * m))
    ensures Twos(k, Geom(m))
  {
    var p := DoublePoly(Geom(m));
    GeomAdd(m, m);
    TwosOddFactor(k, Geom(m), 2 * Geom(m) + 1, p);
  }

  lemma {:induction false} TwosGeom(k: nat, n: nat)
    requires Twos(k, Geom(n))
    ensures Twos(k, n)
  {
    if k > 0 {
      GeomParity(n);
      TwosGeomHalf(k - 1, n / 2);
      TwosGeom(k - 1, n / 2);
    }
  }

  /** Unreduced iteration from x. */
  function Orbit(x: nat, n: nat): nat {
    if n == 0 then x else 5 * Orbit(x, n - 1) + 1
  }

  lemma {:induction false} OrbitClosedForm(x: nat, n: nat) returns (diff: nat)
    ensures diff == (4 * x + 1) * Geom(n) && Orbit(x, n) == x + diff
  {
    if n == 0 {
      diff := 0;
    } else {
      var before := OrbitClosedForm(x, n - 1);
      diff := 5 * before + (4 * x + 1);
      Affine(4 * x + 1, Geom(n - 1));
    }
  }

  lemma {:induction false} OrbitAdd(x: nat, m: nat, n: nat)
    ensures Orbit(x, m + n) == Orbit(Orbit(x, m), n)
  {
    if n > 0 {
      OrbitAdd(x, m, n - 1);
    }
  }

  /** Fewer than 2^k steps move by something 2^k does not divide. */
  lemma OrbitMoves(k: nat, x: nat, d: nat) returns (diff: nat)
    requires 0 < d < Pow2(k)
    ensures Orbit(x, d) == x + diff && !Twos(k, diff)
  {
    diff := OrbitClosedForm(x, d);
    if Twos(k, diff) {
      TwosOddFactor(k, Geom(d), 4 * x + 1, diff);
      TwosGeom(k, d);
      TwosLarge(k, d);
    }
  }

  /** Two steps of the orbit less than 2^k apart differ modulo 2^k. */
  lemma OrbitDistinct(k: nat, x: nat, i: nat, j: nat)
    requires i < j < i + Pow2(k)
    ensures Orbit(x, i) % Pow2(k) != Orbit(x, j) % Pow2(k)
  {
    OrbitAdd(x, i, j - i);
    var diff := OrbitMoves(k, Orbit(x, i), j - i);
    if Orbit(x, i) % Pow2(k) == (Orbit(x, i) + diff) % Pow2(k) {
      ResidueTwos(k, Orbit(x, i), diff);
    }
  }

  lemma ResidueTwos(k: nat, x: nat, diff: nat)
    requires x % Pow2(k) == (x + diff) % Pow2(k)
    ensures Twos(k, diff)
  {
    var q := SameResidue(x, diff, Pow2(k));
    TwosMultiple(k, q, diff);
  }

  lemma SameResidue(a: nat, diff: nat, size: nat) returns (q: nat)
    requires size > 0 && a % size == (a + diff) % size
    ensures diff == size * q
  {
    var qa, qb := a / size, (a + diff) / size;
    assert a == size * qa + a % size && a + diff == size * qb + a % size;
    assert diff == size * (qb - qa);
    assert qb >= qa;
    q := qb - qa;
  }

  // ------------------------------------------------------------ pigeonhole

  ghost predicate DistinctBelow(xs: seq<nat>, n: nat) {
    && (forall i :: 0 <= i < |xs| ==> xs[i] < n)
    && forall i, j :: 0 <= i < j < |xs| ==> xs[i] != xs[j]
  }

  function Below(n: nat): (s: set<nat>)
    ensures |s| == n && forall x :: x in s <==> 0 <= x < n
  {
    if n == 0 then {} else Below(n - 1) + {n - 1}
  }

  function Elements(xs: seq<nat>): set<nat> {
    set x | x in xs
  }

  lemma Pigeonhole(xs: seq<nat>, n: nat, target: nat)
    requires |xs| == n && DistinctBelow(xs, n) && target < n
    ensures target in xs
  {
    ElementsOfDistinct(xs, n);
    if target !in xs {
      SubsetSize(Elements(xs), Below(n) - {target});
    }
  }

  lemma {:induction false} ElementsOfDistinct(xs: seq<nat>, n: nat)
    requires DistinctBelow(xs, n)
    ensures |Elements(xs)| == |xs|
  {
    if xs != [] {
      var last := |xs| - 1;
      ElementsOfDistinct(xs[..last], n);
      assert xs[last] !in Elements(xs[..last]);
      assert Elements(xs) == Elements(xs[..last]) + {xs[last]};
    }
  }

  lemma SubsetSize(a: set<nat>, b: set<nat>)
    requires a <= b
    ensures |a| <= |b|
  {
    assert b == a + (b - a);
  }

  // ---------------------------------------------------- every slot is visited

  lemma WrapHarmless(bits: nat, k: nat, x: nat)
    requires k <= bits
    ensures x % Pow2(bits) % Pow2(k) == x % Pow2(k)
  {
    Pow2Add(k, bits - k);
    ModOfMultiple(x, Pow2(k), Pow2(bits - k));
  }

  lemma ProductAtLeast(size: nat, d: nat)
    requires d > 0
    ensures size * d >= size
  {
    assert size * d == size * (d - 1) + size;
  }

  lemma ModUnique(x: nat, size: nat, q: int, r: nat)
    requires r < size && x == size * q + r
    ensures x % size == r
  {
    var d, m := x / size, x % size;
    assert x == size * d + m;
    assert size * (q - d) == size * q - size * d && size * (d - q) == size * d - size * q;
    if q > d {
      ProductAtLeast(size, q - d);
    } else if q < d {
      ProductAtLeast(size, d - q);
    }
  }

  lemma AddMultiple(r: nat, size: nat, q: int)
    requires size > 0 && size * q + r >= 0
    ensures (size * q + r) % size == r % size
  {
    var d, m := r / size, r % size;
    assert size * q + r == size * (q + d) + m;
    ModUnique(size * q + r, size, q + d, m);
  }

  lemma ModOfMultiple(x: nat, size: nat, times: nat)
    requires size > 0 && times > 0
    ensures size * times > 0 && x % (size * times) % size == x % size
  {
    var big := size * times;
    assert big > 0;
    var q, r := x / big, x % big;
    assert x == big * q + r == size * (times * q) + r;
    AddMultiple(r, size, times * q);
  }

  lemma StepResidue(y: nat, size: nat)
    requires size > 0
    ensures (y % size * 5 + 1) % size == (5 * y + 1) % size
  {
    var q, r := y / size, y % size;
    assert y == size * q + r;
    assert 5 * y + 1 == size * (5 * q) + (5 * r + 1);
    AddMultiple(5 * r + 1, size, 5 * q);
  }

  lemma NextSlotResidue(bits: nat, k: nat, y: nat)
    requires k <= bits
    ensures NextSlot(bits, Pow2(k), y % Pow2(k), 0) == (5 * y + 1) % Pow2(k)
  {
    WrapHarmless(bits, k, y % Pow2(k) * 5 + 1);
    StepResidue(y, Pow2(k));
  }

  /** After the perturbation has run out the probe follows the orbit. */
  lemma {:induction false} ProbeFollowsOrbit(bits: nat, k: nat, hash: nat, round: nat, i: nat)
    requires k <= bits && hash < Pow2(bits) && 5 * round >= bits
    ensures Probe(bits, Pow2(k), hash, round + i) == Orbit(Probe(bits, Pow2(k), hash, round), i) % Pow2(k)
  {
    var start := Probe(bits, Pow2(k), hash, round);
    if i == 0 {
      ModUnique(start, Pow2(k), 0, start);
    } else {
      ProbeFollowsOrbit(bits, k, hash, round, i - 1);
      PerturbVanishes(hash, bits, round + i - 1);
      NextSlotResidue(bits, k, Orbit(start, i - 1));
    }
  }

  /** Within `size + MAX_PERTURB_ROUNDS` rounds every slot is looked at. */
  lemma ProbeVisitsAll(bits: nat, k: nat, hash: nat, target: nat) returns (round: nat)
    requires k <= bits && hash < Pow2(bits) && target < Pow2(k)
    ensures round < Pow2(k) + PerturbRounds(bits)
    ensures Probe(bits, Pow2(k), hash, round) == target
  {
    var size, start := Pow2(k), bits / 5 + 1;
    var xs := seq<nat>(size, i requires 0 <= i < size => Probe(bits, size, hash, start + i));
    forall i, j | 0 <= i < j < size
      ensures xs[i] != xs[j]
    {
      ProbeFollowsOrbit(bits, k, hash, start, i);
      ProbeFollowsOrbit(bits, k, hash, start, j);
      OrbitDistinct(k, Probe(bits, size, hash, start), i, j);
    }
    assert forall i :: 0 <= i < |xs| ==> xs[i] == Probe(bits, size, hash, start + i);
    Pigeonhole(xs, size, target);
    var i :| 0 <= i < size && xs[i] == target;
    round := start + i;
  }
}
