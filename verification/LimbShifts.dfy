/** Shifts and bit lengths of limb lists, against powers of two. */
module LimbShifts {
  import opened Bits
  import opened Limbs

  lemma Pow2Of32()
    ensures Pow2(32) == B
  {
    assert Pow2(8) == 256 by {
      assert Pow2(3) == 8;
      assert Pow2(5) == 4 * Pow2(3);
      assert Pow2(7) == 4 * Pow2(5);
    }
    Pow2Add(8, 8);
    Pow2Add(16, 16);
  }

  lemma {:induction false} PIsPow2(n: nat)
    ensures P(n) == Pow2(32 * n)
  {
    if n > 0 {
      PIsPow2(n - 1);
      Pow2Of32();
      Pow2Add(32, 32 * (n - 1));
    }
  }

  lemma ShiftScale(bits: nat, words: nat, rest: nat)
    requires bits == 32 * words + rest
    ensures Pow2(bits) == P(words) * Pow2(rest)
  {
    PIsPow2(words);
    Pow2Add(32 * words, rest);
  }

  // ------------------------------------------------------------ left shift

  lemma Below(q: nat, r: nat, b: nat, m: nat)
    requires q * b + r < m * b
    ensures q < m
  {
    if q >= m {
      ScaleUp(m, q, b);
    }
  }

  /** A limb shifted by `m` above a carry below `m`: a limb and a carry below `m`. */
  lemma ShiftedLimb(limb: nat, carry: nat, m: nat)
    requires limb < B && carry < m
    ensures (limb * m + carry) / B < m
  {
    var x := limb * m + carry;
    ScaleUp(limb, B - 1, m);
    assert x < m * B;
    Below(x / B, x % B, B, m);
  }

  /** `(limb << k) | carry` as a limb and a carry; the bits of the two do not overlap. */
  method ShiftStep(limb: u32, carry: u32, m: nat) returns (digit: u32, next: u32)
    requires carry < m <= B
    ensures digit + B * next == limb * m + carry && next < m
  {
    ShiftedLimb(limb, carry, m);
    var shifted := limb * m + carry;
    digit, next := shifted % B, shifted / B;
  }

  lemma ShiftColumn(v: nat, x: nat, limb: nat, carry: nat, digit: nat, next: nat, m: nat, pw: nat, p: nat, pp: nat)
    requires pp == pw * p && v + carry * pp == x * (pw * m) && digit + B * next == limb * m + carry
    ensures v + digit * pp + next * (B * pp) == (x + limb * p) * (pw * m)
  {
    assert (digit + B * next) * pp == digit * pp + next * (B * pp);
    assert (limb * m + carry) * pp == limb * m * pp + carry * pp;
    Regroup(limb, m, p, pw);
    assert pp == p * pw && m * pw == pw * m;
    assert (x + limb * p) * (pw * m) == x * (pw * m) + limb * p * (pw * m);
  }

  /** The loop: `m` is two to the bits within a word. */
  method ShlBy(limbs: seq<u32>, words: nat, m: nat) returns (out: seq<u32>)
    requires 0 < m <= B
    ensures Val(out) == Val(limbs) * (P(words) * m)
  {
    out := seq(|limbs| + words + 1, _ => 0);
    ghost var n := |out|;
    LowZeros(out, n);
    var carry: u32 := 0;
    for idx := 0 to |limbs|
      invariant |out| == n && carry < m && (forall k :: idx + words <= k < n ==> out[k] == 0)
      invariant Val(out) + carry * P(words + idx) == Low(limbs, idx) * (P(words) * m)
    {
      PAdd(words, idx);
      var digit, next := ShiftStep(limbs[idx], carry, m);
      ShiftColumn(Val(out), Low(limbs, idx), limbs[idx], carry, digit, next, m, P(words), P(idx), P(words + idx));
      LowUpdate(out, words + idx, digit, n);
      DropZero(0, P(words + idx));
      out := out[idx + words := digit];
      carry := next;
    }
    if carry != 0 {
      LowUpdate(out, words + |limbs|, carry, n);
      DropZero(0, P(words + |limbs|));
      out := out[|limbs| + words := carry];
    }
  }

  method Shl(limbs: seq<u32>, bits: nat) returns (out: seq<u32>)
    ensures Val(out) == Val(limbs) * Pow2(bits)
  {
    var words, rest := bits / 32, bits % 32;
    ShiftScale(bits, words, rest);
    Pow2Monotone(rest, 32);
    Pow2Of32();
    out := ShlBy(limbs, words, Pow2(rest));
  }

  // ------------------------------------------------------------ bit length

  /** 32 minus the leading zeros. */
  function WordBits(x: nat): nat {
    if x == 0 then 0 else 1 + WordBits(x / 2)
  }

  lemma {:induction false} WordBitsBounds(x: nat)
    requires x > 0
    ensures WordBits(x) > 0 && Pow2(WordBits(x) - 1) <= x < Pow2(WordBits(x))
  {
    if x > 1 {
      WordBitsBounds(x / 2);
    }
  }

  lemma TopBounds(low: nat, top: nat, p: nat, a: nat, b: nat)
    requires low < p && a <= top < b
    ensures p * a <= low + top * p < p * b
  {
    ScaleUp(a, top, p);
    ScaleUp(top + 1, b, p);
    assert (top + 1) * p == top * p + p;
  }

  /** The number of bits of a normal number: it lies between the two powers of two. */
  method BitLength(limbs: seq<u32>) returns (r: nat)
    requires Normal(limbs)
    ensures limbs == [] ==> r == 0
    ensures limbs != [] ==> r > 0 && Pow2(r - 1) <= Val(limbs) < Pow2(r)
  {
    if limbs == [] {
      return 0;
    }
    var n := |limbs| - 1;
    r := 32 * n + WordBits(limbs[n]);
    LengthBounds(limbs, n, WordBits(limbs[n]), r);
  }

  lemma LengthBounds(limbs: seq<u32>, n: nat, w: nat, r: nat)
    requires |limbs| == n + 1 && limbs[n] > 0 && w == WordBits(limbs[n]) && r == 32 * n + w
    ensures r > 0 && Pow2(r - 1) <= Val(limbs) < Pow2(r)
  {
    WordBitsBounds(limbs[n]);
    LowBound(limbs, n);
    TopBounds(Low(limbs, n), limbs[n], P(n), Pow2(w - 1), Pow2(w));
    ShiftScale(r, n, w);
    ShiftScale(r - 1, n, w - 1);
  }

  // ------------------------------------------------------------ right shift

  /** One more limb below `h`, divided by `m`, where `m c` is a whole limb. */
  lemma ShrColumn(h: nat, limb: nat, m: nat, c: nat)
    requires m > 0 && m * c == B
    ensures (limb + B * h) / m == limb / m + (h % m) * c + B * (h / m)
    ensures (limb + B * h) % m == limb % m
  {
    var q, r := h / m, h % m;
    assert h == q * m + r;
    var k := r * c + B * q;
    assert B * h == k * m by {
      assert B * (q * m + r) == B * q * m + B * r;
      assert B * r == r * c * m;
      assert k * m == r * c * m + B * q * m;
    }
    var a := limb / m;
    assert limb == a * m + limb % m;
    assert (a + k) * m == a * m + k * m;
    DivUnique(limb + B * h, m, a + k, limb % m);
  }

  lemma ShrFits(limb: nat, r: nat, m: nat, c: nat)
    requires 0 < m && m * c == B && limb < B && r < m
    ensures limb / m + r * c < B
  {
    var a := limb / m;
    assert limb == a * m + limb % m;
    Below(a, limb % m, m, c);
    ScaleUp(r + 1, m, c);
    assert (r + 1) * c == r * c + c;
  }

  lemma {:induction false} HighPrepend(s: seq<u32>, k: nat)
    requires k < |s|
    ensures High(s, k) == s[k] + B * High(s, k + 1)
  {
  }

  lemma {:induction false} HighTail(s: seq<u32>, t: seq<u32>, k: nat, n: nat)
    requires k <= |t| && |s| == n + |t| && s[n..] == t
    ensures High(s, n + k) == High(t, k)
    decreases |t| - k
  {
    if k < |t| {
      HighTail(s, t, k + 1, n);
      assert s[n + k] == s[n..][k];
    }
  }

  lemma ValIsHigh(s: seq<u32>)
    ensures Val(s) == High(s, 0)
  {
    HighIsVal(s, 0);
  }

  lemma ValCons(x: u32, s: seq<u32>)
    ensures Val([x] + s) == x + B * Val(s)
  {
    ValIsHigh([x] + s);
    ValIsHigh(s);
    assert ([x] + s)[1..] == s;
    HighTail([x] + s, s, 0, 1);
    HighPrepend([x] + s, 0);
  }

  /** The loop, from the top limb down: `m` is two to the bits within a word and
      `c` what is left of the word. Pushed limbs are reversed at the end. */
  method ShrBy(limbs: seq<u32>, words: nat, m: nat, c: nat) returns (out: seq<u32>)
    requires words <= |limbs| && 0 < m && m * c == B
    ensures Val(out) == High(limbs, words) / m
  {
    out := [];
    var carry: u32 := 0;
    var idx := |limbs|;
    while idx > words
      invariant words <= idx <= |limbs|
      invariant Val(out) == High(limbs, idx) / m && carry % m == High(limbs, idx) % m
    {
      idx := idx - 1;
      var value := ShrStep(limbs[idx], carry, m, c);
      ShrAdvance(High(limbs, idx + 1), limbs[idx], Val(out), carry, value, m, c);
      ValCons(value, out);
      carry := limbs[idx];
      out := [value] + out;
    }
  }

  /** `(limb >> k) | (carry << (32 - k))`: the low bits of the limb above move in. */
  method ShrStep(limb: u32, carry: u32, m: nat, c: nat) returns (value: u32)
    requires 0 < m && m * c == B
    ensures value == limb / m + (carry % m) * c
  {
    ShrFits(limb, carry % m, m, c);
    value := limb / m + (carry % m) * c;
  }

  lemma ShrAdvance(above: nat, limb: nat, quotient: nat, carry: nat, value: nat, m: nat, c: nat)
    requires 0 < m && m * c == B && quotient == above / m && carry % m == above % m
    requires value == limb / m + (carry % m) * c
    ensures value + B * quotient == (limb + B * above) / m && limb % m == (limb + B * above) % m
  {
    ShrColumn(above, limb, m, c);
  }

  /** What a right shift by whole words and by `m` drops. */
  lemma ShrSplit(limbs: seq<u32>, words: nat, m: nat)
    requires words <= |limbs| && m > 0
    ensures P(words) * m > 0
    ensures Val(limbs) / (P(words) * m) == High(limbs, words) / m
    ensures Val(limbs) % (P(words) * m) == Low(limbs, words) + (High(limbs, words) % m) * P(words)
  {
    HighIsVal(limbs, words);
    LowBound(limbs, words);
    DivScaled(Low(limbs, words), High(limbs, words), m, P(words), Val(limbs));
  }

  lemma DivScaled(low: nat, h: nat, m: nat, p: nat, v: nat)
    requires low < p && m > 0 && v == low + h * p
    ensures p * m > 0 && v / (p * m) == h / m && v % (p * m) == low + (h % m) * p
  {
    var q, r := h / m, h % m;
    assert h == q * m + r;
    SplitScaled(low, q, r, m, p);
    DivUnique(v, p * m, q, low + r * p);
  }

  lemma SplitScaled(low: nat, q: nat, r: nat, m: nat, p: nat)
    requires low < p && r < m
    ensures low + (q * m + r) * p == q * (p * m) + (low + r * p)
    ensures low + r * p < p * m && p * m > 0
  {
    assert (q * m + r) * p == q * m * p + r * p;
    assert q * m * p == q * (p * m);
    ScaleUp(r + 1, m, p);
    assert (r + 1) * p == r * p + p;
  }

  lemma Halves(rest: nat)
    requires rest <= 32
    ensures Pow2(rest) * Pow2(32 - rest) == B
  {
    Pow2Add(rest, 32 - rest);
    Pow2Of32();
  }

  /** Everything is dropped. */
  lemma ShrAll(limbs: seq<u32>, words: nat, bits: nat)
    requires |limbs| <= words && 32 * words <= bits
    ensures Val(limbs) < Pow2(bits)
  {
    LowBound(limbs, |limbs|);
    PMonotone(|limbs|, words);
    PIsPow2(words);
    Pow2Monotone(32 * words, bits);
  }

  lemma NothingLeft(limbs: seq<u32>, words: nat, bits: nat)
    requires |limbs| <= words && 32 * words <= bits
    ensures Val(limbs) / Pow2(bits) == 0 && Val([]) == 0
  {
    ShrAll(limbs, words, bits);
    DivUnique(Val(limbs), Pow2(bits), 0, Val(limbs));
  }

  /** A shift by whole words keeps the limbs above. */
  lemma WholeWords(limbs: seq<u32>, words: nat, bits: nat)
    requires words <= |limbs| && bits == 32 * words
    ensures Val(limbs[words..]) == Val(limbs) / Pow2(bits)
  {
    assert Pow2(0) == 1;
    ShiftScale(bits, words, 0);
    ShrSplit(limbs, words, 1);
    HighTail(limbs, limbs[words..], 0, words);
    ValIsHigh(limbs[words..]);
  }

  lemma PartWords(limbs: seq<u32>, words: nat, rest: nat, bits: nat)
    requires words <= |limbs| && bits == 32 * words + rest
    ensures High(limbs, words) / Pow2(rest) == Val(limbs) / Pow2(bits)
  {
    ShiftScale(bits, words, rest);
    ShrSplit(limbs, words, Pow2(rest));
  }

  method Shr(limbs: seq<u32>, bits: nat) returns (out: seq<u32>)
    ensures Val(out) == Val(limbs) / Pow2(bits)
  {
    var words, rest := bits / 32, bits % 32;
    if words >= |limbs| {
      NothingLeft(limbs, words, bits);
      return [];
    }
    if rest == 0 {
      WholeWords(limbs, words, bits);
      return limbs[words..];
    }
    Halves(rest);
    PartWords(limbs, words, rest, bits);
    out := ShrBy(limbs, words, Pow2(rest), Pow2(32 - rest));
  }

  lemma {:induction false} LowIsZero(s: seq<u32>, n: nat)
    ensures Low(s, n) == 0 <==> forall i :: 0 <= i < n ==> At(s, i) == 0
  {
    if n > 0 {
      LowIsZero(s, n - 1);
      ZeroProduct(At(s, n - 1), P(n - 1));
    }
  }

  lemma ZeroProduct(a: nat, p: nat)
    requires p > 0
    ensures a * p == 0 <==> a == 0
  {
    if a > 0 {
      ScaleUp(1, a, p);
    }
  }

  /** Whether a right shift drops anything but zeros. */
  method HasLowBits(limbs: seq<u32>, bits: nat) returns (r: bool)
    ensures r <==> Val(limbs) % Pow2(bits) != 0
  {
    var words, rest := bits / 32, bits % 32;
    var stop := if words < |limbs| then words else |limbs|;
    LowIsZero(limbs, stop);
    LowBitsMeaning(limbs, bits, words, rest, stop);
    var idx := 0;
    while idx < stop
      invariant idx <= stop && forall i :: 0 <= i < idx ==> At(limbs, i) == 0
    {
      if limbs[idx] != 0 {
        assert At(limbs, idx) != 0;
        return true;
      }
      idx := idx + 1;
    }
    if rest != 0 && words < |limbs| {
      return limbs[words] % Pow2(rest) != 0;
    }
    return false;
  }

  lemma LowBitsMeaning(limbs: seq<u32>, bits: nat, words: nat, rest: nat, stop: nat)
    requires bits == 32 * words + rest && rest < 32 && stop == if words < |limbs| then words else |limbs|
    ensures Val(limbs) % Pow2(bits) != 0
       <==> Low(limbs, stop) != 0 || (rest != 0 && words < |limbs| && limbs[words] % Pow2(rest) != 0)
  {
    if words < |limbs| {
      var m := Pow2(rest);
      ShiftScale(bits, words, rest);
      ShrSplit(limbs, words, m);
      Halves(rest);
      HighPrepend(limbs, words);
      ShrColumn(High(limbs, words + 1), limbs[words], m, Pow2(32 - rest));
      ZeroProduct(limbs[words] % m, P(words));
      assert rest == 0 ==> m == 1;
    } else {
      ShrAll(limbs, words, bits);
      DivUnique(Val(limbs), Pow2(bits), 0, Val(limbs));
    }
  }
}
