/** Decimal printing of `src/runtime/bigint.rs` in chunks of nine digits. */
module BigIntDisplay {
  import opened Common
  import opened Limbs
  import opened BigInt

  /** The usual decimal text of a number. */
  function Decimal(n: nat): (r: string)
    ensures r != ""
  {
    if n < 10 then [FromDigit(n)] else Decimal(n / 10) + [FromDigit(n % 10)]
  }

  function DecimalText(x: int): string {
    if x < 0 then ['-'] + Decimal(-x) else Decimal(x)
  }

  lemma {:induction false} DecimalDenotes(n: nat)
    ensures Denoted(Decimal(n), 10) == Some(n) && Shortest(Decimal(n)) && (n > 0 ==> Decimal(n)[0] != '0')
  {
    var t := Decimal(n);
    if n < 10 {
      assert t[..0] == "";
    } else {
      DecimalDenotes(n / 10);
      assert t[..|t| - 1] == Decimal(n / 10);
      assert t[0] == Decimal(n / 10)[0];
    }
  }

  lemma DigitIs(c: char, d: nat)
    requires ToDigit(c, 10) == Some(d)
    ensures d < 10 && c == FromDigit(d)
  {
  }

  /** A digit text that does not start with a zero is not zero. */
  lemma {:induction false} LeadingDigit(text: string)
    requires text != "" && text[0] != '0' && Denoted(text, 10).Some?
    ensures Denoted(text, 10).value > 0
  {
    var init := text[..|text| - 1];
    if init == "" {
      assert Denoted(init, 10) == Some(0);
    } else {
      LeadingDigit(init);
    }
  }

  /** A number has one shortest decimal text. */
  lemma {:induction false} DecimalUnique(text: string, n: nat)
    requires text != "" && Shortest(text) && Denoted(text, 10) == Some(n)
    ensures text == Decimal(n)
  {
    var init, last := text[..|text| - 1], text[|text| - 1];
    var d := ToDigit(last, 10).value;
    DigitIs(last, d);
    assert text == init + [last];
    if init == "" {
      assert Denoted(init, 10) == Some(0);
    } else {
      LeadingDigit(init);
      DecimalUnique(init, n / 10);
    }
  }

  /** Printing in radix ten gives the decimal text. */
  method ToDecimal(b: Big) returns (r: string)
    requires Valid(b)
    ensures r == DecimalText(V(b))
  {
    var text := ToStrRadix(b, 10);
    r := text.value;
    if V(b) < 0 {
      DecimalUnique(r[1..], -V(b));
      assert r == ['-'] + r[1..];
    } else {
      DecimalUnique(r, V(b));
    }
  }

  // ------------------------------------------------------------- nine digits

  const CHUNK: nat := 1_000_000_000

  lemma {:induction false} DenotedAppend(a: string, b: string)
    requires Denoted(a, 10).Some? && Denoted(b, 10).Some?
    ensures Denoted(a + b, 10) == Some(Denoted(a, 10).value * Exp(10, |b|) + Denoted(b, 10).value)
  {
    if b == "" {
      assert a + b == a;
    } else {
      var init, last := b[..|b| - 1], ToDigit(b[|b| - 1], 10).value;
      assert (a + b)[..|a + b| - 1] == a + init;
      DenotedAppend(a, init);
      var high, low := Denoted(a, 10).value, Denoted(init, 10).value;
      DenotedSnoc(b, 10, low, last);
      DenotedSnoc(a + b, 10, high * Exp(10, |init|) + low, last);
      ConsStep(high, Exp(10, |init|), low, 10, last);
    }
  }

  function Zeros(n: nat): (r: string)
    ensures |r| == n
  {
    if n == 0 then "" else Zeros(n - 1) + ['0']
  }

  lemma {:induction false} ZerosDenote(n: nat)
    ensures Denoted(Zeros(n), 10) == Some(0)
  {
    if n > 0 {
      ZerosDenote(n - 1);
      assert Zeros(n)[..n - 1] == Zeros(n - 1);
    }
  }

  lemma {:induction false} DecimalLength(n: nat, k: nat)
    requires k > 0 && n < Exp(10, k)
    ensures |Decimal(n)| <= k
  {
    if n >= 10 {
      if k > 1 {
        DecimalLength(n / 10, k - 1);
      }
    }
  }

  lemma ExpNine(k: nat)
    requires k == 9
    ensures Exp(10, k) == CHUNK
  {
    assert Exp(10, k - 7) == 100 by {
      assert Exp(10, k - 8) == 10 by {
        assert Exp(10, k - 9) == 1;
      }
    }
    assert Exp(10, k - 5) == 100 * Exp(10, k - 7);
    assert Exp(10, k - 3) == 100 * Exp(10, k - 5);
    assert Exp(10, k - 1) == 100 * Exp(10, k - 3);
  }

  /** `{chunk:09}`. */
  function Padded(chunk: nat): string {
    var t := Decimal(chunk);
    if |t| < 9 then Zeros(9 - |t|) + t else t
  }

  lemma PaddedDenotes(chunk: nat)
    requires chunk < CHUNK
    ensures |Padded(chunk)| == 9 && Denoted(Padded(chunk), 10) == Some(chunk)
  {
    var width: nat := 9;
    ExpNine(width);
    DecimalLength(chunk, width);
    DecimalDenotes(chunk);
    var missing := 9 - |Decimal(chunk)|;
    LeadingZeros(missing, Decimal(chunk));
    assert missing == 0 ==> Zeros(missing) + Decimal(chunk) == Decimal(chunk);
  }

  /** Zeros in front do not count. */
  lemma LeadingZeros(n: nat, text: string)
    requires Denoted(text, 10).Some?
    ensures Denoted(Zeros(n) + text, 10) == Denoted(text, 10)
  {
    ZerosDenote(n);
    DenotedAppend(Zeros(n), text);
    NoProduct(Exp(10, |text|));
  }

  lemma NoProduct(e: nat)
    ensures 0 * e == 0
  {
  }

  /** The number of little-endian chunks. */
  function Chunked(chunks: seq<u32>): nat {
    if chunks == [] then 0 else Chunked(chunks[..|chunks| - 1]) + chunks[|chunks| - 1] * Exp(CHUNK, |chunks| - 1)
  }

  lemma ChunkedPush(chunks: seq<u32>, x: u32)
    ensures Chunked(chunks + [x]) == Chunked(chunks) + x * Exp(CHUNK, |chunks|)
  {
    assert (chunks + [x])[..|chunks|] == chunks;
  }

  lemma ChunkStep(value: nat, quotient: nat, rem: u32, chunks: seq<u32>, total: nat)
    requires value > 0 && value == quotient * CHUNK + rem && value * Exp(CHUNK, |chunks|) + Chunked(chunks) == total
    ensures quotient * Exp(CHUNK, |chunks| + 1) + Chunked(chunks + [rem]) == total
    ensures quotient < value && (quotient == 0 ==> rem > 0)
  {
    PrintStep(value, quotient, rem, CHUNK, Exp(CHUNK, |chunks|), Chunked(chunks), total);
    Smaller(value, quotient, rem, CHUNK);
    ChunkedPush(chunks, rem);
  }

  /** The chunks of a positive number; the last is not zero. */
  method SplitChunks(b: Big) returns (chunks: seq<u32>)
    requires Valid(b) && V(b) > 0
    ensures chunks != [] && chunks[|chunks| - 1] > 0 && Chunked(chunks) == V(b)
    ensures forall i :: 0 <= i < |chunks| ==> chunks[i] < CHUNK
  {
    var value := b;
    chunks := [];
    while value.sign != 0
      invariant Valid(value) && V(value) >= 0
      invariant V(value) * Exp(CHUNK, |chunks|) + Chunked(chunks) == V(b)
      invariant V(value) == 0 ==> chunks != [] && chunks[|chunks| - 1] > 0
      invariant forall i :: 0 <= i < |chunks| ==> chunks[i] < CHUNK
      decreases V(value)
    {
      ValPositive(value);
      var quotient, rem := DivModSmallPositive(value, CHUNK);
      ChunkStep(V(value), V(quotient), rem, chunks, V(b));
      chunks := chunks + [rem];
      value := quotient;
    }
  }

  lemma JoinStep(text: nat, last: nat, e: nat, rest: nat)
    ensures (text * CHUNK + last) * e + rest == text * (e * CHUNK) + (rest + last * e)
  {
    assert text * CHUNK * e == text * (e * CHUNK);
  }

  /** The first chunk plain, every later one with nine digits. */
  method JoinChunks(all: seq<u32>) returns (text: string)
    requires all != [] && all[|all| - 1] > 0 && forall i :: 0 <= i < |all| ==> all[i] < CHUNK
    ensures text == Decimal(Chunked(all))
  {
    var chunks := all[..|all| - 1];
    text := Decimal(all[|all| - 1]);
    DecimalDenotes(all[|all| - 1]);
    while chunks != []
      invariant chunks <= all && text != "" && text[0] != '0'
      invariant Spells(text, chunks, Chunked(all))
      decreases |chunks|
    {
      var chunk := chunks[|chunks| - 1];
      assert chunk == all[|chunks| - 1];
      SpellsOneMore(text, chunks, Chunked(all));
      text := text + Padded(chunk);
      chunks := chunks[..|chunks| - 1];
    }
    SpellsAll(text, Chunked(all));
    DecimalUnique(text, Chunked(all));
  }

  /** The text, followed by the digits of the chunks that are left, denotes `total`. */
  predicate Spells(text: string, chunks: seq<u32>, total: nat) {
    Denoted(text, 10).Some? && Denoted(text, 10).value * Exp(CHUNK, |chunks|) + Chunked(chunks) == total
  }

  lemma SpellsOneMore(text: string, chunks: seq<u32>, total: nat)
    requires Spells(text, chunks, total) && chunks != [] && chunks[|chunks| - 1] < CHUNK
    ensures Spells(text + Padded(chunks[|chunks| - 1]), chunks[..|chunks| - 1], total)
  {
    var chunk, init := chunks[|chunks| - 1], chunks[..|chunks| - 1];
    PaddedDenotes(chunk);
    ExpNine(9);
    DenotedAppend(text, Padded(chunk));
    JoinStep(Denoted(text, 10).value, chunk, Exp(CHUNK, |init|), Chunked(init));
  }

  lemma SpellsAll(text: string, total: nat)
    requires Spells(text, [], total)
    ensures Denoted(text, 10) == Some(total)
  {
    assert Exp(CHUNK, 0) == 1;
  }

  /** The chunked printer and the digit-by-digit one agree: both give the decimal text. */
  method Display(b: Big) returns (r: string)
    requires Valid(b)
    ensures r == DecimalText(V(b))
  {
    ValPositive(b);
    if b.sign == 0 {
      return "0";
    }
    var magnitude := Abs(b);
    var chunks := SplitChunks(magnitude);
    r := JoinChunks(chunks);
    if b.sign < 0 {
      r := ['-'] + r;
    }
  }
}
