/** Text rewriting of formatted floats (`src/vm/wasm_c_float_format.rs`): zero
    stripping, the forced decimal point, signs, the pattern reader and the digit
    count of `g`. The digit text of the number itself is a parameter. */
module FloatText {
  import opened Common
  import opened Text

  // ------------------------------------------------------- decimal texts

  /** A text cut at its first exponent letter, and the part before it at its first point. */
  datatype Decimal = Decimal(head: string, frac: Option<string>, exp: string)

  predicate IsE(c: char) {
    c == 'e' || c == 'E'
  }

  function FindE(s: string): (i: nat)
    ensures i <= |s| && forall j :: 0 <= j < i ==> !IsE(s[j])
    ensures i < |s| ==> IsE(s[i])
  {
    if s == "" || IsE(s[0]) then 0 else 1 + FindE(s[1..])
  }

  lemma FindEIs(s: string, k: nat)
    requires k <= |s| && (k < |s| ==> IsE(s[k])) && forall j :: 0 <= j < k ==> !IsE(s[j])
    ensures FindE(s) == k
  {
  }

  function Split(text: string): Decimal {
    var pos := FindE(text);
    var mantissa := text[..pos];
    var dot := Find(mantissa, '.');
    if dot < |mantissa| then Decimal(mantissa[..dot], Some(mantissa[dot + 1..]), text[pos..])
    else Decimal(mantissa, None, text[pos..])
  }

  function Show(d: Decimal): string {
    Mantissa(d) + d.exp
  }

  function Mantissa(d: Decimal): string {
    match d.frac
    case None => d.head
    case Some(frac) => d.head + ['.'] + frac
  }

  /** What splitting always gives. */
  predicate Cut(d: Decimal) {
    && Free(d.head, '.') && NoE(d.head) && (d.frac.Some? ==> NoE(d.frac.value))
    && (d.exp != "" ==> IsE(d.exp[0]))
  }

  predicate NoE(s: string) {
    forall i :: 0 <= i < |s| ==> !IsE(s[i])
  }

  lemma ShowSplit(text: string)
    ensures Show(Split(text)) == text && Cut(Split(text))
  {
    var pos := FindE(text);
    var mantissa := text[..pos];
    var dot := Find(mantissa, '.');
    if dot < |mantissa| {
      SplitAt(mantissa, dot);
    }
    assert text == mantissa + text[pos..];
  }

  lemma MantissaNoE(d: Decimal)
    requires Cut(d)
    ensures NoE(Mantissa(d))
  {
  }

  lemma SplitShow(d: Decimal)
    requires Cut(d)
    ensures Split(Show(d)) == d
  {
    MantissaNoE(d);
    var text, m := Show(d), Mantissa(d);
    FindEIs(text, |m|);
    assert text[..|m|] == m && text[|m|..] == d.exp;
    if d.frac.Some? {
      FindAfter(d.head, '.', d.frac.value);
      assert m[..|d.head|] == d.head && m[|d.head| + 1..] == d.frac.value;
    }
  }

  // ------------------------------------------------------------- the value

  function Digit(c: char): nat {
    if AsciiDigit(c) then c as int - '0' as int else 0
  }

  function Whole(s: string): nat {
    if s == "" then 0 else 10 * Whole(s[..|s| - 1]) + Digit(s[|s| - 1])
  }

  function Fraction(s: string): real {
    if s == "" then 0.0 else (Digit(s[0]) as real + Fraction(s[1..])) / 10.0
  }

  /** `x` times ten to the `n`. */
  function Scaled(x: real, n: int): real
    decreases if n < 0 then -n else n
  {
    if n == 0 then x else if n > 0 then Scaled(x, n - 1) * 10.0 else Scaled(x, n + 1) / 10.0
  }

  /** The number after the exponent letter. */
  function Exponent(exp: string): int {
    if |exp| <= 1 then 0
    else if exp[1] == '-' then -(Whole(exp[2..]) as int)
    else if exp[1] == '+' then Whole(exp[2..])
    else Whole(exp[1..])
  }

  /** Digits, an optional fraction that may be empty, and an optional exponent. */
  predicate IsDecimal(text: string) {
    var d := Split(text);
    && d.head != "" && Numeral(d)
    && (d.exp == "" || IsExponent(d.exp))
  }

  predicate IsExponent(exp: string) {
    |exp| >= 2 && IsE(exp[0]) && (Digits(exp[1..]) || (|exp| >= 3 && exp[1] in {'+', '-'} && Digits(exp[2..])))
  }

  function MantissaValue(d: Decimal): real {
    Whole(d.head) as real + if d.frac.Some? then Fraction(d.frac.value) else 0.0
  }

  function ValueOf(d: Decimal): real {
    Scaled(MantissaValue(d), Exponent(d.exp))
  }

  function Value(text: string): real {
    ValueOf(Split(text))
  }

  lemma {:induction false} ScaledSum(x: real, y: real, n: nat)
    ensures Scaled(x + y, n) == Scaled(x, n) + Scaled(y, n)
  {
    if n > 0 {
      ScaledSum(x, y, n - 1);
    }
  }

  lemma {:induction false} ScaledTenth(x: real, n: nat)
    requires n > 0
    ensures Scaled(x / 10.0, n) == Scaled(x, n - 1)
  {
    if n > 1 {
      ScaledTenth(x, n - 1);
    }
  }

  /** Scaling down and up again by as many places changes nothing. */
  lemma {:induction false} ScaledBack(x: real, n: nat)
    ensures Scaled(Scaled(x, -(n as int)), n) == x
  {
    if n > 0 {
      ScaledTenth(Scaled(x, -(n - 1)), n);
      ScaledBack(x, n - 1);
    }
  }

  lemma {:induction false} WholeAppend(a: string, b: string)
    ensures Whole(a + b) as real == Scaled(Whole(a) as real, |b|) + Whole(b) as real
  {
    if b == "" {
      assert a + b == a;
    } else {
      assert (a + b)[..|a + b| - 1] == a + b[..|b| - 1];
      WholeAppend(a, b[..|b| - 1]);
    }
  }

  /** The digits behind the point are a whole number as many places down. */
  lemma {:induction false} FractionIs(s: string)
    ensures Scaled(Fraction(s), |s|) == Whole(s) as real
  {
    if s != "" {
      var d, rest := Digit(s[0]) as real, s[1..];
      FractionIs(rest);
      ScaledTenth(d + Fraction(rest), |s|);
      ScaledSum(d, Fraction(rest), |rest|);
      WholeAppend([s[0]], rest);
      assert [s[0]][..0] == "" && s == [s[0]] + rest;
    }
  }

  /** The exponent is the signed number behind the letter, none without one. */
  lemma ExponentIs(digits: string)
    requires Digits(digits) && digits != ""
    ensures Exponent("") == 0 && Exponent("e" + digits) == Exponent("e" + "+" + digits) == Whole(digits)
    ensures Exponent("e" + "-" + digits) == -(Whole(digits) as int)
  {
    assert ("e" + digits)[1..] == digits && ("e" + "+" + digits)[2..] == digits && ("e" + "-" + digits)[2..] == digits;
    assert digits[0] != '-' && digits[0] != '+';
  }

  /** A mantissa is the digits without the point, as many places down as there are behind it. */
  lemma MantissaIs(d: Decimal)
    requires d.frac.Some?
    ensures Scaled(MantissaValue(d), |d.frac.value|) == Whole(d.head + d.frac.value) as real
  {
    FractionIs(d.frac.value);
    ScaledSum(Whole(d.head) as real, Fraction(d.frac.value), |d.frac.value|);
    WholeAppend(d.head, d.frac.value);
  }

  /** An exponent is its letter, a sign or none, and digits. */
  lemma ExponentForm(exp: string)
    ensures IsExponent(exp)
       <==> exists sign, digits :: sign in {"", "+", "-"} && digits != "" && Digits(digits) && (exp == "e" + sign + digits || exp == "E" + sign + digits)
  {
    if IsExponent(exp) {
      if Digits(exp[1..]) {
        assert exp == [exp[0]] + "" + exp[1..];
      } else {
        assert exp == [exp[0]] + [exp[1]] + exp[2..];
      }
    }
    if sign, digits :| sign in {"", "+", "-"} && digits != "" && Digits(digits) && (exp == "e" + sign + digits || exp == "E" + sign + digits) {
      assert exp[1 + |sign|..] == digits;
    }
  }

  /** Digits with a fraction or none and an exponent or none are a decimal text. */
  lemma DecimalForm(head: string, frac: Option<string>, exp: string)
    requires head != "" && Digits(head) && (frac.Some? ==> Digits(frac.value)) && (exp == "" || IsExponent(exp))
    ensures IsDecimal(Show(Decimal(head, frac, exp)))
  {
    SplitShow(Decimal(head, frac, exp));
  }

  // ------------------------------------------------------- zero stripping

  function TrimZeros(s: string): (r: string)
    ensures r <= s && (r != "" ==> r[|r| - 1] != '0')
  {
    if s != "" && s[|s| - 1] == '0' then TrimZeros(s[..|s| - 1]) else s
  }

  function Stripped(d: Decimal): Decimal {
    match d.frac
    case None => d
    case Some(frac) => Decimal(d.head, if TrimZeros(frac) == "" then None else Some(TrimZeros(frac)), d.exp)
  }

  /** No fraction that is empty or ends in a zero. */
  predicate Tidy(d: Decimal) {
    d.frac.Some? ==> d.frac.value != "" && d.frac.value[|d.frac.value| - 1] != '0'
  }

  method StripTrailingFractionZeros(text: string) returns (r: string)
    ensures r == Show(Stripped(Split(text)))
  {
    var pos := FindE(text);
    var mantissa, suffix := text[..pos], text[pos..];
    var dot := Find(mantissa, '.');
    if dot == |mantissa| {
      ShowSplit(text);
      return text;
    }
    var head, tail := mantissa[..dot], mantissa[dot + 1..];
    ghost var whole := tail;
    while tail != "" && tail[|tail| - 1] == '0'
      invariant TrimZeros(tail) == TrimZeros(whole)
      decreases |tail|
    {
      tail := tail[..|tail| - 1];
    }
    if tail != "" {
      head := head + ['.'];
      head := head + tail;
    }
    return head + suffix;
  }

  lemma {:induction false} FractionZeros(s: string)
    ensures Fraction(TrimZeros(s)) == Fraction(s)
  {
    if s != "" && s[|s| - 1] == '0' {
      FractionZeros(s[..|s| - 1]);
      FractionOneZero(s[..|s| - 1]);
      assert s[..|s| - 1] + ['0'] == s;
    }
  }

  lemma {:induction false} FractionOneZero(s: string)
    ensures Fraction(s + ['0']) == Fraction(s)
  {
    if s == "" {
      assert (s + ['0'])[1..] == "";
    } else {
      assert (s + ['0'])[1..] == s[1..] + ['0'];
      FractionOneZero(s[1..]);
    }
  }

  lemma TrimTwice(s: string)
    ensures TrimZeros(TrimZeros(s)) == TrimZeros(s)
  {
  }

  lemma StrippedCut(d: Decimal)
    requires Cut(d)
    ensures Cut(Stripped(d)) && Tidy(Stripped(d)) && Stripped(Stripped(d)) == Stripped(d)
  {
    if d.frac.Some? {
      var t := TrimZeros(d.frac.value);
      TrimTwice(d.frac.value);
      assert forall i :: 0 <= i < |t| ==> t[i] == d.frac.value[i];
    }
  }

  lemma StrippedMantissa(d: Decimal)
    ensures MantissaValue(Stripped(d)) == MantissaValue(d)
  {
    if d.frac.Some? {
      FractionZeros(d.frac.value);
      assert Fraction("") == 0.0;
    }
  }

  lemma StrippedValue(d: Decimal)
    ensures ValueOf(Stripped(d)) == ValueOf(d)
  {
    StrippedMantissa(d);
    SameValue(Stripped(d), d);
  }

  lemma SameValue(a: Decimal, b: Decimal)
    requires MantissaValue(a) == MantissaValue(b) && a.exp == b.exp
    ensures ValueOf(a) == ValueOf(b)
  {
  }

  /** Stripping keeps the decimal form and the number it denotes, leaves no
      trailing fraction zero and no bare point, and does nothing the second time. */
  lemma StripPreserves(text: string, r: string)
    requires r == Show(Stripped(Split(text)))
    ensures Value(r) == Value(text)
    ensures Tidy(Split(r)) && Show(Stripped(Split(r))) == r
    ensures IsDecimal(text) ==> IsDecimal(r)
    ensures Split(r).head == Split(text).head && Split(r).exp == Split(text).exp
  {
    var d := Split(text);
    ShowSplit(text);
    StrippedCut(d);
    StrippedValue(d);
    SplitShow(Stripped(d));
    if d.frac.Some? {
      var t := TrimZeros(d.frac.value);
      assert forall i :: 0 <= i < |t| ==> t[i] == d.frac.value[i];
    }
  }

  // -------------------------------------------------- stripping is canonical

  lemma {:induction false} FractionRange(s: string)
    ensures 0.0 <= Fraction(s) < 1.0
  {
    if s != "" {
      FractionRange(s[1..]);
    }
  }

  lemma {:induction false} FractionPositive(s: string)
    requires Digits(s) && s != "" && s[|s| - 1] != '0'
    ensures Fraction(s) > 0.0
  {
    FractionRange(s[1..]);
    if |s| > 1 {
      FractionPositive(s[1..]);
    }
  }

  lemma SameDigit(a: nat, x: real, b: nat, y: real)
    requires 0.0 <= x < 1.0 && 0.0 <= y < 1.0 && (a as real + x) / 10.0 == (b as real + y) / 10.0
    ensures a == b && x == y
  {
  }

  /** A fraction without trailing zeros is determined by its value. */
  lemma {:induction false} FractionInjective(a: string, b: string)
    requires Digits(a) && Digits(b) && Fraction(a) == Fraction(b)
    requires a != "" ==> a[|a| - 1] != '0'
    requires b != "" ==> b[|b| - 1] != '0'
    ensures a == b
  {
    if a != "" {
      FractionPositive(a);
    }
    if b != "" {
      FractionPositive(b);
    }
    if a != "" && b != "" {
      FractionRange(a[1..]);
      FractionRange(b[1..]);
      SameDigit(Digit(a[0]), Fraction(a[1..]), Digit(b[0]), Fraction(b[1..]));
      FractionInjective(a[1..], b[1..]);
      assert a == [a[0]] + a[1..] && b == [b[0]] + b[1..];
    }
  }

  predicate Numeral(d: Decimal) {
    Digits(d.head) && (d.frac.Some? ==> Digits(d.frac.value))
  }

  lemma TidyUnique(x: Decimal, y: Decimal)
    requires Numeral(x) && Numeral(y) && Tidy(x) && Tidy(y)
    requires x.head == y.head && x.exp == y.exp && ValueOf(x) == ValueOf(y)
    ensures x == y
  {
    ScaleInjective(MantissaValue(x), MantissaValue(y), Exponent(x.exp));
    TidyFractions(x, y);
  }

  lemma TidyFractions(x: Decimal, y: Decimal)
    requires Numeral(x) && Numeral(y) && Tidy(x) && Tidy(y)
    requires x.head == y.head && MantissaValue(x) == MantissaValue(y)
    ensures x.frac == y.frac
  {
    var a, b := if x.frac.Some? then x.frac.value else "", if y.frac.Some? then y.frac.value else "";
    assert Fraction("") == 0.0;
    FractionInjective(a, b);
  }

  lemma {:induction false} ScaleInjective(x: real, y: real, n: int)
    requires Scaled(x, n) == Scaled(y, n)
    ensures x == y
    decreases if n < 0 then -n else n
  {
    if n > 0 {
      ScaleInjective(x, y, n - 1);
    } else if n < 0 {
      ScaleInjective(x, y, n + 1);
    }
  }

  /** Two decimals with the same integer digits and exponent are stripped to
      the same text exactly when they denote the same number. */
  lemma StripCanonical(a: string, b: string, p: string, q: string)
    requires IsDecimal(a) && IsDecimal(b)
    requires Split(a).head == Split(b).head && Split(a).exp == Split(b).exp
    requires p == Show(Stripped(Split(a))) && q == Show(Stripped(Split(b)))
    ensures p == q <==> Value(a) == Value(b)
  {
    StripPreserves(a, p);
    StripPreserves(b, q);
    if Value(a) == Value(b) {
      TidyUnique(Split(p), Split(q));
      ShowSplit(p);
      ShowSplit(q);
    }
  }

  // ------------------------------------------------- the forced point

  function Dotted(d: Decimal): Decimal {
    if d.frac.Some? then d else Decimal(d.head, Some(""), d.exp)
  }

  method EnsureAlternateDecimal(text: string) returns (r: string)
    ensures r == Show(Dotted(Split(text)))
  {
    ShowSplit(text);
    var pos := FindE(text);
    var mantissa := text[..pos];
    var dot := Find(mantissa, '.');
    if pos < |text| {
      if dot == |mantissa| {
        assert mantissa + ['.'] + "" == mantissa + ['.'];
        return text[..pos] + ['.'] + text[pos..];
      }
      return text;
    }
    assert mantissa == text && text[pos..] == "";
    if dot == |mantissa| {
      assert mantissa + ['.'] + "" + "" == text + ['.'];
      return text + ['.'];
    }
    return text;
  }

  /** Forcing the point keeps the decimal form and the number, changes nothing
      when the point is there, and is undone by stripping. */
  lemma AlternatePreserves(text: string, r: string)
    requires r == Show(Dotted(Split(text)))
    ensures Value(r) == Value(text) && (IsDecimal(text) ==> IsDecimal(r))
    ensures Split(r).frac.Some? && (Split(text).frac.Some? ==> r == text)
    ensures Stripped(Split(r)) == Stripped(Split(text))
    ensures Split(r).head == Split(text).head && Split(r).exp == Split(text).exp
  {
    var d := Split(text);
    ShowSplit(text);
    SplitShow(Dotted(d));
    assert Fraction("") == 0.0;
    SameValue(Dotted(d), d);
  }

  // ------------------------------------------------------ signs and case

  function UpperDecimal(d: Decimal): Decimal {
    Decimal(Upper(d.head), if d.frac.Some? then Some(Upper(d.frac.value)) else None, Upper(d.exp))
  }

  lemma UpperSplit(text: string)
    ensures Split(Upper(text)) == UpperDecimal(Split(text))
  {
    var pos := FindE(text);
    FindEIs(Upper(text), pos);
    var m := text[..pos];
    assert Upper(text)[..pos] == Upper(m) && Upper(text)[pos..] == Upper(text[pos..]);
    var dot := Find(m, '.');
    if dot < |m| {
      FindIs(Upper(m), '.', dot);
      assert Upper(m)[..dot] == Upper(m[..dot]) && Upper(m)[dot + 1..] == Upper(m[dot + 1..]);
    } else {
      assert Find(Upper(m), '.') == |m|;
    }
  }

  lemma {:induction false} UpperWhole(s: string)
    ensures Whole(Upper(s)) == Whole(s)
  {
    if s != "" {
      UpperWhole(s[..|s| - 1]);
      assert Upper(s)[..|s| - 1] == Upper(s[..|s| - 1]);
    }
  }

  lemma {:induction false} UpperFraction(s: string)
    ensures Fraction(Upper(s)) == Fraction(s)
  {
    if s != "" {
      UpperFraction(s[1..]);
      assert Upper(s)[1..] == Upper(s[1..]);
    }
  }

  lemma UpperExponent(s: string)
    ensures Exponent(Upper(s)) == Exponent(s)
  {
    if |s| > 1 {
      assert Upper(s)[1..] == Upper(s[1..]) && Upper(s)[2..] == Upper(s[2..]);
      UpperWhole(s[1..]);
      UpperWhole(s[2..]);
    }
  }

  lemma UpperMantissa(d: Decimal)
    ensures MantissaValue(UpperDecimal(d)) == MantissaValue(d)
  {
    UpperWhole(d.head);
    if d.frac.Some? {
      UpperFraction(d.frac.value);
    }
  }

  lemma UpperValue(d: Decimal)
    ensures ValueOf(UpperDecimal(d)) == ValueOf(d)
  {
    UpperMantissa(d);
    UpperExponent(d.exp);
  }

  /** Upper case keeps the number and the shape. */
  lemma UpperPreserves(text: string)
    ensures Value(Upper(text)) == Value(text)
    ensures Tidy(Split(text)) <==> Tidy(Split(Upper(text)))
    ensures Split(text).frac.Some? <==> Split(Upper(text)).frac.Some?
    ensures Split(Upper(text)).head == Upper(Split(text).head) && Split(Upper(text)).exp == Upper(Split(text).exp)
  {
    UpperSplit(text);
    UpperValue(Split(text));
  }

  lemma UpperDigits(s: string)
    requires Digits(s)
    ensures Upper(s) == s
  {
  }

  /** Digits stay digits, and an exponent stays one. */
  lemma UpperDecimalForm(text: string)
    requires IsDecimal(text)
    ensures IsDecimal(Upper(text))
  {
    var d := Split(text);
    UpperSplit(text);
    UpperDigits(d.head);
    if d.frac.Some? {
      UpperDigits(d.frac.value);
    }
    if d.exp != "" {
      UpperExponentForm(d.exp);
    }
  }

  lemma UpperExponentForm(exp: string)
    requires IsExponent(exp)
    ensures IsExponent(Upper(exp)) && Upper(exp)[0] == 'E'
  {
    assert Upper(exp)[1..] == Upper(exp[1..]) && Upper(exp)[2..] == Upper(exp[2..]);
    if Digits(exp[1..]) {
      UpperDigits(exp[1..]);
    } else {
      UpperDigits(exp[2..]);
    }
  }

  function SignedValue(text: string): real {
    if text != "" && text[0] == '-' then -Value(text[1..])
    else if text != "" && (text[0] == '+' || text[0] == ' ') then Value(text[1..])
    else Value(text)
  }

  /** `text` is `body` with a minus sign if negative, else with the flag if there is one. */
  predicate SignedAs(text: string, negative: bool, flag: Option<char>, body: string) {
    if negative then text != "" && text[0] == '-' && text[1..] == body
    else if flag == Some('+') || flag == Some(' ') then text != "" && text[0] == flag.value && text[1..] == body
    else text == body
  }

  /** Puts the sign in front; a body that starts with a digit can be told from
      its sign, so the result denotes the signed number. */
  method WithSignPrefix(negative: bool, flag: Option<char>, body: string) returns (r: string)
    ensures SignedAs(r, negative, flag,
                     if !negative && flag !in {Some('+'), Some(' ')} && body != "" && body[0] == '+' then body[1..] else body)
    ensures body != "" && AsciiDigit(body[0]) ==>
              SignedAs(r, negative, flag, body) && SignedValue(r) == if negative then -Value(body) else Value(body)
  {
    if negative {
      return ['-'] + body;
    }
    match flag {
      case Some('+') => return ['+'] + body;
      case Some(' ') => return [' '] + body;
      case _ => return if body != "" && body[0] == '+' then body[1..] else body;
    }
  }

  // ----------------------------------------------------------- the pattern

  datatype Pattern = Pattern(sign: Option<char>, alternate: bool, precision: Option<nat>, conversion: char)

  predicate IsConversion(c: char) {
    c == 'e' || c == 'E' || c == 'f' || c == 'F' || c == 'g' || c == 'G'
  }

  predicate IsSign(sign: Option<char>) {
    sign == None || sign == Some('+') || sign == Some(' ')
  }

  function TakeSign(s: string): (Option<char>, string) {
    if s != "" && (s[0] == '+' || s[0] == ' ') then (Some(s[0]), s[1..]) else (None, s)
  }

  function TakeHash(s: string): (bool, string) {
    if s != "" && s[0] == '#' then (true, s[1..]) else (false, s)
  }

  /** The precision behind a point: digits that fit in a `usize`. */
  function TakePrecision(s: string, maxUsize: nat): Option<(Option<nat>, string)> {
    if s == "" || s[0] != '.' then Some((None, s))
    else
      var n := DigitRun(s[1..]);
      var p := Whole(s[1..][..n]);
      if n == 0 || p > maxUsize then None else Some((Some(p), s[1..][n..]))
  }

  function ParsePattern(pattern: string, maxUsize: nat): Option<Pattern> {
    if pattern == "" || pattern[0] != '%' then None
    else
      var (sign, s) := TakeSign(pattern[1..]);
      var (alternate, t) := TakeHash(s);
      match TakePrecision(t, maxUsize)
      case None => None
      case Some((precision, u)) =>
        if |u| == 1 && IsConversion(u[0]) then Some(Pattern(sign, alternate, precision, u[0])) else None
  }

  /** The text of a pattern whose precision is written `digits`. */
  function Written(sign: Option<char>, alternate: bool, digits: Option<string>, conversion: char): string {
    ['%'] + Behind(sign, alternate, digits, conversion)
  }

  function Behind(sign: Option<char>, alternate: bool, digits: Option<string>, conversion: char): string {
    (if sign.Some? then [sign.value] else "") + BehindSign(alternate, digits, conversion)
  }

  function BehindSign(alternate: bool, digits: Option<string>, conversion: char): string {
    (if alternate then ['#'] else "") + BehindHash(digits, conversion)
  }

  function BehindHash(digits: Option<string>, conversion: char): string {
    (if digits.Some? then ['.'] + digits.value else "") + [conversion]
  }

  /** `digits` is a way to write the precision of `p`. */
  predicate Writes(digits: Option<string>, p: Pattern, maxUsize: nat) {
    && IsSign(p.sign) && IsConversion(p.conversion)
    && (p.precision.None? <==> digits.None?)
    && (digits.Some? ==> digits.value != "" && Digits(digits.value) && Whole(digits.value) == p.precision.value <= maxUsize)
  }

  lemma DigitRunIs(s: string, c: char)
    requires Digits(s) && !AsciiDigit(c)
    ensures DigitRun(s + [c]) == |s|
  {
    assert (s + [c])[|s|] == c;
  }

  lemma TakePrecisionInverts(digits: Option<string>, p: Pattern, maxUsize: nat)
    requires Writes(digits, p, maxUsize)
    ensures TakePrecision(BehindHash(digits, p.conversion), maxUsize) == Some((p.precision, [p.conversion]))
  {
    var s := BehindHash(digits, p.conversion);
    if digits.Some? {
      assert s[1..] == digits.value + [p.conversion];
      DigitRunIs(digits.value, p.conversion);
      assert s[1..][..|digits.value|] == digits.value && s[1..][|digits.value|..] == [p.conversion];
    } else {
      assert s == [p.conversion];
    }
  }

  lemma TakeHashInverts(alternate: bool, digits: Option<string>, c: char)
    requires IsConversion(c)
    ensures TakeHash(BehindSign(alternate, digits, c)) == (alternate, BehindHash(digits, c))
  {
    var s, t := BehindSign(alternate, digits, c), BehindHash(digits, c);
    assert alternate ==> s[1..] == t;
    assert !alternate ==> s == t;
    assert t[0] == if digits.Some? then '.' else c;
  }

  lemma TakeSignInverts(sign: Option<char>, alternate: bool, digits: Option<string>, c: char)
    requires IsSign(sign) && IsConversion(c)
    ensures TakeSign(Behind(sign, alternate, digits, c)) == (sign, BehindSign(alternate, digits, c))
  {
    var s, t := Behind(sign, alternate, digits, c), BehindSign(alternate, digits, c);
    assert sign.Some? ==> s[1..] == t;
    assert sign.None? ==> s == t;
    assert t[0] == if alternate then '#' else if digits.Some? then '.' else c;
  }

  /** Every pattern survives writing and reading, however its precision is written. */
  lemma PatternRoundTrip(digits: Option<string>, p: Pattern, maxUsize: nat)
    requires Writes(digits, p, maxUsize)
    ensures ParsePattern(Written(p.sign, p.alternate, digits, p.conversion), maxUsize) == Some(p)
  {
    var text := Written(p.sign, p.alternate, digits, p.conversion);
    assert text[1..] == Behind(p.sign, p.alternate, digits, p.conversion);
    TakeSignInverts(p.sign, p.alternate, digits, p.conversion);
    TakeHashInverts(p.alternate, digits, p.conversion);
    TakePrecisionInverts(digits, p, maxUsize);
  }

  /** The usual decimal text of a number. */
  function ShowNat(n: nat): (s: string)
    ensures s != "" && Digits(s)
  {
    if n < 10 then ['0' + n as char] else ShowNat(n / 10) + ['0' + (n % 10) as char]
  }

  lemma {:induction false} WholeOfShown(n: nat)
    ensures Whole(ShowNat(n)) == n
  {
    var s := ShowNat(n);
    if n < 10 {
      assert s[..|s| - 1] == "";
    } else {
      WholeOfShown(n / 10);
      assert s[..|s| - 1] == ShowNat(n / 10);
    }
  }

  /** Every tuple that can be asked for survives printing and reading. */
  lemma TupleRoundTrip(p: Pattern, maxUsize: nat)
    requires IsSign(p.sign) && IsConversion(p.conversion) && (p.precision.Some? ==> p.precision.value <= maxUsize)
    ensures ParsePattern(Written(p.sign, p.alternate, if p.precision.Some? then Some(ShowNat(p.precision.value)) else None,
                                 p.conversion), maxUsize) == Some(p)
  {
    if p.precision.Some? {
      WholeOfShown(p.precision.value);
      PatternRoundTrip(Some(ShowNat(p.precision.value)), p, maxUsize);
    } else {
      PatternRoundTrip(None, p, maxUsize);
    }
  }

  lemma TakePrecisionText(s: string, maxUsize: nat, precision: Option<nat>, rest: string) returns (digits: Option<string>)
    requires TakePrecision(s, maxUsize) == Some((precision, rest))
    ensures precision.None? <==> digits.None?
    ensures digits.Some? ==> digits.value != "" && Digits(digits.value) && Whole(digits.value) == precision.value <= maxUsize
    ensures s == (if digits.Some? then ['.'] + digits.value else "") + rest
  {
    if s == "" || s[0] != '.' {
      digits := None;
    } else {
      var n := DigitRun(s[1..]);
      digits := Some(s[1..][..n]);
      assert s == ['.'] + s[1..] && s[1..] == s[1..][..n] + s[1..][n..];
    }
  }

  /** A text is read as a pattern only if it is written that way, so reading
      succeeds exactly on the written patterns. */
  lemma ParsedIsWritten(text: string, maxUsize: nat, p: Pattern) returns (digits: Option<string>)
    requires ParsePattern(text, maxUsize) == Some(p)
    ensures Writes(digits, p, maxUsize) && text == Written(p.sign, p.alternate, digits, p.conversion)
  {
    var (sign, s) := TakeSign(text[1..]);
    var (alternate, t) := TakeHash(s);
    var (precision, u) := TakePrecision(t, maxUsize).value;
    digits := TakePrecisionText(t, maxUsize, precision, u);
    assert u == [p.conversion];
    assert s == BehindSign(alternate, digits, p.conversion);
    assert text[1..] == Behind(sign, alternate, digits, p.conversion);
    assert text == ['%'] + text[1..];
  }

  /** Reads an optional precision at `at`, moving the cursor behind it. */
  method ReadPrecision(pattern: string, at: nat, maxUsize: nat) returns (ok: bool, precision: Option<nat>, idx: nat)
    requires at <= |pattern|
    ensures idx <= |pattern|
    ensures TakePrecision(pattern[at..], maxUsize) == if ok then Some((precision, pattern[idx..])) else None
  {
    idx := at;
    if idx == |pattern| || pattern[idx] != '.' {
      return true, None, idx;
    }
    idx := idx + 1;
    var start := idx;
    while idx < |pattern| && AsciiDigit(pattern[idx])
      invariant start <= idx <= |pattern| && forall k :: start <= k < idx ==> AsciiDigit(pattern[k])
    {
      idx := idx + 1;
    }
    PrecisionText(pattern, at, start, idx);
    var text := pattern[start..idx];
    if start == idx || Whole(text) > maxUsize {
      return false, None, idx;
    }
    return true, Some(Whole(text)), idx;
  }

  lemma PrecisionText(pattern: string, at: nat, start: nat, idx: nat)
    requires at + 1 == start <= idx <= |pattern| && (forall k :: start <= k < idx ==> AsciiDigit(pattern[k]))
    requires idx < |pattern| ==> !AsciiDigit(pattern[idx])
    ensures pattern[at..][1..] == pattern[start..] && DigitRun(pattern[start..]) == idx - start
    ensures pattern[start..][..idx - start] == pattern[start..idx] && pattern[start..][idx - start..] == pattern[idx..]
  {
    RunEnds(pattern, start, idx);
  }

  method ParseCFloatPattern(pattern: string, maxUsize: nat) returns (r: Option<Pattern>)
    ensures r == ParsePattern(pattern, maxUsize)
  {
    if pattern == "" || pattern[0] != '%' || |pattern| < 2 {
      return None;
    }
    var idx := 1;
    var sign, alternate := None, false;
    if pattern[idx] == '+' || pattern[idx] == ' ' {
      sign := Some(pattern[idx]);
      idx := idx + 1;
    }
    ghost var s := pattern[idx..];
    assert TakeSign(pattern[1..]) == (sign, s);
    if idx < |pattern| && pattern[idx] == '#' {
      alternate := true;
      idx := idx + 1;
    }
    assert TakeHash(s) == (alternate, pattern[idx..]);
    var ok, precision, next := ReadPrecision(pattern, idx, maxUsize);
    if !ok || next + 1 != |pattern| || !IsConversion(pattern[next]) {
      return None;
    }
    return Some(Pattern(sign, alternate, precision, pattern[next]));
  }

  lemma RunEnds(s: string, start: nat, end: nat)
    requires start <= end <= |s| && (forall k :: start <= k < end ==> AsciiDigit(s[k])) && (end < |s| ==> !AsciiDigit(s[end]))
    ensures DigitRun(s[start..]) == end - start
  {
    var t := s[start..];
    assert forall k :: 0 <= k < |t| ==> t[k] == s[start + k];
  }

  // --------------------------------------------------- the digits of g

  /** `p as i32`. */
  function AsI32(p: nat): int {
    var w := p % 0x1_0000_0000;
    if w < 0x8000_0000 then w else w - 0x1_0000_0000
  }

  /** The 32-bit number that is the same modulo two to the 32. */
  lemma AsI32Is(p: nat)
    ensures -0x8000_0000 <= AsI32(p) <= 0x7FFF_FFFF && (p - AsI32(p)) % 0x1_0000_0000 == 0
  {
  }

  /** How a number is written: with a count of digits behind the point. */
  datatype Style = Scientific(digits: nat) | Fixed(digits: nat)

  /** The style the code chooses for `g` from its own exponent, the floor of
      the logarithm; nothing when `p + -exponent` overflows. */
  function GStyle(p: nat, log: int, maxUsize: nat): Option<Style>
    requires p > 0
  {
    if log < -4 || log >= AsI32(p) then Some(Scientific(p - 1))
    else if log >= 0 then Some(Fixed(if p < log + 1 then 0 else p - (log + 1)))
    else if p + -log > maxUsize then None
    else Some(Fixed(p + -log - 1))
  }

  /** The style of section 7.21.6.1 of C11, from the exponent X of the number
      rounded to P digits. */
  function CStyle(p: nat, x: int): Style
    requires p > 0
  {
    if -4 <= x < p then Fixed(p - 1 - x) else Scientific(p - 1)
  }

  /** Where C is scientific, the code's exponent is too small or not below the
      wrapped precision; where C is fixed, both exponents are the same and below
      the wrapped precision, and counting the digits does not overflow. */
  predicate FollowsC(p: nat, log: int, x: int, maxUsize: nat) {
    if -4 <= x < p then log == x && x < AsI32(p) && (x < 0 ==> p + -x <= maxUsize)
    else log < -4 || log >= AsI32(p)
  }

  lemma GStyleExact(p: nat, log: int, x: int, maxUsize: nat)
    requires p > 0
    ensures GStyle(p, log, maxUsize) == Some(CStyle(p, x)) <==> FollowsC(p, log, x, maxUsize)
  {
  }

  /** When rounding does not change the exponent, the code follows C unless the
      precision wraps around to the exponent or below, or is so large that
      counting the digits overflows. */
  lemma GStyleUnrounded(p: nat, x: int, maxUsize: nat)
    requires p > 0
    ensures GStyle(p, x, maxUsize) == Some(CStyle(p, x))
       <==> x < -4 || x >= p || (x < AsI32(p) && (x < 0 ==> p + -x <= maxUsize))
    ensures p < 0x8000_0000 && p + 4 <= maxUsize ==> GStyle(p, x, maxUsize) == Some(CStyle(p, x))
  {
    if x >= p {
      assert AsI32(p) <= p;
    }
  }

  /** On the fixed branch both formulas give P - 1 - X digits, with no saturation. */
  lemma GDigitCount(p: nat, x: int, maxUsize: nat)
    requires p > 0 && -4 <= x < AsI32(p) && (x < 0 ==> p + -x <= maxUsize)
    ensures GStyle(p, x, maxUsize) == Some(Fixed(p - 1 - x))
  {
    assert AsI32(p) <= p;
  }

  /** When rounding carries into the exponent, the code follows C only outside
      the fixed range and its upper border. */
  lemma GStyleCarried(p: nat, x: int, maxUsize: nat)
    requires 0 < p < 0x8000_0000
    ensures GStyle(p, x - 1, maxUsize) == Some(CStyle(p, x)) <==> x < -4 || x > p
  {
  }

  // ------------------------------------------------------ the whole format

  /** The digit text of a finite number without its sign: fixed and scientific
      with a given count of fraction digits, and the floor of its logarithm
      (zero for zero). */
  datatype Number = Number(negative: bool, fixed: nat -> string, scientific: nat -> string, log: int)

  /** Decimal texts, with a small exponent letter. */
  ghost predicate IsNumber(n: Number) {
    && (forall k :: IsDecimal(n.fixed(k)) && LowerExponent(n.fixed(k)))
    && (forall k :: IsDecimal(n.scientific(k)) && LowerExponent(n.scientific(k)))
  }

  predicate LowerExponent(text: string) {
    Split(text).exp != "" ==> Split(text).exp[0] == 'e'
  }

  function TextOf(n: Number, style: Style): string {
    match style
    case Scientific(k) => n.scientific(k)
    case Fixed(k) => n.fixed(k)
  }

  /** C's exponent X: that of the number in style e with P significant digits. */
  function RoundedExponent(n: Number, p: nat): int
    requires p > 0
  {
    Exponent(Split(n.scientific(p - 1)).exp)
  }

  function Given(p: Pattern): nat {
    if p.precision.Some? then p.precision.value else 6
  }

  function Significant(p: Pattern): (r: nat)
    ensures r > 0
  {
    if Given(p) == 0 then 1 else Given(p)
  }

  /** A missing precision counts as six, and for `g` zero counts as one. */
  lemma PrecisionRules(n: Number, p: Pattern, maxUsize: nat)
    requires IsConversion(p.conversion)
    ensures var q := p.(precision := Some(6));
            p.precision.None? ==> ChosenStyle(n, p, maxUsize) == ChosenStyle(n, q, maxUsize) && AskedStyle(n, p) == AskedStyle(n, q)
    ensures var q := p.(precision := Some(1));
            p.precision == Some(0) && p.conversion in "gG" ==>
              ChosenStyle(n, p, maxUsize) == ChosenStyle(n, q, maxUsize) && AskedStyle(n, p) == AskedStyle(n, q)
    ensures p.precision.Some? && p.conversion in "eE" ==> AskedStyle(n, p) == Scientific(p.precision.value)
    ensures p.precision.Some? && p.conversion in "fF" ==> AskedStyle(n, p) == Fixed(p.precision.value)
    ensures p.precision.Some? && p.precision.value > 0 && p.conversion in "gG" ==>
              AskedStyle(n, p) == CStyle(p.precision.value, RoundedExponent(n, p.precision.value))
  {
  }

  /** The conversions are e, f and g in either case, and those in capitals ask for upper case. */
  lemma Conversions(c: char)
    ensures IsConversion(c) <==> SameLetter(c, 'e') || SameLetter(c, 'f') || SameLetter(c, 'g')
    ensures IsConversion(c) ==> (IsUpper(c) <==> c in CAPITAL)
  {
    SmallLetter(c);
    UpperCharSame(c, 'e');
    UpperCharSame(c, 'f');
    UpperCharSame(c, 'g');
  }

  /** The style the code chooses. */
  function ChosenStyle(n: Number, p: Pattern, maxUsize: nat): Option<Style> {
    if p.conversion == 'f' || p.conversion == 'F' then Some(Fixed(Given(p)))
    else if p.conversion == 'e' || p.conversion == 'E' then Some(Scientific(Given(p)))
    else GStyle(Significant(p), n.log, maxUsize)
  }

  /** The style C asks for. */
  function AskedStyle(n: Number, p: Pattern): Style {
    if p.conversion == 'f' || p.conversion == 'F' then Fixed(Given(p))
    else if p.conversion == 'e' || p.conversion == 'E' then Scientific(Given(p))
    else CStyle(Significant(p), RoundedExponent(n, Significant(p)))
  }

  /** 999999.5 under `%g`: its logarithm is 5 and in six digits it is 1.00000e6,
      so the code writes a fixed number where C writes a scientific one. */
  lemma RoundingBeatsTheLogarithm(n: Number, maxUsize: nat)
    requires n.log == 5 && n.scientific(5) == "1.00000e6"
    ensures var p := Pattern(None, false, None, 'g');
            ChosenStyle(n, p, maxUsize) == Some(Fixed(0)) && AskedStyle(n, p) == Scientific(5)
  {
    SplitAtE("1.00000", ['e', '6']);
    ExponentDigit('6');
    assert "1.00000" + ['e', '6'] == "1.00000e6";
    assert RoundedExponent(n, 6) == 6;
  }

  lemma SplitAtE(mantissa: string, exp: string)
    requires exp != "" && IsE(exp[0]) && forall j :: 0 <= j < |mantissa| ==> !IsE(mantissa[j])
    ensures Split(mantissa + exp).exp == exp
  {
    FindEIs(mantissa + exp, |mantissa|);
  }

  lemma ExponentDigit(c: char)
    requires AsciiDigit(c)
    ensures Exponent(['e', c]) == Digit(c)
  {
    var exp := ['e', c];
    assert exp[1..] == [c] && [c][..0] == "";
    assert Whole([c]) == Digit(c);
  }

  function Signed(n: Number, text: string): real {
    if n.negative then -Value(text) else Value(text)
  }

  /** Strips or dots a digit text, which keeps its number. */
  method Body(text: string, alternate: bool) returns (r: string)
    ensures Value(r) == Value(text) && (IsDecimal(text) ==> IsDecimal(r))
    ensures if alternate then Split(r).frac.Some? else Tidy(Split(r))
    ensures Split(r).head == Split(text).head && Split(r).exp == Split(text).exp
  {
    if alternate {
      r := EnsureAlternateDecimal(text);
      AlternatePreserves(text, r);
    } else {
      r := StripTrailingFractionZeros(text);
      StripPreserves(text, r);
    }
  }

  lemma FirstDigit(text: string)
    requires IsDecimal(text)
    ensures text != "" && AsciiDigit(text[0])
  {
    ShowSplit(text);
    var d := Split(text);
    assert text[0] == d.head[0];
  }

  predicate IsUpper(conversion: char) {
    conversion == 'E' || conversion == 'F' || conversion == 'G'
  }

  /** A decimal with a point if the alternate form is asked for, without trailing
      fraction zeros if not, and with the letter of the conversion's case. */
  predicate BodyShaped(body: string, p: Pattern) {
    && IsDecimal(body)
    && (if p.alternate then Split(body).frac.Some? else Tidy(Split(body)))
    && (Split(body).exp != "" ==> Split(body).exp[0] == if IsUpper(p.conversion) then 'E' else 'e')
  }

  /** The integer digits and the exponent are those of `text`, in the conversion's case. */
  predicate Keeps(body: string, text: string, p: Pattern) {
    && Split(body).head == Split(text).head
    && Split(body).exp == if IsUpper(p.conversion) then Upper(Split(text).exp) else Split(text).exp
  }

  function Unsigned(text: string, negative: bool, flag: Option<char>): string {
    if text != "" && (negative || flag == Some('+') || flag == Some(' ')) then text[1..] else text
  }

  /** The sign the number and the flag ask for, and a body of the right shape. */
  predicate Shaped(text: string, negative: bool, p: Pattern) {
    var body := Unsigned(text, negative, p.sign);
    SignedAs(text, negative, p.sign, body) && BodyShaped(body, p)
  }

  datatype Failure = BadPattern | Overflow

  /** A text is refused exactly when it is no pattern, and fails exactly when the
      count of digits overflows; otherwise the result is a sign and a body of the
      shape the pattern asks for, with the integer digits and the exponent of the
      number in the chosen style, which it denotes; this style is that of C under
      the condition of the `g` rule. */
  method FormatFloatWithCPattern(pattern: string, n: Number, maxUsize: nat) returns (r: Result<string, Failure>)
    requires IsNumber(n)
    ensures r == Err(BadPattern) <==> ParsePattern(pattern, maxUsize).None?
    ensures ParsePattern(pattern, maxUsize).Some? ==>
              var p := ParsePattern(pattern, maxUsize).value;
              var style := ChosenStyle(n, p, maxUsize);
              if style.None? then r == Err(Overflow)
              else
                && r.Ok? && Shaped(r.value, n.negative, p)
                && Keeps(Unsigned(r.value, n.negative, p.sign), TextOf(n, style.value), p)
                && SignedValue(r.value) == Signed(n, TextOf(n, style.value))
  {
    var parsed := ParseCFloatPattern(pattern, maxUsize);
    if parsed == None {
      return Err(BadPattern);
    }
    var p := parsed.value;
    var style := ChooseStyle(n, p, maxUsize);
    if style == None {
      return Err(Overflow);
    }
    var body := ShapedBody(n, style.value, p);
    FirstDigit(body);
    var signed := WithSignPrefix(n.negative, p.sign, body);
    r := Ok(signed);
  }

  method ShapedBody(n: Number, style: Style, p: Pattern) returns (body: string)
    requires IsNumber(n)
    ensures BodyShaped(body, p) && Keeps(body, TextOf(n, style), p) && Value(body) == Value(TextOf(n, style))
  {
    var text := TextOf(n, style);
    assert IsDecimal(text) && LowerExponent(text);
    body := Body(text, p.alternate);
    if IsUpper(p.conversion) {
      UpperPreserves(body);
      UpperDecimalForm(body);
      UpperDigits(Split(body).head);
      body := Upper(body);
    }
  }

  method ChooseStyle(n: Number, p: Pattern, maxUsize: nat) returns (style: Option<Style>)
    ensures style == ChosenStyle(n, p, maxUsize)
  {
    var given := if p.precision.Some? then p.precision.value else 6;
    if p.conversion == 'f' || p.conversion == 'F' {
      return Some(Fixed(given));
    }
    if p.conversion == 'e' || p.conversion == 'E' {
      return Some(Scientific(given));
    }
    var count := if given > 1 then given else 1;
    if n.log < -4 || n.log >= AsI32(count) {
      return Some(Scientific(count - 1));
    }
    if n.log >= 0 {
      return Some(Fixed(if count > n.log + 1 then count - (n.log + 1) else 0));
    }
    if count + -n.log > maxUsize {
      return None;
    }
    return Some(Fixed(count + -n.log - 1));
  }

  /** The result denotes what C asks for whenever the two styles are the same:
      always for `f` and `e`, and for `g` under the condition of `GStyleExact`. */
  lemma ChosenIsAsked(n: Number, p: Pattern, maxUsize: nat)
    requires IsConversion(p.conversion)
    ensures ChosenStyle(n, p, maxUsize) == Some(AskedStyle(n, p))
       <==> p.conversion in {'e', 'E', 'f', 'F'}
            || FollowsC(Significant(p), n.log, RoundedExponent(n, Significant(p)), maxUsize)
  {
    GStyleExact(Significant(p), n.log, RoundedExponent(n, Significant(p)), maxUsize);
  }
}
