/** String helpers: stripping with Python's meaning, searching and blanks with Rust's. */
module Text {
  predicate StartsWith(s: string, prefix: string) {
    prefix <= s
  }

  predicate EndsWith(s: string, suffix: string) {
    |suffix| <= |s| && s[|s| - |suffix|..] == suffix
  }

  lemma StartsWithIs(s: string, prefix: string)
    ensures StartsWith(s, prefix) <==> exists rest :: s == prefix + rest
  {
    if StartsWith(s, prefix) {
      assert s == prefix + s[|prefix|..];
    }
  }

  lemma EndsWithIs(s: string, suffix: string)
    ensures EndsWith(s, suffix) <==> exists front :: s == front + suffix
  {
    if EndsWith(s, suffix) {
      assert s == s[..|s| - |suffix|] + suffix;
    }
    if front :| s == front + suffix {
      assert s[|s| - |suffix|..] == suffix;
    }
  }

  /** `str.isspace` for one character. */
  predicate PySpace(c: char) {
    var n := c as int;
    || 0x09 <= n <= 0x0D || 0x1C <= n <= 0x20 || n == 0x85 || n == 0xA0 || n == 0x1680
    || 0x2000 <= n <= 0x200A || n == 0x2028 || n == 0x2029 || n == 0x202F || n == 0x205F || n == 0x3000
  }

  predicate Blank(s: string) {
    forall i :: 0 <= i < |s| ==> PySpace(s[i])
  }

  function LStrip(s: string): (r: string)
    ensures |r| <= |s|
    ensures r != "" ==> !PySpace(r[0])
  {
    if s != "" && PySpace(s[0]) then LStrip(s[1..]) else s
  }

  function RStrip(s: string): (r: string)
    ensures |r| <= |s|
    ensures r <= s
    ensures r != "" ==> !PySpace(r[|r| - 1])
  {
    if s != "" && PySpace(s[|s| - 1]) then RStrip(s[..|s| - 1]) else s
  }

  function Strip(s: string): (r: string)
    ensures |r| <= |s|
    ensures Trimmed(r)
  {
    RStrip(LStrip(s))
  }

  /** No blank at either end. */
  predicate Trimmed(s: string) {
    s != "" ==> !PySpace(s[0]) && !PySpace(s[|s| - 1])
  }

  lemma {:induction false} LStripBlank(a: string, s: string)
    requires Blank(a) && Trimmed(s)
    ensures LStrip(a + s) == s
  {
    if a == "" {
      assert a + s == s;
    } else {
      assert (a + s)[1..] == a[1..] + s;
      LStripBlank(a[1..], s);
    }
  }

  lemma {:induction false} RStripBlank(s: string, b: string)
    requires Blank(b) && Trimmed(s)
    ensures RStrip(s + b) == s
  {
    if b == "" {
      assert s + b == s;
    } else {
      var n := |b| - 1;
      assert (s + b)[..|s| + n] == s + b[..n];
      RStripBlank(s, b[..n]);
    }
  }

  lemma {:induction false} LStripPadded(a: string, s: string, b: string)
    requires Blank(a) && s != "" && Trimmed(s)
    ensures LStrip(a + s + b) == s + b
  {
    if a == "" {
      assert a + s + b == s + b;
    } else {
      assert (a + s + b)[1..] == a[1..] + s + b;
      LStripPadded(a[1..], s, b);
    }
  }

  /** Stripping removes exactly the padding. */
  lemma StripPadded(a: string, s: string, b: string)
    requires Blank(a) && Blank(b) && s != "" && Trimmed(s)
    ensures Strip(a + s + b) == s
  {
    LStripPadded(a, s, b);
    RStripBlank(s, b);
  }

  lemma StripTrimmed(s: string)
    requires Trimmed(s)
    ensures Strip(s) == s
  {
    LStripBlank("", s);
    RStripBlank(s, "");
    assert "" + s == s && s + "" == s;
  }

  // --------------------------------------------------- Rust's meaning

  /** `char::is_whitespace`. */
  predicate RustSpace(c: char) {
    var n := c as int;
    || 0x09 <= n <= 0x0D || n == 0x20 || n == 0x85 || n == 0xA0 || n == 0x1680
    || 0x2000 <= n <= 0x200A || n == 0x2028 || n == 0x2029 || n == 0x202F || n == 0x205F || n == 0x3000
  }

  /** The code points that are white space in Unicode. */
  const WHITE_SPACE: set<int> := {
    0x09, 0x0A, 0x0B, 0x0C, 0x0D, 0x20, 0x85, 0xA0, 0x1680,
    0x2000, 0x2001, 0x2002, 0x2003, 0x2004, 0x2005, 0x2006, 0x2007, 0x2008, 0x2009, 0x200A,
    0x2028, 0x2029, 0x202F, 0x205F, 0x3000
  }

  /** Python has the four information separators besides. */
  lemma BlanksAre(c: char)
    ensures RustSpace(c) <==> c as int in WHITE_SPACE
    ensures PySpace(c) <==> c as int in WHITE_SPACE + {0x1C, 0x1D, 0x1E, 0x1F}
  {
  }

  /** Where `c` first occurs in `s`, or the length. */
  function Find(s: string, c: char): (i: nat)
    ensures i <= |s| && forall j :: 0 <= j < i ==> s[j] != c
    ensures i < |s| ==> s[i] == c
  {
    if s == "" || s[0] == c then 0 else 1 + Find(s[1..], c)
  }

  lemma FindIs(s: string, c: char, k: nat)
    requires k < |s| && s[k] == c && forall j :: 0 <= j < k ==> s[j] != c
    ensures Find(s, c) == k
  {
  }

  predicate Free(s: string, c: char) {
    forall j :: 0 <= j < |s| ==> s[j] != c
  }

  lemma FindAfter(a: string, c: char, b: string)
    requires Free(a, c)
    ensures Find(a + [c] + b, c) == |a|
  {
    FindIs(a + [c] + b, c, |a|);
  }

  lemma SplitAt(s: string, i: nat)
    requires i < |s|
    ensures s == s[..i] + [s[i]] + s[i + 1..]
  {
  }

  predicate AsciiDigit(c: char) {
    '0' <= c <= '9'
  }

  /** How many digits `s` starts with. */
  function DigitRun(s: string): (n: nat)
    ensures n <= |s| && forall i :: 0 <= i < n ==> AsciiDigit(s[i])
    ensures n < |s| ==> !AsciiDigit(s[n])
  {
    if s != "" && AsciiDigit(s[0]) then 1 + DigitRun(s[1..]) else 0
  }

  predicate Digits(s: string) {
    forall i :: 0 <= i < |s| ==> AsciiDigit(s[i])
  }

  function UpperChar(c: char): char {
    if 'a' <= c <= 'z' then c - 32 as char else c
  }

  /** `str::to_ascii_uppercase`. */
  function Upper(s: string): (r: string)
    ensures |r| == |s| && forall i :: 0 <= i < |s| ==> r[i] == UpperChar(s[i])
  {
    seq(|s|, i requires 0 <= i < |s| => UpperChar(s[i]))
  }

  function LowerChar(c: char): char {
    if 'A' <= c <= 'Z' then c + 32 as char else c
  }

  // ---------------------------------------------------- letters in two cases

  const DIGITS := "0123456789"
  const SMALL := "abcdefghijklmnopqrstuvwxyz"
  const CAPITAL := "ABCDEFGHIJKLMNOPQRSTUVWXYZ"

  /** The same character, or the same letter of the alphabet in two cases. */
  ghost predicate SameLetter(a: char, b: char) {
    a == b || exists k: nat :: k < 26 && ((a == SMALL[k] && b == CAPITAL[k]) || (a == CAPITAL[k] && b == SMALL[k]))
  }

  ghost predicate SameLetters(a: string, b: string) {
    |a| == |b| && forall i :: 0 <= i < |a| ==> SameLetter(a[i], b[i])
  }

  lemma DecimalDigit(k: nat)
    requires k < 10
    ensures DIGITS[k] as int == '0' as int + k
  {
  }

  lemma AsciiDigitIs(c: char)
    ensures AsciiDigit(c) <==> c in DIGITS
  {
    if AsciiDigit(c) {
      DecimalDigit(c as int - '0' as int);
    }
  }

  /** The two alphabets by place. */
  lemma Alphabet(k: nat)
    requires k < 26
    ensures SMALL[k] as int == 'a' as int + k && CAPITAL[k] as int == 'A' as int + k
  {
  }

  /** The digits up to 36, in capitals and in small letters. */
  lemma DigitPlace(d: nat)
    requires d < 36
    ensures (DIGITS + CAPITAL)[d] as int == if d < 10 then '0' as int + d else 'A' as int + (d - 10)
    ensures (DIGITS + SMALL)[d] as int == if d < 10 then '0' as int + d else 'a' as int + (d - 10)
  {
    if d < 10 {
      DecimalDigit(d);
    } else {
      Alphabet(d - 10);
    }
  }

  /** Letters in a row, by their places. */
  predicate InRow(letters: string, first: char) {
    |letters| == 26 && first as int < 128 && forall k :: 0 <= k < 26 ==> letters[k] as int == first as int + k
  }

  lemma LetterIn(letters: string, first: char, c: char)
    requires InRow(letters, first)
    ensures c in letters <==> first as int <= c as int < first as int + 26
  {
    if first as int <= c as int < first as int + 26 {
      assert letters[c as int - first as int] == c;
    }
  }

  lemma Alphabets()
    ensures InRow(SMALL, 'a') && InRow(CAPITAL, 'A')
  {
    forall k | 0 <= k < 26
      ensures SMALL[k] as int == 'a' as int + k && CAPITAL[k] as int == 'A' as int + k
    {
      Alphabet(k);
    }
  }

  lemma SmallLetter(c: char)
    ensures c in SMALL <==> 'a' <= c <= 'z'
    ensures c in CAPITAL <==> 'A' <= c <= 'Z'
  {
    Alphabets();
    LetterIn(SMALL, 'a', c);
    LetterIn(CAPITAL, 'A', c);
  }

  /** Letters of two rows at one place. */
  ghost predicate Paired(small: string, capital: string, a: char, b: char)
    requires |small| == 26 && |capital| == 26
  {
    exists k: nat :: k < 26 && a == small[k] && b == capital[k]
  }

  lemma PairedIs(small: string, capital: string, a: char, b: char)
    requires InRow(small, 'a') && InRow(capital, 'A')
    ensures Paired(small, capital, a, b) <==> 'a' <= a <= 'z' && b == UpperChar(a)
    ensures Paired(small, capital, a, b) <==> 'A' <= b <= 'Z' && a == LowerChar(b)
  {
    if 'a' <= a <= 'z' && b == UpperChar(a) {
      var k := a as int - 'a' as int;
      assert a == small[k] && b == capital[k];
    }
  }

  /** A character is in upper case exactly when it is the same letter and no small one. */
  lemma UpperCharIs(c: char, u: char)
    ensures u == UpperChar(c) <==> SameLetter(u, c) && u !in SMALL
  {
    Alphabets();
    LetterIn(SMALL, 'a', u);
    PairedIs(SMALL, CAPITAL, u, c);
    PairedIs(SMALL, CAPITAL, c, u);
    SameLetterIs(u, c);
  }

  lemma LowerCharIs(c: char, l: char)
    ensures l == LowerChar(c) <==> SameLetter(l, c) && l !in CAPITAL
  {
    Alphabets();
    LetterIn(CAPITAL, 'A', l);
    PairedIs(SMALL, CAPITAL, l, c);
    PairedIs(SMALL, CAPITAL, c, l);
    SameLetterIs(l, c);
  }

  lemma UpperCharSame(a: char, b: char)
    ensures UpperChar(a) == UpperChar(b) <==> SameLetter(a, b)
  {
    Alphabets();
    PairedIs(SMALL, CAPITAL, a, b);
    PairedIs(SMALL, CAPITAL, b, a);
    SameLetterIs(a, b);
  }

  lemma LowerCharSame(a: char, b: char)
    ensures LowerChar(a) == LowerChar(b) <==> SameLetter(a, b)
  {
    UpperCharSame(a, b);
  }

  lemma SameLetterIs(a: char, b: char)
    ensures SameLetter(a, b) <==> a == b || Paired(SMALL, CAPITAL, a, b) || Paired(SMALL, CAPITAL, b, a)
  {
  }

  /** The upper-case form is the text of the same letters without a small one. */
  lemma UpperIs(s: string, u: string)
    ensures u == Upper(s) <==> SameLetters(u, s) && forall i :: 0 <= i < |u| ==> u[i] !in SMALL
  {
    forall i | 0 <= i < |u| && i < |s|
      ensures u[i] == UpperChar(s[i]) <==> SameLetter(u[i], s[i]) && u[i] !in SMALL
    {
      UpperCharIs(s[i], u[i]);
    }
  }

  /** Texts have the same upper-case form exactly when they have the same letters. */
  lemma UpperSame(a: string, b: string)
    ensures Upper(a) == Upper(b) <==> SameLetters(a, b)
  {
    forall i | 0 <= i < |a| && i < |b|
      ensures UpperChar(a[i]) == UpperChar(b[i]) <==> SameLetter(a[i], b[i])
    {
      UpperCharSame(a[i], b[i]);
    }
    if SameLetters(a, b) {
      assert Upper(a) == Upper(b);
    }
    if Upper(a) == Upper(b) {
      forall i | 0 <= i < |a|
        ensures SameLetter(a[i], b[i])
      {
        assert Upper(a)[i] == Upper(b)[i];
      }
    }
  }

  // ------------------------------------------------------------ lines

  function DropCarriageReturn(line: string): string {
    if line != "" && line[|line| - 1] == '\r' then line[..|line| - 1] else line
  }

  /** `str::lines`: a carriage return goes only together with its line feed. */
  function Lines(text: string): seq<string>
    decreases |text|
  {
    if text == "" then []
    else
      var i := Find(text, '\n');
      if i == |text| then [text] else [DropCarriageReturn(text[..i])] + Lines(text[i + 1..])
  }

  function Ended(lines: seq<string>): string {
    if lines == [] then "" else lines[0] + ['\n'] + Ended(lines[1..])
  }

  /** A line that reading back by lines leaves as it is. */
  predicate WholeLine(line: string) {
    Free(line, '\n') && (line != "" ==> line[|line| - 1] != '\r')
  }

  lemma {:induction false} LinesOfEnded(lines: seq<string>)
    requires AllWhole(lines)
    ensures Lines(Ended(lines)) == lines
  {
    if lines != [] {
      var rest := Ended(lines[1..]);
      var text := Ended(lines);
      FindAfter(lines[0], '\n', rest);
      assert text[..|lines[0]|] == lines[0];
      assert text[|lines[0]| + 1..] == rest;
      LinesOfEnded(lines[1..]);
    }
  }

  predicate AllWhole(lines: seq<string>) {
    forall i :: 0 <= i < |lines| ==> WholeLine(lines[i])
  }

  /** `"\n".join(lines)`. */
  function Joined(lines: seq<string>): string {
    if lines == [] then "" else if |lines| == 1 then lines[0] else lines[0] + ['\n'] + Joined(lines[1..])
  }

  lemma {:induction false} JoinedEnded(lines: seq<string>)
    requires lines != []
    ensures Joined(lines) + ['\n'] == Ended(lines)
  {
    if |lines| == 1 {
      assert lines[1..] == [];
      assert Ended(lines) == lines[0] + ['\n'] + "";
    } else {
      JoinedEnded(lines[1..]);
    }
  }
}
