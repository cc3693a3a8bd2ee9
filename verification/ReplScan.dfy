/** The token and string scanners behind the REPL's "is more input needed"
    question (`src/repl_core.rs`). The lexer is a parameter. */
module ReplScan {
  import opened Common
  import opened Text

  datatype Kind = LParen | RParen | LBracket | RBracket | LBrace | RBrace | Dedent | EndMarker | Other

  datatype Token = Token(kind: Kind, offset: nat)

  // ------------------------------------------------- unclosed delimiters

  datatype Pair = Parens | Brackets | Braces

  /** What a token adds to the open delimiters of a kind. */
  function Delta(pair: Pair, kind: Kind): int {
    match pair
    case Parens => if kind == LParen then 1 else if kind == RParen then -1 else 0
    case Brackets => if kind == LBracket then 1 else if kind == RBracket then -1 else 0
    case Braces => if kind == LBrace then 1 else if kind == RBrace then -1 else 0
  }

  /** Opening minus closing delimiters. */
  function Net(pair: Pair, tokens: seq<Token>): int {
    if tokens == [] then 0 else Net(pair, tokens[..|tokens| - 1]) + Delta(pair, tokens[|tokens| - 1].kind)
  }

  /** Some suffix opens more of one kind than it closes. */
  predicate Unclosed(tokens: seq<Token>) {
    exists pair: Pair, i :: 0 <= i <= |tokens| && Net(pair, tokens[i..]) > 0
  }

  /** The opening and closing delimiters. */
  const BRACKETS: set<(Kind, Kind)> := {(LParen, RParen), (LBracket, RBracket), (LBrace, RBrace)}

  function PairOf(open: Kind): Pair {
    if open == LParen then Parens else if open == LBracket then Brackets else Braces
  }

  /** An opening delimiter without a closing one of its kind behind it is unclosed. */
  lemma OpeningUnclosed(tokens: seq<Token>, i: nat, open: Kind, close: Kind)
    requires i < |tokens| && (open, close) in BRACKETS && tokens[i].kind == open
    requires forall j :: i < j < |tokens| ==> tokens[j].kind != close
    ensures Unclosed(tokens)
  {
    var rest := tokens[i + 1..];
    NetNotNegative(PairOf(open), rest);
    NetCons(PairOf(open), tokens[i], rest);
    assert tokens[i..] == [tokens[i]] + rest;
  }

  lemma {:induction false} NetNotNegative(pair: Pair, tokens: seq<Token>)
    requires forall j :: 0 <= j < |tokens| ==> Delta(pair, tokens[j].kind) >= 0
    ensures Net(pair, tokens) >= 0
  {
    if tokens != [] {
      NetNotNegative(pair, tokens[..|tokens| - 1]);
    }
  }

  lemma {:induction false} NetAppend(pair: Pair, a: seq<Token>, b: seq<Token>)
    ensures Net(pair, a + b) == Net(pair, a) + Net(pair, b)
  {
    if b == [] {
      assert a + b == a;
    } else {
      assert (a + b)[..|a + b| - 1] == a + b[..|b| - 1];
      NetAppend(pair, a, b[..|b| - 1]);
    }
  }

  lemma NetOne(pair: Pair, token: Token)
    ensures Net(pair, [token]) == Delta(pair, token.kind)
  {
    assert [token][..0] == [];
  }

  lemma NetCons(pair: Pair, token: Token, rest: seq<Token>)
    ensures Net(pair, [token] + rest) == Delta(pair, token.kind) + Net(pair, rest)
  {
    NetAppend(pair, [token], rest);
    NetOne(pair, token);
  }

  /** Texts with nothing unclosed have nothing unclosed together. */
  lemma ClosedTogether(a: seq<Token>, b: seq<Token>)
    requires !Unclosed(a) && !Unclosed(b)
    ensures !Unclosed(a + b)
  {
    forall pair: Pair, i | 0 <= i <= |a + b|
      ensures Net(pair, (a + b)[i..]) <= 0
    {
      if i <= |a| {
        assert (a + b)[i..] == a[i..] + b;
        NetAppend(pair, a[i..], b);
        assert b[0..] == b;
        assert Net(pair, b[0..]) <= 0;
      } else {
        assert (a + b)[i..] == b[i - |a|..];
      }
    }
  }

  /** Nor has one in delimiters of a kind, or a token that is no delimiter. */
  lemma ClosedInside(open: Token, a: seq<Token>, close: Token)
    requires (open.kind, close.kind) in BRACKETS && !Unclosed(a)
    ensures !Unclosed([open] + a + [close])
  {
    var all := [open] + a + [close];
    forall pair: Pair, i | 0 <= i <= |all|
      ensures Net(pair, all[i..]) <= 0
    {
      NetOne(pair, close);
      if i == 0 {
        assert all[i..] == [open] + (a + [close]) && a[0..] == a;
        NetCons(pair, open, a + [close]);
        NetAppend(pair, a, [close]);
        assert Net(pair, a[0..]) <= 0;
      } else if i <= |a| + 1 {
        assert all[i..] == a[i - 1..] + [close];
        NetAppend(pair, a[i - 1..], [close]);
      } else {
        assert all[i..] == [];
      }
    }
  }

  lemma OtherClosed(token: Token)
    requires token.kind in {Dedent, EndMarker, Other}
    ensures !Unclosed([token])
  {
    forall pair: Pair, i | 0 <= i <= 1
      ensures Net(pair, [token][i..]) <= 0
    {
      NetOne(pair, token);
      assert [token][0..] == [token] && [token][1..] == [];
    }
  }

  /** `depth` is the largest net count over the suffixes. */
  ghost predicate IsDepth(pair: Pair, tokens: seq<Token>, depth: nat) {
    && (exists i :: 0 <= i <= |tokens| && Net(pair, tokens[i..]) == depth)
    && forall i :: 0 <= i <= |tokens| ==> Net(pair, tokens[i..]) <= depth
  }

  lemma NetSuffix(pair: Pair, tokens: seq<Token>, token: Token, i: nat)
    requires i <= |tokens|
    ensures (tokens + [token])[i..] == tokens[i..] + [token]
    ensures Net(pair, (tokens + [token])[i..]) == Net(pair, tokens[i..]) + Delta(pair, token.kind)
  {
    var s := tokens[i..] + [token];
    assert s[..|s| - 1] == tokens[i..];
  }

  function Saturated(depth: nat, delta: int): nat {
    if depth + delta < 0 then 0 else depth + delta
  }

  /** One saturating step keeps the depth the maximum over the suffixes. */
  lemma DepthStep(pair: Pair, tokens: seq<Token>, token: Token, depth: nat)
    requires IsDepth(pair, tokens, depth)
    ensures IsDepth(pair, tokens + [token], Saturated(depth, Delta(pair, token.kind)))
  {
    var d := Delta(pair, token.kind);
    var longer, next := tokens + [token], Saturated(depth, d);
    assert Net(pair, longer[|longer|..]) == 0;
    forall i | 0 <= i <= |longer|
      ensures Net(pair, longer[i..]) <= next
    {
      if i <= |tokens| {
        NetSuffix(pair, tokens, token, i);
      }
    }
    var i :| 0 <= i <= |tokens| && Net(pair, tokens[i..]) == depth;
    NetSuffix(pair, tokens, token, i);
    if depth + d < 0 {
      assert Net(pair, longer[|longer|..]) == next;
    } else {
      assert Net(pair, longer[i..]) == next;
    }
  }

  lemma DepthZero(pair: Pair)
    ensures IsDepth(pair, [], 0)
  {
    var none: seq<Token> := [];
    assert none[0..] == [] && Net(pair, none[0..]) == 0;
  }

  datatype Depths = Depths(parens: nat, brackets: nat, braces: nat)

  ghost predicate AreDepths(tokens: seq<Token>, d: Depths) {
    IsDepth(Parens, tokens, d.parens) && IsDepth(Brackets, tokens, d.brackets) && IsDepth(Braces, tokens, d.braces)
  }

  lemma DepthsDecide(tokens: seq<Token>, d: Depths)
    requires AreDepths(tokens, d)
    ensures Unclosed(tokens) <==> d != Depths(0, 0, 0)
  {
    if Unclosed(tokens) {
      var pair, i :| 0 <= i <= |tokens| && Net(pair, tokens[i..]) > 0;
      assert pair == Parens || pair == Brackets || pair == Braces;
    }
  }

  lemma NoDepths()
    ensures AreDepths([], Depths(0, 0, 0))
  {
    DepthZero(Parens);
    DepthZero(Brackets);
    DepthZero(Braces);
  }

  lemma DepthsStep(tokens: seq<Token>, i: nat, d: Depths)
    requires i < |tokens| && AreDepths(tokens[..i], d)
    ensures var kind := tokens[i].kind;
            AreDepths(tokens[..i + 1], Depths(Saturated(d.parens, Delta(Parens, kind)),
                                              Saturated(d.brackets, Delta(Brackets, kind)),
                                              Saturated(d.braces, Delta(Braces, kind))))
  {
    DepthStep(Parens, tokens[..i], tokens[i], d.parens);
    DepthStep(Brackets, tokens[..i], tokens[i], d.brackets);
    DepthStep(Braces, tokens[..i], tokens[i], d.braces);
    assert tokens[..i + 1] == tokens[..i] + [tokens[i]];
  }

  method HasUnclosedDelimiters(lexed: Option<seq<Token>>) returns (r: bool)
    ensures r <==> lexed.Some? && Unclosed(lexed.value)
  {
    if lexed == None {
      return false;
    }
    var tokens := lexed.value;
    var parens: nat, brackets: nat, braces: nat := 0, 0, 0;
    NoDepths();
    for i := 0 to |tokens|
      invariant AreDepths(tokens[..i], Depths(parens, brackets, braces))
    {
      DepthsStep(tokens, i, Depths(parens, brackets, braces));
      match tokens[i].kind {
        case LParen => parens := parens + 1;
        case RParen => parens := if parens == 0 then 0 else parens - 1;
        case LBracket => brackets := brackets + 1;
        case RBracket => brackets := if brackets == 0 then 0 else brackets - 1;
        case LBrace => braces := braces + 1;
        case RBrace => braces := if braces == 0 then 0 else braces - 1;
        case _ =>
      }
    }
    assert tokens[..|tokens|] == tokens;
    DepthsDecide(tokens, Depths(parens, brackets, braces));
    return parens != 0 || brackets != 0 || braces != 0;
  }

  // ------------------------------------------------- dedents at the end

  /** The tokens end in dedents, one of them at offset `eof`, and then only end markers. */
  predicate EndsInDedent(tokens: seq<Token>, eof: nat) {
    exists i, j :: 0 <= i < j <= |tokens| && DedentRun(tokens, eof, i, j)
  }

  predicate DedentRun(tokens: seq<Token>, eof: nat, i: nat, j: nat)
    requires i < j <= |tokens|
  {
    && tokens[i].offset == eof
    && (forall k :: i <= k < j ==> tokens[k].kind == Dedent)
    && forall k :: j <= k < |tokens| ==> tokens[k].kind == EndMarker
  }

  method HasEofImpliedDedent(lexed: Option<seq<Token>>, eof: nat) returns (r: bool)
    ensures r <==> lexed.Some? && EndsInDedent(lexed.value, eof)
  {
    if lexed == None {
      return false;
    }
    var tokens := lexed.value;
    var index := |tokens|;
    while index > 0 && tokens[index - 1].kind == EndMarker
      invariant 0 <= index <= |tokens|
      invariant forall k :: index <= k < |tokens| ==> tokens[k].kind == EndMarker
    {
      index := index - 1;
    }
    var last := index;
    r := false;
    while index > 0
      invariant 0 <= index <= last <= |tokens|
      invariant forall k :: last <= k < |tokens| ==> tokens[k].kind == EndMarker
      invariant last > 0 ==> tokens[last - 1].kind != EndMarker
      invariant forall k :: index <= k < last ==> tokens[k].kind == Dedent
      invariant r <==> exists k :: index <= k < last && tokens[k].offset == eof
    {
      if tokens[index - 1].kind != Dedent {
        break;
      }
      if tokens[index - 1].offset == eof {
        r := true;
      }
      index := index - 1;
    }
    RunIsUnique(tokens, eof, index, last);
  }

  /** Only one run can be meant: it stops at the end markers and starts behind another token. */
  lemma RunIsUnique(tokens: seq<Token>, eof: nat, index: nat, last: nat)
    requires index <= last <= |tokens|
    requires forall k :: last <= k < |tokens| ==> tokens[k].kind == EndMarker
    requires last > 0 ==> tokens[last - 1].kind != EndMarker
    requires forall k :: index <= k < last ==> tokens[k].kind == Dedent
    requires index > 0 ==> tokens[index - 1].kind != Dedent
    ensures EndsInDedent(tokens, eof) <==> exists k :: index <= k < last && tokens[k].offset == eof
  {
    if EndsInDedent(tokens, eof) {
      var i, j :| 0 <= i < j <= |tokens| && DedentRun(tokens, eof, i, j);
      assert tokens[j - 1].kind == Dedent;
      assert last <= j;
      assert j == last;
      assert index <= i < last && tokens[i].offset == eof;
    }
    if k :| index <= k < last && tokens[k].offset == eof {
      assert DedentRun(tokens, eof, k, last);
    }
  }

  // --------------------------------------------------- triple quotes

  predicate Alphabetic(c: char) {
    'a' <= LowerChar(c) <= 'z'
  }

  predicate PrefixLetter(c: char) {
    LowerChar(c) in {'r', 'u', 'b', 'f', 't'}
  }

  predicate TripleQuote(s: string, n: nat) {
    n + 3 <= |s| && (s[n] == '\'' || s[n] == '"') && s[n + 1] == s[n] && s[n + 2] == s[n]
  }

  /** The first `n` characters are at most two letters of r, u, b, f, t that
      differ whatever their case. */
  predicate StringPrefix(s: string, n: nat)
    requires n <= |s|
  {
    && n <= 2
    && (forall i :: 0 <= i < n ==> PrefixLetter(s[i]))
    && (n == 2 ==> LowerChar(s[0]) != LowerChar(s[1]))
  }

  predicate TripleQuoteToken(rest: string) {
    exists n :: 0 <= n <= |rest| && StringPrefix(rest, n) && TripleQuote(rest, n)
  }

  const STRING_LETTERS := "rubft"

  /** A letter of string prefixes, in either case. */
  ghost predicate InPrefix(c: char) {
    exists k: nat :: k < |STRING_LETTERS| && SameLetter(STRING_LETTERS[k], c)
  }

  /** At most two letters of string prefixes, and not the same one twice. */
  ghost predicate Prefixing(prefix: string) {
    && |prefix| <= 2 && (forall i :: 0 <= i < |prefix| ==> InPrefix(prefix[i]))
    && (|prefix| == 2 ==> !SameLetter(prefix[0], prefix[1]))
  }

  lemma PrefixLetterIs(c: char)
    ensures PrefixLetter(c) <==> InPrefix(c)
  {
    forall k: nat | k < |STRING_LETTERS|
      ensures STRING_LETTERS[k] == LowerChar(c) <==> SameLetter(STRING_LETTERS[k], c)
    {
      SmallLetter(STRING_LETTERS[k]);
      LowerCharIs(c, STRING_LETTERS[k]);
    }
    if PrefixLetter(c) {
      assert STRING_LETTERS[0] == 'r' && STRING_LETTERS[1] == 'u' && STRING_LETTERS[2] == 'b';
      assert STRING_LETTERS[3] == 'f' && STRING_LETTERS[4] == 't';
    }
  }

  lemma PrefixIs(s: string, n: nat)
    requires n <= |s|
    ensures StringPrefix(s, n) <==> Prefixing(s[..n])
  {
    forall i | 0 <= i < n
      ensures PrefixLetter(s[i]) <==> InPrefix(s[..n][i])
    {
      PrefixLetterIs(s[i]);
    }
    if n == 2 {
      LowerCharSame(s[0], s[1]);
    }
  }

  lemma QuoteIs(s: string, n: nat)
    requires n <= |s|
    ensures TripleQuote(s, n) <==> StartsWith(s[n..], "'''") || StartsWith(s[n..], "\"\"\"")
  {
    var t := s[n..];
    if |t| >= 3 {
      assert t[0] == s[n] && t[1] == s[n + 1] && t[2] == s[n + 2];
      assert t[..3] == [t[0], t[1], t[2]];
    }
  }

  /** A text starts a triple-quoted string exactly if it is such a prefix and three quotes of one kind in front. */
  lemma TokenIs(rest: string)
    ensures TripleQuoteToken(rest)
       <==> exists n: nat :: n <= |rest| && Prefixing(rest[..n]) && (StartsWith(rest[n..], "'''") || StartsWith(rest[n..], "\"\"\""))
  {
    forall n: nat | n <= |rest|
      ensures StringPrefix(rest, n) <==> Prefixing(rest[..n])
      ensures TripleQuote(rest, n) <==> StartsWith(rest[n..], "'''") || StartsWith(rest[n..], "\"\"\"")
    {
      PrefixIs(rest, n);
      QuoteIs(rest, n);
    }
  }

  /** Behind a prefix that cannot grow, only a quote can make a token. */
  lemma OnlyPrefix(rest: string, n: nat)
    requires n <= |rest| && StringPrefix(rest, n)
    requires n == |rest| || n >= 2 || !PrefixLetter(rest[n])
          || exists i :: 0 <= i < n && LowerChar(rest[i]) == LowerChar(rest[n])
    ensures TripleQuoteToken(rest) <==> TripleQuote(rest, n)
  {
  }

  method StartsWithTripleQuoteToken(rest: string) returns (r: bool)
    ensures r <==> TripleQuoteToken(rest)
  {
    if TripleQuote(rest, 0) {
      assert StringPrefix(rest, 0);
      return true;
    }
    var seenR, seenU, seenB, seenF, seenT := false, false, false, false, false;
    var n := 0;
    while n < |rest|
      invariant 0 <= n <= |rest| && StringPrefix(rest, n)
      invariant n == 0 ==> !seenR && !seenU && !seenB && !seenF && !seenT
      invariant n == 1 ==> (seenR <==> LowerChar(rest[0]) == 'r') && (seenU <==> LowerChar(rest[0]) == 'u')
      invariant n == 1 ==> (seenB <==> LowerChar(rest[0]) == 'b') && (seenF <==> LowerChar(rest[0]) == 'f')
      invariant n == 1 ==> (seenT <==> LowerChar(rest[0]) == 't')
    {
      if n >= 2 || !Alphabetic(rest[n]) {
        break;
      }
      var seen;
      match LowerChar(rest[n]) {
        case 'r' => seen, seenR := seenR, true;
        case 'u' => seen, seenU := seenU, true;
        case 'b' => seen, seenB := seenB, true;
        case 'f' => seen, seenF := seenF, true;
        case 't' => seen, seenT := seenT, true;
        case _ =>
          OnlyPrefix(rest, n);
          return false;
      }
      if seen {
        OnlyPrefix(rest, n);
        return false;
      }
      n := n + 1;
    }
    OnlyPrefix(rest, n);
    if n == 0 {
      return false;
    }
    return TripleQuote(rest, n);
  }
}
