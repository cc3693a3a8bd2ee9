/** The section headings of a reStructuredText file
    (`parse_rst_headings` in `scripts/generate_language_feature_inventory.py`). */
module Headings {
  import opened Common
  import opened Text

  const HEADING_CHARS: string := "*=-^\"~+#`:"

  /** The mark of each level, from parts down. */
  const LEVELS: map<char, nat> :=
    map['*' := 0, '=' := 1, '-' := 2, '^' := 3, '"' := 4, '~' := 5, '+' := 6, '#' := 7, '`' := 8, ':' := 9]

  datatype Heading = Heading(level: nat, title: string, line: nat, mark: char)

  datatype Feature = Feature(title: string, line: nat, mark: char, path: seq<string>)

  /** All characters of `s` are the first one. */
  predicate Uniform(s: string) {
    s != "" && forall i :: 0 <= i < |s| ==> s[i] == s[0]
  }

  /** A title, and a line that underlines it with a heading character. */
  predicate Underlined(title: string, underline: string) {
    && title != "" && !StartsWith(title, "..")
    && |title| <= |underline| && underline[0] in LEVELS
    && forall i :: 0 <= i < |underline| ==> underline[i] == underline[0]
  }

  /** The heading that a line and the next one make, if any. */
  function HeadingFrom(rawTitle: string, rawUnderline: string, line: nat, normalize: string -> string): (r: Option<Heading>)
    ensures r.Some? <==> Underlined(Strip(rawTitle), Strip(rawUnderline))
    ensures r.Some? ==> r.value.line == line && r.value.title == normalize(Strip(rawTitle))
    ensures r.Some? ==> r.value.mark == Strip(rawUnderline)[0] && r.value.mark in LEVELS && r.value.level == LEVELS[r.value.mark]
  {
    var title, underline := Strip(rawTitle), Strip(rawUnderline);
    if title == "" || StartsWith(title, "..") then None
    else if underline == "" || |underline| < |title| || !Uniform(underline) then None
    else
      var mark := underline[0];
      var level := Find(HEADING_CHARS, mark);
      if level == |HEADING_CHARS| then None else Some(Heading(level, normalize(title), line, mark))
  }

  type Reader = (string, string, nat) -> Option<Heading>

  function Listed(h: Option<Heading>): seq<Heading> {
    if h.Some? then [h.value] else []
  }

  /** The headings that `read` finds among the first `n` lines. */
  function HeadingsIn(lines: seq<string>, n: nat, read: Reader): seq<Heading>
    requires n == 0 || n < |lines|
  {
    if n == 0 then [] else HeadingsIn(lines, n - 1, read) + Listed(read(lines[n - 1], lines[n], n))
  }

  // ------------------------------------------------------ the section tree

  /** The last of the first `n` headings with a level below `level`, counted from one; zero for none. */
  function Nearest(hs: seq<Heading>, n: nat, level: nat): (r: nat)
    requires n <= |hs|
    ensures r <= n && (r > 0 ==> hs[r - 1].level < level)
    ensures forall j :: r <= j < n ==> hs[j].level >= level
  {
    if n == 0 then 0 else if hs[n - 1].level < level then n else Nearest(hs, n - 1, level)
  }

  /** Heading `n`, counted from one, with its sections, the outermost first:
      each belongs to the nearest heading before it with a smaller level. */
  function Chain(hs: seq<Heading>, n: nat): (r: seq<Heading>)
    requires n <= |hs|
    ensures n == 0 <==> r == []
    ensures n > 0 ==> r[|r| - 1] == hs[n - 1]
  {
    if n == 0 then [] else Chain(hs, Nearest(hs, n - 1, hs[n - 1].level)) + [hs[n - 1]]
  }

  ghost predicate Rising(c: seq<Heading>) {
    forall i, j :: 0 <= i < j < |c| ==> c[i].level < c[j].level
  }

  /** Levels strictly increase along a chain. */
  lemma {:induction false} ChainIncreasing(hs: seq<Heading>, n: nat)
    requires n <= |hs|
    ensures Rising(Chain(hs, n))
  {
    if n > 0 {
      var up := Nearest(hs, n - 1, hs[n - 1].level);
      ChainIncreasing(hs, up);
      RisingPush(Chain(hs, up), hs[n - 1]);
    }
  }

  lemma RisingPush(c: seq<Heading>, h: Heading)
    requires Rising(c) && (c != [] ==> c[|c| - 1].level < h.level)
    ensures Rising(c + [h])
  {
    var d := c + [h];
    forall i, j | 0 <= i < j < |d|
      ensures d[i].level < d[j].level
    {
      assert i < |c| - 1 ==> c[i].level < c[|c| - 1].level;
    }
  }

  function Pop(stack: seq<Heading>, level: nat): seq<Heading> {
    if stack != [] && stack[|stack| - 1].level >= level then Pop(stack[..|stack| - 1], level) else stack
  }

  lemma {:induction false} NearestSkips(hs: seq<Heading>, n: nat, m: nat, level: nat)
    requires m <= n <= |hs| && forall j :: m <= j < n ==> hs[j].level >= level
    ensures Nearest(hs, n, level) == Nearest(hs, m, level)
  {
    if m < n {
      NearestSkips(hs, n - 1, m, level);
    }
  }

  /** Popping the levels that are not smaller turns the chain of the last
      heading into the chain of the nearest one with a smaller level. */
  lemma {:induction false} PopFindsSection(hs: seq<Heading>, n: nat, level: nat)
    requires n <= |hs|
    ensures Pop(Chain(hs, n), level) == Chain(hs, Nearest(hs, n, level))
  {
    if n > 0 && hs[n - 1].level >= level {
      var up := Nearest(hs, n - 1, hs[n - 1].level);
      assert Pop(Chain(hs, n), level) == Pop(Chain(hs, up), level) by {
        PopOne(Chain(hs, up), hs[n - 1], level);
      }
      PopFindsSection(hs, up, level);
      SkipsToParent(hs, n, up, level);
    } else if n > 0 {
      PopNone(Chain(hs, n), level);
    }
  }

  lemma SkipsToParent(hs: seq<Heading>, n: nat, up: nat, level: nat)
    requires 0 < n <= |hs| && up == Nearest(hs, n - 1, hs[n - 1].level) && hs[n - 1].level >= level
    ensures Nearest(hs, n, level) == Nearest(hs, up, level)
  {
    forall j | up <= j < n
      ensures hs[j].level >= level
    {
      assert j < n - 1 ==> hs[j].level >= hs[n - 1].level;
    }
    NearestSkips(hs, n, up, level);
  }

  lemma PopNone(stack: seq<Heading>, level: nat)
    requires stack != [] && stack[|stack| - 1].level < level
    ensures Pop(stack, level) == stack
  {
  }

  lemma PopOne(stack: seq<Heading>, h: Heading, level: nat)
    requires h.level >= level
    ensures Pop(stack + [h], level) == Pop(stack, level)
  {
    assert (stack + [h])[..|stack|] == stack;
  }

  lemma {:induction false} NearestPrefix(hs: seq<Heading>, more: seq<Heading>, n: nat, level: nat)
    requires n <= |hs|
    ensures Nearest(hs + more, n, level) == Nearest(hs, n, level)
  {
    if n > 0 {
      NearestPrefix(hs, more, n - 1, level);
    }
  }

  lemma {:induction false} ChainPrefix(hs: seq<Heading>, more: seq<Heading>, n: nat)
    requires n <= |hs|
    ensures Chain(hs + more, n) == Chain(hs, n)
  {
    if n > 0 {
      NearestPrefix(hs, more, n - 1, hs[n - 1].level);
      ChainPrefix(hs, more, Nearest(hs, n - 1, hs[n - 1].level));
    }
  }

  /** One heading: pop, then push. */
  lemma {:induction false} PushHeading(hs: seq<Heading>, h: Heading, all: seq<Heading>)
    requires all == hs + [h]
    ensures Pop(Chain(hs, |hs|), h.level) + [h] == Chain(all, |all|)
  {
    var up := Nearest(hs, |hs|, h.level);
    PopFindsSection(hs, |hs|, h.level);
    NearestPrefix(hs, [h], |hs|, h.level);
    ChainPrefix(hs, [h], up);
  }

  function Titles(stack: seq<Heading>): (r: seq<string>)
    ensures |r| == |stack| && forall i :: 0 <= i < |stack| ==> r[i] == stack[i].title
  {
    seq(|stack|, i requires 0 <= i < |stack| => stack[i].title)
  }

  /** The feature of heading `k`: its path is the titles of its chain. */
  predicate Describes(f: Feature, hs: seq<Heading>, k: nat)
    requires k < |hs|
  {
    f == Feature(hs[k].title, hs[k].line, hs[k].mark, Titles(Chain(hs, k + 1)))
  }

  ghost predicate AllDescribed(features: seq<Feature>, hs: seq<Heading>) {
    |features| == |hs| && forall k :: 0 <= k < |hs| ==> Describes(features[k], hs, k)
  }

  /** One feature per heading, in order, each with the titles of its sections as its path. */
  method ParseRstHeadings(lines: seq<string>, normalize: string -> string) returns (features: seq<Feature>)
    ensures AllDescribed(features, HeadingsIn(lines, if lines == [] then 0 else |lines| - 1,
                                              (title: string, underline: string, line: nat) => HeadingFrom(title, underline, line, normalize)))
  {
    features := CollectHeadings(lines, (title: string, underline: string, line: nat) => HeadingFrom(title, underline, line, normalize));
  }

  method CollectHeadings(lines: seq<string>, read: Reader) returns (features: seq<Feature>)
    ensures AllDescribed(features, HeadingsIn(lines, if lines == [] then 0 else |lines| - 1, read))
  {
    features := [];
    var stack: seq<Heading> := [];
    ghost var hs: seq<Heading> := [];
    var n := if lines == [] then 0 else |lines| - 1;
    for idx := 0 to n
      invariant hs == HeadingsIn(lines, idx, read)
      invariant AllDescribed(features, hs) && stack == Chain(hs, |hs|)
    {
      var heading := read(lines[idx], lines[idx + 1], idx + 1);
      features, stack := AddHeading(features, stack, hs, heading);
      hs := hs + Listed(heading);
    }
  }

  /** What one line adds to the features and does to the stack. */
  method AddHeading(before: seq<Feature>, stackBefore: seq<Heading>, ghost hs: seq<Heading>, heading: Option<Heading>)
    returns (features: seq<Feature>, stack: seq<Heading>)
    requires AllDescribed(before, hs) && stackBefore == Chain(hs, |hs|)
    ensures var all := hs + Listed(heading);
            AllDescribed(features, all) && stack == Chain(all, |all|)
  {
    features, stack := before, stackBefore;
    if heading.Some? {
      var h := heading.value;
      var path;
      stack, path := Enter(stack, hs, h);
      var feature := Feature(h.title, h.line, h.mark, path);
      KeepDescribed(features, hs, feature, h);
      features := features + [feature];
    } else {
      assert hs + [] == hs;
    }
  }

  /** Pops the sections the heading does not belong to and pushes it. */
  method Enter(before: seq<Heading>, ghost hs: seq<Heading>, h: Heading) returns (stack: seq<Heading>, path: seq<string>)
    requires before == Chain(hs, |hs|)
    ensures stack == Chain(hs + [h], |hs| + 1) && path == Titles(stack)
  {
    stack := PopAndPush(before, h);
    PushHeading(hs, h, hs + [h]);
    path := Titles(stack);
  }

  lemma {:induction false} StillDescribed(f: Feature, hs: seq<Heading>, h: Heading, k: nat)
    requires k < |hs| && Describes(f, hs, k)
    ensures Describes(f, hs + [h], k)
  {
    ChainPrefix(hs, [h], k + 1);
  }

  lemma {:induction false} KeepDescribed(features: seq<Feature>, hs: seq<Heading>, f: Feature, h: Heading)
    requires AllDescribed(features, hs) && Describes(f, hs + [h], |hs|)
    ensures AllDescribed(features + [f], hs + [h])
  {
    var more, all := features + [f], hs + [h];
    forall k | 0 <= k < |all|
      ensures Describes(more[k], all, k)
    {
      if k < |hs| {
        StillDescribed(features[k], hs, h, k);
      }
    }
  }

  method PopAndPush(before: seq<Heading>, h: Heading) returns (stack: seq<Heading>)
    ensures stack == Pop(before, h.level) + [h]
  {
    stack := before;
    while stack != [] && stack[|stack| - 1].level >= h.level
      invariant Pop(stack, h.level) == Pop(before, h.level)
      decreases |stack|
    {
      stack := stack[..|stack| - 1];
    }
    stack := stack + [h];
  }
}
