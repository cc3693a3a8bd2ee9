/**
 The scan for native link attributes in front of extern blocks
 (scripts/generate_wasm_vm_link_blockers_summary.py), over the lines of one file.
 */
module LinkScan {
  import opened Common
  import opened Text
  import Cfg

  datatype Hit = Hit(line: nat, library: string, active: bool)

  /** An attribute with the number of its first line, counted from one. */
  datatype Attr = Attr(line: nat, text: string)

  // ----------------------------------------------------------- single attributes

  /** `#[link(name = "...")]` starting at `i`. */
  function LinkAt(s: string, i: nat): Option<string>
    requires i <= |s|
  {
    if StartsWith(s[i..], "#[link(name") then
      match Cfg.AssignedValue(s, i + 11)
      case None => None
      case Some((name, end)) => if StartsWith(s[end..], ")]") then Some(name) else None
    else None
  }

  /** The first match in the attribute. */
  function SearchLink(s: string, i: nat): Option<string>
    requires i <= |s|
    decreases |s| - i
  {
    if LinkAt(s, i).Some? then LinkAt(s, i)
    else if i < |s| then SearchLink(s, i + 1)
    else None
  }

  /** The text between `head` and the closing `)]`, stripped. */
  function Argument(attr: string, head: string): Option<string> {
    if StartsWith(attr, head) && EndsWith(attr, ")]") && |head| + 2 <= |attr|
    then Some(Strip(attr[|head|..|attr| - 2])) else None
  }

  function Condition(attr: string): Option<string> {
    Argument(attr, "#[cfg(")
  }

  function LinkName(attr: string): Option<string> {
    if StartsWith(attr, "link(name") then
      match Cfg.AssignedValue(attr, 9)
      case None => None
      case Some((name, end)) => if attr[end..] == ")" then Some(name) else None
    else None
  }

  function FirstLink(attrs: seq<string>): Option<string> {
    if attrs == [] then None
    else if LinkName(attrs[0]).Some? then LinkName(attrs[0])
    else FirstLink(attrs[1..])
  }

  /** `#[cfg_attr(condition, ..., link(name = "..."))]`: the library and its condition. */
  function ConditionalLink(attr: string): Option<(string, string)> {
    match Argument(attr, "#[cfg_attr(")
    case None => None
    case Some(inner) =>
      var parts := Cfg.Split(inner, "", 0);
      if |parts| < 2 then None
      else
        match FirstLink(parts[1..])
        case None => None
        case Some(name) => Some((name, parts[0]))
  }

  // ------------------------------------------------------------- one extern block

  /** None of the block's `cfg` attributes is known to be false. */
  predicate BaseActive(attrs: seq<Attr>) {
    forall a :: a in attrs && Condition(a.text).Some? ==> Cfg.Eval(Condition(a.text).value) != Cfg.False
  }

  function HitOf(a: Attr, base: bool): seq<Hit> {
    match SearchLink(a.text, 0)
    case Some(name) => [Hit(a.line, name, base)]
    case None =>
      match ConditionalLink(a.text)
      case None => []
      case Some((name, condition)) => [Hit(a.line, name, base && Cfg.Eval(condition) != Cfg.False)]
  }

  function HitsOf(attrs: seq<Attr>, base: bool): seq<Hit> {
    if attrs == [] then [] else HitsOf(attrs[..|attrs| - 1], base) + HitOf(attrs[|attrs| - 1], base)
  }

  function BlockHits(attrs: seq<Attr>): seq<Hit> {
    HitsOf(attrs, BaseActive(attrs))
  }

  // ------------------------------------------------------------------- the scan

  /** A multi-line attribute being collected: its first line and its parts so far. */
  datatype Collecting = Collecting(start: nat, parts: seq<string>)

  datatype State = State(pending: seq<Attr>, collecting: Option<Collecting>, hits: seq<Hit>)

  function Joined(parts: seq<string>): string {
    if parts == [] then "" else if |parts| == 1 then parts[0]
    else Joined(parts[..|parts| - 1]) + " " + parts[|parts| - 1]
  }

  /** A stripped line and what the scan asks about it. */
  datatype Line = Line(text: string, opens: bool, closes: bool, extern_: bool)

  function Read(raw: string): Line {
    var line := Strip(raw);
    Line(line, StartsWith(line, "#["), EndsWith(line, "]"),
         StartsWith(line, "unsafe extern ") || StartsWith(line, "extern "))
  }

  function ReadAll(raws: seq<string>): (lines: seq<Line>)
    ensures |lines| == |raws| && forall i :: 0 <= i < |raws| ==> lines[i] == Read(raws[i])
  {
    seq(|raws|, i requires 0 <= i < |raws| => Read(raws[i]))
  }

  /** The state after one more line, `number` counting from one. */
  function Next(s: State, line: Line, number: nat): State {
    match s.collecting
    case Some(open) =>
      var parts := open.parts + [line.text];
      if line.closes then State(s.pending + [Attr(open.start, Joined(parts))], None, s.hits)
      else s.(collecting := Some(Collecting(open.start, parts)))
    case None =>
      if line.opens then
        if line.closes then s.(pending := s.pending + [Attr(number, line.text)])
        else s.(collecting := Some(Collecting(number, [line.text])))
      else if line.extern_ then s.(pending := [], hits := s.hits + BlockHits(s.pending))
      else s.(pending := [])
  }

  function After(lines: seq<Line>, n: nat): State
    requires n <= |lines|
  {
    if n == 0 then State([], None, []) else Next(After(lines, n - 1), lines[n - 1], n)
  }

  /** What the scan of all lines has found. */
  function AllHits(lines: seq<Line>): seq<Hit> {
    After(lines, |lines|).hits
  }

  /** The loop over the attributes in front of one extern block. */
  method CollectHits(pending: seq<Attr>) returns (hits: seq<Hit>)
    ensures hits == BlockHits(pending)
  {
    var base := BaseActive(pending);
    hits := [];
    for k := 0 to |pending|
      invariant hits == HitsOf(pending[..k], base)
    {
      assert pending[..k + 1][..k] == pending[..k];
      var direct := SearchLink(pending[k].text, 0);
      if direct.Some? {
        hits := hits + [Hit(pending[k].line, direct.value, base)];
        continue;
      }
      var conditional := ConditionalLink(pending[k].text);
      if conditional.Some? {
        var active := base && Cfg.Eval(conditional.value.1) != Cfg.False;
        hits := hits + [Hit(pending[k].line, conditional.value.0, active)];
      }
    }
    assert pending[..|pending|] == pending;
  }

  /** The loop over the lines of one file. */
  method ScanLines(lines: seq<Line>) returns (hits: seq<Hit>)
    ensures hits == AllHits(lines)
  {
    hits := [];
    var pending: seq<Attr>, collecting: Option<Collecting> := [], None;
    for idx := 0 to |lines|
      invariant After(lines, idx) == State(pending, collecting, hits)
    {
      var line := lines[idx];
      if collecting.Some? {
        var start, parts := collecting.value.start, collecting.value.parts + [line.text];
        collecting := Some(Collecting(start, parts));
        if line.closes {
          pending := pending + [Attr(start, Joined(parts))];
          collecting := None;
        }
      } else if line.opens {
        if line.closes {
          pending := pending + [Attr(idx + 1, line.text)];
        } else {
          collecting := Some(Collecting(idx + 1, [line.text]));
        }
      } else {
        if line.extern_ {
          var found := CollectHits(pending);
          hits := hits + found;
        }
        pending := [];
      }
    }
  }

  method ScanFile(raws: seq<string>) returns (hits: seq<Hit>)
    ensures hits == AllHits(ReadAll(raws))
  {
    hits := ScanLines(ReadAll(raws));
  }

  // -------------------------------------------------- attributes do not leak

  /** A multi-line attribute is open before line index `j`. */
  predicate Open(lines: seq<Line>, j: nat)
    requires j <= |lines|
  {
    j > 0 && (Open(lines, j - 1) || lines[j - 1].opens) && !lines[j - 1].closes
  }

  /** Line index `j` is part of an attribute. */
  predicate InAttribute(lines: seq<Line>, j: nat)
    requires j < |lines|
  {
    Open(lines, j) || lines[j].opens
  }

  /** From line number `first` up to line index `end` there is nothing but attributes. */
  ghost predicate OnlyAttributes(lines: seq<Line>, first: nat, end: nat)
    requires end <= |lines|
  {
    0 < first && forall j :: first - 1 <= j < end ==> InAttribute(lines, j)
  }

  lemma OnlyAttributesExtends(lines: seq<Line>, first: nat, n: nat)
    requires 0 < n <= |lines| && InAttribute(lines, n - 1)
    requires first == n || (first < n && OnlyAttributes(lines, first, n - 1))
    ensures OnlyAttributes(lines, first, n)
  {
  }

  lemma {:induction false} OpenIsCollecting(lines: seq<Line>, n: nat)
    requires n <= |lines|
    ensures Open(lines, n) <==> After(lines, n).collecting.Some?
  {
    if n > 0 {
      OpenIsCollecting(lines, n - 1);
    }
  }

  /** What one line can do to the pending attributes. */
  lemma PendingStep(s: State, line: Line, number: nat, a: Attr)
    requires a in Next(s, line, number).pending
    ensures s.collecting.Some? || line.opens
    ensures a in s.pending || a.line == if s.collecting.Some? then s.collecting.value.start else number
  {
  }

  lemma StartStep(s: State, line: Line, number: nat)
    requires Next(s, line, number).collecting.Some?
    ensures s.collecting.Some? || line.opens
    ensures Next(s, line, number).collecting.value.start == if s.collecting.Some? then s.collecting.value.start else number
  {
  }

  lemma {:induction false} StartContiguous(lines: seq<Line>, n: nat)
    requires n <= |lines| && After(lines, n).collecting.Some?
    ensures After(lines, n).collecting.value.start <= n && OnlyAttributes(lines, After(lines, n).collecting.value.start, n)
  {
    var s := After(lines, n - 1);
    StartStep(s, lines[n - 1], n);
    OpenIsCollecting(lines, n - 1);
    if s.collecting.Some? {
      StartContiguous(lines, n - 1);
    }
    OnlyAttributesExtends(lines, After(lines, n).collecting.value.start, n);
  }

  lemma {:induction false} PendingContiguous(lines: seq<Line>, n: nat, a: Attr)
    requires n <= |lines| && a in After(lines, n).pending
    ensures a.line <= n && OnlyAttributes(lines, a.line, n)
  {
    var s := After(lines, n - 1);
    PendingStep(s, lines[n - 1], n, a);
    OpenIsCollecting(lines, n - 1);
    if a in s.pending {
      PendingContiguous(lines, n - 1, a);
    } else if s.collecting.Some? {
      StartContiguous(lines, n - 1);
    }
    OnlyAttributesExtends(lines, a.line, n);
  }

  /** Where a hit comes from: an extern block at line index `e`, and an
      attribute in the unbroken run of attribute lines right before it. */
  ghost predicate HitFrom(lines: seq<Line>, hit: Hit, e: nat) {
    && e < |lines| && !Open(lines, e) && !lines[e].opens && lines[e].extern_
    && hit in BlockHits(After(lines, e).pending)
    && hit.line <= e && OnlyAttributes(lines, hit.line, e)
  }

  lemma {:induction false} HitsHaveAttr(attrs: seq<Attr>, base: bool, hit: Hit) returns (a: Attr)
    requires hit in HitsOf(attrs, base)
    ensures a in attrs && HitOf(a, base) == [hit]
  {
    var last := |attrs| - 1;
    if hit in HitOf(attrs[last], base) {
      a := attrs[last];
    } else {
      a := HitsHaveAttr(attrs[..last], base, hit);
    }
  }

  lemma NewHit(s: State, line: Line, number: nat, hit: Hit)
    requires hit in Next(s, line, number).hits && hit !in s.hits
    ensures s.collecting.None? && !line.opens && line.extern_ && hit in BlockHits(s.pending)
  {
  }

  /** Every reported hit belongs to the extern block its attribute run leads to. */
  lemma {:induction false} HitsDoNotLeak(lines: seq<Line>, n: nat, hit: Hit) returns (e: nat)
    requires n <= |lines| && hit in After(lines, n).hits
    ensures e < n && HitFrom(lines, hit, e)
  {
    var s := After(lines, n - 1);
    if hit in s.hits {
      e := HitsDoNotLeak(lines, n - 1, hit);
    } else {
      e := n - 1;
      NewHit(s, lines[e], n, hit);
      OpenIsCollecting(lines, e);
      var a := HitsHaveAttr(s.pending, BaseActive(s.pending), hit);
      PendingContiguous(lines, e, a);
      HitLine(a, BaseActive(s.pending), hit);
    }
  }

  lemma HitLine(a: Attr, base: bool, hit: Hit)
    requires HitOf(a, base) == [hit]
    ensures hit.line == a.line
  {
  }

  // ----------------------------------------- inactive hits are disabled everywhere

  ghost predicate FalseEverywhere(condition: string) {
    forall build: string -> bool :: Cfg.Completes(build) ==> !Cfg.HoldsText(condition, build)
  }

  /** A hit reported inactive is disabled in every build for the target: by a
      `cfg` of its block, or by the condition of its own attribute. */
  lemma InactiveIsDisabled(attrs: seq<Attr>, hit: Hit) returns (a: Attr, condition: string)
    requires hit in BlockHits(attrs) && !hit.active
    ensures a in attrs && FalseEverywhere(condition)
    ensures Condition(a.text) == Some(condition) ||
            (a.line == hit.line && ConditionalLink(a.text) == Some((hit.library, condition)))
  {
    if BaseActive(attrs) {
      a := HitsHaveAttr(attrs, true, hit);
      condition := ConditionalLink(a.text).value.1;
    } else {
      a :| a in attrs && Condition(a.text).Some? && Cfg.Eval(Condition(a.text).value) == Cfg.False;
      condition := Condition(a.text).value;
    }
    forall build: string -> bool | Cfg.Completes(build)
      ensures !Cfg.HoldsText(condition, build)
    {
      Cfg.TextSound(condition, build);
    }
  }

  /** Every row a scan emits as inactive comes from an extern block right behind
      an unbroken run of attributes, one of which disables it in every build. */
  lemma InactiveRowIsDisabled(lines: seq<Line>, hit: Hit) returns (e: nat, a: Attr, condition: string)
    requires hit in AllHits(lines) && !hit.active
    ensures HitFrom(lines, hit, e) && a in After(lines, e).pending && a.line <= e && OnlyAttributes(lines, a.line, e)
    ensures FalseEverywhere(condition)
    ensures Condition(a.text) == Some(condition) ||
            (a.line == hit.line && ConditionalLink(a.text) == Some((hit.library, condition)))
  {
    e := HitsDoNotLeak(lines, |lines|, hit);
    a, condition := InactiveIsDisabled(After(lines, e).pending, hit);
    OpenIsCollecting(lines, e);
    PendingContiguous(lines, e, a);
  }

  // --------------------------------------------------- written attributes are reported

  /** `link(name = "library")`, with any blanks around the sign. */
  function LinkText(before: string, after: string, library: string): string {
    "link(name" + Cfg.Assigning(before, after, library) + ")"
  }

  /** A library name that can be written in the attribute. */
  predicate Writable(before: string, after: string, library: string) {
    && Blank(before) && Blank(after) && library != ""
    && Free(library, '"') && Free(library, '(') && Free(library, ')') && Free(library, '#')
  }

  lemma Behind(s: string, i: nat, head: string, rest: string)
    requires i <= |s| && s[i..] == head + rest
    ensures i + |head| <= |s| && s[i + |head|..] == rest && StartsWith(s[i..], head)
  {
    assert s[i + |head|..] == s[i..][|head|..];
  }

  lemma LinkThere(s: string, i: nat, before: string, after: string, library: string, post: string)
    requires i <= |s| && s[i..] == "#[link(name" + (Cfg.Assigning(before, after, library) + (")]" + post))
    requires Blank(before) && Blank(after) && library != "" && Free(library, '"')
    ensures LinkAt(s, i) == Some(library)
  {
    var t := Cfg.Assigning(before, after, library);
    Behind(s, i, "#[link(name", t + (")]" + post));
    Cfg.AssignedWritten(s, i + 11, before, after, library, ")]" + post);
    Behind(s, i + 11, t, ")]" + post);
  }

  lemma {:induction false} FoundFrom(s: string, i: nat, k: nat)
    requires i <= k <= |s| && LinkAt(s, k).Some? && forall j :: i <= j < k ==> s[j] != '#'
    ensures SearchLink(s, i) == LinkAt(s, k)
    decreases k - i
  {
    if i < k {
      NoLinkWithout(s, i);
      FoundFrom(s, i + 1, k);
    }
  }

  lemma NoLinkWithout(s: string, i: nat)
    requires i < |s| && s[i] != '#'
    ensures LinkAt(s, i) == None
  {
    assert s[i..][0] == s[i];
  }

  lemma {:induction false} NotFoundFrom(s: string, i: nat)
    requires i <= |s| && forall j :: i <= j < |s| ==> s[j] != '#'
    ensures SearchLink(s, i) == None
    decreases |s| - i
  {
    if i < |s| {
      NoLinkWithout(s, i);
      NotFoundFrom(s, i + 1);
    }
  }

  lemma LinkSpelled(before: string, after: string, library: string, post: string)
    ensures "#[" + LinkText(before, after, library) + "]" + post
         == "#[link(name" + (Cfg.Assigning(before, after, library) + (")]" + post))
  {
  }

  /** A link attribute is found wherever it stands behind no other sign. */
  lemma LinkFound(pre: string, before: string, after: string, library: string, post: string)
    requires Free(pre, '#') && Writable(before, after, library)
    ensures SearchLink(pre + ("#[" + LinkText(before, after, library) + "]" + post), 0) == Some(library)
  {
    var tail := "#[" + LinkText(before, after, library) + "]" + post;
    var s := pre + tail;
    assert s[|pre|..] == tail;
    LinkSpelled(before, after, library, post);
    LinkThere(s, |pre|, before, after, library, post);
    FoundFrom(s, 0, |pre|);
  }

  lemma ArgumentIs(head: string, inner: string)
    requires inner != "" && Trimmed(inner)
    ensures Argument(head + inner + ")]", head) == Some(inner)
  {
    var attr := head + inner + ")]";
    assert attr[|head|..|attr| - 2] == inner;
    StripTrimmed(inner);
  }

  /** `#[cfg(tree)]` is the condition it spells. */
  lemma ConditionWritten(before: string, t: Cfg.Tree, after: string)
    requires Cfg.WellFormed(t) && Blank(before) && Blank(after)
    ensures Condition("#[cfg(" + Cfg.Padded(before, t, after) + ")]") == Some(Cfg.Print(t))
  {
    var attr, head, inner := "#[cfg(" + Cfg.Padded(before, t, after) + ")]", "#[cfg(", Cfg.Padded(before, t, after);
    assert attr[|head|..|attr| - 2] == inner;
    Cfg.StripPrinted(before, t, after);
  }

  /** `cfg_attr(tree, link(name = "library"))` between its brackets. */
  function Conditioned(t: Cfg.Tree, link: string): string {
    Cfg.Print(t) + [','] + (" " + link)
  }

  /** The text of a link is one part of a split. */
  lemma LinkPasses(before: string, after: string, library: string, current: string)
    requires Writable(before, after, library)
    ensures var link := LinkText(before, after, library);
            Cfg.Split(link, current, 0) == Cfg.Split("", current + link, 0)
  {
    var link, body := LinkText(before, after, library), "name" + Cfg.Assigning(before, after, library);
    assert link == "link" + (['('] + (body + ([')'] + "")));
    Cfg.PlainPasses("link", ['('] + (body + ([')'] + "")), current, 0);
    Cfg.Step('(', body + ([')'] + ""), current + "link", 0);
    BodyUnbroken(body, before, after, library);
    UnbrokenPasses(body, [')'] + "", current + "link" + ['('], 1);
    Cfg.Step(')', "", current + "link" + ['('] + body, 1);
    assert current + link == current + "link" + ['('] + body + [')'];
  }

  predicate Unbroken(s: string) {
    Free(s, '(') && Free(s, ')')
  }

  lemma BodyUnbroken(body: string, before: string, after: string, library: string)
    requires Writable(before, after, library) && body == "name" + Cfg.Assigning(before, after, library)
    ensures Unbroken(body)
  {
    forall k | 0 <= k < |before|
      ensures before[k] != '(' && before[k] != ')'
    {
    }
  }

  lemma {:induction false} UnbrokenPasses(s: string, rest: string, current: string, depth: nat)
    requires Unbroken(s) && depth > 0
    ensures Cfg.Split(s + rest, current, depth) == Cfg.Split(rest, current + s, depth)
  {
    if s == "" {
      assert s + rest == rest && current + s == current;
    } else {
      assert (s + rest)[1..] == s[1..] + rest && current + s == current + [s[0]] + s[1..];
      UnbrokenPasses(s[1..], rest, current + [s[0]], depth);
    }
  }

  lemma ConditionedParts(t: Cfg.Tree, before: string, after: string, library: string)
    requires Cfg.WellFormed(t) && Writable(before, after, library)
    ensures Cfg.Split(Conditioned(t, LinkText(before, after, library)), "", 0)
         == [Cfg.Print(t), LinkText(before, after, library)]
  {
    var link := LinkText(before, after, library);
    assert link[0] == 'l' && link[|link| - 1] == ')';
    LinkPasses(before, after, library, " ");
    TwoParts(t, link);
  }

  lemma LastPart(link: string)
    requires link != "" && Trimmed(link)
    ensures Cfg.Split("", " " + link, 0) == [link]
  {
    assert " " + link + "" == " " + link;
    StripPadded(" ", link, "");
  }

  lemma CommaSplits(part: string, more: string)
    requires Trimmed(part)
    ensures Cfg.Split([','] + more, part, 0) == [part] + Cfg.Split(more, "", 0)
  {
    StripTrimmed(part);
    assert ([','] + more)[1..] == more;
  }

  lemma BlankSplits(link: string)
    ensures Cfg.Split(" " + link, "", 0) == Cfg.Split(link, " ", 0)
  {
    Cfg.PlainPasses(" ", link, "", 0);
    assert "" + " " == " ";
  }

  lemma PrintedPasses(t: Cfg.Tree, rest: string)
    requires Cfg.WellFormed(t)
    ensures Cfg.Split(Cfg.Print(t) + rest, "", 0) == Cfg.Split(rest, Cfg.Print(t), 0)
  {
    Cfg.TreePasses(t, rest, "", 0);
    assert "" + Cfg.Print(t) == Cfg.Print(t);
  }

  lemma FirstPart(t: Cfg.Tree, more: string)
    requires Cfg.WellFormed(t)
    ensures Cfg.Split(Cfg.Print(t) + ([','] + more), "", 0) == [Cfg.Print(t)] + Cfg.Split(more, "", 0)
  {
    Cfg.PrintTrimmed(t);
    PrintedPasses(t, [','] + more);
    CommaSplits(Cfg.Print(t), more);
  }

  lemma SecondPart(link: string)
    requires link != "" && Trimmed(link)
    requires Cfg.Split(link, " ", 0) == Cfg.Split("", " " + link, 0)
    ensures Cfg.Split(" " + link, "", 0) == [link]
  {
    BlankSplits(link);
    LastPart(link);
  }

  lemma TwoParts(t: Cfg.Tree, link: string)
    requires Cfg.WellFormed(t) && link != "" && Trimmed(link)
    requires Cfg.Split(link, " ", 0) == Cfg.Split("", " " + link, 0)
    ensures Cfg.Split(Conditioned(t, link), "", 0) == [Cfg.Print(t), link]
  {
    FirstPart(t, " " + link);
    SecondPart(link);
    SplitConditioned(t, link);
  }

  lemma SplitConditioned(t: Cfg.Tree, link: string)
    ensures Conditioned(t, link) == Cfg.Print(t) + ([','] + (" " + link))
  {
  }

  lemma LinkNamed(before: string, after: string, library: string)
    requires Writable(before, after, library)
    ensures FirstLink([LinkText(before, after, library)]) == Some(library)
  {
    var link, t := LinkText(before, after, library), Cfg.Assigning(before, after, library);
    assert link[..9] == "link(name" && link[9..] == t + ")";
    Cfg.AssignedWritten(link, 9, before, after, library, ")");
    assert link[9 + |t|..] == link[9..][|t|..] == ")";
  }

  function CfgAttr(inner: string): string {
    "#[cfg_attr(" + inner + ")]"
  }

  /** A conditional link attribute gives its library and its condition. */
  lemma ConditionalWritten(t: Cfg.Tree, before: string, after: string, library: string)
    requires Cfg.WellFormed(t) && Free(Cfg.Print(t), '#') && Writable(before, after, library)
    ensures var attr := CfgAttr(Conditioned(t, LinkText(before, after, library)));
            SearchLink(attr, 0) == None && ConditionalLink(attr) == Some((library, Cfg.Print(t)))
  {
    var link := LinkText(before, after, library);
    var inner := Conditioned(t, link);
    Cfg.PrintTrimmed(t);
    assert inner[0] == Cfg.Print(t)[0] && inner[|inner| - 1] == ')';
    ArgumentIs("#[cfg_attr(", inner);
    ConditionedParts(t, before, after, library);
    LinkNamed(before, after, library);
    assert [Cfg.Print(t), link][1..] == [link];
    NoOtherSign(t, before, after, library);
    NoLinkIn(inner);
  }

  lemma NoLinkIn(inner: string)
    requires Free(inner, '#')
    ensures SearchLink(CfgAttr(inner), 0) == None
  {
    var attr := CfgAttr(inner);
    assert attr[0..][2] == 'c' && "#[link(name"[2] == 'l';
    NotFoundFrom(attr, 1);
  }

  lemma NoOtherSign(t: Cfg.Tree, before: string, after: string, library: string)
    requires Free(Cfg.Print(t), '#') && Writable(before, after, library)
    ensures Free(Conditioned(t, LinkText(before, after, library)), '#')
  {
    assert Free(before, '#') && Free(after, '#');
    assert Free(LinkText(before, after, library), '#');
  }

  lemma {:induction false} Stays(holds: nat -> bool, n: nat, m: nat)
    requires n <= m && holds(n) && forall j: nat :: n <= j < m && holds(j) ==> holds(j + 1)
    ensures holds(m)
  {
    if n < m {
      Stays(holds, n, m - 1);
    }
  }

  ghost predicate Has(lines: seq<Line>, hit: Hit, j: nat) {
    j <= |lines| && hit in After(lines, j).hits
  }

  lemma HasMore(lines: seq<Line>, hit: Hit, j: nat)
    requires j < |lines| && Has(lines, hit, j)
    ensures Has(lines, hit, j + 1)
  {
    NextKeeps(After(lines, j), lines[j], j + 1, hit);
  }

  ghost function Having(lines: seq<Line>, hit: Hit): nat -> bool {
    (j: nat) => Has(lines, hit, j)
  }

  lemma HavingStays(lines: seq<Line>, hit: Hit, j: nat)
    requires j < |lines| && Having(lines, hit)(j)
    ensures Having(lines, hit)(j + 1)
  {
    HasMore(lines, hit, j);
  }

  lemma HitsStay(lines: seq<Line>, n: nat, hit: Hit)
    requires n <= |lines| && hit in After(lines, n).hits
    ensures hit in AllHits(lines)
  {
    var holds := Having(lines, hit);
    assert holds(n);
    forall j: nat | n <= j < |lines| && holds(j)
      ensures holds(j + 1)
    {
      HavingStays(lines, hit, j);
    }
    Stays(holds, n, |lines|);
    assert Has(lines, hit, |lines|);
  }

  lemma NextKeeps(s: State, line: Line, number: nat, hit: Hit)
    requires hit in s.hits
    ensures hit in Next(s, line, number).hits
  {
  }

  lemma LastHits(attrs: seq<Attr>, a: Attr, hit: Hit)
    requires HitOf(a, BaseActive(attrs + [a])) == [hit]
    ensures hit in BlockHits(attrs + [a])
  {
    assert (attrs + [a])[..|attrs|] == attrs;
  }

  /** An attribute and an extern block, one behind the other. */
  lemma TwoLines(s: State, attr: Line, extern_: Line, number: nat, hit: Hit)
    requires s.collecting.None? && attr.opens && attr.closes && extern_.extern_ && !extern_.opens
    requires var a := Attr(number, attr.text); HitOf(a, BaseActive(s.pending + [a])) == [hit]
    ensures hit in Next(Next(s, attr, number), extern_, number + 1).hits
  {
    LastHits(s.pending, Attr(number, attr.text), hit);
  }

  /** Line index `k` holds an attribute, whole on its line, and the next starts an extern block. */
  predicate InFront(raws: seq<string>, k: nat, text: string) {
    && k + 1 < |raws| && !Open(ReadAll(raws), k)
    && Strip(raws[k]) == text && StartsWith(text, "#[") && EndsWith(text, "]")
    && (StartsWith(Strip(raws[k + 1]), "extern ") || StartsWith(Strip(raws[k + 1]), "unsafe extern "))
  }

  /** None of the conditions before the extern block is false, that of the attribute included. */
  predicate BaseAt(raws: seq<string>, k: nat)
    requires k < |raws|
  {
    BaseActive(After(ReadAll(raws), k).pending + [Attr(k + 1, Strip(raws[k]))])
  }

  /** What an attribute right before an extern block gives is reported. */
  lemma AttributeReported(raws: seq<string>, k: nat, text: string, hit: Hit)
    requires InFront(raws, k, text) && HitOf(Attr(k + 1, text), BaseAt(raws, k)) == [hit]
    ensures hit in AllHits(ReadAll(raws))
  {
    var lines := ReadAll(raws);
    OpenIsCollecting(lines, k);
    ExternNotOpening(raws[k + 1]);
    TwoLines(After(lines, k), lines[k], lines[k + 1], k + 1, hit);
    assert After(lines, k + 1) == Next(After(lines, k), lines[k], k + 1);
    assert After(lines, k + 2) == Next(After(lines, k + 1), lines[k + 1], k + 2);
    HitsStay(lines, k + 2, hit);
  }

  lemma ExternNotOpening(raw: string)
    requires StartsWith(Strip(raw), "extern ") || StartsWith(Strip(raw), "unsafe extern ")
    ensures !Read(raw).opens && Read(raw).extern_
  {
    assert "extern "[0] == 'e' && "unsafe extern "[0] == 'u' && "#["[0] == '#';
  }

  /** A link attribute right before an extern block gives a row with its library. */
  lemma LinkReported(raws: seq<string>, k: nat, before: string, after: string, library: string)
    requires InFront(raws, k, "#[" + LinkText(before, after, library) + "]") && Writable(before, after, library)
    ensures Hit(k + 1, library, BaseAt(raws, k)) in AllHits(ReadAll(raws))
  {
    LinkHit(k + 1, before, after, library, BaseAt(raws, k));
    AttributeReported(raws, k, "#[" + LinkText(before, after, library) + "]", Hit(k + 1, library, BaseAt(raws, k)));
  }

  /** An attribute on two lines is read as one, with a blank between, from its first line on. */
  lemma BrokenNext(s: State, first: Line, second: Line, number: nat)
    requires s.collecting.None? && first.opens && !first.closes && second.closes
    ensures Next(Next(s, first, number), second, number + 1)
         == State(s.pending + [Attr(number, first.text + " " + second.text)], None, s.hits)
  {
    var parts := [first.text, second.text];
    assert [first.text] + [second.text] == parts && parts[..1] == [first.text];
    assert Joined(parts) == first.text + " " + second.text;
  }

  lemma {:induction false} BrokenPending(lines: seq<Line>, k: nat)
    requires k + 1 < |lines| && !Open(lines, k) && lines[k].opens && !lines[k].closes && lines[k + 1].closes
    ensures var s := After(lines, k);
            After(lines, k + 2) == State(s.pending + [Attr(k + 1, lines[k].text + " " + lines[k + 1].text)], None, s.hits)
  {
    OpenIsCollecting(lines, k);
    BrokenNext(After(lines, k), lines[k], lines[k + 1], k + 1);
  }

  lemma {:induction false} PendingReported(lines: seq<Line>, j: nat, before: seq<Attr>, a: Attr, hits: seq<Hit>, hit: Hit)
    requires j < |lines| && lines[j].extern_ && !lines[j].opens && After(lines, j) == State(before + [a], None, hits)
    requires HitOf(a, BaseActive(before + [a])) == [hit]
    ensures hit in AllHits(lines)
  {
    LastHits(before, a, hit);
    assert hit in After(lines, j + 1).hits;
    HitsStay(lines, j + 1, hit);
  }

  lemma LinkHit(line: nat, before: string, after: string, library: string, base: bool)
    requires Writable(before, after, library)
    ensures HitOf(Attr(line, "#[" + LinkText(before, after, library) + "]"), base) == [Hit(line, library, base)]
  {
    var text := "#[" + LinkText(before, after, library) + "]";
    LinkFound("", before, after, library, "");
    assert "" + (text + "") == text;
  }

  /** A link attribute broken behind its sign gives the same row. */
  lemma BrokenLinkReported(raws: seq<string>, lines: seq<Line>, k: nat, pending: seq<Attr>, before: string, library: string)
    requires k + 2 < |raws| && lines == ReadAll(raws) && !Open(lines, k) && pending == After(lines, k).pending
    requires Writable(before, " ", library)
    requires Strip(raws[k]) == "#[link(name" + before + "=" && Strip(raws[k + 1]) == "\"" + library + "\")]"
    requires StartsWith(Strip(raws[k + 2]), "extern ") || StartsWith(Strip(raws[k + 2]), "unsafe extern ")
    ensures var a := Attr(k + 1, "#[" + LinkText(before, " ", library) + "]");
            Hit(k + 1, library, BaseActive(pending + [a])) in AllHits(lines)
  {
    var a := Attr(k + 1, "#[" + LinkText(before, " ", library) + "]");
    var base := BaseActive(pending + [a]);
    LinkHit(k + 1, before, " ", library, base);
    BrokenRead(raws, k, before, library);
    BrokenPending(lines, k);
    PendingReported(lines, k + 2, pending, a, After(lines, k).hits, Hit(k + 1, library, base));
  }

  lemma BrokenRead(raws: seq<string>, k: nat, before: string, library: string)
    requires k + 2 < |raws|
    requires Strip(raws[k]) == "#[link(name" + before + "=" && Strip(raws[k + 1]) == "\"" + library + "\")]"
    requires StartsWith(Strip(raws[k + 2]), "extern ") || StartsWith(Strip(raws[k + 2]), "unsafe extern ")
    ensures var lines := ReadAll(raws);
      && lines[k].opens && !lines[k].closes && lines[k + 1].closes && lines[k + 2].extern_ && !lines[k + 2].opens
      && lines[k].text + " " + lines[k + 1].text == "#[" + LinkText(before, " ", library) + "]"
  {
    ExternNotOpening(raws[k + 2]);
    BrokenText(before, library);
    BrokenFlags(raws[k], raws[k + 1], before, library);
  }

  lemma BrokenText(before: string, library: string)
    ensures "#[link(name" + before + "=" + " " + ("\"" + library + "\")]") == "#[" + LinkText(before, " ", library) + "]"
  {
  }

  lemma BrokenFlags(first: string, second: string, before: string, library: string)
    requires Strip(first) == "#[link(name" + before + "=" && Strip(second) == "\"" + library + "\")]"
    ensures Read(first).opens && !Read(first).closes && Read(second).closes
  {
    var a, b := Strip(first), Strip(second);
    assert a[..2] == "#[" && a[|a| - 1..] == "=" && b[|b| - 1..] == "]";
    assert "="[0] != "]"[0];
  }

  /** A conditional one gives a row that is active as its condition's value says. */
  lemma ConditionalReported(raws: seq<string>, k: nat, t: Cfg.Tree, before: string, after: string, library: string)
    requires InFront(raws, k, CfgAttr(Conditioned(t, LinkText(before, after, library))))
    requires Cfg.WellFormed(t) && Free(Cfg.Print(t), '#') && Writable(before, after, library)
    ensures Hit(k + 1, library, BaseAt(raws, k) && Cfg.Value(t) != Cfg.False) in AllHits(ReadAll(raws))
  {
    ConditionalWritten(t, before, after, library);
    Cfg.EvalPrintedBare(t);
    AttributeReported(raws, k, CfgAttr(Conditioned(t, LinkText(before, after, library))),
                      Hit(k + 1, library, BaseAt(raws, k) && Cfg.Value(t) != Cfg.False));
  }

  lemma BaseOfOne(a: Attr, condition: string)
    requires Condition(a.text) == Some(condition)
    ensures BaseActive([a]) <==> Cfg.Eval(condition) != Cfg.False
  {
    assert a in [a];
  }

  /** A block with one `cfg` in front is active unless its tree is false. */
  lemma ConditionDecides(line: nat, before: string, t: Cfg.Tree, after: string)
    requires Cfg.WellFormed(t) && Blank(before) && Blank(after)
    ensures BaseActive([Attr(line, "#[cfg(" + Cfg.Padded(before, t, after) + ")]")]) <==> Cfg.Value(t) != Cfg.False
  {
    ConditionWritten(before, t, after);
    Cfg.EvalPrintedBare(t);
    BaseOfOne(Attr(line, "#[cfg(" + Cfg.Padded(before, t, after) + ")]"), Cfg.Print(t));
  }
}
