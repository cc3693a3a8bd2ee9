/**
 The three-valued evaluator of Rust `cfg` expressions
 (scripts/generate_wasm_vm_link_blockers_summary.py), which works on the text.
 */
module Cfg {
  import opened Common
  import opened Text

  datatype TriState = True | False | Unknown

  // ------------------------------------------------------------- splitting

  /** The parts of `rest` at top-level commas, when `current` has been read of
      the current part and `depth` parentheses are open. */
  function Split(rest: string, current: string, depth: nat): seq<string>
    decreases |rest|
  {
    if rest == "" then
      var tail := Strip(current);
      if tail == "" then [] else [tail]
    else
      var c := rest[0];
      if c == ',' && depth == 0 then [Strip(current)] + Split(rest[1..], "", 0)
      else Split(rest[1..], current + [c], Depth(depth, c))
  }

  lemma {:induction false} SplitShortens(rest: string, current: string, depth: nat)
    ensures forall p :: p in Split(rest, current, depth) ==> |p| <= |current| + |rest|
    decreases |rest|
  {
    if rest != "" {
      SplitShortens(rest[1..], "", 0);
      SplitShortens(rest[1..], current + [rest[0]], Depth(depth, rest[0]));
    }
  }

  function Depth(depth: nat, c: char): nat {
    if c == '(' then depth + 1
    else if c == ')' && depth > 0 then depth - 1
    else depth
  }

  lemma SplitStep(raw: string, start: nat, idx: nat, depth: nat)
    requires start <= idx < |raw|
    ensures Split(raw[idx..], raw[start..idx], depth)
         == if raw[idx] == ',' && depth == 0
            then [Strip(raw[start..idx])] + Split(raw[idx + 1..], raw[idx + 1..idx + 1], 0)
            else Split(raw[idx + 1..], raw[start..idx + 1], Depth(depth, raw[idx]))
  {
    assert raw[idx..][0] == raw[idx] && raw[idx..][1..] == raw[idx + 1..];
    assert raw[start..idx + 1] == raw[start..idx] + [raw[idx]];
  }

  lemma SplitEnd(raw: string, start: nat, depth: nat)
    requires start <= |raw|
    ensures var tail := Strip(raw[start..]);
            Split(raw[|raw|..], raw[start..|raw|], depth) == if tail == "" then [] else [tail]
  {
    assert raw[|raw|..] == "" && raw[start..|raw|] == raw[start..];
  }

  method SplitTopLevelCommas(raw: string) returns (parts: seq<string>)
    ensures parts == Split(raw, "", 0)
  {
    parts := [];
    var depth: nat, start: nat := 0, 0;
    assert raw[0..] == raw;
    for idx := 0 to |raw|
      invariant 0 <= start <= idx
      invariant Split(raw, "", 0) == parts + Split(raw[idx..], raw[start..idx], depth)
    {
      SplitStep(raw, start, idx, depth);
      var c := raw[idx];
      if c == '(' {
        depth := depth + 1;
      } else if c == ')' {
        depth := if depth - 1 > 0 then depth - 1 else 0;
      } else if c == ',' && depth == 0 {
        ghost var rest := Split(raw[idx + 1..], raw[idx + 1..idx + 1], 0);
        assert parts + ([Strip(raw[start..idx])] + rest) == parts + [Strip(raw[start..idx])] + rest;
        parts := parts + [Strip(raw[start..idx])];
        start := idx + 1;
      }
    }
    var tail := Strip(raw[start..]);
    SplitEnd(raw, start, depth);
    if tail != "" {
      parts := parts + [tail];
    }
  }

  // ------------------------------------------------------ predicates and text

  function SkipSpaces(s: string, i: nat): (j: nat)
    requires i <= |s|
    ensures i <= j <= |s|
    decreases |s| - i
  {
    if i < |s| && PySpace(s[i]) then SkipSpaces(s, i + 1) else i
  }

  function FindQuote(s: string, i: nat): (j: nat)
    requires i <= |s|
    ensures i <= j <= |s|
    decreases |s| - i
  {
    if i < |s| && s[i] != '"' then FindQuote(s, i + 1) else i
  }

  /** Matches `\s*=\s*"([^"]+)"` from `i`: the value and the end of the match. */
  function AssignedValue(s: string, i: nat): (r: Option<(string, nat)>)
    requires i <= |s|
    ensures r.Some? ==> r.value.1 <= |s|
  {
    var eq := SkipSpaces(s, i);
    if eq < |s| && s[eq] == '=' then
      var open := SkipSpaces(s, eq + 1);
      if open < |s| && s[open] == '"' then
        var close := FindQuote(s, open + 1);
        if open + 1 < close < |s| then Some((s[open + 1..close], close + 1)) else None
      else None
    else None
  }

  function TargetKey(expr: string): (r: Option<string>)
    ensures r.Some? ==> |r.value| <= |expr|
  {
    if StartsWith(expr, "target_arch") then Some("target_arch")
    else if StartsWith(expr, "target_os") then Some("target_os")
    else if StartsWith(expr, "target_family") then Some("target_family")
    else None
  }

  function TargetKeyValue(expr: string): Option<(string, string)> {
    match TargetKey(expr)
    case None => None
    case Some(key) =>
      match AssignedValue(expr, |key|)
      case None => None
      case Some((value, end)) => if end == |expr| then Some((key, value)) else None
  }

  /** The wasm target: not unix, not windows, arch wasm32, os unknown, family wasm. */
  function Predicate(raw: string): TriState {
    var expr := Strip(raw);
    if expr == "unix" || expr == "windows" then False
    else if expr == "debug_assertions" then Unknown
    else
      match TargetKeyValue(expr)
      case None => Unknown
      case Some((key, value)) =>
        if key == "target_arch" then if value == "wasm32" then True else False
        else if key == "target_os" then if value == "unknown" then True else False
        else if value == "wasm" then True else False
  }

  // --------------------------------------------- what the target is known to be

  /** `="value"` with blanks around the sign. */
  function Assigning(before: string, after: string, value: string): string {
    before + "=" + after + "\"" + value + "\""
  }

  ghost predicate IsAssigning(text: string, value: string) {
    && value != "" && Free(value, '"')
    && exists before, after :: Blank(before) && Blank(after) && text == Assigning(before, after, value)
  }

  lemma SkipSpacesIs(s: string, i: nat, j: nat)
    requires i <= j <= |s| && Blank(s[i..j]) && (j < |s| ==> !PySpace(s[j]))
    ensures SkipSpaces(s, i) == j
    decreases j - i
  {
    if i < j {
      assert s[i] == s[i..j][0] && s[i + 1..j] == s[i..j][1..];
      SkipSpacesIs(s, i + 1, j);
    }
  }

  lemma {:induction false} SkippedBlank(s: string, i: nat)
    requires i <= |s|
    ensures Blank(s[i..SkipSpaces(s, i)])
    decreases |s| - i
  {
    if i < |s| && PySpace(s[i]) {
      SkippedBlank(s, i + 1);
      var j := SkipSpaces(s, i);
      assert s[i..j] == [s[i]] + s[i + 1..j];
    }
  }

  lemma {:induction false} QuoteFound(s: string, i: nat)
    requires i <= |s|
    ensures Free(s[i..FindQuote(s, i)], '"') && (FindQuote(s, i) < |s| ==> s[FindQuote(s, i)] == '"')
    decreases |s| - i
  {
    if i < |s| && s[i] != '"' {
      QuoteFound(s, i + 1);
      var j := FindQuote(s, i);
      assert s[i..j] == [s[i]] + s[i + 1..j];
    }
  }

  lemma FindQuoteIs(s: string, i: nat, j: nat)
    requires i <= j < |s| && s[j] == '"' && forall k :: i <= k < j ==> s[k] != '"'
    ensures FindQuote(s, i) == j
    decreases j - i
  {
    if i < j {
      FindQuoteIs(s, i + 1, j);
    }
  }

  /** The places of the sign and the quotes in a text that assigns. */
  predicate AssignsAt(s: string, i: nat, eq: nat, open: nat, close: nat) {
    && i <= eq < open && open + 1 < close < |s|
    && Blank(s[i..eq]) && s[eq] == '=' && Blank(s[eq + 1..open]) && s[open] == '"'
    && Free(s[open + 1..close], '"') && s[close] == '"'
  }

  lemma AssignsThere(s: string, i: nat, eq: nat, open: nat, close: nat)
    requires AssignsAt(s, i, eq, open, close)
    ensures AssignedValue(s, i) == Some((s[open + 1..close], close + 1))
  {
    SkipSpacesIs(s, i, eq);
    SkipSpacesIs(s, eq + 1, open);
    forall k | open + 1 <= k < close
      ensures s[k] != '"'
    {
      assert s[k] == s[open + 1..close][k - open - 1];
    }
    FindQuoteIs(s, open + 1, close);
  }

  lemma AssignedThere(s: string, i: nat) returns (eq: nat, open: nat, close: nat)
    requires i <= |s| && AssignedValue(s, i).Some?
    ensures AssignsAt(s, i, eq, open, close) && AssignedValue(s, i) == Some((s[open + 1..close], close + 1))
  {
    eq := SkipSpaces(s, i);
    open := SkipSpaces(s, eq + 1);
    close := FindQuote(s, open + 1);
    SkippedBlank(s, i);
    SkippedBlank(s, eq + 1);
    QuoteFound(s, open + 1);
  }

  lemma AssigningPieces(s: string, i: nat, eq: nat, open: nat, close: nat)
    requires AssignsAt(s, i, eq, open, close)
    ensures s[i..close + 1] == Assigning(s[i..eq], s[eq + 1..open], s[open + 1..close])
  {
  }

  lemma PiecesAssign(before: string, after: string, value: string, rest: string)
    requires Blank(before) && Blank(after) && value != "" && Free(value, '"')
    ensures var eq, open := |before|, |before| + 1 + |after|;
      && AssignsAt(Assigning(before, after, value) + rest, 0, eq, open, open + 1 + |value|)
      && (Assigning(before, after, value) + rest)[open + 1..open + 1 + |value|] == value
  {
    var eq, open := |before|, |before| + 1 + |after|;
    var s := Assigning(before, after, value) + rest;
    assert s[0..eq] == before && s[eq + 1..open] == after && s[open + 1..open + 1 + |value|] == value;
  }

  lemma AssignsShifted(s: string, i: nat, eq: nat, open: nat, close: nat)
    requires i <= |s| && AssignsAt(s[i..], 0, eq, open, close)
    ensures AssignsAt(s, i, i + eq, i + open, i + close)
    ensures s[i + open + 1..i + close] == s[i..][open + 1..close]
  {
    var t := s[i..];
    assert s[i..i + eq] == t[0..eq] && s[i + eq + 1..i + open] == t[eq + 1..open];
    assert s[i + open + 1..i + close] == t[open + 1..close];
  }

  /** What is read as an assignment is one. */
  lemma AssignedText(s: string, i: nat)
    requires i <= |s| && AssignedValue(s, i).Some?
    ensures var (value, end) := AssignedValue(s, i).value;
            i <= end && IsAssigning(s[i..end], value)
  {
    var eq, open, close := AssignedThere(s, i);
    AssigningPieces(s, i, eq, open, close);
  }

  /** A written assignment is read as one. */
  lemma AssignedWritten(s: string, i: nat, before: string, after: string, value: string, rest: string)
    requires i <= |s| && s[i..] == Assigning(before, after, value) + rest
    requires Blank(before) && Blank(after) && value != "" && Free(value, '"')
    ensures i + |Assigning(before, after, value)| <= |s|
    ensures AssignedValue(s, i) == Some((value, i + |Assigning(before, after, value)|))
  {
    var eq, open := |before|, |before| + 1 + |after|;
    var close := open + 1 + |value|;
    PiecesAssign(before, after, value, rest);
    AssignsShifted(s, i, eq, open, close);
    AssignsThere(s, i, i + eq, i + open, i + close);
  }

  /** The value that each key of the target has. */
  const TARGET: map<string, string> := map["target_arch" := "wasm32", "target_os" := "unknown", "target_family" := "wasm"]

  /** `key = "value"` for a key of the target. */
  ghost predicate Assigns(atom: string, key: string, value: string) {
    key in TARGET && key <= atom && IsAssigning(atom[|key|..], value)
  }

  lemma TargetKeyIs(atom: string, key: string)
    requires key in TARGET
    ensures TargetKey(atom) == Some(key) <==> key <= atom
  {
    assert "target_arch"[7] == 'a' && "target_os"[7] == 'o' && "target_family"[7] == 'f';
    assert key == "target_arch" || key == "target_os" || key == "target_family";
  }

  lemma AssignsIs(atom: string, key: string, value: string)
    ensures Assigns(atom, key, value) <==> TargetKeyValue(atom) == Some((key, value))
  {
    if Assigns(atom, key, value) {
      TargetKeyIs(atom, key);
      var before, after :| Blank(before) && Blank(after) && atom[|key|..] == Assigning(before, after, value);
      AssignedWritten(atom, |key|, before, after, value, "");
    }
    if TargetKeyValue(atom) == Some((key, value)) {
      TargetKeyIs(atom, key);
      AssignedText(atom, |key|);
      assert atom[|key|..|atom|] == atom[|key|..];
    }
  }

  /** The atom says of the target what is so. */
  ghost predicate IsSo(atom: string) {
    exists key, value :: Assigns(atom, key, value) && value == TARGET[key]
  }

  /** The atom says what is not so: the target is neither Unix nor Windows, and
      its keys have no other values. */
  ghost predicate IsNotSo(atom: string) {
    atom == "unix" || atom == "windows" || exists key, value :: Assigns(atom, key, value) && value != TARGET[key]
  }

  /** The predicate is true of what is so, false of what is not, and unknown of all else. */
  lemma PredicateIs(raw: string)
    ensures Predicate(raw) == True <==> IsSo(Strip(raw))
    ensures Predicate(raw) == False <==> IsNotSo(Strip(raw))
  {
    var atom := Strip(raw);
    SaysOfKey(atom);
    NamesAssignNothing();
    TargetValues();
  }

  lemma TargetValues()
    ensures TARGET["target_arch"] == "wasm32" && TARGET["target_os"] == "unknown" && TARGET["target_family"] == "wasm"
    ensures "target_arch" != "target_os" && "target_arch" != "target_family" && "target_os" != "target_family"
  {
    assert |"target_arch"| == 11 && |"target_os"| == 9 && |"target_family"| == 13;
  }

  lemma SaysOfKey(atom: string)
    ensures var kv := TargetKeyValue(atom);
      && (kv.Some? ==> kv.value.0 in TARGET)
      && (IsSo(atom) <==> kv.Some? && TARGET[kv.value.0] == kv.value.1)
      && (IsNotSo(atom) <==> atom == "unix" || atom == "windows" || (kv.Some? && TARGET[kv.value.0] != kv.value.1))
  {
    forall key, value
      ensures Assigns(atom, key, value) <==> TargetKeyValue(atom) == Some((key, value))
    {
      AssignsIs(atom, key, value);
    }
    var kv := TargetKeyValue(atom);
    assert kv.Some? ==> Assigns(atom, kv.value.0, kv.value.1);
  }

  lemma NamesAssignNothing()
    ensures TargetKeyValue("unix") == TargetKeyValue("windows") == TargetKeyValue("debug_assertions") == None
  {
    assert "target_arch"[0] == 't' && "target_os"[0] == 't' && "target_family"[0] == 't';
    assert "unix"[0] == 'u' && "windows"[0] == 'w' && "debug_assertions"[0] == 'd';
  }

  function Invert(v: TriState): TriState {
    match v
    case True => False
    case False => True
    case Unknown => Unknown
  }

  function AnyOf(values: seq<TriState>): TriState {
    if True in values then True
    else if values != [] && (forall v :: v in values ==> v == False) then False
    else Unknown
  }

  function AllOf(values: seq<TriState>): TriState {
    if False in values then False
    else if values != [] && (forall v :: v in values ==> v == True) then True
    else Unknown
  }

  predicate Call(expr: string, head: string) {
    StartsWith(expr, head) && EndsWith(expr, ")") && |head| == 4
  }

  function Inner(expr: string): (r: string)
    requires |expr| > 4
    ensures |r| == |expr| - 5
  {
    expr[4..|expr| - 1]
  }

  /** One round of reading: the text is an atom, or a call with a body. */
  datatype Shape = Leaf | CfgCall | AnyCall | AllCall | NotCall

  function ShapeOf(expr: string): (s: Shape)
    ensures !s.Leaf? ==> |expr| > 4
  {
    if |expr| <= 4 then Leaf
    else if Call(expr, "cfg(") then CfgCall
    else if Call(expr, "any(") then AnyCall
    else if Call(expr, "all(") then AllCall
    else if Call(expr, "not(") then NotCall
    else Leaf
  }

  function Eval(raw: string): TriState
    decreases |raw|, 0, 0
  {
    var expr := Strip(raw);
    match ShapeOf(expr)
    case Leaf => Predicate(expr)
    case CfgCall => Eval(Strip(Inner(expr)))
    case AnyCall => AnyOf(EvalList(Inner(expr)))
    case AllCall => AllOf(EvalList(Inner(expr)))
    case NotCall => Invert(Eval(Inner(expr)))
  }

  function EvalList(inner: string): seq<TriState>
    decreases |inner|, 2, 0
  {
    SplitShortens(inner, "", 0);
    EvalParts(Split(inner, "", 0), |inner|)
  }

  function EvalParts(parts: seq<string>, bound: nat): (r: seq<TriState>)
    requires forall p :: p in parts ==> |p| <= bound
    ensures |r| == |parts|
    decreases bound, 1, |parts|
  {
    if parts == [] then [] else [Eval(parts[0])] + EvalParts(parts[1..], bound)
  }

  // -------------------------------------------------------- expression trees

  datatype Tree =
    | Atom(text: string)
    | Any(args: Args)
    | All(args: Args)
    | Not(before: string, arg: Tree, after: string)
    | Wrapped(before: string, arg: Tree, after: string)

  /** Arguments, each with the blanks around it. */
  datatype Args = NoArgs | Arg(before: string, head: Tree, after: string, tail: Args)

  function Head(t: Tree): (h: string)
    ensures |h| == 4 && h[3] == '(' && Plain(h[..3]) && Trimmed(h)
  {
    match t
    case Any(_) => "any("
    case All(_) => "all("
    case Not(_, _, _) => "not("
    case _ => "cfg("
  }

  function Body(t: Tree): string
    decreases t, 0
  {
    match t
    case Atom(text) => text
    case Any(args) => PrintArgs(args)
    case All(args) => PrintArgs(args)
    case Not(before, arg, after) => Padded(before, arg, after)
    case Wrapped(before, arg, after) => Padded(before, arg, after)
  }

  function Print(t: Tree): string
    decreases t, 1
  {
    if t.Atom? then t.text else Head(t) + Body(t) + [')']
  }

  function Padded(before: string, t: Tree, after: string): string
    decreases t, 2
  {
    before + Print(t) + after
  }

  function PrintArgs(args: Args): string {
    match args
    case NoArgs => ""
    case Arg(before, head, after, NoArgs) => Padded(before, head, after)
    case Arg(before, head, after, tail) => Padded(before, head, after) + [','] + PrintArgs(tail)
  }

  /** Atoms are free of parentheses and commas; padding is blank. */
  predicate WellFormed(t: Tree) {
    match t
    case Atom(text) => text != "" && Trimmed(text) && Plain(text)
    case Any(args) => WellFormedArgs(args)
    case All(args) => WellFormedArgs(args)
    case Not(before, arg, after) => Blank(before) && Blank(after) && WellFormed(arg)
    case Wrapped(before, arg, after) => Blank(before) && Blank(after) && WellFormed(arg)
  }

  predicate WellFormedArgs(args: Args) {
    args.Arg? ==> Blank(args.before) && Blank(args.after) && WellFormed(args.head) && WellFormedArgs(args.tail)
  }

  predicate Plain(s: string) {
    forall i :: 0 <= i < |s| ==> s[i] != '(' && s[i] != ')' && s[i] != ','
  }

  /** The value the tree has when atoms have theirs and empty lists are unknown. */
  function Value(t: Tree): TriState {
    match t
    case Atom(text) => Predicate(text)
    case Any(args) => AnyOf(Values(args))
    case All(args) => AllOf(Values(args))
    case Not(_, arg, _) => Invert(Value(arg))
    case Wrapped(_, arg, _) => Value(arg)
  }

  function Values(args: Args): seq<TriState> {
    if args.NoArgs? then [] else [Value(args.head)] + Values(args.tail)
  }

  // ------------------------------------- a printed tree is one part of a split

  lemma {:induction false} PlainPasses(s: string, rest: string, current: string, depth: nat)
    requires Plain(s)
    ensures Split(s + rest, current, depth) == Split(rest, current + s, depth)
  {
    if s == "" {
      assert s + rest == rest && current + s == current;
    } else {
      assert (s + rest)[1..] == s[1..] + rest && current + s == current + [s[0]] + s[1..];
      PlainPasses(s[1..], rest, current + [s[0]], depth);
    }
  }

  lemma BlankPlain(s: string)
    requires Blank(s)
    ensures Plain(s)
  {
  }

  lemma Step(c: char, rest: string, current: string, depth: nat)
    requires c != ',' || depth > 0
    ensures Split([c] + rest, current, depth) == Split(rest, current + [c], Depth(depth, c))
  {
    assert ([c] + rest)[1..] == rest;
  }

  lemma {:induction false} PaddedPasses(before: string, t: Tree, after: string, rest: string, current: string, depth: nat)
    requires WellFormed(t) && Blank(before) && Blank(after)
    ensures Split(Padded(before, t, after) + rest, current, depth) == Split(rest, current + Padded(before, t, after), depth)
    decreases t, 2
  {
    var text := Print(t);
    BlankPlain(before);
    BlankPlain(after);
    assert before + text + after + rest == before + (text + (after + rest));
    PlainPasses(before, text + (after + rest), current, depth);
    TreePasses(t, after + rest, current + before, depth);
    PlainPasses(after, rest, current + before + text, depth);
    assert current + (before + text + after) == current + before + text + after;
  }

  /** A head like `any(`, a body read at depth at least one, and the closing parenthesis. */
  lemma CallPasses(head: string, body: string, rest: string, current: string, depth: nat)
    requires |head| == 4 && head[3] == '(' && Plain(head[..3])
    requires Split(body + ([')'] + rest), current + head, depth + 1) == Split([')'] + rest, current + head + body, depth + 1)
    ensures Split(head + body + [')'] + rest, current, depth) == Split(rest, current + (head + body + [')']), depth)
  {
    var after := body + ([')'] + rest);
    assert head + body + [')'] + rest == head[..3] + (['('] + after);
    PlainPasses(head[..3], ['('] + after, current, depth);
    Step('(', after, current + head[..3], depth);
    assert current + head[..3] + ['('] == current + head;
    Step(')', rest, current + head + body, depth + 1);
    assert current + (head + body + [')']) == current + head + body + [')'];
  }

  lemma {:induction false} TreePasses(t: Tree, rest: string, current: string, depth: nat)
    requires WellFormed(t)
    ensures Split(Print(t) + rest, current, depth) == Split(rest, current + Print(t), depth)
    decreases t, 1
  {
    if t.Atom? {
      PlainPasses(t.text, rest, current, depth);
    } else {
      BodyPasses(t, [')'] + rest, current + Head(t), depth + 1);
      CallPasses(Head(t), Body(t), rest, current, depth);
    }
  }

  lemma {:induction false} BodyPasses(t: Tree, rest: string, current: string, depth: nat)
    requires WellFormed(t) && !t.Atom? && depth > 0
    ensures Split(Body(t) + rest, current, depth) == Split(rest, current + Body(t), depth)
    decreases t, 0
  {
    match t
    case Any(args) => ArgsPass(args, rest, current, depth);
    case All(args) => ArgsPass(args, rest, current, depth);
    case Not(before, arg, after) => PaddedPasses(before, arg, after, rest, current, depth);
    case Wrapped(before, arg, after) => PaddedPasses(before, arg, after, rest, current, depth);
  }

  lemma CommaPasses(first: string, more: string, rest: string, current: string, depth: nat)
    requires depth > 0
    requires Split(first + ([','] + (more + rest)), current, depth) == Split([','] + (more + rest), current + first, depth)
    requires Split(more + rest, current + first + [','], depth) == Split(rest, current + first + [','] + more, depth)
    ensures Split(first + [','] + more + rest, current, depth) == Split(rest, current + (first + [','] + more), depth)
  {
    assert first + [','] + more + rest == first + ([','] + (more + rest));
    Step(',', more + rest, current + first, depth);
    assert current + (first + [','] + more) == current + first + [','] + more;
  }

  lemma {:induction false} ArgsPass(args: Args, rest: string, current: string, depth: nat)
    requires WellFormedArgs(args) && depth > 0
    ensures Split(PrintArgs(args) + rest, current, depth) == Split(rest, current + PrintArgs(args), depth)
    decreases args, 0
  {
    match args
    case NoArgs => assert "" + rest == rest && current + "" == current;
    case Arg(before, head, after, tail) =>
      var first, more := Padded(before, head, after), PrintArgs(tail);
      if tail.NoArgs? {
        PaddedPasses(before, head, after, rest, current, depth);
      } else {
        PaddedPasses(before, head, after, [','] + (more + rest), current, depth);
        ArgsPass(tail, rest, current + first + [','], depth);
        CommaPasses(first, more, rest, current, depth);
      }
  }

  // ------------------------------------------- evaluating text, evaluating trees

  function Texts(args: Args): seq<string> {
    if args.NoArgs? then [] else [Print(args.head)] + Texts(args.tail)
  }

  lemma PrintTrimmed(t: Tree)
    requires WellFormed(t)
    ensures Print(t) != "" && Trimmed(Print(t))
  {
    if !t.Atom? {
      assert Print(t)[0] == Head(t)[0] && Print(t)[|Print(t)| - 1] == ')';
    }
  }

  lemma StripPrinted(before: string, t: Tree, after: string)
    requires WellFormed(t) && Blank(before) && Blank(after)
    ensures Strip(Padded(before, t, after)) == Print(t)
  {
    PrintTrimmed(t);
    StripPadded(before, Print(t), after);
  }

  /** Splitting a printed argument list gives the printed arguments back. */
  lemma {:induction false} SplitArgs(args: Args)
    requires WellFormedArgs(args)
    ensures Split(PrintArgs(args), "", 0) == Texts(args)
  {
    match args
    case NoArgs =>
    case Arg(before, head, after, tail) =>
      var first, more := Padded(before, head, after), PrintArgs(tail);
      PrintTrimmed(head);
      StripPrinted(before, head, after);
      assert "" + first == first;
      if tail.NoArgs? {
        PaddedPasses(before, head, after, "", "", 0);
        assert first + "" == first;
      } else {
        PaddedPasses(before, head, after, [','] + more, "", 0);
        assert first + [','] + more == first + ([','] + more);
        assert ([','] + more)[1..] == more;
        SplitArgs(tail);
      }
  }

  lemma CallOf(t: Tree, head: string)
    requires WellFormed(t) && |head| == 4
    ensures t.Atom? ==> !Call(Print(t), head)
    ensures !t.Atom? ==> (Call(Print(t), head) <==> head == Head(t)) && |Print(t)| > 4 && Inner(Print(t)) == Body(t)
  {
    if !t.Atom? {
      assert Print(t)[..4] == Head(t);
    }
  }

  lemma ShapeOfPrinted(t: Tree)
    requires WellFormed(t)
    ensures ShapeOf(Print(t)) == match t { case Atom(_) => Leaf case Any(_) => AnyCall case All(_) => AllCall
                                           case Not(_, _, _) => NotCall case Wrapped(_, _, _) => CfgCall }
    ensures !t.Atom? ==> |Print(t)| > 4 && Inner(Print(t)) == Body(t)
  {
    CallOf(t, "cfg(");
    CallOf(t, "any(");
    CallOf(t, "all(");
    CallOf(t, "not(");
  }

  /** Evaluating the text of a tree, blanks around it included, gives its value. */
  lemma {:induction false} EvalPrinted(before: string, t: Tree, after: string)
    requires WellFormed(t) && Blank(before) && Blank(after)
    ensures Eval(Padded(before, t, after)) == Value(t)
    decreases t, 1
  {
    StripPrinted(before, t, after);
    PrintTrimmed(t);
    StripTrimmed(Print(t));
    ShapeOfPrinted(t);
    match t
    case Atom(_) =>
    case Any(args) => EvalPrintedArgs(args);
    case All(args) => EvalPrintedArgs(args);
    case Not(b, arg, a) => EvalPrinted(b, arg, a);
    case Wrapped(b, arg, a) =>
      StripPrinted(b, arg, a);
      EvalPrintedBare(arg);
  }

  lemma {:induction false} EvalPrintedBare(t: Tree)
    requires WellFormed(t)
    ensures Eval(Print(t)) == Value(t)
    decreases t, 2
  {
    assert Padded("", t, "") == Print(t);
    EvalPrinted("", t, "");
  }

  lemma {:induction false} EvalPrintedArgs(args: Args)
    requires WellFormedArgs(args)
    ensures EvalList(PrintArgs(args)) == Values(args)
    decreases args, 1
  {
    SplitArgs(args);
    SplitShortens(PrintArgs(args), "", 0);
    EvalPrintedParts(args, |PrintArgs(args)|);
  }

  lemma {:induction false} EvalPrintedParts(args: Args, bound: nat)
    requires WellFormedArgs(args) && forall p :: p in Texts(args) ==> |p| <= bound
    ensures EvalParts(Texts(args), bound) == Values(args)
    decreases args, 0
  {
    if args.Arg? {
      assert Texts(args)[0] == Print(args.head) && Texts(args)[1..] == Texts(args.tail);
      EvalPrintedBare(args.head);
      EvalPrintedParts(args.tail, bound);
    }
  }

  // ------------------------------------------------- Kleene's three-valued logic

  /** Position in False < Unknown < True. */
  function Rank(v: TriState): int {
    match v
    case False => 0
    case Unknown => 1
    case True => 2
  }

  function Join(a: TriState, b: TriState): TriState {
    if Rank(a) >= Rank(b) then a else b
  }

  function Meet(a: TriState, b: TriState): TriState {
    if Rank(a) <= Rank(b) then a else b
  }

  /** Strong Kleene value: `any` is the maximum, `all` the minimum. */
  function Kleene(t: Tree): TriState {
    match t
    case Atom(text) => Predicate(text)
    case Any(args) => Maximum(args)
    case All(args) => Minimum(args)
    case Not(_, arg, _) => Invert(Kleene(arg))
    case Wrapped(_, arg, _) => Kleene(arg)
  }

  function Maximum(args: Args): TriState {
    if args.NoArgs? then False else Join(Kleene(args.head), Maximum(args.tail))
  }

  function Minimum(args: Args): TriState {
    if args.NoArgs? then True else Meet(Kleene(args.head), Minimum(args.tail))
  }

  /** No `any()` or `all()` without arguments. */
  predicate NoEmptyLists(t: Tree) {
    match t
    case Atom(_) => true
    case Any(args) => args.Arg? && NoEmptyArgs(args)
    case All(args) => args.Arg? && NoEmptyArgs(args)
    case Not(_, arg, _) => NoEmptyLists(arg)
    case Wrapped(_, arg, _) => NoEmptyLists(arg)
  }

  predicate NoEmptyArgs(args: Args) {
    args.Arg? ==> NoEmptyLists(args.head) && NoEmptyArgs(args.tail)
  }

  /** The code's value never contradicts Kleene's; it is Kleene's on trees
      without empty lists. */
  lemma {:induction false} ValueBelowKleene(t: Tree)
    ensures Value(t) == Unknown || Value(t) == Kleene(t)
    ensures NoEmptyLists(t) ==> Value(t) == Kleene(t)
  {
    match t
    case Atom(_) =>
    case Any(args) => ValuesBelowKleene(args);
    case All(args) => ValuesBelowKleene(args);
    case Not(_, arg, _) => ValueBelowKleene(arg);
    case Wrapped(_, arg, _) => ValueBelowKleene(arg);
  }

  lemma {:induction false} ValuesBelowKleene(args: Args)
    ensures AnyOf(Values(args)) == Unknown || AnyOf(Values(args)) == Maximum(args)
    ensures AllOf(Values(args)) == Unknown || AllOf(Values(args)) == Minimum(args)
    ensures args.Arg? && NoEmptyArgs(args) ==> AnyOf(Values(args)) == Maximum(args) && AllOf(Values(args)) == Minimum(args)
  {
    if args.Arg? {
      ValueBelowKleene(args.head);
      ValuesBelowKleene(args.tail);
      AnyAllCons(Value(args.head), Values(args.tail));
      assert Values(args.tail) == [] <==> args.tail.NoArgs?;
    }
  }

  lemma AnyAllCons(v: TriState, values: seq<TriState>)
    ensures AnyOf([v] + values) == if values == [] then v else Join(v, AnyOf(values))
    ensures AllOf([v] + values) == if values == [] then v else Meet(v, AllOf(values))
  {
    var all := [v] + values;
    assert v in all && forall u :: u in all <==> u == v || u in values;
    assert (forall u :: u in all ==> u == False) <==> v == False && (forall u :: u in values ==> u == False);
    assert (forall u :: u in all ==> u == True) <==> v == True && (forall u :: u in values ==> u == True);
  }

  /** On an empty list the code answers unknown where Kleene, like Rust, does
      not: the two agree on a call of `any` or `all` exactly when it has arguments. */
  lemma EmptyListUnknown(args: Args)
    requires WellFormedArgs(args) && NoEmptyArgs(args)
    ensures Eval(Print(Any(args))) == Kleene(Any(args)) <==> args.Arg?
    ensures Eval(Print(All(args))) == Kleene(All(args)) <==> args.Arg?
  {
    EvalPrintedBare(Any(args));
    EvalPrintedBare(All(args));
    ValuesBelowKleene(args);
  }

  /** The same tree with other atoms, each occurrence by itself. */
  predicate SameShape(t: Tree, u: Tree) {
    match (t, u)
    case (Atom(_), Atom(_)) => true
    case (Any(a), Any(b)) => SameShapeArgs(a, b)
    case (All(a), All(b)) => SameShapeArgs(a, b)
    case (Not(_, a, _), Not(_, b, _)) => SameShape(a, b)
    case (Wrapped(_, a, _), Wrapped(_, b, _)) => SameShape(a, b)
    case _ => false
  }

  predicate SameShapeArgs(a: Args, b: Args) {
    (a.Arg? <==> b.Arg?) && (a.Arg? ==> SameShape(a.head, b.head) && SameShapeArgs(a.tail, b.tail))
  }

  lemma {:induction false} SameLists(t: Tree, u: Tree)
    requires SameShape(t, u)
    ensures NoEmptyLists(t) <==> NoEmptyLists(u)
  {
    match t
    case Atom(_) =>
    case Any(args) => SameListsArgs(args, u.args);
    case All(args) => SameListsArgs(args, u.args);
    case Not(_, arg, _) => SameLists(arg, u.arg);
    case Wrapped(_, arg, _) => SameLists(arg, u.arg);
  }

  lemma {:induction false} SameListsArgs(a: Args, b: Args)
    requires SameShapeArgs(a, b)
    ensures NoEmptyArgs(a) <==> NoEmptyArgs(b)
  {
    if a.Arg? {
      SameLists(a.head, b.head);
      SameListsArgs(a.tail, b.tail);
    }
  }

  /** An atom known to be true and one known to be false. */
  datatype Known = Known(yes: string, no: string)

  predicate IsKnown(k: Known) {
    WellFormed(Atom(k.yes)) && WellFormed(Atom(k.no)) && Predicate(k.yes) == True && Predicate(k.no) == False
  }

  function Definite(want: bool): TriState {
    if want then True else False
  }

  /** `target_arch="wasm32"` assigns its value. */
  lemma ReadsArch(s: string)
    requires s == "target_arch=\"wasm32\""
    ensures AssignedValue(s, 11) == Some(("wasm32", |s|)) && TargetKey(s) == Some("target_arch")
  {
    assert s[11] == '=' && s[12] == '"';
    FindQuoteIs(s, 13, 19);
    assert s[13..19] == "wasm32";
    assert s[..11] == "target_arch";
  }

  lemma ArchFormed(s: string)
    requires s == "target_arch=\"wasm32\""
    ensures WellFormed(Atom(s)) && Strip(s) == s
  {
    assert s[0] == 't' && s[|s| - 1] == '"';
    StripTrimmed(s);
  }

  lemma ArchKnown() returns (s: string)
    ensures WellFormed(Atom(s)) && Predicate(s) == True
  {
    s := "target_arch=\"wasm32\"";
    ReadsArch(s);
    ArchFormed(s);
    assert |"target_arch"| == 11;
  }

  lemma UnixKnown() returns (s: string)
    ensures WellFormed(Atom(s)) && Predicate(s) == False
  {
    s := "unix";
    StripTrimmed(s);
  }

  /** The wasm target knows both kinds. */
  lemma KnownAtoms() returns (k: Known)
    ensures IsKnown(k)
  {
    var yes := ArchKnown();
    var no := UnixKnown();
    k := Known(yes, no);
  }

  /** The tree with known atoms that give it the value wanted. */
  function Forced(k: Known, t: Tree, want: bool): Tree {
    match t
    case Atom(_) => Atom(if want then k.yes else k.no)
    case Any(args) => Any(ForcedArgs(k, args, want))
    case All(args) => All(ForcedArgs(k, args, want))
    case Not(before, arg, after) => Not(before, Forced(k, arg, !want), after)
    case Wrapped(before, arg, after) => Wrapped(before, Forced(k, arg, want), after)
  }

  function ForcedArgs(k: Known, args: Args, want: bool): Args {
    if args.NoArgs? then NoArgs
    else Arg(args.before, Forced(k, args.head, want), args.after, ForcedArgs(k, args.tail, want))
  }

  lemma {:induction false} ForcedIs(k: Known, t: Tree, want: bool)
    requires IsKnown(k) && WellFormed(t) && NoEmptyLists(t)
    ensures WellFormed(Forced(k, t, want)) && SameShape(t, Forced(k, t, want))
    ensures Value(Forced(k, t, want)) == Definite(want)
  {
    match t
    case Atom(_) =>
    case Any(args) => ForcedArgsAre(k, args, want);
    case All(args) => ForcedArgsAre(k, args, want);
    case Not(_, arg, _) => ForcedIs(k, arg, !want);
    case Wrapped(_, arg, _) => ForcedIs(k, arg, want);
  }

  lemma {:induction false} ForcedArgsAre(k: Known, args: Args, want: bool)
    requires IsKnown(k) && WellFormedArgs(args) && NoEmptyArgs(args)
    ensures WellFormedArgs(ForcedArgs(k, args, want)) && SameShapeArgs(args, ForcedArgs(k, args, want))
    ensures forall v :: v in Values(ForcedArgs(k, args, want)) ==> v == Definite(want)
    ensures args.Arg? ==> Definite(want) in Values(ForcedArgs(k, args, want))
  {
    if args.Arg? {
      ForcedIs(k, args.head, want);
      ForcedArgsAre(k, args.tail, want);
    }
  }

  /** The tree with atoms under which its empty list shows: siblings without
      one give way. */
  function Separated(k: Known, t: Tree): Tree {
    match t
    case Atom(_) => t
    case Any(args) => Any(SeparatedArgs(k, args, false))
    case All(args) => All(SeparatedArgs(k, args, true))
    case Not(before, arg, after) => Not(before, Separated(k, arg), after)
    case Wrapped(before, arg, after) => Wrapped(before, Separated(k, arg), after)
  }

  function SeparatedArgs(k: Known, args: Args, give: bool): Args {
    if args.NoArgs? then NoArgs
    else Arg(args.before, if NoEmptyLists(args.head) then Forced(k, args.head, give) else Separated(k, args.head), args.after,
             SeparatedArgs(k, args.tail, give))
  }

  lemma {:induction false} SeparatedDiffers(k: Known, t: Tree)
    requires IsKnown(k) && WellFormed(t) && !NoEmptyLists(t)
    ensures WellFormed(Separated(k, t)) && SameShape(t, Separated(k, t))
    ensures Value(Separated(k, t)) == Unknown && Kleene(Separated(k, t)) != Unknown
  {
    match t
    case Any(args) => SeparatedArgsDiffer(k, args, false);
    case All(args) => SeparatedArgsDiffer(k, args, true);
    case Not(_, arg, _) => SeparatedDiffers(k, arg);
    case Wrapped(_, arg, _) => SeparatedDiffers(k, arg);
  }

  lemma {:induction false} SeparatedArgsDiffer(k: Known, args: Args, give: bool)
    requires IsKnown(k) && WellFormedArgs(args)
    ensures var u := SeparatedArgs(k, args, give);
      && WellFormedArgs(u) && SameShapeArgs(args, u)
      && (forall v :: v in Values(u) ==> v == Definite(give) || v == Unknown)
      && (!NoEmptyArgs(args) ==> Unknown in Values(u))
      && Maximum(u) != Unknown && Minimum(u) != Unknown
  {
    if args.Arg? {
      SeparatedArgsDiffer(k, args.tail, give);
      if NoEmptyLists(args.head) {
        ForcedIs(k, args.head, give);
        ValueBelowKleene(Forced(k, args.head, give));
      } else {
        SeparatedDiffers(k, args.head);
      }
    }
  }

  /** The code meets Kleene's logic on a tree, whatever its atoms, if and only
      if no call in it is empty: an empty list anywhere shows for some atoms. */
  lemma EmptyListsShow(t: Tree)
    requires WellFormed(t)
    ensures NoEmptyLists(t) <==> forall u :: SameShape(t, u) && WellFormed(u) ==> Eval(Print(u)) == Kleene(u)
  {
    if NoEmptyLists(t) {
      forall u | SameShape(t, u) && WellFormed(u)
        ensures Eval(Print(u)) == Kleene(u)
      {
        SameLists(t, u);
        EvalPrintedBare(u);
        ValueBelowKleene(u);
      }
    } else {
      var k := KnownAtoms();
      SeparatedDiffers(k, t);
      EvalPrintedBare(Separated(k, t));
    }
  }

  // --------------------------------------------------- completions of the unknown

  /** A build: a truth value for every atom, the target's own where it says something of it. */
  ghost predicate Completes(build: string -> bool) {
    forall atom: string :: (IsSo(Strip(atom)) ==> build(atom)) && (IsNotSo(Strip(atom)) ==> !build(atom))
  }

  /** The build gives every atom the code's own answer where that is definite. */
  ghost predicate Answered(build: string -> bool) {
    forall atom: string :: Predicate(atom) != Unknown ==> (build(atom) <==> Predicate(atom) == True)
  }

  /** The answers are the target's: these are the same builds. */
  lemma CompletesIsAnswered(build: string -> bool)
    ensures Completes(build) <==> Answered(build)
  {
    forall atom: string
      ensures Predicate(atom) == True <==> IsSo(Strip(atom))
      ensures Predicate(atom) == False <==> IsNotSo(Strip(atom))
    {
      PredicateIs(atom);
    }
  }

  /** Rust's two-valued meaning. */
  predicate Holds(t: Tree, build: string -> bool) {
    match t
    case Atom(text) => build(text)
    case Any(args) => SomeHold(args, build)
    case All(args) => EachHolds(args, build)
    case Not(_, arg, _) => !Holds(arg, build)
    case Wrapped(_, arg, _) => Holds(arg, build)
  }

  predicate SomeHold(args: Args, build: string -> bool) {
    args.Arg? && (Holds(args.head, build) || SomeHold(args.tail, build))
  }

  predicate EachHolds(args: Args, build: string -> bool) {
    args.Arg? ==> Holds(args.head, build) && EachHolds(args.tail, build)
  }

  lemma {:induction false} KleeneFollows(t: Tree, build: string -> bool)
    requires Answered(build)
    ensures Kleene(t) == True ==> Holds(t, build)
    ensures Kleene(t) == False ==> !Holds(t, build)
  {
    match t
    case Atom(_) =>
    case Any(args) => ArgsFollow(args, build);
    case All(args) => ArgsFollow(args, build);
    case Not(_, arg, _) => KleeneFollows(arg, build);
    case Wrapped(_, arg, _) => KleeneFollows(arg, build);
  }

  lemma {:induction false} ArgsFollow(args: Args, build: string -> bool)
    requires Answered(build)
    ensures Maximum(args) == True ==> SomeHold(args, build)
    ensures Maximum(args) == False ==> !SomeHold(args, build)
    ensures Minimum(args) == True ==> EachHolds(args, build)
    ensures Minimum(args) == False ==> !EachHolds(args, build)
  {
    if args.Arg? {
      KleeneFollows(args.head, build);
      ArgsFollow(args.tail, build);
    }
  }

  lemma KleeneSound(t: Tree, build: string -> bool)
    requires Completes(build)
    ensures Kleene(t) == True ==> Holds(t, build)
    ensures Kleene(t) == False ==> !Holds(t, build)
  {
    CompletesIsAnswered(build);
    KleeneFollows(t, build);
  }

  /** A definite answer for the text of a tree holds in every build. */
  lemma EvalSound(before: string, t: Tree, after: string, build: string -> bool)
    requires WellFormed(t) && Blank(before) && Blank(after) && Completes(build)
    ensures Eval(Padded(before, t, after)) == True ==> Holds(t, build)
    ensures Eval(Padded(before, t, after)) == False ==> !Holds(t, build)
  {
    EvalPrinted(before, t, after);
    ValueBelowKleene(t);
    KleeneSound(t, build);
  }

  // ---------------------------------------------------- meaning of arbitrary text

  /** The two-valued meaning of any text, read the way the evaluator reads it. */
  predicate HoldsText(raw: string, build: string -> bool)
    decreases |raw|, 0, 0
  {
    var expr := Strip(raw);
    match ShapeOf(expr)
    case Leaf => build(expr)
    case CfgCall => HoldsText(Strip(Inner(expr)), build)
    case AnyCall => SomeText(Inner(expr), build)
    case AllCall => EachText(Inner(expr), build)
    case NotCall => !HoldsText(Inner(expr), build)
  }

  predicate SomeText(inner: string, build: string -> bool)
    decreases |inner|, 2, 0
  {
    SplitShortens(inner, "", 0);
    SomePart(Split(inner, "", 0), |inner|, build)
  }

  predicate EachText(inner: string, build: string -> bool)
    decreases |inner|, 2, 0
  {
    SplitShortens(inner, "", 0);
    EachPart(Split(inner, "", 0), |inner|, build)
  }

  predicate SomePart(parts: seq<string>, bound: nat, build: string -> bool)
    requires forall p :: p in parts ==> |p| <= bound
    decreases bound, 1, |parts|
  {
    parts != [] && (HoldsText(parts[0], build) || SomePart(parts[1..], bound, build))
  }

  predicate EachPart(parts: seq<string>, bound: nat, build: string -> bool)
    requires forall p :: p in parts ==> |p| <= bound
    decreases bound, 1, |parts|
  {
    parts != [] ==> HoldsText(parts[0], build) && EachPart(parts[1..], bound, build)
  }

  lemma {:induction false} TextFollows(raw: string, build: string -> bool)
    requires Answered(build)
    ensures Eval(raw) == True ==> HoldsText(raw, build)
    ensures Eval(raw) == False ==> !HoldsText(raw, build)
    decreases |raw|, 0, 0
  {
    var expr := Strip(raw);
    match ShapeOf(expr)
    case Leaf =>
    case CfgCall => TextFollows(Strip(Inner(expr)), build);
    case AnyCall => ListFollows(Inner(expr), build);
    case AllCall => ListFollows(Inner(expr), build);
    case NotCall => TextFollows(Inner(expr), build);
  }

  lemma {:induction false} ListFollows(inner: string, build: string -> bool)
    requires Answered(build)
    ensures AnyOf(EvalList(inner)) == True ==> SomeText(inner, build)
    ensures AnyOf(EvalList(inner)) == False ==> !SomeText(inner, build)
    ensures AllOf(EvalList(inner)) == True ==> EachText(inner, build)
    ensures AllOf(EvalList(inner)) == False ==> !EachText(inner, build)
    decreases |inner|, 2, 0
  {
    SplitShortens(inner, "", 0);
    PartsFollow(Split(inner, "", 0), |inner|, build);
  }

  lemma {:induction false} PartsFollow(parts: seq<string>, bound: nat, build: string -> bool)
    requires Answered(build) && forall p :: p in parts ==> |p| <= bound
    ensures AnyOf(EvalParts(parts, bound)) == True ==> SomePart(parts, bound, build)
    ensures AnyOf(EvalParts(parts, bound)) == False ==> !SomePart(parts, bound, build)
    ensures AllOf(EvalParts(parts, bound)) == True ==> EachPart(parts, bound, build)
    ensures AllOf(EvalParts(parts, bound)) == False ==> !EachPart(parts, bound, build)
    decreases bound, 1, |parts|
  {
    if parts != [] {
      TextFollows(parts[0], build);
      PartsFollow(parts[1..], bound, build);
      AnyAllCons(Eval(parts[0]), EvalParts(parts[1..], bound));
    }
  }

  /** Definite answers are right for any text, printed tree or not. */
  lemma TextSound(raw: string, build: string -> bool)
    requires Completes(build)
    ensures Eval(raw) == True ==> HoldsText(raw, build)
    ensures Eval(raw) == False ==> !HoldsText(raw, build)
  {
    CompletesIsAnswered(build);
    TextFollows(raw, build);
  }

  /** On the text of a tree the reading is Rust's. */
  lemma {:induction false} TextMeaning(before: string, t: Tree, after: string, build: string -> bool)
    requires WellFormed(t) && Blank(before) && Blank(after)
    ensures HoldsText(Padded(before, t, after), build) == Holds(t, build)
    decreases t, 1
  {
    StripPrinted(before, t, after);
    ShapeOfPrinted(t);
    match t
    case Atom(_) =>
    case Any(args) => TextMeaningArgs(args, build);
    case All(args) => TextMeaningArgs(args, build);
    case Not(b, arg, a) => TextMeaning(b, arg, a, build);
    case Wrapped(b, arg, a) =>
      StripPrinted(b, arg, a);
      TextMeaning("", arg, "", build);
      assert Padded("", arg, "") == Print(arg);
  }

  lemma {:induction false} TextMeaningArgs(args: Args, build: string -> bool)
    requires WellFormedArgs(args)
    ensures SomeText(PrintArgs(args), build) == SomeHold(args, build)
    ensures EachText(PrintArgs(args), build) == EachHolds(args, build)
    decreases args, 1
  {
    SplitArgs(args);
    SplitShortens(PrintArgs(args), "", 0);
    TextMeaningParts(args, |PrintArgs(args)|, build);
  }

  lemma {:induction false} TextMeaningParts(args: Args, bound: nat, build: string -> bool)
    requires WellFormedArgs(args) && forall p :: p in Texts(args) ==> |p| <= bound
    ensures SomePart(Texts(args), bound, build) == SomeHold(args, build)
    ensures EachPart(Texts(args), bound, build) == EachHolds(args, build)
    decreases args, 0
  {
    if args.Arg? {
      assert Texts(args)[1..] == Texts(args.tail);
      TextMeaning("", args.head, "", build);
      assert Padded("", args.head, "") == Print(args.head);
      TextMeaningParts(args.tail, bound, build);
    }
  }

  // ------------------------------------------- unknown answers on read-once trees

  function OpenAtoms(t: Tree): set<string> {
    match t
    case Atom(text) => if Predicate(text) == Unknown then {text} else {}
    case Any(args) => OpenAtomsOf(args)
    case All(args) => OpenAtomsOf(args)
    case Not(_, arg, _) => OpenAtoms(arg)
    case Wrapped(_, arg, _) => OpenAtoms(arg)
  }

  function OpenAtomsOf(args: Args): set<string> {
    if args.NoArgs? then {} else OpenAtoms(args.head) + OpenAtomsOf(args.tail)
  }

  /** No unknown atom occurs twice. */
  predicate ReadOnce(t: Tree) {
    match t
    case Atom(_) => true
    case Any(args) => ReadOnceArgs(args)
    case All(args) => ReadOnceArgs(args)
    case Not(_, arg, _) => ReadOnce(arg)
    case Wrapped(_, arg, _) => ReadOnce(arg)
  }

  predicate ReadOnceArgs(args: Args) {
    args.Arg? ==> ReadOnce(args.head) && ReadOnceArgs(args.tail) && OpenAtoms(args.head) !! OpenAtomsOf(args.tail)
  }

  ghost predicate Agree(a: string -> bool, b: string -> bool, atoms: set<string>) {
    forall atom :: atom in atoms ==> a(atom) == b(atom)
  }

  lemma {:induction false} HoldsDependsOnOpen(t: Tree, a: string -> bool, b: string -> bool)
    requires Answered(a) && Answered(b) && Agree(a, b, OpenAtoms(t))
    ensures Holds(t, a) == Holds(t, b)
  {
    match t
    case Atom(_) =>
    case Any(args) => ArgsDependOnOpen(args, a, b);
    case All(args) => ArgsDependOnOpen(args, a, b);
    case Not(_, arg, _) => HoldsDependsOnOpen(arg, a, b);
    case Wrapped(_, arg, _) => HoldsDependsOnOpen(arg, a, b);
  }

  lemma {:induction false} ArgsDependOnOpen(args: Args, a: string -> bool, b: string -> bool)
    requires Answered(a) && Answered(b) && Agree(a, b, OpenAtomsOf(args))
    ensures SomeHold(args, a) == SomeHold(args, b) && EachHolds(args, a) == EachHolds(args, b)
  {
    if args.Arg? {
      HoldsDependsOnOpen(args.head, a, b);
      ArgsDependOnOpen(args.tail, a, b);
    }
  }

  /** `a` on the given atoms, `b` elsewhere. */
  ghost function Patched(a: string -> bool, atoms: set<string>, b: string -> bool): string -> bool {
    atom => if atom in atoms then a(atom) else b(atom)
  }

  lemma PatchedAnswers(a: string -> bool, atoms: set<string>, b: string -> bool, others: set<string>)
    requires Answered(a) && Answered(b) && atoms !! others
    ensures Answered(Patched(a, atoms, b))
    ensures Agree(Patched(a, atoms, b), a, atoms) && Agree(Patched(a, atoms, b), b, others)
  {
  }

  /** Some build gives the tree the wanted value unless its Kleene value is the opposite. */
  lemma {:induction false} Attain(t: Tree, want: bool) returns (build: string -> bool)
    requires ReadOnce(t) && Kleene(t) != (if want then False else True)
    ensures Answered(build) && Holds(t, build) == want
    decreases t, 1
  {
    match t
    case Atom(text) => build := atom => if Predicate(atom) == Unknown then want else Predicate(atom) == True;
    case Any(args) => build := AttainAny(args, want);
    case All(args) => build := AttainAll(args, want);
    case Not(_, arg, _) => build := Attain(arg, !want);
    case Wrapped(_, arg, _) => build := Attain(arg, want);
  }

  lemma {:induction false} AttainAny(args: Args, want: bool) returns (build: string -> bool)
    requires ReadOnceArgs(args) && Maximum(args) != (if want then False else True)
    ensures Answered(build) && SomeHold(args, build) == want
    decreases args, 0
  {
    if args.NoArgs? {
      build := atom => Predicate(atom) == True;
    } else if want && Kleene(args.head) != False {
      build := Attain(args.head, true);
    } else if want {
      build := AttainAny(args.tail, true);
    } else {
      var a := Attain(args.head, false);
      var b := AttainAny(args.tail, false);
      build := Patched(a, OpenAtoms(args.head), b);
      PatchedAnswers(a, OpenAtoms(args.head), b, OpenAtomsOf(args.tail));
      HoldsDependsOnOpen(args.head, build, a);
      ArgsDependOnOpen(args.tail, build, b);
    }
  }

  lemma {:induction false} AttainAll(args: Args, want: bool) returns (build: string -> bool)
    requires ReadOnceArgs(args) && Minimum(args) != (if want then False else True)
    ensures Answered(build) && EachHolds(args, build) == want
    decreases args, 0
  {
    if args.NoArgs? {
      build := atom => Predicate(atom) == True;
    } else if !want && Kleene(args.head) != True {
      build := Attain(args.head, false);
    } else if !want {
      build := AttainAll(args.tail, false);
    } else {
      var a := Attain(args.head, true);
      var b := AttainAll(args.tail, true);
      build := Patched(a, OpenAtoms(args.head), b);
      PatchedAnswers(a, OpenAtoms(args.head), b, OpenAtomsOf(args.tail));
      HoldsDependsOnOpen(args.head, build, a);
      ArgsDependOnOpen(args.tail, build, b);
    }
  }

  /** On read-once trees without empty lists the answer is exact: true or false
      when every build agrees, unknown when builds differ. */
  lemma EvalExact(before: string, t: Tree, after: string)
    requires WellFormed(t) && Blank(before) && Blank(after) && ReadOnce(t) && NoEmptyLists(t)
    ensures Eval(Padded(before, t, after)) == True <==> forall build :: Completes(build) ==> Holds(t, build)
    ensures Eval(Padded(before, t, after)) == False <==> forall build :: Completes(build) ==> !Holds(t, build)
  {
    EvalPrinted(before, t, after);
    ValueBelowKleene(t);
    forall build: string -> bool | Completes(build)
      ensures Kleene(t) == True ==> Holds(t, build)
      ensures Kleene(t) == False ==> !Holds(t, build)
    {
      KleeneSound(t, build);
    }
    if Kleene(t) != True {
      var refuting := Attain(t, false);
      CompletesIsAnswered(refuting);
    }
    if Kleene(t) != False {
      var confirming := Attain(t, true);
      CompletesIsAnswered(confirming);
    }
  }
}
