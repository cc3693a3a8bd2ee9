/** The REPL input state machine of `src/repl_core.rs`: pending text, line
    submission, and what a whole session does with every line. The parser and
    the lexer are parameters. */
module Repl {
  import opened Common
  import opened Text
  import opened Bits
  import opened ReplScan

  datatype ParseError = ParseError(message: string, offset: nat, line: nat, column: nat)

  datatype Front<M> = Front(parse: string -> Result<M, ParseError>, lex: string -> Option<seq<Token>>)

  datatype Outcome<M> =
    | NeedMoreInput
    | Ready(source: string, tree: M)
    | Rejected(source: string, error: ParseError)

  // ------------------------------------------------- is more input needed

  predicate AllSpace(s: string) {
    forall i :: 0 <= i < |s| ==> RustSpace(s[i])
  }

  function TrimEnd(s: string): (r: string)
    ensures r <= s && (r != "" ==> !RustSpace(r[|r| - 1]))
    ensures r == "" <==> AllSpace(s)
  {
    if s != "" && RustSpace(s[|s| - 1]) then TrimEnd(s[..|s| - 1]) else s
  }

  /** The length of a text in bytes. */
  function Utf8Len(s: string): nat {
    if s == "" then 0
    else
      Utf8Len(s[..|s| - 1]) + Utf8Bytes(s[|s| - 1])
  }

  function Utf8Bytes(c: char): nat {
    var n := c as int;
    if n < 0x80 then 1 else if n < 0x800 then 2 else if n < 0x1_0000 then 3 else 4
  }

  function Lower(s: string): (r: string)
    ensures |r| == |s| && forall i :: 0 <= i < |s| ==> r[i] == LowerChar(s[i])
  {
    seq(|s|, i requires 0 <= i < |s| => LowerChar(s[i]))
  }

  predicate Contains(s: string, part: string) {
    exists i :: 0 <= i <= |s| && part <= s[i..]
  }

  /** Column `column` of line `line`, both counted from one, starts a triple-quoted string. */
  predicate TripleQuoteAt(source: string, line: nat, column: nat) {
    var lines := Lines(source);
    var row := if line == 0 then 0 else line - 1;
    var skip := if column == 0 then 0 else column - 1;
    row < |lines| && skip <= |lines[row]| && TripleQuoteToken(lines[row][skip..])
  }

  /** The messages that always ask for more input. */
  predicate AsksForMore(message: string) {
    || Contains(message, "expected indent") || Contains(message, "expected dedent")
    || Contains(message, "expected rparen") || Contains(message, "expected rbracket")
    || Contains(message, "expected rbrace")
  }

  predicate Incomplete<M>(front: Front<M>, source: string, err: ParseError) {
    var message, visible := Lower(err.message), TrimEnd(source);
    && visible != ""
    && if Contains(message, "unterminated string literal") then TripleQuoteAt(source, err.line, err.column)
       else || Contains(message, "unterminated escape sequence")
            || visible[|visible| - 1] == '\\' || visible[|visible| - 1] == ':'
            || (front.lex(source).Some? && Unclosed(front.lex(source).value))
            || err.offset >= Utf8Len(source)
            || AsksForMore(message)
  }

  /** A parsed block still open at its end, and a line that is not blank. */
  predicate BlockOpen<M>(front: Front<M>, source: string, line: string) {
    !AllSpace(line) && front.lex(source).Some? && EndsInDedent(front.lex(source).value, Utf8Len(source))
  }

  /** What a submission of `line` that completes `source` must answer. */
  function Decide<M>(front: Front<M>, source: string, line: string): Outcome<M> {
    match front.parse(source)
    case Ok(tree) => if BlockOpen(front, source, line) then NeedMoreInput else Ready(source, tree)
    case Err(e) => if Incomplete(front, source, e) then NeedMoreInput else Rejected(source, e)
  }

  method StartsWithTripleQuoteAt(source: string, line: nat, column: nat) returns (r: bool)
    ensures r <==> TripleQuoteAt(source, line, column)
  {
    var lines := Lines(source);
    var row := if line == 0 then 0 else line - 1;
    if row >= |lines| {
      return false;
    }
    var skipped := 0;
    while skipped + 1 < column
      invariant 0 <= skipped <= |lines[row]|
      invariant skipped <= if column == 0 then 0 else column - 1
    {
      if skipped == |lines[row]| {
        return false;
      }
      skipped := skipped + 1;
    }
    r := StartsWithTripleQuoteToken(lines[row][skipped..]);
  }

  method InputIsIncomplete<M>(front: Front<M>, source: string, err: ParseError) returns (r: bool)
    ensures r <==> Incomplete(front, source, err)
  {
    var trimmed := TrimEnd(source);
    if trimmed == "" {
      return false;
    }
    var message := Lower(err.message);
    if Contains(message, "unterminated string literal") {
      r := StartsWithTripleQuoteAt(source, err.line, err.column);
      return;
    }
    if Contains(message, "unterminated escape sequence") {
      return true;
    }
    if trimmed[|trimmed| - 1] == '\\' || trimmed[|trimmed| - 1] == ':' {
      return true;
    }
    var unclosed := HasUnclosedDelimiters(front.lex(source));
    if unclosed {
      return true;
    }
    if err.offset >= Utf8Len(source) {
      return true;
    }
    return AsksForMore(message);
  }

  method ParseSuccessRequiresMoreInput<M>(front: Front<M>, source: string, line: string) returns (r: bool)
    ensures r <==> BlockOpen(front, source, line)
  {
    if AllSpace(line) {
      return false;
    }
    r := HasEofImpliedDedent(front.lex(source), Utf8Len(source));
  }

  /** `strip_suffix('\n')`. */
  function ParseCandidateSource(pending: string): (r: string)
    ensures r + ['\n'] == pending || (r == pending && (r != "" ==> r[|r| - 1] != '\n'))
  {
    if pending != "" && pending[|pending| - 1] == '\n' then
      assert pending[..|pending| - 1] + ['\n'] == pending;
      pending[..|pending| - 1]
    else pending
  }

  // ------------------------------------------- what decides, in its own terms

  /** How many bits a character has room for in one to four bytes. */
  const UTF8_BITS: seq<nat> := [7, 11, 16, 21]

  /** The length of a text is that of its characters together. */
  lemma {:induction false} Utf8LenSum(a: string, b: string)
    ensures Utf8Len(a + b) == Utf8Len(a) + Utf8Len(b)
    ensures forall c :: Utf8Len([c]) == Utf8Bytes(c)
  {
    forall c
      ensures Utf8Len([c]) == Utf8Bytes(c)
    {
      assert [c][..0] == "";
    }
    if b == "" {
      assert a + b == a;
    } else {
      assert (a + b)[..|a + b| - 1] == a + b[..|b| - 1];
      Utf8LenSum(a, b[..|b| - 1]);
    }
  }

  /** Lines and columns count from one. */
  lemma TripleQuotePlace(lines: seq<string>, row: nat, skip: nat)
    requires AllWhole(lines) && row < |lines| && skip <= |lines[row]|
    ensures TripleQuoteAt(Ended(lines), row + 1, skip + 1) <==> TripleQuoteToken(lines[row][skip..])
  {
    LinesOfEnded(lines);
  }

  /** A character takes the least number of bytes that has room for it. */
  lemma Utf8Least(c: char, n: nat)
    requires 1 <= n <= 4
    ensures Utf8Bytes(c) <= n <==> c as int < Pow2(UTF8_BITS[n - 1])
  {
    assert Pow2(7) == 128 && Pow2(11) == 16 * Pow2(7) && Pow2(16) == 32 * Pow2(11) && Pow2(21) == 32 * Pow2(16);
  }

  /** The text has a character that is not white space. */
  ghost predicate Visible(s: string) {
    exists i :: 0 <= i < |s| && s[i] as int !in WHITE_SPACE
  }

  lemma VisibleIs(s: string)
    ensures Visible(s) <==> !AllSpace(s)
  {
    forall i | 0 <= i < |s|
      ensures RustSpace(s[i]) <==> s[i] as int in WHITE_SPACE
    {
      BlanksAre(s[i]);
    }
  }

  /** The last visible character is `c`. */
  ghost predicate EndsVisiblyIn(s: string, c: char) {
    exists i: nat :: LastVisible(s, i) && s[i] == c
  }

  /** Nothing behind `i` is visible, and `s[i]` is. */
  ghost predicate LastVisible(s: string, i: nat) {
    i < |s| && Visible([s[i]]) && !Visible(s[i + 1..])
  }

  lemma LastVisibleIs(s: string, i: nat)
    requires i < |s|
    ensures LastVisible(s, i) <==> i + 1 == |TrimEnd(s)|
  {
    var t, rest := TrimEnd(s), s[i + 1..];
    TrimmedEnd(s);
    VisibleIs([s[i]]);
    VisibleIs(rest);
    assert AllSpace([s[i]]) <==> RustSpace([s[i]][0]);
    if i + 1 < |t| {
      assert rest[|t| - i - 2] == t[|t| - 1];
    } else {
      assert forall j :: 0 <= j < |rest| ==> rest[j] == s[i + 1 + j];
    }
  }

  lemma EndsVisiblyIs(s: string, c: char)
    ensures EndsVisiblyIn(s, c) <==> TrimEnd(s) != "" && TrimEnd(s)[|TrimEnd(s)| - 1] == c
  {
    if EndsVisiblyIn(s, c) {
      var i: nat :| LastVisible(s, i) && s[i] == c;
      LastVisibleIs(s, i);
    }
    if TrimEnd(s) != "" {
      LastVisibleIs(s, |TrimEnd(s)| - 1);
    }
  }

  lemma {:induction false} TrimmedEnd(s: string)
    ensures forall j :: |TrimEnd(s)| <= j < |s| ==> RustSpace(s[j])
  {
    if s != "" && RustSpace(s[|s| - 1]) {
      TrimmedEnd(s[..|s| - 1]);
    }
  }

  /** The message has these words, in any case. */
  ghost predicate Mentions(message: string, words: string) {
    exists i: nat :: MentionsThere(message, words, i)
  }

  ghost predicate MentionsThere(message: string, words: string, i: nat) {
    i + |words| <= |message| && SameLetters(message[i..i + |words|], words)
  }

  lemma MentionsIs(message: string, words: string)
    requires forall k :: 0 <= k < |words| ==> words[k] !in CAPITAL
    ensures Mentions(message, words) <==> Contains(Lower(message), words)
  {
    if Mentions(message, words) {
      var i: nat :| MentionsThere(message, words, i);
      MentionsAt(message, words, i);
    }
    if Contains(Lower(message), words) {
      var i :| 0 <= i <= |message| && words <= Lower(message)[i..];
      MentionsAt(message, words, i);
      assert MentionsThere(message, words, i);
    }
  }

  lemma MentionsAt(message: string, words: string, i: nat)
    requires i + |words| <= |message| && forall k :: 0 <= k < |words| ==> words[k] !in CAPITAL
    ensures SameLetters(message[i..i + |words|], words) <==> words <= Lower(message)[i..]
  {
    var part, lower := message[i..i + |words|], Lower(message)[i..];
    forall k | 0 <= k < |words|
      ensures SameLetter(part[k], words[k]) <==> lower[k] == words[k]
    {
      LowerCharIs(part[k], words[k]);
      SameLetterIs(part[k], words[k]);
      SameLetterIs(words[k], part[k]);
    }
    assert words <= lower <==> forall k :: 0 <= k < |words| ==> lower[k] == words[k];
  }

  /** Small letters and blanks only. */
  predicate SmallWords(words: string) {
    forall k :: 0 <= k < |words| ==> 'a' <= words[k] <= 'z' || words[k] == ' '
  }

  lemma NoCapitals(words: string)
    requires SmallWords(words)
    ensures forall k :: 0 <= k < |words| ==> words[k] !in CAPITAL
  {
    forall k | 0 <= k < |words|
      ensures words[k] !in CAPITAL
    {
      SmallLetter(words[k]);
    }
  }

  lemma MessagesSmall(words: string)
    requires words == STRING_ERROR || words in ASKING
    ensures SmallWords(words)
  {
  }

  const STRING_ERROR := "unterminated string literal"

  /** The words of an error message that always ask for more input. */
  const ASKING: set<string> := {
    "unterminated escape sequence", "expected indent", "expected dedent",
    "expected rparen", "expected rbracket", "expected rbrace"
  }

  /** An error that more input may mend: in a string, only a triple-quoted one;
      else a line that goes on, an open bracket, an error at the very end or one
      whose message asks for more. */
  ghost predicate Mendable<M>(front: Front<M>, source: string, err: ParseError) {
    if Mentions(err.message, STRING_ERROR) then TripleQuoteAt(source, err.line, err.column)
    else || (exists words :: words in ASKING && Mentions(err.message, words))
         || EndsVisiblyIn(source, '\\') || EndsVisiblyIn(source, ':')
         || (front.lex(source).Some? && Unclosed(front.lex(source).value))
         || err.offset >= Utf8Len(source)
  }

  lemma IncompleteIs<M>(front: Front<M>, source: string, err: ParseError)
    ensures Incomplete(front, source, err) <==> Visible(source) && Mendable(front, source, err)
  {
    VisibleIs(source);
    EndsVisiblyIs(source, '\\');
    EndsVisiblyIs(source, ':');
    forall words: string | words == STRING_ERROR || words in ASKING
      ensures Mentions(err.message, words) <==> Contains(Lower(err.message), words)
    {
      MessagesSmall(words);
      NoCapitals(words);
      MentionsIs(err.message, words);
    }
    assert AsksForMore(Lower(err.message)) || Contains(Lower(err.message), "unterminated escape sequence")
      <==> exists words :: words in ASKING && Contains(Lower(err.message), words);
  }

  /** When a text and its last line need more input: a text that parses, if the
      line is visible and the tokens end in dedents at the end of the text, a
      block being open; one that does not, if it is visible and its error mendable. */
  ghost predicate NeedsMore<M>(front: Front<M>, source: string, line: string) {
    match front.parse(source)
    case Ok(_) => Visible(line) && front.lex(source).Some? && EndsInDedent(front.lex(source).value, Utf8Len(source))
    case Err(err) => Visible(source) && Mendable(front, source, err)
  }

  lemma DecideIs<M>(front: Front<M>, source: string, line: string)
    ensures Decide(front, source, line).NeedMoreInput? <==> NeedsMore(front, source, line)
    ensures !NeedsMore(front, source, line) ==>
              Decide(front, source, line) == match front.parse(source) { case Ok(tree) => Ready(source, tree)
                                                                         case Err(err) => Rejected(source, err) }
  {
    match front.parse(source)
    case Ok(_) => VisibleIs(line);
    case Err(err) => IncompleteIs(front, source, err);
  }

  // ---------------------------------------------------------- the session

  /** What is decided about a source and its latest line. */
  type Decider<M> = (string, string) -> Outcome<M>

  function Deciding<M>(front: Front<M>): Decider<M> {
    (source, line) => Decide(front, source, line)
  }

  /** A decision that emits something emits the source itself. */
  ghost predicate Echoes<M(!new)>(decide: Decider<M>) {
    forall source, line :: decide(source, line).NeedMoreInput? || decide(source, line).source == source
  }

  lemma DecidingEchoes<M(!new)>(front: Front<M>)
    ensures Echoes(Deciding(front))
  {
  }

  datatype Prompt = Primary | Continuation

  function PromptFor(pending: string): Prompt {
    if pending == "" then Primary else Continuation
  }

  datatype Command = Submit(line: string) | Paste(line: string) | Clear | Reset | Interrupt

  datatype Event<M> = Event(command: Command, outcome: Option<Outcome<M>>)

  /** What a command leaves pending, and what it answers. */
  function Answer<M>(decide: Decider<M>, pending: string, command: Command): Option<Outcome<M>> {
    if command.Submit? then Some(decide(pending + command.line, command.line)) else None
  }

  function Pending<M>(decide: Decider<M>, pending: string, command: Command): string {
    match command
    case Submit(line) =>
      if decide(pending + line, line).NeedMoreInput? then pending + line + ['\n'] else ""
    case Paste(line) => pending + line + ['\n']
    case _ => ""
  }

  class InputSession<!M> {
    var pending: string

    constructor ()
      ensures pending == ""
    {
      pending := "";
    }

    method PromptKind() returns (r: Prompt)
      ensures r == PromptFor(pending)
    {
      return if pending == "" then Primary else Continuation;
    }

    method Discard()
      modifies this
      ensures pending == ""
    {
      pending := "";
    }

    method AppendPasteLine(line: string)
      modifies this
      ensures pending == old(pending) + line + ['\n']
    {
      pending := pending + line;
      pending := pending + ['\n'];
    }

    /** Appends the line, asks the parser, and keeps the text exactly when more is needed. */
    method SubmitLine(front: Front<M>, line: string) returns (r: Outcome<M>)
      modifies this
      ensures Some(r) == Answer(Deciding(front), old(pending), Submit(line))
      ensures pending == Pending(Deciding(front), old(pending), Submit(line))
      ensures r.NeedMoreInput? <==> NeedsMore(front, old(pending) + line, line)
      ensures r.Ready? ==> front.parse(r.source) == Ok(r.tree)
      ensures r.Rejected? ==> front.parse(r.source) == Err(r.error)
      ensures !r.NeedMoreInput? ==> r.source == old(pending) + line && pending == ""
    {
      ghost var text := pending + line;
      DecideIs(front, text, line);
      pending := pending + line;
      pending := pending + ['\n'];
      var source := ParseCandidateSource(pending);
      assert source == text;
      var more: bool;
      match front.parse(source) {
        case Ok(tree) =>
          more := ParseSuccessRequiresMoreInput(front, source, line);
          r := if more then NeedMoreInput else Ready(source, tree);
        case Err(error) =>
          more := InputIsIncomplete(front, source, error);
          r := if more then NeedMoreInput else Rejected(source, error);
      }
      if !more {
        pending := "";
      }
    }
  }

  datatype Profile = NativeFull | WasmLean

  class CoreState<!M> {
    const profile: Profile
    const input: InputSession<M>

    constructor (profile: Profile)
      ensures this.profile == profile && fresh(input) && input.pending == ""
    {
      this.profile := profile;
      this.input := new InputSession();
    }

    method Handle(front: Front<M>, command: Command) returns (r: Option<Outcome<M>>)
      modifies input
      ensures r == Answer(Deciding(front), old(input.pending), command)
      ensures input.pending == Pending(Deciding(front), old(input.pending), command)
    {
      match command {
        case Submit(line) =>
          var outcome := input.SubmitLine(front, line);
          return Some(outcome);
        case Paste(line) =>
          input.AppendPasteLine(line);
          return None;
        case _ =>
          input.Discard();
          return None;
      }
    }
  }

  // ------------------------------------------------------------ whole runs

  datatype Session<M> = Session(pending: string, events: seq<Event<M>>)

  /** A session from the start, command by command. */
  function Play<M>(decide: Decider<M>, commands: seq<Command>): Session<M> {
    if commands == [] then Session("", [])
    else
      var before := Play(decide, commands[..|commands| - 1]);
      var command := commands[|commands| - 1];
      Session(Pending(decide, before.pending, command), before.events + [Event(command, Answer(decide, before.pending, command))])
  }

  /** Every session is the same under both profiles. */
  method RunSession<M>(profile: Profile, front: Front<M>, commands: seq<Command>) returns (events: seq<Event<M>>, pending: string)
    ensures Session(pending, events) == Play(Deciding(front), commands)
  {
    var core := new CoreState<M>(profile);
    events := [];
    for i := 0 to |commands|
      invariant fresh(core.input)
      invariant Session(core.input.pending, events) == Play(Deciding(front), commands[..i])
    {
      assert commands[..i + 1][..i] == commands[..i];
      var outcome := core.Handle(front, commands[i]);
      events := events + [Event(commands[i], outcome)];
    }
    assert commands[..|commands|] == commands;
    pending := core.input.pending;
  }

  /** The lines a session took together, and what became of them. */
  datatype Block<M> = Emitted(lines: seq<string>, outcome: Outcome<M>) | Discarded(lines: seq<string>)

  datatype Ledger<M> = Ledger(blocks: seq<Block<M>>, open: seq<string>)

  /** The books kept by an observer who sees only commands and answers. */
  function Account<M>(events: seq<Event<M>>): Ledger<M> {
    if events == [] then Ledger([], [])
    else Book(Account(events[..|events| - 1]), events[|events| - 1])
  }

  function Book<M>(ledger: Ledger<M>, event: Event<M>): Ledger<M> {
    match event.command
    case Submit(line) =>
      var lines := ledger.open + [line];
      if event.outcome.Some? && !event.outcome.value.NeedMoreInput? then
        Ledger(ledger.blocks + [Emitted(lines, event.outcome.value)], [])
      else Ledger(ledger.blocks, lines)
    case Paste(line) => Ledger(ledger.blocks, ledger.open + [line])
    case _ => Ledger(ledger.blocks + [Discarded(ledger.open)], [])
  }

  function Entered(commands: seq<Command>): seq<string> {
    if commands == [] then [] else Entered(commands[..|commands| - 1]) + Given(commands[|commands| - 1])
  }

  function Booked<M>(blocks: seq<Block<M>>): seq<string> {
    if blocks == [] then [] else Booked(blocks[..|blocks| - 1]) + blocks[|blocks| - 1].lines
  }

  /** An emitted block carries the text of its lines, and the parser's own answer to it. */
  predicate Faithful<M(==)>(decide: Decider<M>, block: Block<M>) {
    block.Emitted? ==>
      && block.lines != []
      && block.outcome == decide(Joined(block.lines), block.lines[|block.lines| - 1])
      && !block.outcome.NeedMoreInput?
      && block.outcome.source == Joined(block.lines)
  }

  lemma {:induction false} EndedAppend(lines: seq<string>, line: string)
    ensures Ended(lines + [line]) == Ended(lines) + line + ['\n']
    ensures Joined(lines + [line]) == Ended(lines) + line
  {
    if lines == [] {
      assert [] + [line] == [line] && [line][1..] == [];
      assert Ended([line]) == line + ['\n'] + "";
      assert "" + line == line;
    } else {
      assert (lines + [line])[1..] == lines[1..] + [line];
      EndedAppend(lines[1..], line);
      var head := lines[0] + ['\n'];
      assert head + (Ended(lines[1..]) + line) == (head + Ended(lines[1..])) + line;
      assert head + (Ended(lines[1..]) + line + ['\n']) == (head + Ended(lines[1..])) + line + ['\n'];
    }
  }

  /** Books in order: pending text, lines entered, emitted blocks. */
  ghost predicate Balanced<M(!new)>(decide: Decider<M>, entered: seq<string>, pending: string, ledger: Ledger<M>) {
    && pending == Ended(ledger.open)
    && entered == Booked(ledger.blocks) + ledger.open
    && forall i :: 0 <= i < |ledger.blocks| ==> Faithful(decide, ledger.blocks[i])
  }

  /** One more open line. */
  lemma OpensLine<M(!new)>(decide: Decider<M>, entered: seq<string>, pending: string, ledger: Ledger<M>, line: string)
    requires Balanced(decide, entered, pending, ledger)
    ensures Balanced(decide, entered + [line], pending + line + ['\n'], Ledger(ledger.blocks, ledger.open + [line]))
  {
    EndedAppend(ledger.open, line);
    JoinLines(Booked(ledger.blocks), ledger.open, line);
  }

  lemma JoinLines(a: seq<string>, b: seq<string>, line: string)
    ensures a + b + [line] == a + (b + [line])
  {
  }

  /** The open lines become a block. */
  lemma ClosesBlock<M(!new)>(decide: Decider<M>, entered: seq<string>, pending: string, ledger: Ledger<M>, block: Block<M>)
    requires Balanced(decide, entered, pending, ledger) && block.lines == ledger.open && Faithful(decide, block)
    ensures Balanced(decide, entered, "", Ledger(ledger.blocks + [block], []))
  {
    BookedAppend(ledger.blocks, block);
  }

  lemma BookedAppend<M>(blocks: seq<Block<M>>, block: Block<M>)
    ensures Booked(blocks + [block]) + [] == Booked(blocks) + block.lines
  {
    var all := blocks + [block];
    assert all[..|all| - 1] == blocks;
  }

  /** What a command enters. */
  function Given(command: Command): seq<string> {
    if command.Submit? || command.Paste? then [command.line] else []
  }

  lemma BookKeepsBalance<M(!new)>(decide: Decider<M>, entered: seq<string>, command: Command, pending: string, ledger: Ledger<M>,
                                  event: Event<M>)
    requires Echoes(decide) && Balanced(decide, entered, pending, ledger)
    requires event == Event(command, Answer(decide, pending, command))
    ensures Balanced(decide, entered + Given(command), Pending(decide, pending, command), Book(ledger, event))
  {
    match command
    case Submit(line) =>
      OpensLine(decide, entered, pending, ledger, line);
      EndedAppend(ledger.open, line);
      var longer := Ledger(ledger.blocks, ledger.open + [line]);
      if !event.outcome.value.NeedMoreInput? {
        ClosesBlock(decide, entered + [line], pending + line + ['\n'], longer, Emitted(longer.open, event.outcome.value));
      }
    case Paste(line) =>
      OpensLine(decide, entered, pending, ledger, line);
    case _ =>
      assert entered + [] == entered;
      ClosesBlock(decide, entered, pending, ledger, Discarded(ledger.open));
  }

  lemma {:induction false} RunBalanced<M(!new)>(decide: Decider<M>, commands: seq<Command>)
    requires Echoes(decide)
    ensures Balanced(decide, Entered(commands), Play(decide, commands).pending, Account(Play(decide, commands).events))
  {
    if commands == [] {
      var none: seq<Block<M>> := [];
      assert Booked(none) + [] == [];
    } else {
      var init, command := commands[..|commands| - 1], commands[|commands| - 1];
      RunBalanced(decide, init);
      var before := Play(decide, init);
      BookKeepsBalance(decide, Entered(init), command, before.pending, Account(before.events),
                       Event(command, Answer(decide, before.pending, command)));
      var events := Play(decide, commands).events;
      assert events[..|events| - 1] == before.events;
    }
  }

  /** Over every session with every parser: the pending text is the lines since
      the last flush, each with its line feed; every line entered is, in order,
      in exactly one emitted block, one discarded block, or still open; and
      every emitted source is its block's lines joined, with the parser's answer to it. */
  lemma SessionBalanced<M(!new)>(front: Front<M>, commands: seq<Command>, session: Session<M>)
    requires session == Play(Deciding(front), commands)
    ensures Balanced(Deciding(front), Entered(commands), session.pending, Account(session.events))
  {
    DecidingEchoes(front);
    RunBalanced(Deciding(front), commands);
  }

  lemma {:induction false} PlayPrefix<M>(decide: Decider<M>, commands: seq<Command>, i: nat)
    requires i <= |commands|
    ensures |Play(decide, commands).events| == |commands|
    ensures Play(decide, commands).events[..i] == Play(decide, commands[..i]).events
    decreases |commands|
  {
    if i == |commands| {
      assert commands[..i] == commands;
      if i > 0 {
        PlayPrefix(decide, commands[..i - 1], i - 1);
      }
    } else {
      var init := commands[..|commands| - 1];
      PlayPrefix(decide, init, i);
      assert init[..i] == commands[..i];
    }
  }

  /** Each answer in a session depends only on the lines since the last flush:
      it is the decision on their text, whatever came before. */
  lemma EveryAnswerExplained<M(!new)>(decide: Decider<M>, commands: seq<Command>, i: nat)
    requires Echoes(decide) && i < |commands| && commands[i].Submit?
    ensures |Play(decide, commands).events| == |commands|
    ensures var events := Play(decide, commands).events;
            var lines := Account(events[..i]).open + [commands[i].line];
            events[i] == Event(commands[i], Some(decide(Joined(lines), commands[i].line)))
  {
    var upTo := commands[..i + 1];
    PlayPrefix(decide, commands, i + 1);
    PlayPrefix(decide, commands, i);
    assert upTo[..i] == commands[..i];
    RunBalanced(decide, commands[..i]);
    var before := Play(decide, commands[..i]);
    EndedAppend(Account(before.events).open, commands[i].line);
    assert Play(decide, upTo).events[i] == Play(decide, commands).events[i];
  }

  /** Over every session: a submitted line without a visible character emits the
      open lines with it as one block, if their text parses. */
  lemma BlankCloses<M(!new)>(front: Front<M>, commands: seq<Command>, line: string)
    requires !Visible(line)
    ensures var before := Account(Play(Deciding(front), commands).events);
      var lines := before.open + [line];
      front.parse(Joined(lines)).Ok? ==>
        var after := Account(Play(Deciding(front), commands + [Submit(line)]).events);
        && after.blocks == before.blocks + [Emitted(lines, Ready(Joined(lines), front.parse(Joined(lines)).value))]
        && after.open == []
  {
    var decide := Deciding(front);
    var before := Play(decide, commands);
    var lines := Account(before.events).open + [line];
    DecidingEchoes(front);
    RunBalanced(decide, commands);
    EndedAppend(Account(before.events).open, line);
    DecideIs(front, Joined(lines), line);
    OneMoreCommand(decide, commands, Submit(line));
  }

  lemma OneMoreCommand<M>(decide: Decider<M>, commands: seq<Command>, command: Command)
    ensures var before := Play(decide, commands);
      var event := Event(command, Answer(decide, before.pending, command));
      && Play(decide, commands + [command]) == Session(Pending(decide, before.pending, command), before.events + [event])
      && Account(before.events + [event]) == Book(Account(before.events), event)
  {
    assert (commands + [command])[..|commands|] == commands;
    var before := Play(decide, commands);
    var event := Event(command, Answer(decide, before.pending, command));
    assert (before.events + [event])[..|before.events|] == before.events;
  }

  /** The prompt is the continuation prompt exactly while lines are open. */
  lemma PromptShowsOpenLines<M(!new)>(decide: Decider<M>, commands: seq<Command>)
    requires Echoes(decide)
    ensures PromptFor(Play(decide, commands).pending) == Continuation <==> Account(Play(decide, commands).events).open != []
  {
    RunBalanced(decide, commands);
  }

  /** Joined text tells its lines apart, so an emitted source determines its block's lines. */
  lemma {:induction false} JoinedInjective(a: seq<string>, b: seq<string>)
    requires a != [] && b != [] && Joined(a) == Joined(b)
    requires forall i :: 0 <= i < |a| ==> Free(a[i], '\n')
    requires forall i :: 0 <= i < |b| ==> Free(b[i], '\n')
    ensures a == b
  {
    FirstLine(a);
    FirstLine(b);
    assert a == [a[0]] + a[1..] && b == [b[0]] + b[1..];
    if |a| > 1 {
      assert Joined(a)[|a[0]| + 1..] == Joined(a[1..]);
      assert Joined(b)[|b[0]| + 1..] == Joined(b[1..]);
      JoinedInjective(a[1..], b[1..]);
    }
  }

  lemma FirstLine(a: seq<string>)
    requires a != [] && Free(a[0], '\n')
    ensures |a[0]| <= |Joined(a)| && Joined(a)[..|a[0]|] == a[0] && Find(Joined(a), '\n') == |a[0]|
    ensures |a| == 1 <==> |Joined(a)| == |a[0]|
  {
    if |a| > 1 {
      FindAfter(a[0], '\n', Joined(a[1..]));
    }
  }
}
