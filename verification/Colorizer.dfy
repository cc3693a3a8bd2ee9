/** The traceback colorizer of `src/cli/error_style.rs`, against what a
    terminal shows of its output. */
module Colorizer {
  import opened Common
  import opened Terminal
  import opened Text

  datatype Palette = Palette(typeColor: string, message: string, filename: string, lineNo: string, frame: string,
                             highlight: string, range: string)

  predicate IsPalette(p: Palette) {
    && IsColor(p.typeColor) && IsColor(p.message) && IsColor(p.filename) && IsColor(p.lineNo)
    && IsColor(p.frame) && IsColor(p.highlight) && IsColor(p.range)
  }

  const DARK := Palette("1;35", "35", "35", "35", "35", "1;31", "31")

  const LIGHT := Palette("1;34", "34", "34", "34", "34", "1;31", "31")

  const FALLBACK := Palette("1;34", "34", "36", "36", "36", "1;31", "31")

  const COLORS: map<string, string> := map["red" := "31", "blue" := "34", "magenta" := "35", "cyan" := "36"]

  /** White and the bright colours but grey. */
  const LIGHT_CODES: set<nat> := {7, 9, 10, 11, 12, 13, 14, 15}

  function Bold(color: string): string {
    "1;" + color
  }

  /** The type in bold over the message, the places of the code, and the error in red. */
  function Tinted(message: string, place: string): Palette
    requires message in COLORS && place in COLORS
  {
    var m, l, red := COLORS[message], COLORS[place], COLORS["red"];
    Palette(Bold(m), m, l, l, l, Bold(red), red)
  }

  lemma PalettesAre()
    ensures DARK == Tinted("magenta", "magenta") && LIGHT == Tinted("blue", "blue") && FALLBACK == Tinted("blue", "cyan")
  {
  }

  /** The palette for a background code; the fallback when it is not known. */
  function SelectPalette(background: Option<nat>): (p: Palette)
    ensures IsPalette(p)
    ensures p == match background { case None => Tinted("blue", "cyan")
                                    case Some(code) => if code in LIGHT_CODES then Tinted("blue", "blue")
                                                       else Tinted("magenta", "magenta") }
  {
    PalettesAre();
    match background
    case None => FALLBACK
    case Some(code) => if code == 7 || 9 <= code <= 15 then LIGHT else DARK
  }

  // ------------------------------------------------------ kinds of a line

  const FILE: string := "  File \""
  const LINE: string := ", line "
  const IN: string := ", in "

  /** The parts of `  File "name"rest`. */
  datatype Location = Location(name: string, rest: string)

  function AsLocation(line: string): Option<Location> {
    if !(FILE <= line) then None
    else
      var close := |FILE| + Find(line[|FILE|..], '"');
      if close == |line| then None else Some(Location(line[|FILE|..close], line[close + 1..]))
  }

  lemma SplitFour(s: string, n: nat, m: nat)
    requires n <= m < |s|
    ensures s == s[..n] + s[n..m] + [s[m]] + s[m + 1..]
  {
  }

  lemma LocationText(line: string, at: Location)
    requires AsLocation(line) == Some(at)
    ensures line == FILE + at.name + ['"'] + at.rest
  {
    var close := |FILE| + Find(line[|FILE|..], '"');
    SplitFour(line, |FILE|, close);
  }

  /** The first character that is not blank. */
  function FirstVisible(s: string): Option<char> {
    if s == "" then None else if RustSpace(s[0]) then FirstVisible(s[1..]) else Some(s[0])
  }

  predicate IsCaretLine(line: string) {
    "    " <= line && FirstVisible(line) in {Some('^'), Some('~')}
  }

  /** A caret line is indented by four blanks and its first visible character is a caret or a tilde. */
  lemma CaretLineIs(line: string)
    ensures IsCaretLine(line)
       <==> exists i: nat :: i < |line| && StartsVisibly(line, i) && line[i] in {'^', '~'} && StartsWith(line, "    ")
  {
    if IsCaretLine(line) {
      var i := VisibleAt(line);
    }
    if i: nat :| i < |line| && StartsVisibly(line, i) && line[i] in {'^', '~'} && StartsWith(line, "    ") {
      FirstVisibleIs(line, i);
    }
  }

  /** The first visible character stands at `i`. */
  ghost predicate StartsVisibly(line: string, i: nat) {
    i < |line| && line[i] as int !in WHITE_SPACE && forall j :: 0 <= j < i ==> line[j] as int in WHITE_SPACE
  }

  lemma {:induction false} VisibleAt(s: string) returns (i: nat)
    requires FirstVisible(s).Some?
    ensures StartsVisibly(s, i) && FirstVisible(s) == Some(s[i])
  {
    BlanksAre(s[0]);
    if RustSpace(s[0]) {
      var k := VisibleAt(s[1..]);
      i := k + 1;
      assert forall j :: 1 <= j < i ==> s[j] == s[1..][j - 1];
    } else {
      i := 0;
    }
  }

  lemma {:induction false} FirstVisibleIs(s: string, i: nat)
    requires StartsVisibly(s, i)
    ensures FirstVisible(s) == Some(s[i])
  {
    BlanksAre(s[0]);
    if i > 0 {
      FirstVisibleIs(s[1..], i - 1);
    }
  }

  /** The characters of exception names. */
  lemma TypeNameIs(text: string)
    ensures LooksLikeExceptionType(text)
       <==> text != "" && forall i :: 0 <= i < |text| ==> text[i] in DIGITS || text[i] in SMALL || text[i] in CAPITAL || text[i] in "_."
  {
    forall i | 0 <= i < |text|
      ensures AsciiDigit(text[i]) <==> text[i] in DIGITS
      ensures 'a' <= text[i] <= 'z' <==> text[i] in SMALL
      ensures 'A' <= text[i] <= 'Z' <==> text[i] in CAPITAL
    {
      AsciiDigitIs(text[i]);
      SmallLetter(text[i]);
    }
  }

  predicate LooksLikeExceptionType(text: string) {
    text != "" && forall i :: 0 <= i < |text| ==>
      AsciiDigit(text[i]) || 'a' <= text[i] <= 'z' || 'A' <= text[i] <= 'Z' || text[i] == '_' || text[i] == '.'
  }

  /** Whether `line` names an exception before its first colon, or has no colon and is a name. */
  predicate IsExceptionLine(line: string) {
    && line != "" && line[0] != ' ' && line != "Traceback (most recent call last):"
    && LooksLikeExceptionType(line[..Find(line, ':')])
  }

  // ------------------------------------------- the style of every character

  /** Whether `s` starts with `, in `. */
  predicate StartsIn(s: string) {
    |s| >= 5 && s[0] == ',' && s[1] == ' ' && s[2] == 'i' && s[3] == 'n' && s[4] == ' '
  }

  lemma StartsInIs(s: string)
    ensures StartsIn(s) <==> StartsWith(s, ", in ")
    ensures IN == ", in "
  {
    if |s| >= 5 {
      assert s[..5] == [s[0], s[1], s[2], s[3], s[4]];
    }
  }

  /** Where `, in ` first occurs in `s`, or the length. */
  function FindIn(s: string): (i: nat)
    ensures i <= |s| && (i < |s| ==> i + 5 <= |s|)
  {
    if s == "" || StartsIn(s) then 0 else 1 + FindIn(s[1..])
  }

  /** The characters after the closing quote that the line number occupies, as offsets in `rest`. */
  predicate InNumber(rest: string, i: nat) {
    LINE <= rest && |LINE| <= i < |LINE| + DigitRun(rest[|LINE|..])
  }

  /** The file name has its colour, with the frame colour on top after a `, in `
      inside it; the line number has its own; after the quote the frame colour
      starts behind the first `, in `, unless the file name held one. */
  function LocationCells(at: Location, p: Palette): seq<Cell>
  {
    Literal(FILE, []) + NameCells(at.name, p) + Literal(['"'], []) + RestCells(at, p)
  }

  function NameCells(name: string, p: Palette): (r: seq<Cell>)
    ensures |r| == |name|
  {
    var color, frame := p.filename, p.frame;
    seq(|name|, i requires 0 <= i < |name| =>
      Cell(name[i], if i >= FindIn(name) + |IN| then [color, frame] else [color]))
  }

  /** The colour of `rest[i]`: the number's, else the frame colour from `from` on. */
  function RestStyle(rest: string, from: nat, i: nat, p: Palette): Style
  {
    if InNumber(rest, i) then [p.lineNo] else if i >= from then [p.frame] else []
  }

  /** Where the frame colour starts behind the closing quote; the length of `rest` for nowhere. */
  function FrameStart(at: Location): (r: nat)
    ensures r <= |at.rest|
  {
    if FindIn(at.name) < |at.name| || FindIn(at.rest) == |at.rest| then |at.rest| else FindIn(at.rest) + 5
  }

  function StyledRest(rest: string, from: nat, p: Palette): (r: seq<Cell>)
    ensures |r| == |rest| && forall i :: 0 <= i < |rest| ==> r[i] == Cell(rest[i], RestStyle(rest, from, i, p))
  {
    seq(|rest|, i requires 0 <= i < |rest| => Cell(rest[i], RestStyle(rest, from, i, p)))
  }

  function RestCells(at: Location, p: Palette): (r: seq<Cell>)
    ensures |r| == |at.rest|
  {
    StyledRest(at.rest, FrameStart(at), p)
  }

  function CaretCells(line: string, p: Palette): (r: seq<Cell>)
    ensures |r| == |line|
  {
    seq(|line|, i requires 0 <= i < |line| =>
      Cell(line[i], if line[i] == '^' then [p.highlight]
                    else if line[i] == '~' then [p.range]
                    else []))
  }

  /** The type before the first colon, the colon plain, the message after it. */
  function ExceptionCells(line: string, p: Palette): (r: seq<Cell>)
    ensures |r| == |line|
  {
    var colon := Find(line, ':');
    seq(|line|, i requires 0 <= i < |line| =>
      Cell(line[i], if i < colon then [p.typeColor]
                    else if i == colon then []
                    else [p.message]))
  }

  function LineCells(line: string, p: Palette): (r: seq<Cell>)
  {
    if AsLocation(line).Some? then
      LocationCells(AsLocation(line).value, p)
    else if IsCaretLine(line) then CaretCells(line, p)
    else if IsExceptionLine(line) then ExceptionCells(line, p)
    else Literal(line, [])
  }

  lemma LocationVisible(at: Location, p: Palette)
    ensures Visible(LocationCells(at, p)) == FILE + at.name + ['"'] + at.rest
  {
    var file, name, quote, rest := Literal(FILE, []), NameCells(at.name, p), Literal(['"'], []), RestCells(at, p);
    assert Visible(file) == FILE && Visible(name) == at.name && Visible(quote) == ['"'] && Visible(rest) == at.rest;
    VisibleAppend(file, name);
    VisibleAppend(file + name, quote);
    VisibleAppend(file + name + quote, rest);
  }

  lemma VisibleAppend(a: seq<Cell>, b: seq<Cell>)
    ensures Visible(a + b) == Visible(a) + Visible(b)
  {
  }

  lemma LineVisible(line: string, p: Palette)
    ensures Visible(LineCells(line, p)) == line
  {
    if AsLocation(line).Some? {
      LocationText(line, AsLocation(line).value);
      LocationVisible(AsLocation(line).value, p);
    }
  }

  function MessageCells(message: string, p: Palette): seq<Cell>
  {
    ByLines(message, line => LineCells(line, p))
  }

  /** The next line of a text, whether a line feed ends it, and what follows. */
  datatype Chunk = Chunk(line: string, newline: bool, after: string)

  function NextChunk(rest: string): (c: Chunk)
    requires rest != ""
    ensures |c.after| < |rest|
  {
    var end := Find(rest, '\n');
    if end == |rest| then Chunk(rest, false, "") else Chunk(rest[..end], true, rest[end + 1..])
  }

  function WithFeed(cells: seq<Cell>, newline: bool): seq<Cell> {
    if newline then cells + Literal(['\n'], []) else cells
  }

  /** Every line by itself, and the line feeds plain. */
  function ByLines(message: string, cellsOf: string -> seq<Cell>): seq<Cell>
    decreases |message|
  {
    if message == "" then []
    else
      var c := NextChunk(message);
      WithFeed(cellsOf(c.line), c.newline) + ByLines(c.after, cellsOf)
  }

  lemma ChunkText(rest: string)
    requires rest != ""
    ensures var c := NextChunk(rest);
            rest == c.line + (if c.newline then ['\n'] else "") + c.after
  {
    var end := Find(rest, '\n');
    if end < |rest| {
      SplitAt(rest, end);
    }
  }

  lemma VisibleLine(cells: seq<Cell>, newline: bool, tail: seq<Cell>)
    ensures Visible(WithFeed(cells, newline) + tail) == Visible(cells) + (if newline then ['\n'] else "") + Visible(tail)
  {
  }

  lemma {:induction false} ByLinesVisible(message: string, cellsOf: string -> seq<Cell>)
    requires forall line :: Visible(cellsOf(line)) == line
    ensures Visible(ByLines(message, cellsOf)) == message
    decreases |message|
  {
    if message != "" {
      var c := NextChunk(message);
      ByLinesVisible(c.after, cellsOf);
      VisibleLine(cellsOf(c.line), c.newline, ByLines(c.after, cellsOf));
      ChunkText(message);
    }
  }

  /** The styled cells spell the message. */
  lemma MessageVisible(message: string, p: Palette)
    ensures Visible(MessageCells(message, p)) == message
  {
    forall line
      ensures Visible(LineCells(line, p)) == line
    {
      LineVisible(line, p);
    }
    ByLinesVisible(message, line => LineCells(line, p));
  }

  // ------------------------------------------------ searching styled text

  /** A character `, in ` may end with before it is complete. */
  predicate Opens(c: char) {
    c == ',' || c == ' ' || c == 'i' || c == 'n'
  }

  /** A character of `, in ` after the first. */
  predicate Continues(c: char) {
    c == ' ' || c == 'i' || c == 'n'
  }

  /** No occurrence of `, in ` can lie across the border of `x` and `y`. */
  predicate CleanCut(x: string, y: string) {
    x == "" || y == "" || !Continues(y[0]) || !Opens(x[|x| - 1])
  }

  lemma StartsInAppend(x: string, y: string)
    requires x != "" && CleanCut(x, y)
    ensures StartsIn(x + y) <==> StartsIn(x)
  {
  }

  lemma {:induction false} FindInAppend(x: string, y: string)
    requires CleanCut(x, y)
    ensures FindIn(x + y) == if FindIn(x) < |x| then FindIn(x) else |x| + FindIn(y)
  {
    if x == "" {
      assert x + y == y;
    } else {
      assert (x + y)[1..] == x[1..] + y;
      FindInAppend(x[1..], y);
      StartsInAppend(x, y);
    }
  }

  lemma {:induction false} FindInNoComma(s: string)
    requires Free(s, ',')
    ensures FindIn(s) == |s|
  {
    if s != "" {
      FindInNoComma(s[1..]);
    }
  }

  // -------------------------------------------------------- the location line

  /** The first stage of the rewriting: the file name in colour. */
  function Head(name: string, p: Palette): string {
    (FILE + Code(p.filename)) + name + CLOSE
  }

  const CLOSE: string := RESET + ['"']

  /** What follows the closing quote. */
  datatype Tail = Bare(plain: string) | Numbered(digits: string, plain: string) {
    /** The part up to the last colour code. */
    function Styled(p: Palette): string {
      if Bare? then "" else LINE + Code(p.lineNo) + digits + RESET
    }
  }

  function AsTail(rest: string): (t: Tail)
    ensures t.Bare? ==> t.plain == rest
    ensures t.Numbered? ==> rest == (LINE + t.digits) + t.plain && t.digits != "" && Digits(t.digits)
  {
    if LINE <= rest then
      var after := rest[|LINE|..];
      var n := DigitRun(after);
      if n > 0 then
        assert rest == LINE + after && after == after[..n] + after[n..];
        Numbered(after[..n], after[n..])
      else Bare(rest)
    else Bare(rest)
  }

  /** Text without `, in `, and whose end cannot be the beginning of one. */
  predicate Quiet(x: string) {
    x != "" && FindIn(x) == |x| && !Opens(x[|x| - 1])
  }

  lemma QuietCode(code: string, params: string)
    requires code == Code(params) && ParamText(params)
    ensures Quiet(code) && code[0] == ESC
  {
    FindInNoComma(code);
  }

  lemma QuietJoin(x: string, y: string)
    requires Quiet(y) && (Quiet(x) || (FindIn(x) == |x| && !Continues(y[0])))
    ensures Quiet(x + y)
  {
    assert (x + y)[|x + y| - 1] == y[|y| - 1];
    FindInAppend(x, y);
  }

  lemma FindInMiddle(a: string, x: string, b: string)
    requires Quiet(a) && Quiet(b) && b[0] == ESC
    ensures FindIn(a + x + b) == if FindIn(x) < |x| then |a| + FindIn(x) else |a + x + b|
  {
    FindInAppend(a, x);
    FindInAppend(a + x, b);
  }

  lemma FindInHead(name: string, p: Palette)
    requires IsPalette(p)
    ensures FindIn(Head(name, p)) == if FindIn(name) < |name| then |FILE + Code(p.filename)| + FindIn(name) else |Head(name, p)|
  {
    QuietEnds(p);
    FindInMiddle(FILE + Code(p.filename), name, CLOSE);
  }

  lemma QuietEnds(p: Palette)
    requires IsPalette(p)
    ensures Quiet(FILE + Code(p.filename)) && Quiet(CLOSE) && CLOSE[0] == ESC
  {
    FindInNoComma(FILE);
    QuietCode(Code(p.filename), p.filename);
    QuietJoin(FILE, Code(p.filename));
    QuietClose();
  }

  lemma QuietClose()
    ensures Quiet(CLOSE) && CLOSE[0] == ESC
  {
    QuietCode(RESET, "0");
    FindInNoComma(['"']);
    QuietJoin(RESET, ['"']);
  }

  lemma FindInLine()
    ensures FindIn(LINE) == |LINE|
  {
    assert LINE[1..] == " line ";
    FindInNoComma(LINE[1..]);
  }

  lemma QuietNumber(digits: string, color: string)
    requires IsColor(color) && digits != "" && Digits(digits)
    ensures Quiet(LINE + Code(color) + digits + RESET) && Quiet(LINE + digits)
  {
    FindInLine();
    FindInNoComma(digits);
    QuietCode(Code(color), color);
    QuietCode(RESET, "0");
    QuietJoin(LINE, digits);
    QuietJoin(LINE, Code(color));
    QuietJoin(LINE + Code(color), digits);
    QuietJoin(LINE + Code(color) + digits, RESET);
  }

  lemma FindInQuiet(x: string, y: string)
    requires Quiet(x)
    ensures FindIn(x + y) == |x| + FindIn(y)
  {
    FindInAppend(x, y);
  }

  lemma FindInTail(t: Tail, rest: string, p: Palette)
    requires IsPalette(p) && t == AsTail(rest)
    ensures FindIn(t.Styled(p) + t.plain) == |t.Styled(p)| + FindIn(t.plain)
    ensures FindIn(rest) == |rest| - |t.plain| + FindIn(t.plain)
  {
    if t.Bare? {
      assert t.Styled(p) + t.plain == t.plain;
    } else {
      QuietNumber(t.digits, p.lineNo);
      FindInQuiet(t.Styled(p), t.plain);
      FindInQuiet(LINE + t.digits, t.plain);
    }
  }

  /** The line before the frame name is coloured. */
  function FirstStage(at: Location, p: Palette): string {
    var t := AsTail(at.rest);
    Head(at.name, p) + (t.Styled(p) + t.plain)
  }

  /** The second rewriting: everything behind the first `, in ` in the frame colour. */
  function SecondStage(out: string, p: Palette): string {
    var k := FindIn(out);
    if k < |out| then out[..k + 5] + Code(p.frame) + out[k + 5..] + RESET else out
  }

  lemma FindInFirstStage(at: Location, t: Tail, p: Palette)
    requires IsPalette(p) && t == AsTail(at.rest)
    ensures FindIn(FirstStage(at, p)) == if FindIn(at.name) < |at.name| then |FILE + Code(p.filename)| + FindIn(at.name)
                                         else |Head(at.name, p) + t.Styled(p)| + FindIn(t.plain)
  {
    FindInHead(at.name, p);
    FindInTail(t, at.rest, p);
    assert Head(at.name, p)[|Head(at.name, p)| - 1] == '"';
    FindInAppend(Head(at.name, p), t.Styled(p) + t.plain);
  }

  // ------------------------------------------- what the location line shows

  function StyledCells(t: Tail, p: Palette): seq<Cell>
  {
    if t.Bare? then [] else Literal(LINE, []) + Literal(t.digits, [p.lineNo])
  }

  lemma ShowsStyled(t: Tail, p: Palette)
    requires IsPalette(p) && (t.Numbered? ==> EscFree(t.digits))
    ensures Shows(t.Styled(p), [], StyledCells(t, p), [])
  {
    if t.Numbered? {
      ShowsText(LINE, []);
      ShowsPainted(p.lineNo, t.digits, []);
      var number := Code(p.lineNo) + t.digits + RESET;
      assert [] + [p.lineNo] == [p.lineNo];
      ShowsAppend(LINE, number, [], Literal(LINE, []), [], Literal(t.digits, [p.lineNo]), []);
      assert t.Styled(p) == LINE + number;
    }
  }

  lemma ShowsThenColor(s: string, color: string, style: Style)
    requires EscFree(s) && IsColor(color)
    ensures Shows(s + Code(color), style, Literal(s, style), style + [color])
  {
    ShowsText(s, style);
    ShowsColor(color, style);
    ShowsAppend(s, Code(color), style, Literal(s, style), style, [], style + [color]);
    assert Literal(s, style) + [] == Literal(s, style);
  }

  lemma ShowsOpen(p: Palette)
    requires IsPalette(p)
    ensures Shows(FILE + Code(p.filename), [], Literal(FILE, []), [p.filename])
  {
    ShowsThenColor(FILE, p.filename, []);
    assert [] + [p.filename] == [p.filename];
  }

  lemma ShowsClose(style: Style)
    ensures Shows(CLOSE, style, Literal(['"'], []), [])
  {
    ShowsReset(style);
    ShowsText(['"'], []);
    ShowsAppend(RESET, ['"'], style, [], [], Literal(['"'], []), []);
    assert [] + Literal(['"'], []) == Literal(['"'], []);
  }

  /** Text cut at `h`, with a colour switched on there. */
  lemma ShowsSwitched(s: string, h: nat, color: string, style: Style)
    requires EscFree(s) && h <= |s| && IsColor(color)
    ensures Shows(s[..h] + Code(color) + s[h..], style, Literal(s[..h], style) + Literal(s[h..], style + [color]), style + [color])
  {
    var on := style + [color];
    ShowsThenColor(s[..h], color, style);
    ShowsText(s[h..], on);
    ShowsAppend(s[..h] + Code(color), s[h..], style, Literal(s[..h], style), on, Literal(s[h..], on), on);
  }

  /** Four pieces one after the other, from the plain style back to it. */
  lemma ShowsFour(a: string, b: string, c: string, d: string,
                  ca: seq<Cell>, sa: Style, cb: seq<Cell>, sb: Style, cc: seq<Cell>, cd: seq<Cell>)
    requires Shows(a, [], ca, sa) && Shows(b, sa, cb, sb) && Shows(c, sb, cc, []) && Shows(d, [], cd, [])
    ensures Shows(a + b + c + d, [], ca + cb + cc + cd, [])
  {
    ShowsAppend(a, b, [], ca, sa, cb, sb);
    ShowsAppend(a + b, c, [], ca + cb, sb, cc, []);
    ShowsAppend(a + b + c, d, [], ca + cb + cc, [], cd, []);
  }

  lemma NameCellsCut(name: string, p: Palette, h: nat)
    requires h == (if FindIn(name) < |name| then FindIn(name) + 5 else |name|)
    ensures NameCells(name, p) == Literal(name[..h], [p.filename]) + Literal(name[h..], [p.filename, p.frame])
  {
    CellsCut(name, NameCells(name, p), h, [p.filename], [p.filename, p.frame]);
  }

  lemma CellsCut(s: string, cells: seq<Cell>, h: nat, before: Style, after: Style)
    requires |cells| == |s| && h <= |s|
    requires forall i :: 0 <= i < |s| ==> cells[i] == Cell(s[i], if i >= h then after else before)
    ensures cells == Literal(s[..h], before) + Literal(s[h..], after)
  {
  }

  lemma InNumberIs(rest: string, t: Tail)
    requires t == AsTail(rest)
    ensures forall i :: 0 <= i < |rest| ==> (InNumber(rest, i) <==> |LINE| <= i < |rest| - |t.plain|)
    ensures t.Bare? ==> t.plain == rest
    ensures t.Numbered? ==> |rest| == |LINE| + |t.digits| + |t.plain|
  {
  }

  lemma CellsCutBehind(s: string, cells: seq<Cell>, n: nat, h: nat, before: Style, after: Style)
    requires |cells| == |s| && n + h <= |s|
    requires forall i :: n <= i < |s| ==> cells[i] == Cell(s[i], if i >= n + h then after else before)
    ensures cells[n..] == Literal(s[n..][..h], before) + Literal(s[n..][h..], after)
  {
    CellsCut(s[n..], cells[n..], h, before, after);
  }

  lemma StyledPlain(rest: string, t: Tail, h: nat, n: nat, p: Palette)
    requires t == AsTail(rest) && h <= |t.plain| && n == |rest| - |t.plain|
    ensures StyledRest(rest, n + h, p)[n..] == Literal(t.plain[..h], []) + Literal(t.plain[h..], [p.frame])
  {
    assert rest[n..] == t.plain;
    InNumberIs(rest, t);
    CellsCutBehind(rest, StyledRest(rest, n + h, p), n, h, [], [p.frame]);
  }

  lemma StyledNumber(rest: string, t: Tail, h: nat, n: nat, p: Palette)
    requires t == AsTail(rest) && h <= |t.plain| && n == |rest| - |t.plain|
    ensures StyledRest(rest, n + h, p)[..n] == StyledCells(t, p)
  {
    InNumberIs(rest, t);
    if t.Numbered? {
      var s, cells := LINE + t.digits, StyledRest(rest, n + h, p)[..n];
      CellsCut(s, cells, |LINE|, [], [p.lineNo]);
      assert s[..|LINE|] == LINE && s[|LINE|..] == t.digits;
    }
  }

  lemma Rejoin(cells: seq<Cell>, n: nat, a: seq<Cell>, b: seq<Cell>)
    requires n <= |cells| && cells[..n] == a && cells[n..] == b
    ensures cells == a + b
  {
  }

  /** Up to the end of the number, and behind it. */
  lemma StyledRestCut(rest: string, t: Tail, h: nat, n: nat, p: Palette)
    requires t == AsTail(rest) && h <= |t.plain| && n == |rest| - |t.plain|
    ensures StyledRest(rest, n + h, p)
         == StyledCells(t, p) + (Literal(t.plain[..h], []) + Literal(t.plain[h..], [p.frame]))
  {
    StyledPlain(rest, t, h, n, p);
    StyledNumber(rest, t, h, n, p);
    Rejoin(StyledRest(rest, n + h, p), n, StyledCells(t, p), Literal(t.plain[..h], []) + Literal(t.plain[h..], [p.frame]));
  }

  // the three shapes of the line

  /** The second stage when `, in ` first occurs in the file name. */
  lemma NameHitText(at: Location, t: Tail, p: Palette, h: nat)
    requires IsPalette(p) && t == AsTail(at.rest) && FindIn(at.name) < |at.name| && h == FindIn(at.name) + 5
    ensures SecondStage(FirstStage(at, p), p)
         == (FILE + Code(p.filename)) + (at.name[..h] + Code(p.frame) + at.name[h..]) + CLOSE + (t.Styled(p) + t.plain) + RESET
  {
    var a, x, d := FILE + Code(p.filename), at.name, t.Styled(p) + t.plain;
    FindInFirstStage(at, t, p);
    JoinText(a + x, CLOSE, d);
    CutInside(a, x, CLOSE + d, h, Code(p.frame));
    JoinText(a + (x[..h] + Code(p.frame) + x[h..]), CLOSE, d);
  }

  /** The second stage when it first occurs behind the number. */
  lemma RestHitText(at: Location, t: Tail, p: Palette, h: nat)
    requires IsPalette(p) && t == AsTail(at.rest) && FindIn(at.name) == |at.name|
    requires FindIn(t.plain) < |t.plain| && h == FindIn(t.plain) + 5
    ensures SecondStage(FirstStage(at, p), p)
         == Head(at.name, p) + t.Styled(p) + (t.plain[..h] + Code(p.frame) + t.plain[h..]) + RESET
  {
    var a, x := Head(at.name, p) + t.Styled(p), t.plain;
    FindInFirstStage(at, t, p);
    JoinText(Head(at.name, p), t.Styled(p), x);
    CutInside(a, x, "", h, Code(p.frame));
    assert a + x + "" == a + x;
    assert a + (x[..h] + Code(p.frame) + x[h..]) + "" == a + (x[..h] + Code(p.frame) + x[h..]);
  }

  lemma JoinText(a: string, b: string, c: string)
    ensures a + b + c == a + (b + c)
  {
  }

  lemma CutInside(a: string, x: string, b: string, h: nat, code: string)
    requires h <= |x|
    ensures (a + x + b)[..|a| + h] + code + (a + x + b)[|a| + h..] == a + (x[..h] + code + x[h..]) + b
  {
    assert (a + x + b)[..|a| + h] == a + x[..h];
    assert (a + x + b)[|a| + h..] == x[h..] + b;
  }

  lemma ShowsEnd(s: string, cells: seq<Cell>, style: Style)
    requires Shows(s, [], cells, style)
    ensures Shows(s + RESET, [], cells, [])
  {
    ShowsReset(style);
    ShowsAppend(s, RESET, [], cells, style, [], []);
    assert cells + [] == cells;
  }

  lemma EscFreeTail(rest: string, t: Tail)
    requires t == AsTail(rest) && EscFree(rest)
    ensures EscFree(t.plain) && (t.Numbered? ==> EscFree(t.digits))
  {
    assert forall i :: 0 <= i < |t.plain| ==> t.plain[i] == rest[|rest| - |t.plain| + i];
  }

  /** Where the frame colour starts in the text behind the number. */
  lemma FrameStartIs(at: Location, t: Tail, p: Palette, h: nat)
    requires IsPalette(p) && t == AsTail(at.rest)
    requires h == if FindIn(at.name) < |at.name| || FindIn(t.plain) == |t.plain| then |t.plain| else FindIn(t.plain) + 5
    ensures h <= |t.plain| <= |at.rest| && FrameStart(at) == |at.rest| - |t.plain| + h
  {
    FindInTail(t, at.rest, p);
    TailLength(at.rest, t);
  }

  lemma TailLength(rest: string, t: Tail)
    requires t == AsTail(rest)
    ensures |t.plain| <= |rest|
  {
  }

  lemma RestCellsCut(at: Location, t: Tail, p: Palette, h: nat)
    requires IsPalette(p) && t == AsTail(at.rest)
    requires h == if FindIn(at.name) < |at.name| || FindIn(t.plain) == |t.plain| then |t.plain| else FindIn(t.plain) + 5
    ensures h <= |t.plain|
    ensures RestCells(at, p) == StyledCells(t, p) + (Literal(t.plain[..h], []) + Literal(t.plain[h..], [p.frame]))
  {
    FrameStartIs(at, t, p, h);
    StyledRestCut(at.rest, t, h, |at.rest| - |t.plain|, p);
  }

  lemma WholeLiteral(s: string, a: Style, b: Style)
    ensures Literal(s[..|s|], a) + Literal(s[|s|..], b) == Literal(s, a)
  {
    assert s[..|s|] == s;
  }

  /** The tail as it stands, without a frame name in it. */
  lemma ShowsTail(at: Location, t: Tail, p: Palette)
    requires IsPalette(p) && t == AsTail(at.rest) && EscFree(at.rest)
    requires FindIn(at.name) < |at.name| || FindIn(t.plain) == |t.plain|
    ensures Shows(t.Styled(p) + t.plain, [], RestCells(at, p), [])
  {
    EscFreeTail(at.rest, t);
    ShowsText(t.plain, []);
    ShowsStyled(t, p);
    ShowsAppend(t.Styled(p), t.plain, [], StyledCells(t, p), [], Literal(t.plain, []), []);
    RestCellsCut(at, t, p, |t.plain|);
    WholeLiteral(t.plain, [], [p.frame]);
  }

  lemma ShowsNameHit(at: Location, t: Tail, p: Palette)
    requires IsPalette(p) && t == AsTail(at.rest) && FindIn(at.name) < |at.name|
    requires EscFree(at.name) && EscFree(at.rest)
    ensures Shows(SecondStage(FirstStage(at, p), p), [], LocationCells(at, p), [])
  {
    var name, h := at.name, FindIn(at.name) + 5;
    var a, b, d := FILE + Code(p.filename), name[..h] + Code(p.frame) + name[h..], t.Styled(p) + t.plain;
    NameHitText(at, t, p, h);
    ShowsOpen(p);
    ShowsSwitched(name, h, p.frame, [p.filename]);
    assert [p.filename] + [p.frame] == [p.filename, p.frame];
    NameCellsCut(name, p, h);
    ShowsClose([p.filename, p.frame]);
    ShowsTail(at, t, p);
    ShowsFour(a, b, CLOSE, d, Literal(FILE, []), [p.filename], NameCells(name, p), [p.filename, p.frame],
              Literal(['"'], []), RestCells(at, p));
    ShowsEnd(a + b + CLOSE + d, LocationCells(at, p), []);
  }

  lemma ShowsThree(a: string, b: string, c: string, before: Style, ca: seq<Cell>, sa: Style, cb: seq<Cell>, sb: Style,
                   cc: seq<Cell>, sc: Style)
    requires Shows(a, before, ca, sa) && Shows(b, sa, cb, sb) && Shows(c, sb, cc, sc)
    ensures Shows(a + b + c, before, ca + cb + cc, sc)
  {
    ShowsAppend(a, b, before, ca, sa, cb, sb);
    ShowsAppend(a + b, c, before, ca + cb, sb, cc, sc);
  }

  lemma ShowsHead(name: string, p: Palette)
    requires IsPalette(p) && EscFree(name) && FindIn(name) == |name|
    ensures Shows(Head(name, p), [], Literal(FILE, []) + NameCells(name, p) + Literal(['"'], []), [])
  {
    ShowsOpen(p);
    ShowsText(name, [p.filename]);
    ShowsClose([p.filename]);
    NameCellsCut(name, p, |name|);
    WholeLiteral(name, [p.filename], [p.filename, p.frame]);
    ShowsThree(FILE + Code(p.filename), name, CLOSE, [], Literal(FILE, []), [p.filename], NameCells(name, p), [p.filename],
               Literal(['"'], []), []);
  }

  lemma ShowsNoHit(at: Location, t: Tail, p: Palette)
    requires IsPalette(p) && t == AsTail(at.rest) && FindIn(at.name) == |at.name| && FindIn(t.plain) == |t.plain|
    requires EscFree(at.name) && EscFree(at.rest)
    ensures Shows(SecondStage(FirstStage(at, p), p), [], LocationCells(at, p), [])
  {
    FindInFirstStage(at, t, p);
    JoinText(Head(at.name, p), t.Styled(p), t.plain);
    ShowsHead(at.name, p);
    ShowsTail(at, t, p);
    ShowsAppend(Head(at.name, p), t.Styled(p) + t.plain, [], Literal(FILE, []) + NameCells(at.name, p) + Literal(['"'], []), [],
                RestCells(at, p), []);
  }

  lemma ShowsRestHit(at: Location, t: Tail, p: Palette)
    requires IsPalette(p) && t == AsTail(at.rest) && FindIn(at.name) == |at.name| && FindIn(t.plain) < |t.plain|
    requires EscFree(at.name) && EscFree(at.rest)
    ensures Shows(SecondStage(FirstStage(at, p), p), [], LocationCells(at, p), [])
  {
    var h := FindIn(t.plain) + 5;
    var a, b, c := Head(at.name, p), t.Styled(p), t.plain[..h] + Code(p.frame) + t.plain[h..];
    var ca := Literal(FILE, []) + NameCells(at.name, p) + Literal(['"'], []);
    RestHitText(at, t, p, h);
    ShowsHead(at.name, p);
    EscFreeTail(at.rest, t);
    ShowsStyled(t, p);
    ShowsSwitched(t.plain, h, p.frame, []);
    assert [] + [p.frame] == [p.frame];
    RestCellsCut(at, t, p, h);
    var cc := Literal(t.plain[..h], []) + Literal(t.plain[h..], [p.frame]);
    ShowsThree(a, b, c, [], ca, [], StyledCells(t, p), [], cc, [p.frame]);
    JoinCells(ca, StyledCells(t, p), cc);
    ShowsEnd(a + b + c, LocationCells(at, p), [p.frame]);
  }

  /** A location line shows its own text in the styles of `LocationCells`, and
      ends plain, wherever its first `, in ` is. */
  lemma ShowsLocation(at: Location, p: Palette)
    requires IsPalette(p) && EscFree(at.name) && EscFree(at.rest)
    ensures Shows(SecondStage(FirstStage(at, p), p), [], LocationCells(at, p), [])
  {
    var t := AsTail(at.rest);
    if FindIn(at.name) < |at.name| {
      ShowsNameHit(at, t, p);
    } else if FindIn(t.plain) < |t.plain| {
      ShowsRestHit(at, t, p);
    } else {
      ShowsNoHit(at, t, p);
    }
  }

  // --------------------------------------------------------- the colorizers

  /** The first quote of the line is the one its prefix ends with. */
  lemma FirstQuote(line: string)
    requires FILE <= line
    ensures Find(line, '"') + 1 == |FILE|
  {
    FindIs(line, '"', |FILE| - 1);
  }

  lemma EscFreeParts(line: string, at: Location)
    requires AsLocation(line) == Some(at) && EscFree(line)
    ensures EscFree(at.name) && EscFree(at.rest)
  {
  }

  /** The quoted file name of the line and what follows it. */
  method QuotedFile(line: string) returns (r: Option<Location>)
    ensures r == AsLocation(line)
  {
    if !(FILE <= line) {
      return None;
    }
    var open := Find(line, '"');
    FirstQuote(line);
    var close := Find(line[open + 1..], '"') + open + 1;
    if close == |line| {
      return None;
    }
    return Some(Location(line[open + 1..close], line[close + 1..]));
  }

  method ColorizeFileLocationLine(line: string, p: Palette) returns (r: Option<string>)
    requires IsPalette(p)
    ensures r.Some? <==> AsLocation(line).Some?
    ensures r.Some? ==> r.value == SecondStage(FirstStage(AsLocation(line).value, p), p)
    ensures r.Some? && EscFree(line) ==> Shows(r.value, [], LocationCells(AsLocation(line).value, p), [])
  {
    var at := QuotedFile(line);
    if at == None {
      return None;
    }
    var out := PushHead(at.value.name, p);
    var tail := PushRest(at.value.rest, p);
    out := ColorFrame(out + tail, p);
    if EscFree(line) {
      EscFreeParts(line, at.value);
      ShowsLocation(at.value, p);
    }
    r := Some(out);
  }

  /** The second rewriting, on text that may already hold colour codes. */
  method ColorFrame(out: string, p: Palette) returns (rewritten: string)
    ensures rewritten == SecondStage(out, p)
  {
    var k := FindIn(out);
    if k < |out| {
      var start := k + |IN|;
      return out[..start] + Code(p.frame) + out[start..] + RESET;
    }
    return out;
  }

  /** The quoted file name in colour. */
  method PushHead(name: string, p: Palette) returns (out: string)
    ensures out == Head(name, p)
  {
    out := FILE;
    out := out + Code(p.filename);
    out := out + name;
    out := out + RESET;
    out := out + ['"'];
  }

  /** The text behind the closing quote, with the line number in colour. */
  method PushRest(rest: string, p: Palette) returns (out: string)
    ensures out == AsTail(rest).Styled(p) + AsTail(rest).plain
  {
    if LINE <= rest {
      var after := rest[|LINE|..];
      var n := DigitRun(after);
      if n > 0 {
        return LINE + Code(p.lineNo) + after[..n] + RESET + after[n..];
      }
      assert rest == LINE + after;
      return LINE + after;
    }
    return rest;
  }

  method ColorizeCaretLine(line: string, p: Palette) returns (out: string)
    requires IsPalette(p)
    ensures EscFree(line) ==> Shows(out, [], CaretCells(line, p), [])
  {
    out := "";
    for i := 0 to |line|
      invariant EscFree(line) ==> Shows(out, [], CaretCells(line, p)[..i], [])
    {
      var color := if line[i] == '^' then p.highlight else p.range;
      ghost var before := out;
      if line[i] == '^' || line[i] == '~' {
        out := out + (Code(color) + [line[i]] + RESET);
      } else {
        out := out + [line[i]];
      }
      if EscFree(line) {
        ShowsOneMore(line, i, before, p);
      }
    }
  }

  lemma ShowsOneMore(line: string, i: nat, before: string, p: Palette)
    requires IsPalette(p) && EscFree(line) && i < |line| && Shows(before, [], CaretCells(line, p)[..i], [])
    ensures line[i] == '^' ==> Shows(before + (Code(p.highlight) + [line[i]] + RESET), [], CaretCells(line, p)[..i + 1], [])
    ensures line[i] == '~' ==> Shows(before + (Code(p.range) + [line[i]] + RESET), [], CaretCells(line, p)[..i + 1], [])
    ensures line[i] != '^' && line[i] != '~' ==> Shows(before + [line[i]], [], CaretCells(line, p)[..i + 1], [])
  {
    var cells := CaretCells(line, p);
    assert cells[..i + 1] == cells[..i] + [cells[i]];
    if line[i] == '^' {
      ShowsMark(before, cells[..i], p.highlight, line[i]);
    } else if line[i] == '~' {
      ShowsMark(before, cells[..i], p.range, line[i]);
    } else {
      ShowsText([line[i]], []);
      assert Literal([line[i]], []) == [cells[i]];
      ShowsAppend(before, [line[i]], [], cells[..i], [], [cells[i]], []);
    }
  }

  lemma ShowsMark(before: string, cells: seq<Cell>, color: string, c: char)
    requires IsColor(color) && c != ESC && Shows(before, [], cells, [])
    ensures Shows(before + (Code(color) + [c] + RESET), [], cells + [Cell(c, [color])], [])
  {
    ShowsPainted(color, [c], []);
    var on: Style := [] + [color];
    assert on == [color];
    assert Literal([c], on) == [Cell(c, [color])];
    ShowsAppend(before, Code(color) + [c] + RESET, [], cells, [], [Cell(c, [color])], []);
  }

  lemma ShowsPaintedPlain(color: string, s: string)
    requires IsColor(color) && EscFree(s)
    ensures Shows(Code(color) + s + RESET, [], Literal(s, [color]), [])
  {
    ShowsPainted(color, s, []);
    var on: Style := [] + [color];
    assert on == [color];
  }

  lemma ThreeParts(a: string, c: char, b: string, cells: seq<Cell>, x: Style, y: Style)
    requires |cells| == |a| + 1 + |b| && cells[|a|] == Cell(c, [])
    requires forall i :: 0 <= i < |a| ==> cells[i] == Cell(a[i], x)
    requires forall i :: |a| < i < |cells| ==> cells[i] == Cell(b[i - |a| - 1], y)
    ensures cells == Literal(a, x) + Literal([c], []) + Literal(b, y)
  {
  }

  /** The cells of an exception line, part by part. */
  lemma ExceptionParts(ty: string, rest: string, p: Palette, line: string)
    requires line == ty + [':'] + rest && Free(ty, ':')
    ensures ExceptionCells(line, p) == Literal(ty, [p.typeColor]) + Literal([':'], []) + Literal(rest, [p.message])
  {
    FindAfter(ty, ':', rest);
    ThreeParts(ty, ':', rest, ExceptionCells(line, p), [p.typeColor], [p.message]);
  }

  lemma ShowsException(ty: string, rest: string, p: Palette, line: string)
    requires IsPalette(p) && EscFree(ty) && EscFree(rest) && line == ty + [':'] + rest && Free(ty, ':')
    ensures Shows(Code(p.typeColor) + ty + RESET + [':'] + (Code(p.message) + rest + RESET), [], ExceptionCells(line, p), [])
    ensures rest == "" ==> Shows(Code(p.typeColor) + ty + RESET + [':'], [], ExceptionCells(line, p), [])
  {
    var a, c := Code(p.typeColor) + ty + RESET, Code(p.message) + rest + RESET;
    var ca, cb, cc := Literal(ty, [p.typeColor]), Literal([':'], []), Literal(rest, [p.message]);
    ShowsPaintedPlain(p.typeColor, ty);
    ShowsText([':'], []);
    ShowsPaintedPlain(p.message, rest);
    ShowsThree(a, [':'], c, [], ca, [], cb, [], cc, []);
    ShowsAppend(a, [':'], [], ca, [], cb, []);
    ExceptionParts(ty, rest, p, line);
    assert rest == "" ==> ca + cb + cc == ca + cb;
  }

  lemma ShowsBareException(line: string, p: Palette)
    requires IsPalette(p) && EscFree(line) && Find(line, ':') == |line|
    ensures Shows(Code(p.typeColor) + line + RESET, [], ExceptionCells(line, p), [])
  {
    ShowsPainted(p.typeColor, line, []);
    var t: Style := [] + [p.typeColor];
    assert t == [p.typeColor];
    assert ExceptionCells(line, p) == Literal(line, [p.typeColor]);
  }

  method ColorizeExceptionLine(line: string, p: Palette) returns (r: Option<string>)
    requires IsPalette(p)
    ensures r.Some? <==> IsExceptionLine(line)
    ensures r.Some? && EscFree(line) ==> Shows(r.value, [], ExceptionCells(line, p), [])
  {
    if line == "" || line[0] == ' ' {
      return None;
    }
    if line == "Traceback (most recent call last):" {
      return None;
    }
    var colon := Find(line, ':');
    if colon < |line| {
      var ty := line[..colon];
      if !LooksLikeExceptionType(ty) {
        return None;
      }
      var out := Code(p.typeColor) + ty + RESET + [':'];
      var remainder := line[colon + 1..];
      if EscFree(line) {
        SplitAt(line, colon);
        ShowsException(ty, remainder, p, line);
      }
      if remainder != "" {
        out := out + (Code(p.message) + remainder + RESET);
      }
      return Some(out);
    }
    assert line[..colon] == line;
    if LooksLikeExceptionType(line) {
      if EscFree(line) {
        ShowsBareException(line, p);
      }
      return Some(Code(p.typeColor) + line + RESET);
    }
    return None;
  }

  method ColorizeLine(line: string, p: Palette) returns (out: string)
    requires IsPalette(p)
    ensures EscFree(line) ==> Shows(out, [], LineCells(line, p), [])
  {
    var location := ColorizeFileLocationLine(line, p);
    if location.Some? {
      return location.value;
    }
    if IsCaretLine(line) {
      out := ColorizeCaretLine(line, p);
      return;
    }
    var raised := ColorizeExceptionLine(line, p);
    if raised.Some? {
      return raised.value;
    }
    if EscFree(line) {
      ShowsText(line, []);
    }
    return line;
  }

  /** One more line, without or with its line feed. */
  lemma ShowsFeed(styled: string, styledCells: seq<Cell>, newline: bool)
    requires Shows(styled, [], styledCells, [])
    ensures Shows(styled + (if newline then ['\n'] else ""), [], WithFeed(styledCells, newline), [])
  {
    var end: string := if newline then ['\n'] else "";
    ShowsText(end, []);
    ShowsAppend(styled, end, [], styledCells, [], Literal(end, []), []);
    assert styledCells + Literal(end, []) == WithFeed(styledCells, newline);
  }

  lemma EscFreeChunk(rest: string)
    requires rest != "" && EscFree(rest)
    ensures EscFree(NextChunk(rest).line) && EscFree(NextChunk(rest).after)
  {
  }

  /** A styled line with its line feed. */
  method ColorizeChunk(c: Chunk, p: Palette) returns (styled: string)
    requires IsPalette(p)
    ensures EscFree(c.line) ==> Shows(styled, [], WithFeed(LineCells(c.line, p), c.newline), [])
  {
    var line := ColorizeLine(c.line, p);
    styled := line + if c.newline then ['\n'] else "";
    if EscFree(c.line) {
      ShowsFeed(line, LineCells(c.line, p), c.newline);
    }
  }

  /** The colorized message shows every line in its own styles; no style
      reaches a line feed or the next line, and none is left at the end. */
  method ColorizeErrorMessage(message: string, p: Palette) returns (out: string)
    requires IsPalette(p)
    ensures EscFree(message) ==> Shows(out, [], MessageCells(message, p), [])
    ensures EscFree(message) ==> StripCodes(out) == message
  {
    out := "";
    var rest := message;
    ghost var cells: seq<Cell> := [];
    ghost var cellsOf := line => LineCells(line, p);
    while rest != ""
      invariant EscFree(message) ==> EscFree(rest) && Shows(out, [], cells, [])
      invariant cells + ByLines(rest, cellsOf) == MessageCells(message, p)
      decreases |rest|
    {
      var c := NextChunk(rest);
      var styled := ColorizeChunk(c, p);
      ghost var styledCells := WithFeed(cellsOf(c.line), c.newline);
      if EscFree(message) {
        EscFreeChunk(rest);
        ShowsAppend(out, styled, [], cells, [], styledCells, []);
      }
      JoinCells(cells, styledCells, ByLines(c.after, cellsOf));
      out, cells, rest := out + styled, cells + styledCells, c.after;
    }
    assert cells + [] == cells;
    MessageVisible(message, p);
  }

  /** What goes to standard error: the message itself, or its text in the colours
      of the background. Stripping the codes gives the message in both cases. */
  method FormatErrorForStderr(message: string, colorize: bool, background: Option<nat>) returns (out: string)
    ensures !colorize ==> out == message
    ensures EscFree(message) ==> StripCodes(out) == message
    ensures colorize && EscFree(message) ==> Shows(out, [], MessageCells(message, SelectPalette(background)), [])
  {
    if !colorize {
      if EscFree(message) {
        ShowsText(message, []);
      }
      return message;
    }
    out := ColorizeErrorMessage(message, SelectPalette(background));
  }
}
