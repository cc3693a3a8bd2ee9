/** A terminal that understands the colour sequences of the traceback
    colorizer: what a text shows, and in which style. */
module Terminal {
  const ESC: char := 0x1B as char

  /** The colour codes in force, the oldest first. */
  type Style = seq<string>

  datatype Cell = Cell(c: char, style: Style)

  datatype Mode = Ground | Escape | Params(text: string)

  /** What the terminal has shown, and the state it is left in. */
  datatype Screen = Screen(cells: seq<Cell>, mode: Mode, style: Style)

  function Literal(s: string, style: Style): (r: seq<Cell>)
    ensures |r| == |s| && forall i :: 0 <= i < |s| ==> r[i] == Cell(s[i], style)
  {
    seq(|s|, i requires 0 <= i < |s| => Cell(s[i], style))
  }

  predicate ParamChar(c: char) {
    '0' <= c <= '9' || c == ';'
  }

  /** One character. A sequence that turns out not to be a colour code is shown as it is. */
  function Step(mode: Mode, style: Style, c: char): Screen {
    match mode
    case Ground => if c == ESC then Screen([], Escape, style) else Screen([Cell(c, style)], Ground, style)
    case Escape =>
      if c == '[' then Screen([], Params(""), style)
      else if c == ESC then Screen(Literal([ESC], style), Escape, style)
      else Screen(Literal([ESC, c], style), Ground, style)
    case Params(text) =>
      if ParamChar(c) then Screen([], Params(text + [c]), style)
      else if c == 'm' then Screen([], Ground, if text == "" || text == "0" then [] else style + [text])
      else if c == ESC then Screen(Literal([ESC, '['] + text, style), Escape, style)
      else Screen(Literal([ESC, '['] + text + [c], style), Ground, style)
  }

  function Run(mode: Mode, style: Style, s: string): Screen
    decreases |s|
  {
    if s == "" then Screen([], mode, style)
    else
      var first := Step(mode, style, s[0]);
      var rest := Run(first.mode, first.style, s[1..]);
      Screen(first.cells + rest.cells, rest.mode, rest.style)
  }

  lemma JoinCells(a: seq<Cell>, b: seq<Cell>, c: seq<Cell>)
    ensures a + (b + c) == (a + b) + c
  {
  }

  lemma {:induction false} RunAppend(mode: Mode, style: Style, a: string, b: string)
    ensures Run(mode, style, a + b) == Then(Run(mode, style, a), b)
    decreases |a|
  {
    if a == "" {
      assert a + b == b;
    } else {
      var step := Step(mode, style, a[0]);
      assert (a + b)[0] == a[0] && (a + b)[1..] == a[1..] + b;
      RunAppend(step.mode, step.style, a[1..], b);
      var first := Run(step.mode, step.style, a[1..]);
      JoinCells(step.cells, first.cells, Run(first.mode, first.style, b).cells);
    }
  }

  /** The screen after `b` as well. */
  function Then(first: Screen, b: string): Screen {
    var rest := Run(first.mode, first.style, b);
    Screen(first.cells + rest.cells, rest.mode, rest.style)
  }

  /** `s`, met outside any sequence under `before`, shows `cells` and leaves the style `after`. */
  predicate Shows(s: string, before: Style, cells: seq<Cell>, after: Style) {
    Run(Ground, before, s) == Screen(cells, Ground, after)
  }

  lemma ShowsAppend(a: string, b: string, before: Style, first: seq<Cell>, middle: Style, rest: seq<Cell>, after: Style)
    requires Shows(a, before, first, middle) && Shows(b, middle, rest, after)
    ensures Shows(a + b, before, first + rest, after)
  {
    RunAppend(Ground, before, a, b);
  }

  predicate EscFree(s: string) {
    forall i :: 0 <= i < |s| ==> s[i] != ESC
  }

  lemma {:induction false} ShowsText(s: string, style: Style)
    requires EscFree(s)
    ensures Shows(s, style, Literal(s, style), style)
  {
    if s != "" {
      ShowsText(s[1..], style);
      assert Literal(s, style) == [Cell(s[0], style)] + Literal(s[1..], style);
    }
  }

  // ----------------------------------------------------------- colour codes

  predicate ParamText(s: string) {
    forall i :: 0 <= i < |s| ==> ParamChar(s[i])
  }

  function Code(params: string): string {
    [ESC, '['] + params + ['m']
  }

  /** The escape character, a bracket, the parameters and the letter m. */
  lemma CodeIs(params: string)
    ensures Code(params) == "\U{1B}[" + params + "m"
  {
    assert "\U{1B}["[0] == ESC;
  }

  /** The parameters of a colour code that is not a reset. */
  predicate IsColor(params: string) {
    ParamText(params) && params != "" && params != "0"
  }

  const RESET: string := Code("0")

  lemma {:induction false} RunParams(text: string, params: string, style: Style)
    requires ParamText(params)
    ensures Run(Params(text), style, params) == Screen([], Params(text + params), style)
    decreases |params|
  {
    if params == "" {
      assert text + params == text;
    } else {
      RunParams(text + [params[0]], params[1..], style);
      assert text + [params[0]] + params[1..] == text + params;
    }
  }

  lemma RunCode(params: string, style: Style)
    requires ParamText(params)
    ensures Shows(Code(params), style, [], if params == "" || params == "0" then [] else style + [params])
  {
    var open, close := [ESC, '['], "m";
    var at := Params("");
    assert open[1..] == ['['] && open[1..][1..] == "";
    assert Run(Escape, style, open[1..]) == Screen([], at, style);
    assert Run(Ground, style, open) == Screen([], at, style);
    RunParams("", params, style);
    assert "" + params == params;
    RunAppend(Ground, style, open, params);
    RunAppend(Ground, style, open + params, close);
    assert close[1..] == "";
    var end := Step(Params(params), style, 'm');
    assert Run(Params(params), style, close) == Screen(end.cells + [], Ground, end.style);
  }

  lemma ShowsColor(color: string, style: Style)
    requires IsColor(color)
    ensures Shows(Code(color), style, [], style + [color])
  {
    RunCode(color, style);
  }

  lemma ShowsReset(style: Style)
    ensures Shows(RESET, style, [], [])
  {
    RunCode("0", style);
  }

  /** Coloured text shows the text with the colour on top, and ends all colours. */
  lemma ShowsPainted(color: string, s: string, style: Style)
    requires IsColor(color) && EscFree(s)
    ensures Shows(Code(color) + s + RESET, style, Literal(s, style + [color]), [])
  {
    var on := style + [color];
    ShowsColor(color, style);
    ShowsText(s, on);
    ShowsReset(on);
    ShowsAppend(Code(color), s, style, [], on, Literal(s, on), on);
    assert [] + Literal(s, on) == Literal(s, on);
    ShowsAppend(Code(color) + s, RESET, style, Literal(s, on), on, [], []);
    assert Literal(s, on) + [] == Literal(s, on);
  }

  /** The text without its colour codes. */
  function Visible(cells: seq<Cell>): (r: string)
    ensures |r| == |cells| && forall i :: 0 <= i < |cells| ==> r[i] == cells[i].c
  {
    seq(|cells|, i requires 0 <= i < |cells| => cells[i].c)
  }

  function StripCodes(s: string): string {
    Visible(Run(Ground, [], s).cells)
  }
}
