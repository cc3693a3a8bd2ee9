/** The generated Unicode name table and its reader: `render_output` of the
    generator script, `build_unicode_name_table` and `lookup_unicode_name` of
    the parser. */
module NameTable {
  import opened Common
  import opened Ordering
  import opened Text

  // ---------------------------------------------------------- hexadecimal

  function HexDigit(d: nat): (c: char)
    requires d < 16
    ensures DigitValue(c) == Some(d) && c != ';' && c != '\n' && c != '\r'
    ensures c != '+' && c != '-' && !RustSpace(c)
  {
    if d < 10 then '0' + d as char else 'A' + (d - 10) as char
  }

  /** `char::to_digit(16)`. */
  function DigitValue(c: char): Option<nat> {
    if '0' <= c <= '9' then Some(c as int - '0' as int)
    else if 'A' <= c <= 'F' then Some(c as int - 'A' as int + 10)
    else if 'a' <= c <= 'f' then Some(c as int - 'a' as int + 10)
    else None
  }

  /** Python's `{n:X}`. */
  function Hex(n: nat): (s: string)
    ensures s != "" && HexText(s)
  {
    if n < 16 then [HexDigit(n)] else Hex(n / 16) + [HexDigit(n % 16)]
  }

  /** A digit is the character at its place in 0 to 9 and the letters behind, in
      capitals when printed and in either case when read. */
  lemma DigitsOfHex(c: char, d: nat)
    requires d < 16
    ensures HexDigit(d) == (DIGITS + CAPITAL)[d]
    ensures DigitValue(c) == Some(d) <==> c == (DIGITS + CAPITAL)[d] || c == (DIGITS + SMALL)[d]
    ensures DigitValue(c).Some? ==> DigitValue(c).value < 16
  {
    DigitPlace(d);
  }

  predicate HexText(s: string) {
    forall i :: 0 <= i < |s| ==>
      DigitValue(s[i]).Some? && s[i] != ';' && s[i] != '\n' && s[i] != '\r' && s[i] != '+' && s[i] != '-' && !RustSpace(s[i])
  }

  const MAX_U32 := 0xFFFF_FFFF

  /** The digit loop of `u32::from_str_radix`, overflow checked at every step. */
  function Digits(s: string): (r: Option<nat>)
    ensures r.Some? ==> r.value <= MAX_U32
  {
    if s == "" then Some(0)
    else
      match (Digits(s[..|s| - 1]), DigitValue(s[|s| - 1]))
      case (Some(high), Some(d)) => if 16 * high + d <= MAX_U32 then Some(16 * high + d) else None
      case _ => None
  }

  /** `u32::from_str_radix(s, 16)`: one leading plus sign is allowed. */
  function ParseHex(s: string): Option<nat> {
    if s == "" || s == "+" || s == "-" then None
    else if s[0] == '+' then Digits(s[1..])
    else Digits(s)
  }

  lemma {:induction false} HexDigits(n: nat)
    ensures Digits(Hex(n)) == if n <= MAX_U32 then Some(n) else None
  {
    if n >= 16 {
      HexDigits(n / 16);
      var s := Hex(n);
      assert s[..|s| - 1] == Hex(n / 16);
    } else {
      assert Digits([HexDigit(n)][..0]) == Some(0);
    }
  }

  /** A sign is allowed in front of digits and nothing else is. */
  lemma HexAccepted(s: string)
    ensures ParseHex(s).Some? ==> var digits := if s[..1] == "+" then s[1..] else s;
              digits != "" && forall i :: 0 <= i < |digits| ==> DigitValue(digits[i]).Some?
  {
    if ParseHex(s).Some? {
      var digits := if s[..1] == "+" then s[1..] else s;
      DigitsOnly(digits);
    }
  }

  /** Reading printed hexadecimal gives the number back, if it fits in 32 bits. */
  lemma HexRoundTrip(n: nat)
    ensures ParseHex(Hex(n)) == if n < 0x1_0000_0000 then Some(n) else None
  {
    HexDigits(n);
    assert DigitValue(Hex(n)[0]).Some?;
  }

  lemma {:induction false} DigitsOnly(s: string)
    requires Digits(s).Some?
    ensures forall i :: 0 <= i < |s| ==> DigitValue(s[i]).Some?
  {
    if s != "" {
      DigitsOnly(s[..|s| - 1]);
      assert s == s[..|s| - 1] + [s[|s| - 1]];
    }
  }

  // ------------------------------------------------------------- the reader

  datatype Entry = Char(c: char) | NamedSequence

  datatype Lookup = Found(entry: Entry) | Unknown

  predicate Scalar(n: nat) {
    n < 0xD800 || 0xE000 <= n < 0x11_0000
  }

  /** Every character is a scalar value. */
  lemma CharIsScalar(c: char)
    ensures Scalar(c as int) && CharOf(c as int) == c
  {
  }

  /** `char::from_u32` on a scalar value. */
  function CharOf(n: nat): char
    requires Scalar(n)
  {
    n as char
  }

  datatype Row = Row(name: string, entry: Entry)

  /** `line.splitn(3, ';')` when it yields three fields. */
  function Fields(line: string): Option<(string, string, string)> {
    var i := Find(line, ';');
    if i == |line| then None
    else
      var rest := line[i + 1..];
      var j := Find(rest, ';');
      if j == |rest| then None else Some((line[..i], rest[..j], rest[j + 1..]))
  }

  predicate AllSpace(s: string) {
    forall i :: 0 <= i < |s| ==> RustSpace(s[i])
  }

  function ReadRow(kind: string, name: string, payload: string): Option<Row> {
    if kind == "C" || kind == "A" then
      match ParseHex(payload)
      case Some(n) => if Scalar(n) then Some(Row(name, Char(CharOf(n)))) else None
      case None => None
    else if kind == "S" && !AllSpace(payload) then Some(Row(name, NamedSequence))
    else None
  }

  /** What one line of the table contributes. */
  function ReadLine(line: string): Option<Row> {
    if line == "" || line[0] == '#' then None
    else
      match Fields(line)
      case None => None
      case Some((kind, name, payload)) => ReadRow(kind, name, payload)
  }

  function Rows(lines: seq<string>): (r: seq<Option<Row>>)
    ensures |r| == |lines| && forall i :: 0 <= i < |lines| ==> r[i] == ReadLine(lines[i])
  {
    seq(|lines|, i requires 0 <= i < |lines| => ReadLine(lines[i]))
  }

  function Add(table: map<string, Entry>, row: Option<Row>): map<string, Entry> {
    if row.Some? then table[row.value.name := row.value.entry] else table
  }

  function TableFrom(table: map<string, Entry>, rows: seq<Option<Row>>): map<string, Entry>
    decreases |rows|
  {
    if rows == [] then table else TableFrom(Add(table, rows[0]), rows[1..])
  }

  /** The table a text spells: its rows written one over the other. */
  function Table(data: string): map<string, Entry> {
    TableFrom(map[], Rows(Lines(data)))
  }

  method BuildUnicodeNameTable(data: string) returns (table: map<string, Entry>)
    ensures table == Table(data)
  {
    table := map[];
    var lines := Lines(data);
    ghost var rows := Rows(lines);
    assert rows[0..] == rows;
    var i := 0;
    while i < |lines|
      invariant 0 <= i <= |lines|
      invariant TableFrom(table, rows[i..]) == Table(data)
    {
      assert rows[i..][0] == ReadLine(lines[i]) && rows[i..][1..] == rows[i + 1..];
      var line := lines[i];
      i := i + 1;
      if line == "" || line[0] == '#' {
        continue;
      }
      var fields := Fields(line);
      if fields == None {
        continue;
      }
      var (kind, name, payload) := fields.value;
      if kind == "C" || kind == "A" {
        var codepoint := ParseHex(payload);
        if codepoint.Some? && Scalar(codepoint.value) {
          table := table[name := Char(CharOf(codepoint.value))];
        }
      } else if kind == "S" && !AllSpace(payload) {
        table := table[name := NamedSequence];
      }
    }
  }

  function LookupUnicodeName(table: map<string, Entry>, name: string): Lookup {
    var normalized := Upper(name);
    if normalized in table then Found(table[normalized]) else Unknown
  }

  // ---------------------------------------------------------- the generator

  /** A Python dictionary: its keys in insertion order and its values. */
  datatype Dict<V> = Dict(keys: seq<string>, at: map<string, V>)

  ghost predicate IsDict<V>(d: Dict<V>) {
    forall k :: k in d.keys <==> k in d.at
  }

  function Payload(sequence: seq<nat>): string {
    if sequence == [] then ""
    else if |sequence| == 1 then Hex(sequence[0])
    else Hex(sequence[0]) + " " + Payload(sequence[1..])
  }

  function Line(kind: char, name: string, payload: string): string {
    [kind] + [';'] + name + [';'] + payload
  }

  function CharLines(kind: char, names: seq<string>, at: map<string, nat>): (r: seq<string>)
    requires forall i :: 0 <= i < |names| ==> names[i] in at
    ensures |r| == |names|
  {
    seq(|names|, i requires 0 <= i < |names| => Line(kind, names[i], Hex(at[names[i]])))
  }

  function SequenceLines(names: seq<string>, at: map<string, seq<nat>>): (r: seq<string>)
    requires forall i :: 0 <= i < |names| ==> names[i] in at
    ensures |r| == |names|
  {
    seq(|names|, i requires 0 <= i < |names| => Line('S', names[i], Payload(at[names[i]])))
  }

  function TableLines(header: seq<string>, canonical: Dict<nat>, aliases: Dict<nat>, sequences: Dict<seq<nat>>): seq<string>
    requires IsDict(canonical) && IsDict(aliases) && IsDict(sequences)
  {
    header + CharLines('C', SortedSet(canonical.keys), canonical.at)
    + CharLines('A', SortedSet(aliases.keys), aliases.at)
    + SequenceLines(SortedSet(sequences.keys), sequences.at)
  }

  /** The loop over one dictionary of characters. */
  method AppendCharLines(lines: seq<string>, kind: char, names: seq<string>, at: map<string, nat>) returns (out: seq<string>)
    requires forall i :: 0 <= i < |names| ==> names[i] in at
    ensures out == lines + CharLines(kind, names, at)
  {
    out := lines;
    for i := 0 to |names|
      invariant |out| == |lines| + i && out[..|lines|] == lines
      invariant forall j :: 0 <= j < i ==> out[|lines| + j] == CharLines(kind, names, at)[j]
    {
      out := out + [Line(kind, names[i], Hex(at[names[i]]))];
    }
  }

  method AppendSequenceLines(lines: seq<string>, names: seq<string>, at: map<string, seq<nat>>) returns (out: seq<string>)
    requires forall i :: 0 <= i < |names| ==> names[i] in at
    ensures out == lines + SequenceLines(names, at)
  {
    out := lines;
    for i := 0 to |names|
      invariant |out| == |lines| + i && out[..|lines|] == lines
      invariant forall j :: 0 <= j < i ==> out[|lines| + j] == SequenceLines(names, at)[j]
    {
      out := out + [Line('S', names[i], Payload(at[names[i]]))];
    }
  }

  method RenderOutput(header: seq<string>, canonical: Dict<nat>, aliases: Dict<nat>, sequences: Dict<seq<nat>>)
    returns (text: string)
    requires header != []
    requires IsDict(canonical) && IsDict(aliases) && IsDict(sequences)
    ensures text == Ended(TableLines(header, canonical, aliases, sequences))
  {
    var lines := AppendCharLines(header, 'C', SortedSet(canonical.keys), canonical.at);
    lines := AppendCharLines(lines, 'A', SortedSet(aliases.keys), aliases.at);
    lines := AppendSequenceLines(lines, SortedSet(sequences.keys), sequences.at);
    text := Joined(lines) + ['\n'];
    JoinedEnded(lines);
  }

  // ------------------------------------------------------ what the text holds

  /** One line for each entry of each dictionary, with its kind, its name and
      its code points in hexadecimal, and no other behind the header. */
  lemma LinesListEntries(header: seq<string>, canonical: Dict<nat>, aliases: Dict<nat>, sequences: Dict<seq<nat>>, line: string)
    requires IsDict(canonical) && IsDict(aliases) && IsDict(sequences)
    ensures line in TableLines(header, canonical, aliases, sequences)
       <==> || line in header
            || (exists k :: k in canonical.at && line == "C;" + k + ";" + Hex(canonical.at[k]))
            || (exists k :: k in aliases.at && line == "A;" + k + ";" + Hex(aliases.at[k]))
            || (exists k :: k in sequences.at && line == "S;" + k + ";" + Payload(sequences.at[k]))
  {
    assert "C;" == ['C'] + ";" && "A;" == ['A'] + ";" && "S;" == ['S'] + ";";
    CharLinesList('C', SortedSet(canonical.keys), canonical.at, line);
    CharLinesList('A', SortedSet(aliases.keys), aliases.at, line);
    SequenceLinesList(SortedSet(sequences.keys), sequences.at, line);
  }

  lemma LineText(kind: char, name: string, payload: string)
    ensures Line(kind, name, payload) == [kind] + ";" + name + ";" + payload
  {
  }

  lemma CharLinesList(kind: char, names: seq<string>, at: map<string, nat>, line: string)
    requires forall k :: k in names <==> k in at
    ensures line in CharLines(kind, names, at) <==> exists k :: k in at && line == [kind] + ";" + k + ";" + Hex(at[k])
  {
    var lines := CharLines(kind, names, at);
    if line in lines {
      var i :| 0 <= i < |lines| && lines[i] == line;
      LineText(kind, names[i], Hex(at[names[i]]));
    }
    if k :| k in at && line == [kind] + ";" + k + ";" + Hex(at[k]) {
      var i :| 0 <= i < |names| && names[i] == k;
      LineText(kind, k, Hex(at[k]));
      assert lines[i] == line;
    }
  }

  lemma SequenceLinesList(names: seq<string>, at: map<string, seq<nat>>, line: string)
    requires forall k :: k in names <==> k in at
    ensures line in SequenceLines(names, at) <==> exists k :: k in at && line == ['S'] + ";" + k + ";" + Payload(at[k])
  {
    var lines := SequenceLines(names, at);
    if line in lines {
      var i :| 0 <= i < |lines| && lines[i] == line;
      LineText('S', names[i], Payload(at[names[i]]));
    }
    if k :| k in at && line == ['S'] + ";" + k + ";" + Payload(at[k]) {
      var i :| 0 <= i < |names| && names[i] == k;
      LineText('S', k, Payload(at[k]));
      assert lines[i] == line;
    }
  }

  /** The parts of a text between blanks. */
  function Parts(s: string): seq<string>
    decreases |s|
  {
    var i := Find(s, ' ');
    if i == |s| then [s] else [s[..i]] + Parts(s[i + 1..])
  }

  function Hexes(sequence: seq<nat>): (r: seq<string>)
    ensures |r| == |sequence| && forall i :: 0 <= i < |r| ==> r[i] == Hex(sequence[i])
  {
    seq(|sequence|, i requires 0 <= i < |sequence| => Hex(sequence[i]))
  }

  lemma {:induction false} PartsAreHexes(sequence: seq<nat>)
    requires sequence != []
    ensures Parts(Payload(sequence)) == Hexes(sequence)
  {
    var first := Hex(sequence[0]);
    assert Free(first, ' ');
    if |sequence| > 1 {
      PartsAreHexes(sequence[1..]);
      FirstPart(first, Payload(sequence[1..]));
      assert Hexes(sequence) == [first] + Hexes(sequence[1..]);
    }
  }

  /** The payload of a sequence is its code points in hexadecimal with a blank between. */
  lemma PayloadParts(sequence: seq<nat>)
    requires sequence != []
    ensures |Parts(Payload(sequence))| == |sequence|
    ensures forall i :: 0 <= i < |sequence| ==>
              ParseHex(Parts(Payload(sequence))[i]) == if sequence[i] <= MAX_U32 then Some(sequence[i]) else None
  {
    PartsAreHexes(sequence);
    forall i | 0 <= i < |sequence|
      ensures ParseHex(Hex(sequence[i])) == if sequence[i] <= MAX_U32 then Some(sequence[i]) else None
    {
      HexRoundTrip(sequence[i]);
    }
  }

  lemma FirstPart(first: string, rest: string)
    requires Free(first, ' ')
    ensures Parts(first + " " + rest) == [first] + Parts(rest)
  {
    var s := first + " " + rest;
    FindAfter(first, ' ', rest);
    assert s[..|first|] == first && s[|first| + 1..] == rest;
  }

  // ------------------------------------------------- reading back one line

  lemma LineFields(kind: char, name: string, payload: string)
    requires kind != ';' && Free(name, ';')
    ensures Fields(Line(kind, name, payload)) == Some(([kind], name, payload))
  {
    var line := Line(kind, name, payload);
    var rest := name + [';'] + payload;
    assert line == [kind] + [';'] + rest;
    FindAfter([kind], ';', rest);
    assert line[..1] == [kind] && line[2..] == rest;
    FindAfter(name, ';', payload);
    assert rest[..|name|] == name && rest[|name| + 1..] == payload;
  }

  lemma LineCut(kind: char, head: string, tail: string, payload: string)
    ensures Line(kind, head + [';'] + tail, payload) == Line(kind, head, tail + [';'] + payload)
  {
  }

  /** A name holding a semicolon is cut at it, and the rest moves into the payload. */
  lemma LineFieldsCut(kind: char, name: string, payload: string) returns (head: string, tail: string)
    requires kind != ';' && !Free(name, ';')
    ensures Find(name, ';') < |name| && head == name[..Find(name, ';')]
    ensures Fields(Line(kind, name, payload)) == Some(([kind], head, tail + [';'] + payload))
  {
    var i := Find(name, ';');
    head, tail := name[..i], name[i + 1..];
    assert name == head + [';'] + tail;
    LineCut(kind, head, tail, payload);
    LineFields(kind, head, tail + [';'] + payload);
  }

  lemma LineIsRow(kind: char, name: string, payload: string, fields: (string, string, string))
    requires kind != '#'
    requires Fields(Line(kind, name, payload)) == Some(fields)
    ensures ReadLine(Line(kind, name, payload)) == ReadRow(fields.0, fields.1, fields.2)
  {
    assert Line(kind, name, payload)[0] == kind;
  }

  /** A character line is read back as its own entry exactly when its name has
      no semicolon and its code point is a scalar value; otherwise it is dropped. */
  lemma CharLineRoundTrip(kind: char, name: string, n: nat)
    requires kind == 'C' || kind == 'A'
    ensures ReadLine(Line(kind, name, Hex(n)))
         == if Free(name, ';') && Scalar(n) then Some(Row(name, Char(CharOf(n)))) else None
  {
    if Free(name, ';') {
      LineFields(kind, name, Hex(n));
      LineIsRow(kind, name, Hex(n), ([kind], name, Hex(n)));
      HexRoundTrip(n);
    } else {
      var head, tail := LineFieldsCut(kind, name, Hex(n));
      LineIsRow(kind, name, Hex(n), ([kind], head, tail + [';'] + Hex(n)));
      NotHex(tail + [';'] + Hex(n), |tail|);
    }
  }

  lemma NotHex(payload: string, k: nat)
    requires k < |payload| && payload[k] == ';'
    ensures ParseHex(payload) == None
  {
    if ParseHex(payload).Some? {
      if payload[0] == '+' {
        assert payload[1..][k - 1] == ';';
        DigitsOnly(payload[1..]);
      } else {
        DigitsOnly(payload);
      }
    }
  }

  /** A sequence line is read back as a sequence under its name, or under the
      part of its name before the first semicolon; only an empty sequence with a
      name free of semicolons is dropped. */
  lemma SequenceLineRoundTrip(name: string, sequence: seq<nat>)
    ensures ReadLine(Line('S', name, Payload(sequence)))
         == if !Free(name, ';') then Some(Row(name[..Find(name, ';')], NamedSequence))
            else if sequence == [] then None
            else Some(Row(name, NamedSequence))
  {
    var payload := Payload(sequence);
    if Free(name, ';') {
      LineFields('S', name, payload);
      LineIsRow('S', name, payload, (['S'], name, payload));
      SequenceVisible(sequence);
    } else {
      var head, tail := LineFieldsCut('S', name, payload);
      LineIsRow('S', name, payload, (['S'], head, tail + [';'] + payload));
      assert (tail + [';'] + payload)[|tail|] == ';';
    }
  }

  lemma SequenceVisible(sequence: seq<nat>)
    ensures AllSpace(Payload(sequence)) <==> sequence == []
  {
    if sequence != [] {
      assert Payload(sequence)[0] == Hex(sequence[0])[0];
    }
  }

  // --------------------------------------------------- the whole round trip

  lemma {:induction false} TableFromSplit(table: map<string, Entry>, a: seq<Option<Row>>, b: seq<Option<Row>>)
    ensures TableFrom(table, a + b) == TableFrom(TableFrom(table, a), b)
    decreases |a|
  {
    if a == [] {
      assert a + b == b;
    } else {
      assert (a + b)[0] == a[0] && (a + b)[1..] == a[1..] + b;
      TableFromSplit(Add(table, a[0]), a[1..], b);
    }
  }

  lemma {:induction false} HeaderIgnored(table: map<string, Entry>, rows: seq<Option<Row>>)
    requires forall i :: 0 <= i < |rows| ==> rows[i] == None
    ensures TableFrom(table, rows) == table
  {
    if rows != [] {
      HeaderIgnored(table, rows[1..]);
    }
  }

  function Entries(names: seq<string>, at: map<string, Entry>): (r: seq<Option<Row>>)
    requires forall i :: 0 <= i < |names| ==> names[i] in at
    ensures |r| == |names| && forall i :: 0 <= i < |names| ==> r[i] == Some(Row(names[i], at[names[i]]))
  {
    seq(|names|, i requires 0 <= i < |names| => Some(Row(names[i], at[names[i]])))
  }

  /** Rows that list the entries of `at` write `at` over the table. */
  lemma {:induction false} EntriesWritten(table: map<string, Entry>, names: seq<string>, at: map<string, Entry>)
    requires forall i :: 0 <= i < |names| ==> names[i] in at
    ensures forall k :: k in TableFrom(table, Entries(names, at)) <==> k in table || k in names
    ensures forall k :: k in TableFrom(table, Entries(names, at)) ==>
              TableFrom(table, Entries(names, at))[k] == if k in names then at[k] else table[k]
    decreases |names|
  {
    if names != [] {
      var rows := Entries(names, at);
      assert rows[1..] == Entries(names[1..], at);
      EntriesWritten(Add(table, rows[0]), names[1..], at);
      assert names == [names[0]] + names[1..];
    }
  }

  lemma EntriesOver(table: map<string, Entry>, names: seq<string>, at: map<string, Entry>)
    requires forall k :: k in names <==> k in at
    ensures TableFrom(table, Entries(names, at)) == table + at
  {
    EntriesWritten(table, names, at);
  }

  function CharEntries(at: map<string, nat>): map<string, Entry>
    requires forall k :: k in at ==> Scalar(at[k])
  {
    map k | k in at :: Char(CharOf(at[k]))
  }

  function SequenceEntries(at: map<string, seq<nat>>): map<string, Entry> {
    map k | k in at :: NamedSequence
  }

  lemma CharLinesRead(kind: char, names: seq<string>, at: map<string, nat>)
    requires kind == 'C' || kind == 'A'
    requires forall k :: k in at ==> PlainName(k) && Scalar(at[k])
    requires forall i :: 0 <= i < |names| ==> names[i] in at
    ensures Rows(CharLines(kind, names, at)) == Entries(names, CharEntries(at))
  {
    forall i | 0 <= i < |names|
      ensures ReadLine(CharLines(kind, names, at)[i]) == Entries(names, CharEntries(at))[i]
    {
      CharLineRoundTrip(kind, names[i], at[names[i]]);
    }
  }

  lemma SequenceLinesRead(names: seq<string>, at: map<string, seq<nat>>)
    requires forall k :: k in at ==> PlainName(k) && at[k] != []
    requires forall i :: 0 <= i < |names| ==> names[i] in at
    ensures Rows(SequenceLines(names, at)) == Entries(names, SequenceEntries(at))
  {
    forall i | 0 <= i < |names|
      ensures ReadLine(SequenceLines(names, at)[i]) == Entries(names, SequenceEntries(at))[i]
    {
      SequenceLineRoundTrip(names[i], at[names[i]]);
    }
  }

  predicate PlainName(name: string) {
    Free(name, ';') && Free(name, '\n')
  }

  ghost predicate Renderable(header: seq<string>, canonical: Dict<nat>, aliases: Dict<nat>, sequences: Dict<seq<nat>>) {
    && IsDict(canonical) && IsDict(aliases) && IsDict(sequences)
    && (forall i :: 0 <= i < |header| ==> header[i] != "" && header[i][0] == '#' && WholeLine(header[i]))
    && (forall k :: k in canonical.at ==> PlainName(k) && Scalar(canonical.at[k]))
    && (forall k :: k in aliases.at ==> PlainName(k) && Scalar(aliases.at[k]))
    && (forall k :: k in sequences.at ==> PlainName(k) && sequences.at[k] != [])
  }

  lemma {:induction false} PayloadWhole(sequence: seq<nat>)
    ensures Free(Payload(sequence), '\n')
    ensures sequence != [] ==> Payload(sequence) != "" && Payload(sequence)[|Payload(sequence)| - 1] != '\r'
  {
    if |sequence| > 1 {
      PayloadWhole(sequence[1..]);
    }
  }

  lemma LineWhole(kind: char, name: string, payload: string)
    requires kind != '\n' && Free(name, '\n') && Free(payload, '\n')
    requires payload != "" && payload[|payload| - 1] != '\r'
    ensures WholeLine(Line(kind, name, payload))
  {
  }

  lemma AllWholeAppend(a: seq<string>, b: seq<string>)
    requires AllWhole(a) && AllWhole(b)
    ensures AllWhole(a + b)
  {
  }

  lemma CharLinesWhole(kind: char, names: seq<string>, at: map<string, nat>)
    requires kind != '\n' && forall i :: 0 <= i < |names| ==> names[i] in at && PlainName(names[i])
    ensures AllWhole(CharLines(kind, names, at))
  {
    forall i | 0 <= i < |names|
      ensures WholeLine(CharLines(kind, names, at)[i])
    {
      LineWhole(kind, names[i], Hex(at[names[i]]));
    }
  }

  lemma SequenceLinesWhole(names: seq<string>, at: map<string, seq<nat>>)
    requires forall i :: 0 <= i < |names| ==> names[i] in at && PlainName(names[i]) && at[names[i]] != []
    ensures AllWhole(SequenceLines(names, at))
  {
    forall i | 0 <= i < |names|
      ensures WholeLine(SequenceLines(names, at)[i])
    {
      PayloadWhole(at[names[i]]);
      LineWhole('S', names[i], Payload(at[names[i]]));
    }
  }

  lemma TableLinesWhole(header: seq<string>, canonical: Dict<nat>, aliases: Dict<nat>, sequences: Dict<seq<nat>>)
    requires Renderable(header, canonical, aliases, sequences)
    ensures AllWhole(TableLines(header, canonical, aliases, sequences))
  {
    var cs, rs, ss := SortedSet(canonical.keys), SortedSet(aliases.keys), SortedSet(sequences.keys);
    CharLinesWhole('C', cs, canonical.at);
    CharLinesWhole('A', rs, aliases.at);
    SequenceLinesWhole(ss, sequences.at);
    var c, a, s := CharLines('C', cs, canonical.at), CharLines('A', rs, aliases.at), SequenceLines(ss, sequences.at);
    AllWholeAppend(header, c);
    AllWholeAppend(header + c, a);
    AllWholeAppend(header + c + a, s);
  }

  /** The rows of the rendered table: nothing for the header, then one row per entry. */
  lemma RenderedRows(header: seq<string>, canonical: Dict<nat>, aliases: Dict<nat>, sequences: Dict<seq<nat>>)
    requires Renderable(header, canonical, aliases, sequences)
    ensures Rows(TableLines(header, canonical, aliases, sequences))
         == Rows(header) + Entries(SortedSet(canonical.keys), CharEntries(canonical.at))
            + Entries(SortedSet(aliases.keys), CharEntries(aliases.at))
            + Entries(SortedSet(sequences.keys), SequenceEntries(sequences.at))
  {
    CharLinesRead('C', SortedSet(canonical.keys), canonical.at);
    CharLinesRead('A', SortedSet(aliases.keys), aliases.at);
    SequenceLinesRead(SortedSet(sequences.keys), sequences.at);
    var c := CharLines('C', SortedSet(canonical.keys), canonical.at);
    var a := CharLines('A', SortedSet(aliases.keys), aliases.at);
    var s := SequenceLines(SortedSet(sequences.keys), sequences.at);
    RowsAppend(header, c);
    RowsAppend(header + c, a);
    RowsAppend(header + c + a, s);
  }

  lemma RowsAppend(a: seq<string>, b: seq<string>)
    ensures Rows(a + b) == Rows(a) + Rows(b)
  {
  }

  /** Generator and reader undo each other: the table built from the rendered
      text is the canonical names, overridden by the aliases, overridden by the sequences. */
  lemma ReaderInvertsGenerator(header: seq<string>, canonical: Dict<nat>, aliases: Dict<nat>, sequences: Dict<seq<nat>>)
    requires Renderable(header, canonical, aliases, sequences)
    ensures Table(Ended(TableLines(header, canonical, aliases, sequences)))
         == CharEntries(canonical.at) + CharEntries(aliases.at) + SequenceEntries(sequences.at)
  {
    TableLinesWhole(header, canonical, aliases, sequences);
    LinesOfEnded(TableLines(header, canonical, aliases, sequences));
    RenderedRows(header, canonical, aliases, sequences);
    ThreeLayers(Rows(header), SortedSet(canonical.keys), CharEntries(canonical.at),
                SortedSet(aliases.keys), CharEntries(aliases.at),
                SortedSet(sequences.keys), SequenceEntries(sequences.at));
  }

  lemma ThreeLayers(h: seq<Option<Row>>, cs: seq<string>, c: map<string, Entry>, rs: seq<string>, a: map<string, Entry>,
                    ss: seq<string>, s: map<string, Entry>)
    requires forall i :: 0 <= i < |h| ==> h[i] == None
    requires forall k :: k in cs <==> k in c
    requires forall k :: k in rs <==> k in a
    requires forall k :: k in ss <==> k in s
    ensures TableFrom(map[], h + Entries(cs, c) + Entries(rs, a) + Entries(ss, s)) == c + a + s
  {
    HeaderIgnored(map[], h);
    LayerOver(h, cs, c);
    assert map[] + c == c;
    LayerOver(h + Entries(cs, c), rs, a);
    LayerOver(h + Entries(cs, c) + Entries(rs, a), ss, s);
  }

  lemma LayerOver(rows: seq<Option<Row>>, names: seq<string>, at: map<string, Entry>)
    requires forall k :: k in names <==> k in at
    ensures TableFrom(map[], rows + Entries(names, at)) == TableFrom(map[], rows) + at
  {
    TableFromSplit(map[], rows, Entries(names, at));
    EntriesOver(TableFrom(map[], rows), names, at);
  }

  /** What the dictionaries say of one name: a sequence hides an alias, and an
      alias hides a canonical name. */
  function Meaning(canonical: Dict<nat>, aliases: Dict<nat>, sequences: Dict<seq<nat>>, name: string): Lookup
    requires forall k :: k in canonical.at ==> Scalar(canonical.at[k])
    requires forall k :: k in aliases.at ==> Scalar(aliases.at[k])
  {
    if name in sequences.at then Found(NamedSequence)
    else if name in aliases.at then Found(Char(CharOf(aliases.at[name])))
    else if name in canonical.at then Found(Char(CharOf(canonical.at[name])))
    else Unknown
  }

  lemma LookupLayers(canonical: Dict<nat>, aliases: Dict<nat>, sequences: Dict<seq<nat>>, query: string)
    requires forall k :: k in canonical.at ==> Scalar(canonical.at[k])
    requires forall k :: k in aliases.at ==> Scalar(aliases.at[k])
    ensures LookupUnicodeName(CharEntries(canonical.at) + CharEntries(aliases.at) + SequenceEntries(sequences.at), query)
         == Meaning(canonical, aliases, sequences, Upper(query))
  {
  }

  /** Looking any text up in the table built from the rendered dictionaries
      gives what they say of its upper-case form. */
  lemma LookupMeaning(header: seq<string>, canonical: Dict<nat>, aliases: Dict<nat>, sequences: Dict<seq<nat>>,
                      table: map<string, Entry>, query: string)
    requires Renderable(header, canonical, aliases, sequences)
    requires table == Table(Ended(TableLines(header, canonical, aliases, sequences)))
    ensures LookupUnicodeName(table, query) == Meaning(canonical, aliases, sequences, Upper(query))
  {
    var layers := CharEntries(canonical.at) + CharEntries(aliases.at) + SequenceEntries(sequences.at);
    assert table == layers by {
      ReaderInvertsGenerator(header, canonical, aliases, sequences);
    }
    LookupLayers(canonical, aliases, sequences, query);
  }

  /** The name is listed in one of the dictionaries. */
  ghost predicate Listed(canonical: Dict<nat>, aliases: Dict<nat>, sequences: Dict<seq<nat>>, name: string) {
    name in canonical.at || name in aliases.at || name in sequences.at
  }

  /** `name` is the text in capitals: its letters, and no small one. */
  ghost predicate Capitals(name: string, text: string) {
    SameLetters(name, text) && forall i :: 0 <= i < |name| ==> name[i] !in SMALL
  }

  /** A text means what the dictionaries say of the name that is the text in
      capitals, and nothing exactly when they list no such name; so texts with
      the same letters in any case mean the same. */
  lemma EveryCasing(header: seq<string>, canonical: Dict<nat>, aliases: Dict<nat>, sequences: Dict<seq<nat>>,
                    table: map<string, Entry>, name: string, query: string)
    requires Renderable(header, canonical, aliases, sequences)
    requires table == Table(Ended(TableLines(header, canonical, aliases, sequences)))
    ensures SameLetters(name, query) ==> LookupUnicodeName(table, query) == LookupUnicodeName(table, name)
    ensures Capitals(name, query) ==> LookupUnicodeName(table, query) == Meaning(canonical, aliases, sequences, name)
    ensures LookupUnicodeName(table, query) == Unknown
         <==> forall n :: Listed(canonical, aliases, sequences, n) ==> !Capitals(n, query)
  {
    LookupMeaning(header, canonical, aliases, sequences, table, query);
    LookupMeaning(header, canonical, aliases, sequences, table, name);
    UpperSame(name, query);
    UpperIs(query, name);
    NoCapitals(canonical, aliases, sequences, query);
  }

  lemma NoCapitals(canonical: Dict<nat>, aliases: Dict<nat>, sequences: Dict<seq<nat>>, query: string)
    ensures Listed(canonical, aliases, sequences, Upper(query))
       <==> exists n :: Listed(canonical, aliases, sequences, n) && Capitals(n, query)
  {
    UpperIs(query, Upper(query));
    if n :| Listed(canonical, aliases, sequences, n) && Capitals(n, query) {
      UpperIs(query, n);
    }
  }
}
