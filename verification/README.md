# Verified models of the pyrs core

This project models the parts of pyrs whose correctness is hardest to see and
proves, for all inputs and all runs, what they are for. Every module is one
`.dfy` file; `dafny verify dfyconfig.toml` checks them together.

**Runtime data.** `Limbs`, `LimbShifts`, `BigInt`, `BigIntBits` and
`BigIntDisplay` are Python's integers: 32-bit limb lists with carries, borrows
and shift-and-subtract division, against the mathematical integers, bitwise
operations against unbounded two's complement, and two printers that agree.
`DictProbe`, `DictBackend` and `DictRuns` are the open-addressing dictionary
over keys with any comparison and hash: the probe sequence meets every slot,
the index stays consistent, and runs are those of a finite map that remembers
insertion order exactly when the keys fall into classes. `DictNumbers` says when
numbers do, whose comparison rounds. `Mro` is the C3 linearization.
`CodeLayout` is name interning and the derived tables of a code object.

**Text in and out.** `Dawg` is the packed word graph of character names, used
as a perfect hash, and `NameTable` the generated table and its reader.
`Terminal` and `Colorizer` give the traceback colorizer a meaning: what a
terminal shows, character by character. `ReplScan` and `Repl` are the REPL's
input state machine for an arbitrary parser. `FloatText` is the rewriting of
formatted floats.

**Build scripts.** `Cfg` and `LinkScan` evaluate conditional-compilation
predicates over strings and scan source files with them. `WasmImports` reads
the import section of a WebAssembly module. `Headings` keeps the section stack
of a reference chapter, `Batches` splits and re-adds benchmark runs, and
`Keepalive` counts references to shared libraries.

`Common`, `Bits`, `Text` and `Ordering` hold what several models share.

Some properties hold only under a condition, and the models state it exactly:

- Removing a dictionary entry without a slot (an unhashable key) skips the
  renumbering of the slots behind it. The table stays valid if and only if no
  entry behind it is hashed or the removal makes the table be rebuilt, and
  exactly then every remaining key is found (`DictBackend.Backend.Remove`); in
  `DictRuns.UnhashableRemovalBreaksIndex` the next lookup leaves the entry list.
  `DictRuns.Run` goes as the entry list up to the first such removal.
- An integer equals a float if it rounds to it, so equality of keys is not
  transitive: 2.0**53 equals both 2**53 and 2**53+1 under one hash, and a dict
  with these three keys answers as no map does (`DictNumbers.NeighboursRun`).
  Runs over given keys are those of a map if and only if equality under one hash
  is an equivalence on them (`DictRuns.AnswersAsMap`, `DictRuns.ClassesExist`);
  for numbers, if and only if no float among them stands for two integers, nor
  for one in some of its forms only (`DictNumbers.NumbersLawful`).
- An empty `any()` or `all()` evaluates to unknown rather than to false or
  true; the evaluator meets Kleene's logic on a tree, whatever its atoms, if
  and only if no call in it is empty (`Cfg.EmptyListsShow`).
- `--batch-count` is documented as the number of batches, but it is an upper
  bound; `Batches.PartitionCorrect` says when it is met and
  `Batches.FewerBatchesThanAsked` shows when not.
- A `, in ` inside a file name takes the frame colour, and the frame name of
  that line stays plain (`Colorizer.ShowsLocation`).
- For `%g` the code takes the exponent from the logarithm, C from the number
  rounded to the precision, and the code casts the precision to 32 bits; when
  the two choose the same style and digit count is `FloatText.GStyleExact`, and
  999999.5 is where they do not (`FloatText.RoundingBeatsTheLogarithm`).
- The radix reader takes no sign, so negative numbers do not survive printing
  and reading (`BigInt.RadixRoundTrip`).
- Indexes of names and packed slots are truncated to 32 and 16 bits; they keep
  their meaning if and only if nothing is cut off (`CodeLayout.CodeObject.AddName`,
  `CodeLayout.PackRoundTrip`).

## Model

| member | source | states |
|---|---|---|
| `Dawg.DecodeVarintUnsigned` | scripts/generate_unicode_name_table.py:135-144 | the little-endian base-128 number at an index and the index behind it; running off the end is an error |
| `Dawg.VarintRoundTrip` | scripts/generate_unicode_name_table.py:135-144 | decoding inverts encoding for every number, whatever bytes surround it |
| `Dawg.DecodeNode` | scripts/generate_unicode_name_table.py:147-151 | the edges of a node start strictly behind its own offset |
| `Dawg.EdgeStands` | scripts/generate_unicode_name_table.py:154-172 | an edge written as a varint of four times the child difference, twice the one-byte flag and the last flag, then the length of a longer label and the label, is decoded to its child, its flag and its label |
| `Dawg.NodeStands` | scripts/generate_unicode_name_table.py:147-151 | a node head written as a varint of twice the count and the final flag is decoded to both |
| `Dawg.DecodeEdge` | scripts/generate_unicode_name_table.py:154-172 | child offsets never go back and the label text starts inside the array, so no byte array encodes a cycle |
| `Dawg.InverseLookupName` | scripts/generate_unicode_name_table.py:175-206 | the nested descent ends on every byte array and computes the recursive walk |
| `Dawg.LayoutDecodes` | scripts/generate_unicode_name_table.py:147-206 | the bytes of a trie, laid out by an encoding that does not call the decoders, are decoded to it wherever they stand |
| `Dawg.LaidOutLookup` | scripts/generate_unicode_name_table.py:175-206 | in an array that holds the bytes of a trie with right counts, position pos gives the pos-th word, and fails from the count on |
| `Dawg.TwoLetters` | scripts/generate_unicode_name_table.py:147-172 | seven bytes that are laid out for the words a and b |
| `Dawg.CountIsWordCount` | scripts/generate_unicode_name_table.py:147-206 | when every stored count is the final flag plus the counts of the children, it is the number of words below the node |
| `Dawg.WalkFindsWord` | scripts/generate_unicode_name_table.py:175-206 | for every array with right counts, position pos gives exactly the pos-th word of the node, and fails from the count on |
| `Dawg.WordsDistinct` | scripts/generate_unicode_name_table.py:175-206 | with non-empty labels of distinct first bytes at each node, all words differ |
| `Dawg.BlockAddress` | scripts/generate_unicode_name_table.py:209-213 | block number and offset within the block put together are the code point |
| `Dawg.IndexGivesPositions` | scripts/generate_unicode_name_table.py:209-213 | a two-level index whose blocks are those of one table gives every code point its position in the table, and an index error beyond it |
| `Dawg.Collect` | scripts/generate_unicode_name_table.py:216-249 | one entry per pseudo code point, a later name replacing an earlier equal one; the first error stops; a length mismatch is refused |
| `Dawg.CollectKeepsAll` | scripts/generate_unicode_name_table.py:216-249 | the table has exactly one entry per pseudo code point if and only if their positions are distinct |
| `NameTable.RenderOutput` | scripts/generate_unicode_name_table.py:262-285 | the rendered text is the header and one line per entry of each dictionary in sorted order, each ended by a line feed |
| `NameTable.LinesListEntries` | scripts/generate_unicode_name_table.py:262-285 | the lines behind the header are exactly one C, A or S line per entry of the three dictionaries, with name and payload |
| `NameTable.PayloadParts` | scripts/generate_unicode_name_table.py:281-285 | the payload of a sequence is its code points in hexadecimal with a blank between |
| `NameTable.DigitsOfHex` | scripts/generate_unicode_name_table.py:274-281 | hexadecimal digits are 0 to 9 and the letters behind, printed in capitals and read in either case |
| `NameTable.HexRoundTrip` | scripts/generate_unicode_name_table.py:274-281 | reading printed hexadecimal gives the number back exactly when it fits in 32 bits |
| `NameTable.CharLineRoundTrip` | src/parser/unicode_names.rs:23-45 | a character line is read back as its own entry if and only if its name has no semicolon and its code point is a scalar value; otherwise it is dropped |
| `NameTable.SequenceLineRoundTrip` | src/parser/unicode_names.rs:23-52 | a sequence line is read back under its name, or under the part of the name before a semicolon; only an empty sequence is dropped |
| `NameTable.BuildUnicodeNameTable` | src/parser/unicode_names.rs:21-57 | the map built line by line is the rows of the text written one over the other |
| `NameTable.ReaderInvertsGenerator` | src/parser/unicode_names.rs:21-57 | the table built from the rendered text is the canonical names overridden by the aliases overridden by the sequences |
| `NameTable.LookupMeaning` | src/parser/unicode_names.rs:59-68 | looking up any text gives what the dictionaries say of its upper-case form, sequence over alias over canonical, else unknown |
| `NameTable.EveryCasing` | src/parser/unicode_names.rs:59-68 | texts with the same letters in any case mean the same; a text means what the dictionaries say of the name that is the text in capitals, and is unknown if and only if they list no such name |
| `Text.UpperIs` | src/parser/unicode_names.rs:62-62 | the upper-case form is the text with the same letters of the alphabet and without a small one |
| `Cfg.SplitTopLevelCommas` | scripts/generate_wasm_vm_link_blockers_summary.py:32-47 | the index loop computes the recursive split at commas outside parentheses; a blank tail is dropped, a blank part in front of a comma is not |
| `Cfg.SplitArgs` | scripts/generate_wasm_vm_link_blockers_summary.py:32-47 | splitting a printed argument list gives the printed arguments back |
| `Cfg.PredicateIs` | scripts/generate_wasm_vm_link_blockers_summary.py:50-69 | a predicate is true exactly for a written assignment of wasm32, unknown or wasm to target_arch, target_os or target_family, with any blanks around the sign; false exactly for unix, windows and every other value of these keys; unknown of all else |
| `Cfg.AssignsIs` | scripts/generate_wasm_vm_link_blockers_summary.py:58-62 | a key and a value are read from a predicate exactly if it is written as their assignment |
| `Cfg.EvalPrinted` | scripts/generate_wasm_vm_link_blockers_summary.py:80-100 | evaluating the printed text of any tree, with any blanks around it, gives the value of the tree |
| `Cfg.ValueBelowKleene` | scripts/generate_wasm_vm_link_blockers_summary.py:80-100 | the evaluator never disagrees with Kleene's logic: it gives Kleene's value or unknown, and exactly Kleene's value when no call is empty |
| `Cfg.EmptyListUnknown` | scripts/generate_wasm_vm_link_blockers_summary.py:84-93 | an any or all call whose arguments hold no empty list has Kleene's value if and only if it has an argument |
| `Cfg.EmptyListsShow` | scripts/generate_wasm_vm_link_blockers_summary.py:80-100 | a tree has Kleene's value under all atoms if and only if no call anywhere in it is empty |
| `Cfg.KleeneSound` | scripts/generate_wasm_vm_link_blockers_summary.py:72-100 | a definite Kleene value holds in every build that completes the unknown predicates |
| `Cfg.EvalSound` | scripts/generate_wasm_vm_link_blockers_summary.py:80-100 | True or False of a printed tree means true or false in every build that has the target's own arch, os and family and is neither unix nor windows |
| `Cfg.TextSound` | scripts/generate_wasm_vm_link_blockers_summary.py:80-100 | the same for arbitrary text, well-formed or not, read with the evaluator's own splitting |
| `Cfg.TextMeaning` | scripts/generate_wasm_vm_link_blockers_summary.py:80-100 | the meaning of arbitrary text agrees with the meaning of the tree on printed trees |
| `Cfg.EvalExact` | scripts/generate_wasm_vm_link_blockers_summary.py:80-100 | when no open predicate occurs twice, True (or False) is given if and only if all completing builds agree on it |
| `LinkScan.CollectHits` | scripts/generate_wasm_vm_link_blockers_summary.py:160-190 | the hits of an extern block are those of its pending attributes, under their common condition |
| `LinkScan.ScanFile` | scripts/generate_wasm_vm_link_blockers_summary.py:134-197 | the line loop emits exactly the hits of the state machine over the lines |
| `LinkScan.PendingContiguous` | scripts/generate_wasm_vm_link_blockers_summary.py:134-197 | every pending attribute started at a line from which on there are only attribute lines |
| `LinkScan.HitsDoNotLeak` | scripts/generate_wasm_vm_link_blockers_summary.py:134-197 | every hit comes from an extern block with nothing but attribute lines between it and the attribute |
| `LinkScan.InactiveIsDisabled` | scripts/generate_wasm_vm_link_blockers_summary.py:160-190 | an inactive hit of a block has an attribute there whose condition is false under every completion of the unknown predicates |
| `LinkScan.InactiveRowIsDisabled` | scripts/generate_wasm_vm_link_blockers_summary.py:134-197 | every row a scan emits as inactive comes from an extern block right behind an unbroken run of attributes, one of which is false in every build |
| `LinkScan.LinkReported` | scripts/generate_wasm_vm_link_blockers_summary.py:134-197 | a written link attribute right before an extern block gives a row with its library, active unless a condition before the block is false |
| `LinkScan.BrokenLinkReported` | scripts/generate_wasm_vm_link_blockers_summary.py:134-197 | a link attribute broken over two lines gives the same row, at its first line |
| `LinkScan.ConditionalReported` | scripts/generate_wasm_vm_link_blockers_summary.py:103-197 | a written cfg_attr link gives a row with its library that is active unless its own condition or one before the block is false |
| `LinkScan.ConditionDecides` | scripts/generate_wasm_vm_link_blockers_summary.py:125-131 | a block behind one written cfg is active unless its tree is false |
| `WasmImports.ReadU32Leb` | scripts/generate_wasm_env_shim.py:18-29 | the loop computes the little-endian base-128 number at an index, or an error past the end or when too long |
| `WasmImports.LebRoundTrip` | scripts/generate_wasm_env_shim.py:18-29 | decoding inverts the shortest encoding for every 32-bit number between any bytes |
| `WasmImports.ReadsLeb` | scripts/generate_wasm_env_shim.py:18-29 | every encoding of up to six bytes, padded or not, decodes to its value |
| `WasmImports.LebAccepted` | scripts/generate_wasm_env_shim.py:18-29 | every accepted encoding has at most six bytes and a value below 2^42 |
| `WasmImports.SkipDescription` | scripts/generate_wasm_env_shim.py:67-95 | an import description is skipped and classified by its kind byte, unknown kinds being errors |
| `WasmImports.ImportSection` | scripts/generate_wasm_env_shim.py:60-97 | the imports of a section are gathered into the four lists in order |
| `WasmImports.ParseEnvImports` | scripts/generate_wasm_env_shim.py:39-104 | the section loop computes the parse of the whole module, with its errors |
| `WasmImports.ParseInvertsEncode` | scripts/generate_wasm_env_shim.py:39-104 | for every module with valid encodings of sections 5.2.2 and 5.5.5 of the WebAssembly Core Specification, whatever its other sections hold, the parse reports its imports |
| `WasmImports.ModuleStart` | scripts/generate_wasm_env_shim.py:39-45 | a file that does not start with a zero byte and the letters asm is refused, any other is read section by section |
| `WasmImports.ReportExact` | scripts/generate_wasm_env_shim.py:99-104 | each reported list is strictly increasing and holds exactly the fields of that kind imported from env |
| `Colorizer.ColorizeErrorMessage` | src/cli/error_style.rs:97-109 | for every palette and every message without an escape character, stripping the colour codes gives the message back; each line shows its own styles, no style reaches a line feed or the next line |
| `Colorizer.FormatErrorForStderr` | src/cli/error_style.rs:48-53 | without colours the message itself, with them its cells in the palette of the background; stripping gives the message in both cases |
| `Colorizer.SelectPalette` | src/cli/error_style.rs:15-95 | blue for the background codes 7 and 9 to 15, magenta for any other code, blue and cyan without one; types bold, errors red |
| `Colorizer.ColorizeLine` | src/cli/error_style.rs:111-128 | a location line, else a caret line, else an exception line, else the line as it is, each in its styles |
| `Colorizer.ColorizeFileLocationLine` | src/cli/error_style.rs:130-177 | the line is styled if and only if it has both quotes, and the second rewriting acts on the styled text |
| `Colorizer.ShowsLocation` | src/cli/error_style.rs:130-177 | name, number and frame have their colours wherever the first `, in ` is: inside the file name the frame colour lies on top of the name colour and the frame itself stays plain |
| `Colorizer.FindInFirstStage` | src/cli/error_style.rs:166-175 | colour codes never hide, split or create a `, in `: it is found where it is in the visible line |
| `Colorizer.ColorizeCaretLine` | src/cli/error_style.rs:179-197 | carets and tildes have their colours and everything else is plain |
| `Colorizer.CaretLineIs` | src/cli/error_style.rs:115-123 | a caret line starts with four blanks and its first visible character is a caret or a tilde |
| `Colorizer.ColorizeExceptionLine` | src/cli/error_style.rs:199-228 | a line is styled if and only if its part before the first colon is a type name; the type, the plain colon and the message have their styles |
| `Colorizer.TypeNameIs` | src/cli/error_style.rs:199-228 | exception names are digits, letters, underscores and points |
| `Colorizer.MessageVisible` | src/cli/error_style.rs:97-109 | the styled cells of a message spell the message |
| `Terminal.RunAppend` | src/cli/error_style.rs:4-46 | a terminal shows a text piece by piece, carrying only its mode and its style over |
| `Terminal.RunCode` | src/cli/error_style.rs:4-46 | a colour sequence shows nothing and adds its colour; a reset ends all colours |
| `ReplScan.HasUnclosedDelimiters` | src/repl_core.rs:173-196 | true if and only if the text can be lexed and some suffix of its tokens opens more of one kind of delimiter than it closes |
| `ReplScan.OpeningUnclosed` | src/repl_core.rs:173-196 | a parenthesis, bracket or brace without a closing one of its kind behind it is unclosed |
| `ReplScan.ClosedInside` | src/repl_core.rs:173-196 | delimiters of one kind around tokens with nothing unclosed leave nothing unclosed |
| `ReplScan.ClosedTogether` | src/repl_core.rs:173-196 | nor do token lists with nothing unclosed one behind the other |
| `ReplScan.DepthStep` | src/repl_core.rs:183-194 | a saturating step keeps the depth the maximum over suffixes of opens minus closes |
| `ReplScan.HasEofImpliedDedent` | src/repl_core.rs:17-44 | true if and only if the tokens end in dedents, one of them at the end of the text, followed only by end markers |
| `ReplScan.StartsWithTripleQuoteToken` | src/repl_core.rs:95-154 | true if and only if at most two letters of r, u, b, f, t, different whatever their case, are followed by a triple quote |
| `ReplScan.TokenIs` | src/repl_core.rs:95-154 | a text starts a triple-quoted string exactly if three equal quotes stand behind at most two different letters of r, u, b, f and t in either case |
| `Repl.StartsWithTripleQuoteAt` | src/repl_core.rs:81-93 | the same at a line and column counted from one, false past the end of the line or the text |
| `Repl.InputIsIncomplete` | src/repl_core.rs:47-79 | exactly the errors that ask for more input, the unterminated string deciding alone |
| `Repl.InputSession.SubmitLine` | src/repl_core.rs:401-426 | more input is asked for exactly when the text parses, the line is visible and the tokens end in dedents at the end of the text, or when it does not parse, is visible and its error may be mended by more input; then the text is kept, and else cleared with the parser's own answer given |
| `Repl.IncompleteIs` | src/repl_core.rs:47-79 | an error asks for more exactly in a visible text: in a string only if it is triple-quoted, else by its message in any case, a last backslash or colon, an open bracket or an error at the end |
| `Repl.BlankCloses` | src/repl_core.rs:401-426 | over every session a blank submission emits the open lines with it as one block if their text parses |
| `Repl.InputSession.AppendPasteLine` | src/repl_core.rs:278-281 | the line and a line feed are added |
| `Repl.CoreState.Handle` | src/repl_core.rs:322-340 | every command answers and changes the pending text as the session does, under both profiles |
| `Repl.RunSession` | src/repl_core.rs:237-340 | a run of commands on a new core gives the answers and the pending text of the specification, which no profile enters |
| `Repl.SessionBalanced` | src/repl_core.rs:237-426 | over every run with every parser: pending text is the lines since the last flush, every line is in order in exactly one emitted or discarded block or still open, and every emitted source is its lines joined with the parser's answer to it |
| `Repl.EveryAnswerExplained` | src/repl_core.rs:401-426 | every answer is the decision on the lines since the last flush, whatever came before |
| `Repl.PromptShowsOpenLines` | src/repl_core.rs:246-264 | the continuation prompt shows exactly while lines are open |
| `Repl.JoinedInjective` | src/repl_core.rs:401-426 | an emitted source of lines without line feeds determines the lines |
| `FloatText.StripTrailingFractionZeros` | src/vm/wasm_c_float_format.rs:16-37 | the loop removes the trailing zeros of the fraction, and the point if nothing is left |
| `FloatText.StripPreserves` | src/vm/wasm_c_float_format.rs:16-37 | stripping keeps the denoted number and the decimal form, leaves no trailing fraction zero and no bare point, and does nothing the second time |
| `FloatText.StripCanonical` | src/vm/wasm_c_float_format.rs:16-37 | two decimals with the same integer digits and exponent are stripped to the same text if and only if they denote the same number |
| `FloatText.MantissaIs` | src/vm/wasm_c_float_format.rs:16-37 | the value of a decimal text: its digits without the point, as many places down as there are behind it |
| `FloatText.EnsureAlternateDecimal` | src/vm/wasm_c_float_format.rs:3-14 | a point is put before the exponent or at the end exactly when there is none |
| `FloatText.AlternatePreserves` | src/vm/wasm_c_float_format.rs:3-14 | the forced point keeps the number and the decimal form and is undone by stripping |
| `FloatText.UpperPreserves` | src/vm/wasm_c_float_format.rs:186-189 | upper case keeps the number and the shape, and the exponent in upper case |
| `FloatText.WithSignPrefix` | src/vm/wasm_c_float_format.rs:39-66 | behind the sign that the number and the flag ask for stands the body, and the text denotes the signed number when the body starts with a digit |
| `FloatText.ParseCFloatPattern` | src/vm/wasm_c_float_format.rs:68-110 | the cursor computes the pattern grammar, refusing everything else |
| `FloatText.TupleRoundTrip` | src/vm/wasm_c_float_format.rs:68-110 | every tuple of sign, alternate form, precision and conversion survives printing and reading |
| `FloatText.PatternRoundTrip` | src/vm/wasm_c_float_format.rs:68-110 | the same for every way to write the precision |
| `FloatText.ParsedIsWritten` | src/vm/wasm_c_float_format.rs:68-110 | a text is read as a pattern only if it is written as one |
| `FloatText.GStyleExact` | src/vm/wasm_c_float_format.rs:168-184 | from the code's own exponent (the floor of the logarithm) the style and digit count are those of section 7.21.6.1 of C11, whose X is the exponent after rounding, if and only if: where C is scientific, the code's exponent is below -4 or not below the precision cast to 32 bits; where C is fixed, both exponents are equal, below that cast, and the digit count does not overflow |
| `FloatText.GStyleUnrounded` | src/vm/wasm_c_float_format.rs:168-184 | when rounding does not change the exponent, the code follows C unless the cast wraps to it or below or the count overflows, so always for precisions below 2^31 |
| `FloatText.GStyleCarried` | src/vm/wasm_c_float_format.rs:168-184 | when rounding carries into the exponent, the code follows C if and only if X is below -4 or above P |
| `FloatText.RoundingBeatsTheLogarithm` | src/vm/wasm_c_float_format.rs:168-184 | a number like 999999.5, whose logarithm has the floor 5 and which is 1.00000e6 in six digits, is written fixed under %g where C asks for the scientific style |
| `FloatText.GDigitCount` | src/vm/wasm_c_float_format.rs:177-184 | on the fixed branch both formulas give P - 1 - X digits without saturation, if the count does not overflow |
| `FloatText.ChosenIsAsked` | src/vm/wasm_c_float_format.rs:146-186 | the chosen style is C's always for e and f, and for g exactly under the condition of GStyleExact |
| `FloatText.PrecisionRules` | src/vm/wasm_c_float_format.rs:146-186 | a missing precision is six, and zero is one for g |
| `FloatText.Conversions` | src/vm/wasm_c_float_format.rs:146-191 | the conversions are e, f and g in either case, and the ones in capitals ask for upper case |
| `FloatText.FormatFloatWithCPattern` | src/vm/wasm_c_float_format.rs:146-191 | refused if and only if the text is not a pattern, an overflow if and only if the digit count overflows; otherwise the sign asked for and a body with a point (alternate form) or without trailing fraction zeros and bare point, with the integer digits and the exponent of the number in the chosen style, in the conversion's case, denoting the signed number in that style |
| `CodeLayout.CodeObject.AddName` | src/bytecode/mod.rs:298-306 | on any list and table: a name that the table lacks is added with its place; a table rebuilt over a list, repeated names or not, stays one and the index is the last place of the name unless cut off; interned names stay distinct with the table their exact inverse, and the 32-bit index names what was asked for if and only if nothing was cut off |
| `CodeLayout.InternAll` | src/bytecode/mod.rs:298-306 | over every run of requests on a new code object, indexes name what was asked for, equal requests get equal indexes and different ones different |
| `CodeLayout.InternedIsLastPlaces` | src/bytecode/mod.rs:298-316 | an interned table is exactly a rebuilt one over distinct names |
| `CodeLayout.IndexNames` | src/bytecode/mod.rs:309-316 | the rebuilt table maps each name to its last occurrence |
| `CodeLayout.CountFastLocals` | src/bytecode/mod.rs:330-362 | the count is the least one above every inspected slot operand and every parameter slot |
| `CodeLayout.ComprehensionNames` | src/bytecode/mod.rs:386-390 | the comprehension flag is set for the names of list, dictionary and generator comprehensions in angle brackets and for no other |
| `CodeLayout.SlotsOf` | src/bytecode/mod.rs:330-362 | single loads and stores, load-and-clear included, name one slot, the two-slot forms the halves of their operand, and no other instruction any |
| `CodeLayout.CodeObject.RebuildLayoutIndexes` | src/bytecode/mod.rs:308-396 | all tables agree with the lists; a second rebuild, or one of an interned table, changes nothing |
| `CodeLayout.AgreeUnique` | src/bytecode/mod.rs:308-396 | the lists determine the tables |
| `CodeLayout.FusionKeepsCount` | src/bytecode/mod.rs:330-358 | programs with the same unfolding of their two-slot instructions have the same count |
| `CodeLayout.FuseOnce` | src/bytecode/mod.rs:341-354 | fusing an adjacent pair of slots below 2^16 anywhere keeps the count |
| `CodeLayout.PackRoundTrip` | src/bytecode/mod.rs:341-347 | two slots survive packing if and only if both are below 2^16 |
| `CodeLayout.PackIs` | src/bytecode/mod.rs:341-347 | the shifted slot or-ed with the other: the low half is that of the second slot, the high half the bits of the first and of what the second has above 16 bits |
| `Headings.HeadingFrom` | scripts/generate_language_feature_inventory.py:23-69 | a line is a heading if and only if it is a title underlined by at least as many equal heading characters, with the level listed for the character |
| `Headings.ParseRstHeadings` | scripts/generate_language_feature_inventory.py:43-94 | one feature per heading in order, its section path being the titles of its chain of nearest previous headings of strictly smaller level |
| `Headings.PopFindsSection` | scripts/generate_language_feature_inventory.py:71-74 | popping the levels that are not smaller leaves the chain of the nearest heading with a smaller level |
| `Headings.ChainIncreasing` | scripts/generate_language_feature_inventory.py:71-78 | levels strictly increase along the stack |
| `Keepalive.Process.LoadDynamicSymbol` | src/extensions/mod.rs:862-872 | a failed symbol lookup leaves the loader's counts as they were; a successful one adds one live handle |
| `Keepalive.Process.Close` | src/extensions/mod.rs:818-827 | a dropped handle is one reference less, and unloads the library exactly when it was the only live handle and none is leaked |
| `Keepalive.Process.KeepDynamicLibraryLoaded` | src/extensions/mod.rs:805-815 | the first handle for a key is leaked and a later one dropped; one leaked handle per registered key |
| `Keepalive.Run` | src/extensions/mod.rs:729-872 | over every run the owners of the references are those that the steps make, one after the other; the loader counts live plus leaked handles, registrations stay, and a registered library is never unloaded |
| `Keepalive.Process.Perform` | src/extensions/mod.rs:729-872 | the effect of each step on live handles, registered keys and leaked handles; a step is refused if and only if its handle is not owned |
| `Batches.PartitionCorrect` | scripts/dispatch_cpython_compat_benchmark.py:63-78 | batches are non-empty, in order, concatenate to the entries, are all full but the last, with the batch size asked for (at least one) unless a count is given, and are at most as many as asked for; exactly as many if and only if all but one full batch leave something over |
| `Batches.FewerBatchesThanAsked` | scripts/dispatch_cpython_compat_benchmark.py:58-78 | five entries in four batches give three |
| `Batches.AggregateSummary` | scripts/dispatch_cpython_compat_benchmark.py:225-296 | the totals of the batches that have a summary, added up |
| `Batches.Summarize` | scripts/run_cpython_compat_benchmark.py:500-545 | the running totals are the sum of the modules' contributions |
| `Batches.TotalsTallied` | scripts/run_cpython_compat_benchmark.py:500-545 | the totals are tallies over the entries: cases of good inventories, host skips, runs by status, and what the runs count |
| `Batches.BatchesAddUp` | scripts/dispatch_cpython_compat_benchmark.py:225-333 | adding up batch totals gives the totals of the whole list, however it is cut |
| `Batches.BatchingPreservesTotals` | scripts/dispatch_cpython_compat_benchmark.py:63-333 | the batch totals of the partition add up to the module, case, subtest, fixture, discoverable and host-skip counts of the whole list |
| `Batches.DispatchInBatches` | scripts/dispatch_cpython_compat_benchmark.py:63-333 | cutting the entries, summarizing every batch and aggregating the summaries gives the totals of summarizing the whole list; no result if and only if there are no entries |
| `Mro.BuildClassMro` | src/vm/vm_execution.rs:11404-11456 | the class followed by the C3 merge of the bases' orders and the list of bases, or failure |
| `Mro.MergeCorrect` | src/vm/vm_execution.rs:11404-11456 | the merge succeeds if and only if some order keeps all lists, and then gives such an order of exactly the listed classes |
| `Mro.MergeTakesFirstFree` | src/vm/vm_execution.rs:11404-11456 | at every step of a successful merge the class taken is the first head in no tail of what the earlier ones leave of the lists |
| `Mro.MergeCharacterized` | src/vm/vm_execution.rs:11404-11456 | the merge gives an order if and only if that order keeps all lists and takes the first free head at every step; there is at most one |
| `Mro.Candidate` | src/vm/vm_execution.rs:11404-11456 | the head chosen is the first that is in no tail, none only if every head is in a tail |
| `DictProbe.ProbeVisitsAll` | src/runtime/dict_backend.rs:316-338 | for every hash and table size the probe sequence meets every slot within the table size plus the rounds of the perturbation |
| `DictProbe.OrbitDistinct` | src/runtime/dict_backend.rs:316-338 | once the perturbation is gone, slots repeat only after a whole turn of the table |
| `DictProbe.PerturbVanishes` | src/runtime/dict_backend.rs:8-13 | the perturbation is zero after its rounds |
| `DictProbe.WrapHarmless` | src/runtime/dict_backend.rs:316-338 | wrapping arithmetic on machine words does not change the slot |
| `DictProbe.ProbeMoves` | src/runtime/dict_backend.rs:316-338 | the walk starts at the hash modulo the table and goes to five times the slot, plus the hash shifted by five bits a round, plus one |
| `DictBackend.Backend.LookupVacantSlot` | src/runtime/dict_backend.rs:316-338 | the walk ends, and while a slot is free gives one that is free and reached by the probe path of the hash without an empty slot before it |
| `DictBackend.Backend.LookupSlot` | src/runtime/dict_backend.rs:340-370 | finds the entry that matches if there is one, else the slot to place it in; the loop is the walk that the other statements speak of |
| `DictBackend.Backend.ResizeSlots` | src/runtime/dict_backend.rs:287-306 | a valid table over the same entries |
| `DictBackend.Backend.InsertWithHash` | src/runtime/dict_backend.rs:170-199 | replaces the value of the entry the walk ends at, which matches if any entry does, or appends, keeping the table valid, for any comparison of keys |
| `DictBackend.Backend.Insert` | src/runtime/dict_backend.rs:154-168 | the entry that the key means gets the value or a new one is appended with the key's hash, whatever hashes the table holds and however keys compare; with the keys' own hashes, and at most one stored key equal to the new one, the entries are those of an ordered association list after the assignment |
| `DictBackend.Backend.FindIndexWithHash` | src/runtime/dict_backend.rs:257-267 | the entry the walk ends at, which matches if any entry does, or without a table the first with an equal key |
| `DictBackend.Backend.FindIndex` | src/runtime/dict_backend.rs:248-255 | the entry that the key means: by hash where the table is used, else the first with an equal key; with the keys' own hashes, and at most one stored key equal to it, always the first with an equal key |
| `DictBackend.Backend.Find` | src/runtime/dict_backend.rs:98-101 | the value of the entry that the key means; under the same condition the value of the ordered association list |
| `DictBackend.Backend.Remove` | src/runtime/dict_backend.rs:215-229 | removes one entry and keeps the rest in order; the table is valid afterwards if and only if the entry was hashed, nothing behind it is hashed, or the removal makes the table be rebuilt; with the keys' own hashes, and stored keys that equal themselves and each other both ways and under one hash, exactly then a lookup finds every remaining hashed key |
| `DictBackend.Backend.RemoveKey` | src/runtime/dict_backend.rs:201-204 | removes the entry that the key means and nothing else, with the same conditions for the table and the lookups after it |
| `DictBackend.Backend.AdjustSlotIndicesAfterRemove` | src/runtime/dict_backend.rs:381-392 | every slot that points behind the removed entry moves down by one |
| `DictBackend.Backend.MaybeResizeAfterRemove` | src/runtime/dict_backend.rs:269-285 | a table too large for its entries is rebuilt into a valid one, and otherwise nothing changes |
| `DictBackend.Backend.Retain` | src/runtime/dict_backend.rs:231-246 | keeps exactly the entries asked for, in order |
| `DictBackend.Backend.Clear` | src/runtime/dict_backend.rs:65-72 | no entries |
| `DictBackend.IndexPlace` | src/runtime/dict_backend.rs:170-199 | placing an entry in a free probe slot keeps the index consistent |
| `DictBackend.IndexRemove` | src/runtime/dict_backend.rs:215-229 | unlinking and renumbering keeps the index consistent |
| `DictBackend.UnslottedRemoval` | src/runtime/dict_backend.rs:215-229 | removing an entry without a slot and not renumbering keeps the index consistent if and only if no entry behind it has a hash |
| `DictBackend.FullWalkMeetsAll` | src/runtime/dict_backend.rs:340-370 | a whole walk meets every slot |
| `DictBackend.WalkSeesAllMatches` | src/runtime/dict_backend.rs:340-370 | a walk that ends at an empty slot has seen every entry that could match |
| `DictBackend.LocatedIsMeant` | src/runtime/dict_backend.rs:340-370 | in an index that is in order the walk of a lookup stays inside the entry list and ends at an entry of that hash with an equal key if there is one, however keys compare |
| `DictBackend.IndexFinds` | src/runtime/dict_backend.rs:340-370 | in an index that is in order a lookup under its hash finds every hashed entry whose key equals itself |
| `DictBackend.StaleNotFound` | src/runtime/dict_backend.rs:215-229 | after a removal that does not renumber, no lookup finds the first hashed key behind the removed one |
| `DictRuns.PutLaw` | src/runtime/dict_backend.rs:154-168 | assignment to the entry of a class and lookup obey the laws of a finite map, and classes stay distinct |
| `DictRuns.DeleteLaw` | src/runtime/dict_backend.rs:201-204 | so do removal and lookup |
| `DictRuns.TraceIsMap` | src/runtime/dict_backend.rs:98-229 | every run of the list over keys that fit some classes answers as the map of these classes does and keeps insertion order |
| `DictRuns.Refuted` | src/runtime/dict_backend.rs:98-229 | for two keys that do not fit the classes there is a run of two or three operations that never answers as the map does |
| `DictRuns.AnswersAsMap` | src/runtime/dict_backend.rs:98-229 | all runs over some keys answer as the map of their classes if and only if two keys are in one class exactly when they are equal with one hash, and no hashable key equals an unhashable one |
| `DictRuns.ClassesExist` | src/runtime/mod.rs:1432-1486 | such classes exist if and only if being equal with one hash is an equivalence on the keys and no hashable key equals an unhashable one |
| `DictRuns.Run` | src/runtime/dict_backend.rs:98-229 | on any keys, whatever their comparison and hash, every run of assignment, lookup, removal and clearing goes as the list does in which an operation finds an entry of the same hash with an equal key, up to the first removal that does not renumber, which can only be one of an unhashable key; over keys that fit some classes it answers as their finite map and keeps insertion order |
| `DictRuns.SplitRun` | src/runtime/dict_backend.rs:98-229 | with a key that equals two unequal ones under one hash, a run of seven operations gives answers that no map gives, whatever the classes |
| `DictRuns.UnhashableRemovalBreaksIndex` | src/runtime/dict_backend.rs:215-229 | after removing an unhashable key in front of a hashable one a slot names entry 1 of a one-entry list, and the lookup of the hashable key indexes past the list |
| `DictNumbers.RoundedNearest` | src/runtime/mod.rs:5034-5042 | the double of an integer has 53 significant digits, and none that has is nearer |
| `DictNumbers.RoundedEven` | src/runtime/mod.rs:5034-5042 | if another such number is as near, the double is the even one |
| `DictNumbers.LimbsToF64` | src/runtime/bigint.rs:160-169 | the loop over the limbs is the repeated scaling and adding with rounding |
| `DictNumbers.ToF64Exact` | src/runtime/bigint.rs:160-169 | a number that a double holds is converted without loss, whatever is rounded on the way |
| `DictNumbers.BigAsDouble` | src/runtime/bigint.rs:160-169 | any big integer becomes a double or infinite |
| `DictNumbers.EqualHashAlike` | src/runtime/mod.rs:1988-2011 | numbers that are equal as keys, bools, machine integers, big integers or floats, are hashed from the same thing |
| `DictNumbers.BoolsAreIntegers` | src/runtime/mod.rs:5023-5046 | bools compare and are hashed as 1 and 0 |
| `DictNumbers.TransitiveExactly` | src/runtime/mod.rs:5023-5046 | equality is transitive on a set of numbers if and only if each float in it that an integer in it is compared as is so for that integer in every form and for no other |
| `DictNumbers.SeparateNormalised` | src/runtime/mod.rs:11064-11069 | with big integers only beyond 64 bits this says that no float in the set is the rounding of two different integers in it |
| `DictNumbers.SmallSeparate` | src/runtime/mod.rs:5023-5046 | integers up to 2**53 meet the condition in any company |
| `DictNumbers.NumbersLawful` | src/runtime/mod.rs:1432-1486 | for every way to mix hashes, numbers as dict keys have classes under which every run answers as their map if and only if they meet the condition |
| `DictNumbers.NeighboursRun` | src/runtime/mod.rs:5034-5042 | 2**53, 2**53+1 and 2.0**53 have one hash and do not meet the condition, and a run of the backend on them answers as no map does |
| `Limbs.NormalUnique` | src/runtime/bigint.rs:636-648 | a number has one limb list without leading zeros |
| `Limbs.CmpLimbs` | src/runtime/bigint.rs:624-634 | the order of the numbers |
| `Limbs.Add` | src/runtime/bigint.rs:589-604 | the sum of the numbers |
| `Limbs.Sub` | src/runtime/bigint.rs:606-622 | the difference, when it is not negative |
| `Limbs.Mul` | src/runtime/bigint.rs:224-237 | the product, no column overflowing two limbs |
| `Limbs.DivModSmall` | src/runtime/bigint.rs:545-553 | quotient and remainder by one limb |
| `LimbShifts.Shl` | src/runtime/bigint.rs:263-275 | multiplication by a power of two |
| `LimbShifts.Shr` | src/runtime/bigint.rs:426-447 | division by a power of two |
| `LimbShifts.HasLowBits` | src/runtime/bigint.rs:450-469 | whether that division has a remainder |
| `LimbShifts.BitLength` | src/runtime/bigint.rs:127-132 | the number lies between two neighbouring powers of two |
| `BigInt.Canonical` | src/runtime/bigint.rs:3-7 | structural equality is equality of the numbers |
| `BigInt.FromI64` | src/runtime/bigint.rs:21-33 | the number itself |
| `BigInt.ToI64` | src/runtime/bigint.rs:134-158 | the machine integer if and only if it fits |
| `BigInt.Cmp` | src/runtime/bigint.rs:314-323 | the order of the integers |
| `BigInt.Add` | src/runtime/bigint.rs:188-198 | the sum of the integers |
| `BigInt.Sub` | src/runtime/bigint.rs:200-218 | the difference of the integers |
| `BigInt.Mul` | src/runtime/bigint.rs:220-239 | the product of the integers |
| `BigInt.Pow` | src/runtime/bigint.rs:241-254 | repeated squaring gives the power |
| `BigInt.ShlBits` | src/runtime/bigint.rs:256-276 | the product with a power of two |
| `BigInt.ShrBitsArithmetic` | src/runtime/bigint.rs:278-296 | division by a power of two, rounding down for negative numbers too |
| `BigInt.AbsDivMod` | src/runtime/bigint.rs:556-587 | shift-and-subtract division ends with quotient and remainder |
| `BigInt.DivModFloor` | src/runtime/bigint.rs:325-349 | nothing if and only if the divisor is zero, else floor quotient and a remainder with the divisor's sign |
| `BigInt.DividesUnique` | src/runtime/bigint.rs:325-349 | only one quotient and remainder satisfy that |
| `BigInt.MulSmall` | src/runtime/bigint.rs:374-393 | the product with a limb |
| `BigInt.AddSmall` | src/runtime/bigint.rs:395-420 | the sum with a limb, also for negative numbers |
| `BigInt.DigitsOfRadix` | src/runtime/bigint.rs:85-100 | a character is the digit d of a radix exactly if it stands at place d of 0 to 9 and the letters behind in either case and d is below the radix; printed are small letters |
| `BigInt.FromStrRadix` | src/runtime/bigint.rs:85-100 | succeeds if and only if the radix is from 2 to 36 and the text is digits and not empty, with the number it denotes |
| `BigInt.ToStrRadix` | src/runtime/bigint.rs:351-372 | the digit text of the magnitude in small letters without leading zeros, behind a minus sign if negative |
| `BigInt.RadixRoundTrip` | src/runtime/bigint.rs:85-372 | printing and reading, in capitals too, gives the number back if and only if it is not negative, the reader taking no sign |
| `BigIntBits.LimbBit` | src/runtime/bigint.rs:524-537 | a bit of a number is a bit of one of its limbs |
| `BigIntBits.TwosComplementWords` | src/runtime/bigint.rs:471-492 | the number modulo two to the width, also where the width does not hold all limbs |
| `BigIntBits.FromTwosComplementWords` | src/runtime/bigint.rs:494-522 | the signed number the words stand for |
| `BigIntBits.BitwiseOp` | src/runtime/bigint.rs:524-537 | every bit of the result, to any height, is the operation on the operands' bits in unbounded two's complement |
| `BigIntBits.BitAnd` | src/runtime/bigint.rs:298-300 | the bits both have |
| `BigIntBits.BitOr` | src/runtime/bigint.rs:302-304 | the bits one of them has |
| `BigIntBits.BitXor` | src/runtime/bigint.rs:306-308 | the bits exactly one of them has |
| `BigIntBits.BitNot` | src/runtime/bigint.rs:310-312 | minus one minus the number, every bit flipped |
| `BigIntDisplay.DecimalUnique` | src/runtime/bigint.rs:651-673 | a number has one decimal text without leading zeros |
| `BigIntDisplay.Display` | src/runtime/bigint.rs:651-673 | printing in chunks of nine digits gives the decimal text |
| `BigIntDisplay.ToDecimal` | src/runtime/bigint.rs:351-372 | printing digit by digit in radix ten gives the same text |

## Left out

- FloatText.FormatFloatWithCPattern: the digit texts of a number and the floor of its logarithm are parameters (no IEEE rounding, no `log10`), infinities and NaN are left out, and an overflowing digit count is an error, as in a build with overflow checks.
- Repl.InputIsIncomplete: the parser and the lexer are arbitrary functions; what they accept is not modelled.
- Dawg.Collect: the arrays of the C header are inputs; the regular expressions that extract them, and `unicodedata`, are not modelled.
- WasmImports.ParseEnvImports: the replacement decoding of names is an arbitrary function on bytes.
- LinkScan.ScanFile: reading files, walking directories and sorting the report are left out; the regular expressions of the two attribute forms are modelled on the shape of a line.
- Headings.ParseRstHeadings: the normalization of titles and the slugs are left out, the first being an arbitrary function.
- Keepalive.Run: what the loader finds and path canonicalization are parameters; a key and a library are different things, as in the code.
- Batches.PartitionCorrect: the division that gives the batch size is exact, not in floating point.
- Batches.BatchingPreservesTotals: `executed_entry_count` is left out, since the two scripts define it differently; rows, times and JSON files as well.
- DictRuns.Run: comparison and hash are any functions of the keys, but ones that raise or change their answer are left out; caller-supplied hashes occur only in the operations of `DictBackend`, and a run is bounded by the address space that the doubling of the table needs.
- DictNumbers.NumbersLawful: a double is a NaN with its bits, an infinity, a whole number or a fraction, with the two zeros as one; how its bits are taken apart and the mixing of the hash are not modelled, nor are numbers inside tuples, frozen sets or complex values.
- DictBackend.Backend.Remove: moves of whole vectors are sequence operations; iteration guards and cached versions are left out.
- LimbShifts.Shl: the disjoint bit-or of a shifted limb and a carry is written as a sum; the same holds for right shifts.
- The conversion of a float to a big integer through its bit fields, and the byte export of a magnitude.
- `.pyc` headers, extension manifests and entry points: fixed layouts and field-by-field parsing that would add only easy members.
- Terminal and environment checks and writing to standard error.
- Compiling, executing and displaying a submitted module in the REPL.
- The parser, the compiler, the bytecode translator and the execution loop of the virtual machine.
