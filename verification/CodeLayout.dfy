/** Name interning and the derived index tables of a code object
    (`src/bytecode/mod.rs`). */
module CodeLayout {
  import opened Common
  import opened Bits

  // -------------------------------------------------------------- name tables

  ghost predicate Distinct(names: seq<string>) {
    forall i, j :: 0 <= i < j < |names| ==> names[i] != names[j]
  }

  /** The table maps exactly the listed names, each to its last place in the list. */
  ghost predicate LastPlaces(names: seq<string>, table: map<string, nat>) {
    && (forall i :: 0 <= i < |names| ==> names[i] in table)
    && forall name :: name in table ==> LastPlace(names, name, table[name])
  }

  ghost predicate LastPlace(names: seq<string>, name: string, k: nat) {
    k < |names| && names[k] == name && forall j :: k < j < |names| ==> names[j] != name
  }

  lemma LastPlacesUnique(names: seq<string>, a: map<string, nat>, b: map<string, nat>)
    requires LastPlaces(names, a) && LastPlaces(names, b)
    ensures a == b
  {
    forall name | name in a || name in b
      ensures name in a && name in b && a[name] == b[name]
    {
      assert name in a ==> LastPlace(names, name, a[name]);
      assert name in b ==> LastPlace(names, name, b[name]);
    }
  }

  /** Distinct names and their exact inverse. */
  ghost predicate Interned(names: seq<string>, table: map<string, nat>) {
    && (forall i :: 0 <= i < |names| ==> names[i] in table && table[names[i]] == i)
    && forall name :: name in table ==> table[name] < |names| && names[table[name]] == name
  }

  /** An interned table is what a rebuild computes, and conversely when names are distinct. */
  lemma InternedIsLastPlaces(names: seq<string>, table: map<string, nat>)
    ensures Interned(names, table) <==> Distinct(names) && LastPlaces(names, table)
  {
    if Interned(names, table) {
      forall i, j | 0 <= i < j < |names|
        ensures names[i] != names[j]
      {
        assert table[names[i]] == i && table[names[j]] == j;
      }
      forall name | name in table
        ensures LastPlace(names, name, table[name])
      {
      }
    }
    if Distinct(names) && LastPlaces(names, table) {
      forall i | 0 <= i < |names|
        ensures table[names[i]] == i
      {
        assert LastPlace(names, names[i], table[names[i]]);
      }
    }
  }

  method IndexNames(names: seq<string>) returns (table: map<string, nat>)
    ensures LastPlaces(names, table)
  {
    table := map[];
    for idx := 0 to |names|
      invariant LastPlaces(names[..idx], table)
    {
      ghost var before := table;
      table := table[names[idx] := idx];
      assert names[..idx + 1] == names[..idx] + [names[idx]];
      forall name | name in table
        ensures LastPlace(names[..idx + 1], name, table[name])
      {
        assert name in before ==> LastPlace(names[..idx], name, before[name]);
      }
    }
    assert names[..|names|] == names;
  }

  // -------------------------------------------------------- slots of a program

  datatype Opcode = LoadFast | StoreFast | LoadFastAndClear | LoadFast2 | StoreFastLoadFast | StoreFastStoreFast | OtherOp

  type u32 = n: nat | n < 0x1_0000_0000

  datatype Instruction = Instruction(op: Opcode, arg: Option<u32>)

  predicate Single(op: Opcode) {
    op == LoadFast || op == StoreFast || op == LoadFastAndClear
  }

  predicate Double(op: Opcode) {
    op == LoadFast2 || op == StoreFastLoadFast || op == StoreFastStoreFast
  }

  function High(arg: u32): u32 {
    arg / 0x1_0000
  }

  function Low(arg: u32): u32 {
    arg % 0x1_0000
  }

  /** The slot operands the layout inspects. */
  function Slots(i: Instruction): seq<nat> {
    if i.arg.None? then []
    else if Single(i.op) then [i.arg.value]
    else if Double(i.op) then [High(i.arg.value), Low(i.arg.value)]
    else []
  }

  /** How many slots the operand of an instruction names. */
  const SLOT_COUNTS: map<Opcode, nat> :=
    map[LoadFast := 1, StoreFast := 1, LoadFastAndClear := 1,
        LoadFast2 := 2, StoreFastLoadFast := 2, StoreFastStoreFast := 2, OtherOp := 0]

  /** One slot is the whole operand, two are its halves. */
  lemma SlotsOf(op: Opcode, arg: u32)
    ensures Slots(Instruction(op, None)) == []
    ensures var slots := Slots(Instruction(op, Some(arg)));
      && |slots| == SLOT_COUNTS[op]
      && (|slots| == 1 ==> slots[0] == arg)
      && (|slots| == 2 ==> slots[0] < 0x1_0000 && slots[1] < 0x1_0000 && slots[0] * 0x1_0000 + slots[1] == arg)
  {
  }

  predicate Uses(program: seq<Instruction>, slot: nat) {
    exists k :: 0 <= k < |program| && slot in Slots(program[k])
  }

  lemma UsesAppend(a: seq<Instruction>, b: seq<Instruction>, slot: nat)
    ensures Uses(a + b, slot) <==> Uses(a, slot) || Uses(b, slot)
  {
    var s := a + b;
    if k :| 0 <= k < |a| && slot in Slots(a[k]) {
      assert s[k] == a[k];
    }
    if k :| 0 <= k < |b| && slot in Slots(b[k]) {
      assert s[|a| + k] == b[k];
    }
  }

  lemma UsesOne(i: Instruction, slot: nat)
    ensures Uses([i], slot) <==> slot in Slots(i)
  {
    assert [i][0] == i;
  }

  /** A slot of an inspected operand or of a positional parameter. */
  ghost predicate SlotUsed(program: seq<Instruction>, params: seq<Option<nat>>, slot: nat) {
    Uses(program, slot) || Some(slot) in params
  }

  /** The least count above every used slot. */
  ghost predicate LeastCount(program: seq<Instruction>, params: seq<Option<nat>>, count: nat) {
    && (forall slot: nat :: SlotUsed(program, params, slot) ==> slot < count)
    && (count > 0 ==> SlotUsed(program, params, count - 1))
  }

  lemma LeastCountUnique(program: seq<Instruction>, params: seq<Option<nat>>, a: nat, b: nat)
    requires LeastCount(program, params, a) && LeastCount(program, params, b)
    ensures a == b
  {
  }

  function Raise(count: nat, slots: seq<nat>): (r: nat)
    ensures r >= count && (forall s :: s in slots ==> s < r) && (r > count ==> r - 1 in slots)
    decreases |slots|
  {
    if slots == [] then count
    else
      var first := if slots[0] + 1 > count then slots[0] + 1 else count;
      assert slots == [slots[0]] + slots[1..];
      Raise(first, slots[1..])
  }

  lemma CountGrows(program: seq<Instruction>, i: Instruction, count: nat)
    requires LeastCount(program, [], count)
    ensures LeastCount(program + [i], [], Raise(count, Slots(i)))
  {
    forall slot: nat
      ensures Uses(program + [i], slot) <==> Uses(program, slot) || slot in Slots(i)
    {
      UsesAppend(program, [i], slot);
      UsesOne(i, slot);
    }
    var next := Raise(count, Slots(i));
    forall slot: nat | SlotUsed(program + [i], [], slot)
      ensures slot < next
    {
      assert Uses(program, slot) ==> SlotUsed(program, [], slot);
    }
    if next == count && next > 0 {
      assert SlotUsed(program, [], next - 1);
    }
  }

  method CountInstructions(program: seq<Instruction>) returns (count: nat)
    ensures LeastCount(program, [], count)
  {
    count := 0;
    for k := 0 to |program|
      invariant LeastCount(program[..k], [], count)
    {
      CountGrows(program[..k], program[k], count);
      assert program[..k + 1] == program[..k] + [program[k]];
      count := RaiseCount(program[k], count);
    }
    assert program[..|program|] == program;
  }

  /** One turn of the instruction loop. */
  method RaiseCount(instr: Instruction, before: nat) returns (count: nat)
    ensures count == Raise(before, Slots(instr))
  {
    count := before;
    if instr.arg == None {
      return;
    }
    if Single(instr.op) {
      var idx := instr.arg.value + 1;
      if idx > count {
        count := idx;
      }
    } else if Double(instr.op) {
      var first, second := High(instr.arg.value) + 1, Low(instr.arg.value) + 1;
      assert Slots(instr)[1..] == [second - 1];
      if first > count {
        count := first;
      }
      if second > count {
        count := second;
      }
    }
  }

  method CountFastLocals(program: seq<Instruction>, params: seq<Option<nat>>) returns (count: nat)
    ensures LeastCount(program, params, count)
  {
    count := CountInstructions(program);
    for k := 0 to |params|
      invariant LeastCount(program, params[..k], count)
    {
      ghost var before := count;
      if params[k].Some? && params[k].value + 1 > count {
        count := params[k].value + 1;
      }
      ParamGrows(program, params[..k], params[k], before, count);
      assert params[..k + 1] == params[..k] + [params[k]];
    }
    assert params[..|params|] == params;
  }

  lemma ParamGrows(program: seq<Instruction>, params: seq<Option<nat>>, slot: Option<nat>, count: nat, next: nat)
    requires LeastCount(program, params, count)
    requires next == if slot.Some? && slot.value + 1 > count then slot.value + 1 else count
    ensures LeastCount(program, params + [slot], next)
  {
    var longer := params + [slot];
    assert forall s: nat :: SlotUsed(program, longer, s) <==> SlotUsed(program, params, s) || Some(s) == slot;
  }

  // ----------------------------------------------------------------- fusion

  /** Bitwise or. */
  function Or(a: nat, b: nat): nat {
    if a == 0 then b
    else if b == 0 then a
    else 2 * Or(a / 2, b / 2) + if a % 2 == 1 || b % 2 == 1 then 1 else 0
  }

  predicate BitAt(a: nat, i: nat) {
    ShiftRight(a, i) % 2 == 1
  }

  /** A bit is set exactly where one of the two numbers has it. */
  lemma {:induction false} OrBits(a: nat, b: nat, i: nat)
    ensures BitAt(Or(a, b), i) <==> BitAt(a, i) || BitAt(b, i)
  {
    if a == 0 || b == 0 {
      ZeroBits(i);
    } else if i > 0 {
      OrBits(a / 2, b / 2, i - 1);
    }
  }

  lemma {:induction false} ZeroBits(i: nat)
    ensures !BitAt(0, i)
  {
    if i > 0 {
      ZeroBits(i - 1);
    }
  }

  lemma {:induction false} OrBound(a: nat, b: nat, n: nat)
    requires a < Pow2(n) && b < Pow2(n)
    ensures Or(a, b) < Pow2(n)
  {
    if a > 0 && b > 0 {
      OrBound(a / 2, b / 2, n - 1);
    }
  }

  /** A number shifted up is put in front of the low bits of the other. */
  lemma {:induction false} OrShifted(a: nat, b: nat, n: nat)
    ensures Or(ShiftLeft(a, n), b) == ShiftLeft(Or(a, ShiftRight(b, n)), n) + LowBits(b, n)
  {
    if n > 0 {
      OrShifted(a, b / 2, n - 1);
      OrDouble(ShiftLeft(a, n - 1), b);
    }
  }

  lemma OrDouble(a: nat, b: nat)
    ensures Or(2 * a, b) == 2 * Or(a, b / 2) + b % 2
  {
  }

  /** The packed operand of two slots, `(first << 16) | second` on 32 bits. */
  function Pack(first: u32, second: u32): u32 {
    PackedFits(first, second);
    Or(first * 0x1_0000 % 0x1_0000_0000, second)
  }

  lemma PackedFits(first: u32, second: u32)
    ensures Or(first * 0x1_0000 % 0x1_0000_0000, second) < 0x1_0000_0000
  {
    Pow2Of32();
    OrBound(first * 0x1_0000 % 0x1_0000_0000, second, 32);
  }

  lemma Pow2Of32()
    ensures Pow2(16) == 0x1_0000 && Pow2(32) == 0x1_0000_0000
  {
    assert Pow2(4) == 16 && Pow2(8) == 16 * Pow2(4);
    Pow2Add(8, 8);
    Pow2Add(16, 16);
  }

  lemma PackIs(first: u32, second: u32)
    ensures Pack(first, second) == Or(first % 0x1_0000, second / 0x1_0000) * 0x1_0000 + second % 0x1_0000
  {
    Pow2Of32();
    assert first * 0x1_0000 % 0x1_0000_0000 == first % 0x1_0000 * 0x1_0000;
    OrShifted(first % 0x1_0000, second, 16);
    Shifts(first % 0x1_0000, 16);
    Shifts(second, 16);
    Shifts(Or(first % 0x1_0000, second / 0x1_0000), 16);
  }

  /** Two slots survive packing exactly when both are below 2^16. */
  lemma PackRoundTrip(first: u32, second: u32)
    ensures High(Pack(first, second)) == first && Low(Pack(first, second)) == second
       <==> first < 0x1_0000 && second < 0x1_0000
  {
    PackIs(first, second);
    PackParts(Or(first % 0x1_0000, second / 0x1_0000), second % 0x1_0000);
    OrNothing(first % 0x1_0000);
  }

  lemma OrNothing(a: nat)
    ensures Or(a, 0) == a
  {
  }

  lemma PackParts(high: nat, low: nat)
    requires low < 0x1_0000
    ensures (high * 0x1_0000 + low) / 0x1_0000 == high && (high * 0x1_0000 + low) % 0x1_0000 == low
  {
  }

  /** A program with every two-slot form written out as the pair it stands for. */
  function Unfused(i: Instruction): seq<Instruction> {
    if i.arg.None? then [i]
    else
      var first, second := Some(High(i.arg.value)), Some(Low(i.arg.value));
      match i.op
      case LoadFast2 => [Instruction(LoadFast, first), Instruction(LoadFast, second)]
      case StoreFastLoadFast => [Instruction(StoreFast, first), Instruction(LoadFast, second)]
      case StoreFastStoreFast => [Instruction(StoreFast, first), Instruction(StoreFast, second)]
      case _ => [i]
  }

  function Expanded(program: seq<Instruction>): seq<Instruction> {
    if program == [] then [] else Unfused(program[0]) + Expanded(program[1..])
  }

  lemma {:induction false} ExpandedUsesSame(program: seq<Instruction>, slot: nat)
    ensures Uses(program, slot) <==> Uses(Expanded(program), slot)
  {
    if program != [] {
      ExpandedUsesSame(program[1..], slot);
      UsesAppend([program[0]], program[1..], slot);
      UsesAppend(Unfused(program[0]), Expanded(program[1..]), slot);
      assert program == [program[0]] + program[1..];
      UnfusedUsesSame(program[0], slot);
    }
  }

  lemma UnfusedUsesSame(i: Instruction, slot: nat)
    ensures Uses([i], slot) <==> Uses(Unfused(i), slot)
  {
    UsesOne(i, slot);
    var u := Unfused(i);
    if |u| == 2 {
      assert u == [u[0]] + [u[1]];
      UsesAppend([u[0]], [u[1]], slot);
      UsesOne(u[0], slot);
      UsesOne(u[1], slot);
    }
  }

  /** Programs that unfold to the same instructions need the same fast locals,
      so fusing adjacent loads and stores never changes the count. */
  lemma FusionKeepsCount(a: seq<Instruction>, b: seq<Instruction>, params: seq<Option<nat>>, count: nat)
    requires Expanded(a) == Expanded(b) && LeastCount(a, params, count)
    ensures LeastCount(b, params, count)
  {
    forall slot: nat
      ensures SlotUsed(a, params, slot) <==> SlotUsed(b, params, slot)
    {
      ExpandedUsesSame(a, slot);
      ExpandedUsesSame(b, slot);
    }
  }

  lemma ExpandedOne(i: Instruction)
    ensures Expanded([i]) == Unfused(i)
  {
    assert [i][1..] == [];
  }

  lemma ExpandedPair(a: Instruction, b: Instruction)
    requires Single(a.op) && Single(b.op)
    ensures Expanded([a, b]) == [a, b]
  {
    assert [a, b] == [a] + [b];
    ExpandedAppend([a], [b]);
    ExpandedOne(a);
    ExpandedOne(b);
  }

  lemma ExpandedInside(before: seq<Instruction>, x: seq<Instruction>, y: seq<Instruction>, after: seq<Instruction>)
    requires Expanded(x) == Expanded(y)
    ensures Expanded(before + x + after) == Expanded(before + y + after)
  {
    ExpandedAppend(before + x, after);
    ExpandedAppend(before, x);
    ExpandedAppend(before + y, after);
    ExpandedAppend(before, y);
  }

  /** Fusing an adjacent pair of slots below 2^16 anywhere in a program leaves
      its unfolding, and so its count, unchanged. */
  lemma FuseOnce(before: seq<Instruction>, op: Opcode, first: u32, second: u32, after: seq<Instruction>,
                 a: Instruction, b: Instruction, params: seq<Option<nat>>, count: nat)
    requires Double(op) && first < 0x1_0000 && second < 0x1_0000
    requires a == Instruction(if op == LoadFast2 then LoadFast else StoreFast, Some(first))
    requires b == Instruction(if op == StoreFastStoreFast then StoreFast else LoadFast, Some(second))
    requires LeastCount(before + [a, b] + after, params, count)
    ensures LeastCount(before + [Instruction(op, Some(Pack(first, second)))] + after, params, count)
  {
    var fused := Instruction(op, Some(Pack(first, second)));
    PackRoundTrip(first, second);
    ExpandedOne(fused);
    ExpandedPair(a, b);
    ExpandedInside(before, [fused], [a, b], after);
    FusionKeepsCount(before + [a, b] + after, before + [fused] + after, params, count);
  }

  lemma {:induction false} ExpandedAppend(a: seq<Instruction>, b: seq<Instruction>)
    ensures Expanded(a + b) == Expanded(a) + Expanded(b)
  {
    if a == [] {
      assert a + b == b;
    } else {
      assert (a + b)[0] == a[0] && (a + b)[1..] == a[1..] + b;
      ExpandedAppend(a[1..], b);
    }
  }

  // --------------------------------------------------------- the code object

  /** The lists a compiler fills in. */
  datatype Lists = Lists(name: string, names: seq<string>, cellvars: seq<string>, posonly: seq<string>,
                         params: seq<string>, kwonly: seq<string>, vararg: Option<string>, kwarg: Option<string>,
                         program: seq<Instruction>)

  /** The tables derived from them. */
  datatype Tables = Tables(nameToIndex: map<string, nat>, cellToIndex: map<string, nat>, slots: seq<Option<nat>>,
                           cells: seq<Option<nat>>, count: nat, arity: Option<nat>, comprehension: bool)

  function Lookup(table: map<string, nat>, name: string): Option<nat> {
    if name in table then Some(table[name]) else None
  }

  function Places(table: map<string, nat>, params: seq<string>): (r: seq<Option<nat>>)
    ensures |r| == |params| && forall i :: 0 <= i < |params| ==> r[i] == Lookup(table, params[i])
  {
    seq(|params|, i requires 0 <= i < |params| => Lookup(table, params[i]))
  }

  function At(places: seq<Option<nat>>, i: nat): Option<nat> {
    if i < |places| then places[i] else None
  }

  predicate IsComprehension(name: string) {
    name == "<listcomp>" || name == "<dictcomp>" || name == "<genexpr>"
  }

  /** The code of a list, dictionary or generator comprehension, by its name. */
  lemma ComprehensionNames(name: string)
    ensures IsComprehension(name) <==> exists kind :: kind in {"listcomp", "dictcomp", "genexpr"} && name == "<" + kind + ">"
  {
    assert "<" + "listcomp" + ">" == "<listcomp>" && "<" + "dictcomp" + ">" == "<dictcomp>";
    assert "<" + "genexpr" + ">" == "<genexpr>";
  }

  /** The tables say what the lists say. */
  ghost predicate Agree(l: Lists, t: Tables) {
    && LastPlaces(l.names, t.nameToIndex) && LastPlaces(l.cellvars, t.cellToIndex)
    && t.slots == Places(t.nameToIndex, l.posonly + l.params)
    && t.cells == Places(t.cellToIndex, l.posonly + l.params)
    && LeastCount(l.program, t.slots, t.count)
    && t.arity == (if l.kwonly == [] && l.vararg == None && l.kwarg == None then Some(|l.posonly| + |l.params|) else None)
    && t.comprehension == IsComprehension(l.name)
  }

  /** Lists have only one set of tables. */
  lemma AgreeUnique(l: Lists, a: Tables, b: Tables)
    requires Agree(l, a) && Agree(l, b)
    ensures a == b
  {
    LastPlacesUnique(l.names, a.nameToIndex, b.nameToIndex);
    LastPlacesUnique(l.cellvars, a.cellToIndex, b.cellToIndex);
    LeastCountUnique(l.program, a.slots, a.count, b.count);
  }

  lemma LastPlacesAppend(names: seq<string>, table: map<string, nat>, name: string)
    requires LastPlaces(names, table) && name !in table
    ensures LastPlaces(names + [name], table[name := |names|])
  {
    var more, after := names + [name], table[name := |names|];
    forall other | other in after
      ensures LastPlace(more, other, after[other])
    {
      assert other != name ==> LastPlace(names, other, table[other]);
    }
  }

  lemma InternedAppend(names: seq<string>, table: map<string, nat>, name: string)
    requires Interned(names, table) && name !in table
    ensures Interned(names + [name], table[name := |names|])
  {
  }

  lemma LastPlacesMembers(names: seq<string>, table: map<string, nat>, name: string)
    requires LastPlaces(names, table)
    ensures name in names <==> name in table
  {
    if name in table {
      assert LastPlace(names, name, table[name]);
    }
  }

  /** A table rebuilt over the list stays one, and the index is the last place unless cut off. */
  ghost predicate KeepsLastPlaces(names: seq<string>, table: map<string, nat>, name: string,
                                  after: seq<string>, tableAfter: map<string, nat>, r: u32) {
    LastPlaces(names, table) ==>
      && LastPlaces(after, tableAfter) && name in tableAfter
      && after == (if name in names then names else names + [name])
      && (tableAfter[name] < 0x1_0000_0000 ==> LastPlace(after, name, r))
  }

  /** An interned table stays one, and the index names the name unless cut off. */
  ghost predicate KeepsInterned(names: seq<string>, table: map<string, nat>, name: string,
                                after: seq<string>, tableAfter: map<string, nat>, r: u32) {
    Interned(names, table) ==>
      && Interned(after, tableAfter) && name in tableAfter
      && after == (if name in names then names else names + [name])
      && r < |after| && (after[r] == name <==> tableAfter[name] < 0x1_0000_0000)
  }

  lemma LastPlacesKept(names: seq<string>, table: map<string, nat>, name: string)
    ensures if name in table then KeepsLastPlaces(names, table, name, names, table, Truncated(table[name]))
            else KeepsLastPlaces(names, table, name, names + [name], table[name := |names|], Truncated(|names|))
  {
    if LastPlaces(names, table) {
      LastPlacesMembers(names, table, name);
      if name in table {
        assert LastPlace(names, name, table[name]);
      } else {
        LastPlacesAppend(names, table, name);
      }
    }
  }

  lemma InternedKept(names: seq<string>, table: map<string, nat>, name: string)
    ensures if name in table then KeepsInterned(names, table, name, names, table, Truncated(table[name]))
            else KeepsInterned(names, table, name, names + [name], table[name := |names|], Truncated(|names|))
  {
    if Interned(names, table) {
      InternedIsLastPlaces(names, table);
      LastPlacesMembers(names, table, name);
      if name in table {
        TruncatedNames(names, table, name);
      } else {
        InternedAppend(names, table, name);
        TruncatedNames(names + [name], table[name := |names|], name);
      }
    }
  }

  function Truncated(i: nat): u32 {
    i % 0x1_0000_0000
  }

  /** A truncated index names the same thing exactly when nothing was cut off. */
  lemma TruncatedNames(names: seq<string>, table: map<string, nat>, name: string)
    requires Interned(names, table) && name in table
    ensures Truncated(table[name]) < |names|
    ensures names[Truncated(table[name])] == name <==> table[name] < 0x1_0000_0000
  {
    var i := table[name];
    assert Truncated(i) <= i;
    assert Truncated(i) == i <==> i < 0x1_0000_0000;
    assert table[names[Truncated(i)]] == Truncated(i);
  }

  method PlaceParams(table: map<string, nat>, params: seq<string>) returns (places: seq<Option<nat>>)
    ensures places == Places(table, params)
  {
    places := [];
    for i := 0 to |params|
      invariant |places| == i && forall j :: 0 <= j < i ==> places[j] == Lookup(table, params[j])
    {
      places := places + [Lookup(table, params[i])];
    }
  }

  /** Tables that agreed already, or an interned name table, survive a rebuild. */
  lemma RebuildStable(l: Lists, before: Tables, after: Tables)
    requires Agree(l, after)
    ensures Agree(l, before) ==> after == before
    ensures Interned(l.names, before.nameToIndex) ==> after.nameToIndex == before.nameToIndex
  {
    if Agree(l, before) {
      AgreeUnique(l, after, before);
    }
    InternedIsLastPlaces(l.names, before.nameToIndex);
    if Interned(l.names, before.nameToIndex) {
      LastPlacesUnique(l.names, after.nameToIndex, before.nameToIndex);
    }
  }

  /** The tables of the lists, computed afresh. */
  method DeriveTables(l: Lists) returns (t: Tables)
    ensures Agree(l, t)
  {
    var nameToIndex := IndexNames(l.names);
    var cellToIndex := IndexNames(l.cellvars);
    var all := l.posonly + l.params;
    var slots := PlaceParams(nameToIndex, all);
    var cells := PlaceParams(cellToIndex, all);
    var count := CountFastLocals(l.program, slots);
    var arity := if l.kwonly == [] && l.vararg == None && l.kwarg == None then Some(|l.posonly| + |l.params|) else None;
    t := Tables(nameToIndex, cellToIndex, slots, cells, count, arity, IsComprehension(l.name));
  }

  class CodeObject {
    var lists: Lists
    var tables: Tables
    var argSlots: seq<Option<nat>>
    var argCells: seq<Option<nat>>

    constructor (name: string)
      ensures lists == Lists(name, [], [], [], [], [], None, None, [])
      ensures Interned(lists.names, tables.nameToIndex)
    {
      lists := Lists(name, [], [], [], [], [], None, None, []);
      tables := Tables(map[], map[], [], [], 0, None, IsComprehension(name));
      argSlots, argCells := [None, None, None], [None, None, None];
    }

    /** The index of `name`, added if the table does not have it; every index
        issued before stays valid.  A table rebuilt over the list stays one and
        the index is the last place of the name, unless cut off at 32 bits; an
        interned one stays interned. */
    method AddName(name: string) returns (r: u32)
      modifies this
      ensures if name in old(tables).nameToIndex then lists == old(lists) && tables == old(tables)
              else
                && lists == old(lists).(names := old(lists).names + [name])
                && tables == old(tables).(nameToIndex := old(tables).nameToIndex[name := |old(lists).names|])
      ensures argSlots == old(argSlots) && argCells == old(argCells)
      ensures name in tables.nameToIndex && r == Truncated(tables.nameToIndex[name])
      ensures KeepsLastPlaces(old(lists).names, old(tables).nameToIndex, name, lists.names, tables.nameToIndex, r)
      ensures KeepsInterned(old(lists).names, old(tables).nameToIndex, name, lists.names, tables.nameToIndex, r)
    {
      LastPlacesKept(lists.names, tables.nameToIndex, name);
      InternedKept(lists.names, tables.nameToIndex, name);
      if name !in tables.nameToIndex {
        tables := tables.(nameToIndex := tables.nameToIndex[name := |lists.names|]);
        lists := lists.(names := lists.names + [name]);
      }
      return Truncated(tables.nameToIndex[name]);
    }

    /** Recomputes every table: they agree with the lists afterwards, so a
        second rebuild changes nothing, and neither does one of an interned name table. */
    method RebuildLayoutIndexes()
      modifies this
      ensures lists == old(lists) && Agree(lists, tables)
      ensures argSlots == [At(tables.slots, 0), At(tables.slots, 1), At(tables.slots, 2)]
      ensures argCells == [At(tables.cells, 0), At(tables.cells, 1), At(tables.cells, 2)]
      ensures old(Agree(lists, tables)) ==> tables == old(tables)
      ensures Interned(lists.names, old(tables.nameToIndex)) ==> tables.nameToIndex == old(tables.nameToIndex)
    {
      var rebuilt := DeriveTables(lists);
      RebuildStable(lists, tables, rebuilt);
      tables := rebuilt;
      argSlots := [At(tables.slots, 0), At(tables.slots, 1), At(tables.slots, 2)];
      argCells := [At(tables.cells, 0), At(tables.cells, 1), At(tables.cells, 2)];
    }
  }

  /** The names are those asked for, and every index issued names its request. */
  ghost predicate Served(names: seq<string>, requests: seq<string>, issued: seq<u32>) {
    && |issued| == |requests| && (forall x :: x in names <==> x in requests)
    && (|names| <= 0x1_0000_0000 ==>
          forall k :: 0 <= k < |requests| ==> issued[k] < |names| && names[issued[k]] == requests[k])
  }

  lemma ServedMore(names: seq<string>, requests: seq<string>, issued: seq<u32>, name: string, after: seq<string>, r: u32)
    requires Served(names, requests, issued)
    requires after == (if name in names then names else names + [name]) && r < |after|
    requires |after| <= 0x1_0000_0000 ==> after[r] == name
    ensures Served(after, requests + [name], issued + [r])
  {
    assert names <= after;
  }

  /** Over every run of name requests on a new code object: each index issued
      names what was asked for at the end of the run, equal requests get equal
      indexes and different ones different, and no name is stored twice. */
  method InternAll(requests: seq<string>) returns (code: CodeObject, issued: seq<u32>)
    ensures Distinct(code.lists.names) && Served(code.lists.names, requests, issued)
    ensures |code.lists.names| <= 0x1_0000_0000 ==>
              forall j, k :: 0 <= j < |requests| && 0 <= k < |requests| ==> (issued[j] == issued[k] <==> requests[j] == requests[k])
  {
    code := new CodeObject("");
    issued := [];
    for i := 0 to |requests|
      invariant fresh(code) && Interned(code.lists.names, code.tables.nameToIndex)
      invariant Served(code.lists.names, requests[..i], issued)
    {
      ghost var before := code.lists.names;
      var r := code.AddName(requests[i]);
      ServedMore(before, requests[..i], issued, requests[i], code.lists.names, r);
      assert requests[..i + 1] == requests[..i] + [requests[i]];
      issued := issued + [r];
    }
    assert requests[..|requests|] == requests;
    InternedIsLastPlaces(code.lists.names, code.tables.nameToIndex);
    if |code.lists.names| <= 0x1_0000_0000 {
      IssuedApart(code.lists.names, requests, issued);
    }
  }

  lemma IssuedApart(names: seq<string>, requests: seq<string>, issued: seq<u32>)
    requires Distinct(names) && Served(names, requests, issued) && |names| <= 0x1_0000_0000
    ensures forall j, k :: 0 <= j < |requests| && 0 <= k < |requests| ==> (issued[j] == issued[k] <==> requests[j] == requests[k])
  {
  }
}
