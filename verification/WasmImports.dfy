/**
 The reader of `env` imports from a WebAssembly module
 (scripts/generate_wasm_env_shim.py), after sections 5.2.2 and 5.5.5 of the
 WebAssembly Core Specification 1.0.
 */
module WasmImports {
  import opened Common
  import opened Bits
  import opened Ordering

  type bytes = seq<byte>

  datatype Error = IndexError | InvalidLeb | NotWasm | UnknownKind

  // ------------------------------------------------------------------- LEB128

  /** The shifts the reading loop goes through: one byte each. */
  const SHIFTS: seq<nat> := [0, 7, 14, 21, 28, 35]

  /** An unsigned LEB128 number of at most `budget` bytes, and the index after it. */
  function Leb(data: bytes, idx: nat, budget: nat): (r: Result<(nat, nat), Error>)
    ensures r.Ok? ==> idx < r.value.1 <= |data| && r.value.1 <= idx + budget
    decreases budget
  {
    if budget == 0 then Err(InvalidLeb)
    else if idx >= |data| then Err(IndexError)
    else if data[idx] < 128 then Ok((data[idx], idx + 1))
    else
      var rest :- Leb(data, idx + 1, budget - 1);
      Ok((data[idx] % 128 + 128 * rest.0, rest.1))
  }

  function ReadLeb(data: bytes, idx: nat): (r: Result<(nat, nat), Error>)
    ensures r.Ok? ==> idx < r.value.1 <= |data|
  {
    Leb(data, idx, |SHIFTS|)
  }

  ghost function Behind(out: nat, shift: nat, r: Result<(nat, nat), Error>): Result<(nat, nat), Error> {
    if r.Ok? then Ok((out + r.value.0 * Pow2(shift), r.value.1)) else r
  }

  lemma LebStep(data: bytes, idx: nat, out: nat, shift: nat, budget: nat)
    requires idx < |data| && out < Pow2(shift) && budget > 0
    ensures WithBits(out, data[idx], shift) < Pow2(shift + 7)
    ensures Behind(out, shift, Leb(data, idx, budget))
         == if data[idx] < 128 then Ok((WithBits(out, data[idx], shift), idx + 1))
            else Behind(WithBits(out, data[idx], shift), shift + 7, Leb(data, idx + 1, budget - 1))
  {
    var rest := Leb(data, idx + 1, budget - 1);
    Pow2Plus7(shift);
    Shift7(out, data[idx] % 128, if rest.Ok? then rest.value.0 else 0, Pow2(shift));
  }

  /** The accumulator loop; it gives up when the shift would pass 35.  As `out`
      stays below `Pow2(shift)`, the source's bitwise or is an addition. */
  method ReadU32Leb(data: bytes, start: nat) returns (r: Result<(nat, nat), Error>)
    ensures r == ReadLeb(data, start)
  {
    var shift: nat, out: nat, idx: nat := 0, 0, start;
    ghost var budget: nat := |SHIFTS|;
    while true
      invariant 1 <= budget <= 6 && shift == 7 * (6 - budget)
      invariant out < Pow2(shift)
      invariant ReadLeb(data, start) == Behind(out, shift, Leb(data, idx, budget))
      decreases budget
    {
      if idx >= |data| {
        return Err(IndexError);
      }
      LebStep(data, idx, out, shift, budget);
      var b := data[idx];
      idx, out := idx + 1, WithBits(out, b, shift);
      if b < 128 {
        return Ok((out, idx));
      }
      shift := shift + 7;
      if shift > 35 {
        assert Leb(data, idx, 0) == Err(InvalidLeb);
        return Err(InvalidLeb);
      }
      budget := budget - 1;
    }
  }

  /** Seven bits a byte, least significant first. */
  function LebValue(bs: bytes): nat {
    if bs == [] then 0 else bs[0] % 128 + 128 * LebValue(bs[1..])
  }

  /** A well-formed LEB128 string: continuation bits on all bytes but the last. */
  predicate IsLeb(bs: bytes) {
    0 < |bs| <= |SHIFTS| && bs[|bs| - 1] < 128 && forall i :: 0 <= i < |bs| - 1 ==> bs[i] >= 128
  }

  /** The bytes stand at `idx` of the data. */
  predicate At(data: bytes, idx: nat, bs: bytes)
    decreases |bs|
  {
    bs == [] || (idx < |data| && data[idx] == bs[0] && At(data, idx + 1, bs[1..]))
  }

  lemma {:induction false} AtSlice(data: bytes, idx: nat, bs: bytes)
    requires idx <= |data|
    ensures At(data, idx, bs) <==> idx + |bs| <= |data| && data[idx..idx + |bs|] == bs
    decreases |bs|
  {
    if bs != [] && idx < |data| {
      AtSlice(data, idx + 1, bs[1..]);
      if idx + |bs| <= |data| {
        var here := data[idx..idx + |bs|];
        assert here[1..] == data[idx + 1..idx + |bs|] && here == [here[0]] + here[1..] && bs == [bs[0]] + bs[1..];
      }
    }
  }

  /** Text put together from pieces. */
  datatype Pieces = Piece(bs: bytes) | Then(first: Pieces, second: Pieces)

  function Flat(p: Pieces): bytes {
    match p
    case Piece(bs) => bs
    case Then(first, second) => Flat(first) + Flat(second)
  }

  function Len(p: Pieces): nat {
    match p
    case Piece(bs) => |bs|
    case Then(first, second) => Len(first) + Len(second)
  }

  /** The pieces stand one after the other from `idx` on. */
  predicate PiecesAt(data: bytes, idx: nat, p: Pieces)
    decreases p
  {
    match p
    case Piece(bs) => At(data, idx, bs)
    case Then(first, second) => PiecesAt(data, idx, first) && PiecesAt(data, idx + Len(first), second)
  }

  lemma {:induction false} AtSplit(data: bytes, idx: nat, a: bytes, b: bytes)
    requires At(data, idx, a + b)
    ensures At(data, idx, a) && At(data, idx + |a|, b)
    decreases |a|
  {
    if a == [] {
      assert a + b == b;
    } else {
      assert (a + b)[1..] == a[1..] + b;
      AtSplit(data, idx + 1, a[1..], b);
    }
  }

  /** The first of the pieces, a plain one, and what follows it. */
  lemma Peel(data: bytes, idx: nat, bs: bytes, rest: Pieces)
    requires PiecesAt(data, idx, Then(Piece(bs), rest))
    ensures At(data, idx, bs) && PiecesAt(data, idx + |bs|, rest)
    ensures Len(Then(Piece(bs), rest)) == |bs| + Len(rest)
  {
    assert PiecesAt(data, idx, Piece(bs)) && Len(Piece(bs)) == |bs|;
  }

  lemma PeelPair(data: bytes, idx: nat, a: bytes, b: bytes)
    requires PiecesAt(data, idx, Then(Piece(a), Piece(b)))
    ensures At(data, idx, a) && At(data, idx + |a|, b)
    ensures Len(Then(Piece(a), Piece(b))) == |a| + |b|
  {
    Peel(data, idx, a, Piece(b));
    assert PiecesAt(data, idx + |a|, Piece(b)) && Len(Piece(b)) == |b|;
  }

  /** A leading single byte. */
  lemma PeelByte(data: bytes, idx: nat, b: byte, rest: Pieces)
    requires PiecesAt(data, idx, Then(Piece([b]), rest))
    ensures idx < |data| && data[idx] == b && PiecesAt(data, idx + 1, rest)
    ensures Len(Then(Piece([b]), rest)) == 1 + Len(rest)
  {
    Peel(data, idx, [b], rest);
  }

  lemma {:induction false} FlatAt(data: bytes, idx: nat, p: Pieces)
    requires At(data, idx, Flat(p))
    ensures PiecesAt(data, idx, p) && |Flat(p)| == Len(p)
    decreases p
  {
    if p.Then? {
      AtSplit(data, idx, Flat(p.first), Flat(p.second));
      FlatAt(data, idx, p.first);
      FlatAt(data, idx + |Flat(p.first)|, p.second);
    }
  }

  lemma {:induction false} LebAt(data: bytes, idx: nat, bs: bytes, budget: nat)
    requires 0 < |bs| <= budget && bs[|bs| - 1] < 128 && (forall i :: 0 <= i < |bs| - 1 ==> bs[i] >= 128)
    requires At(data, idx, bs)
    ensures Leb(data, idx, budget) == Ok((LebValue(bs), idx + |bs|))
    decreases |bs|
  {
    if |bs| == 1 {
      assert bs[1..] == [];
    } else {
      LebAt(data, idx + 1, bs[1..], budget - 1);
    }
  }

  /** Any well-formed string is read as its value, padded encodings included. */
  lemma ReadsLeb(data: bytes, idx: nat, bs: bytes)
    requires IsLeb(bs) && At(data, idx, bs)
    ensures ReadLeb(data, idx) == Ok((LebValue(bs), idx + |bs|))
  {
    LebAt(data, idx, bs, |SHIFTS|);
  }

  /** What the reader accepts has at most six bytes and a value below 2^42. */
  lemma {:induction false} LebBounded(data: bytes, idx: nat, budget: nat)
    requires Leb(data, idx, budget).Ok?
    ensures Leb(data, idx, budget).value.0 < Pow2(7 * budget)
    ensures Leb(data, idx, budget).value.1 <= idx + budget
    decreases budget
  {
    Pow2Plus7(7 * budget - 7);
    if data[idx] >= 128 {
      LebBounded(data, idx + 1, budget - 1);
    }
  }

  lemma LebAccepted(data: bytes, idx: nat)
    requires ReadLeb(data, idx).Ok?
    ensures ReadLeb(data, idx).value.0 < Pow2(42) && ReadLeb(data, idx).value.1 <= idx + 6
  {
    LebBounded(data, idx, |SHIFTS|);
  }

  /** The shortest encoding. */
  function EncodeLeb(n: nat): (bs: bytes)
    ensures |bs| > 0
  {
    if n < 128 then [n] else [128 + n % 128] + EncodeLeb(n / 128)
  }

  lemma {:induction false} EncodeLebValue(n: nat)
    ensures LebValue(EncodeLeb(n)) == n
  {
    if n < 128 {
      assert EncodeLeb(n)[1..] == [];
    } else {
      EncodeLebValue(n / 128);
      assert EncodeLeb(n)[1..] == EncodeLeb(n / 128) && EncodeLeb(n)[0] == 128 + n % 128;
    }
  }

  lemma {:induction false} EncodeLebForm(n: nat, budget: nat)
    requires n < Pow2(7 * budget) && 0 < budget <= 6
    ensures IsLeb(EncodeLeb(n)) && |EncodeLeb(n)| <= budget
    decreases budget
  {
    Pow2Plus7(7 * budget - 7);
    if n >= 128 {
      EncodeLebForm(n / 128, budget - 1);
    }
  }

  /** Decoding inverts encoding below 2^42, all of u32 included. */
  lemma LebRoundTrip(n: nat, before: bytes, after: bytes)
    requires n < Pow2(42)
    ensures ReadLeb(before + EncodeLeb(n) + after, |before|) == Ok((n, |before| + |EncodeLeb(n)|))
  {
    EncodeLebForm(n, 6);
    EncodeLebValue(n);
    AtSlice(before + EncodeLeb(n) + after, |before|, EncodeLeb(n));
    ReadsLeb(before + EncodeLeb(n) + after, |before|, EncodeLeb(n));
  }

  // -------------------------------------------------------- the import section

  datatype Kind = Func | Table | Memory | Global | Tag

  /** An import as read: raw module and field names, and its kind. */
  datatype Item = Item(mod: bytes, field: bytes, kind: Kind)

  /** Python slicing: clamped to the data. */
  function Slice(data: bytes, from: nat, size: nat): bytes {
    if from >= |data| then []
    else if from + size > |data| then data[from..]
    else data[from..from + size]
  }

  function ReadName(data: bytes, idx: nat): (r: Result<(bytes, nat), Error>)
    ensures r.Ok? ==> idx < r.value.1
  {
    var size :- ReadLeb(data, idx);
    Ok((Slice(data, size.1, size.0), size.1 + size.0))
  }

  /** Flags, minimum, and a maximum if the low flag bit says so. */
  function SkipLimits(data: bytes, idx: nat): (r: Result<nat, Error>)
    ensures r.Ok? ==> idx < r.value
  {
    var flags :- ReadLeb(data, idx);
    var min :- ReadLeb(data, flags.1);
    if flags.0 % 2 == 0 then Ok(min.1)
    else
      var max :- ReadLeb(data, min.1);
      Ok(max.1)
  }

  /** What follows a kind byte. */
  datatype Layout = Done | Number(rest: Layout) | Limit(rest: Layout) | Bytes(count: nat, rest: Layout)

  function LayoutOf(kind: byte): Option<(Kind, Layout)> {
    match kind
    case 0 => Some((Func, Number(Done)))
    case 1 => Some((Table, Number(Limit(Done))))
    case 2 => Some((Memory, Limit(Done)))
    case 3 => Some((Global, Bytes(2, Done)))
    case 4 => Some((Tag, Number(Number(Done))))
    case _ => None
  }

  function SkipLayout(data: bytes, idx: nat, layout: Layout): (r: Result<nat, Error>)
    ensures r.Ok? ==> idx <= r.value
    decreases layout
  {
    match layout
    case Done => Ok(idx)
    case Number(rest) =>
      var n :- ReadLeb(data, idx);
      SkipLayout(data, n.1, rest)
    case Limit(rest) =>
      var end :- SkipLimits(data, idx);
      SkipLayout(data, end, rest)
    case Bytes(count, rest) => SkipLayout(data, idx + count, rest)
  }

  /** The kind byte at `idx` and the index after the description. */
  function ReadDesc(data: bytes, idx: nat): (r: Result<(Kind, nat), Error>)
    ensures r.Ok? ==> idx < r.value.1
  {
    if idx >= |data| then Err(IndexError)
    else
      match LayoutOf(data[idx])
      case None => Err(UnknownKind)
      case Some((kind, layout)) =>
        var end :- SkipLayout(data, idx + 1, layout);
        Ok((kind, end))
  }

  function ReadImport(data: bytes, idx: nat): (r: Result<(Item, nat), Error>)
    ensures r.Ok? ==> idx < r.value.1
  {
    var mod :- ReadName(data, idx);
    var field :- ReadName(data, mod.1);
    var desc :- ReadDesc(data, field.1);
    Ok((Item(mod.0, field.0, desc.0), desc.1))
  }

  type Reader = nat -> Result<(Item, nat), Error>

  function ImportReader(data: bytes): Reader {
    idx => ReadImport(data, idx)
  }

  /** `count` items, each read where the one before ends. */
  function ReadMany(read: Reader, idx: nat, count: nat): Result<seq<Item>, Error>
    decreases count
  {
    if count == 0 then Ok([])
    else
      var first :- read(idx);
      var rest :- ReadMany(read, first.1, count - 1);
      Ok([first.0] + rest)
  }

  function ReadImports(data: bytes, idx: nat, count: nat): Result<seq<Item>, Error> {
    ReadMany(ImportReader(data), idx, count)
  }

  /** The imports of all import sections from `idx` on. */
  function ReadSections(data: bytes, idx: nat): Result<seq<Item>, Error>
    decreases |data| - idx
  {
    if idx >= |data| then Ok([])
    else
      var size :- ReadLeb(data, idx + 1);
      var here :- ReadBody(data, size.1, data[idx]);
      var rest :- ReadSections(data, size.1 + size.0);
      Ok(here + rest)
  }

  /** The imports in the body of a section; other sections are skipped unread. */
  function ReadBody(data: bytes, idx: nat, id: byte): Result<seq<Item>, Error> {
    if id != 2 then Ok([])
    else
      var count :- ReadLeb(data, idx);
      ReadImports(data, count.1, count.0)
  }

  /** The names a list of imports takes from `env`, for one kind. */
  function EnvNames(items: seq<Item>, kind: Kind, decode: bytes -> string): seq<string> {
    if items == [] then []
    else
      var item := items[|items| - 1];
      EnvNames(items[..|items| - 1], kind, decode) +
      if item.kind == kind && decode(item.mod) == "env" then [decode(item.field)] else []
  }

  datatype Report = Report(funcs: seq<string>, globals: seq<string>, memories: seq<string>, tables: seq<string>)

  function ReportOf(items: seq<Item>, decode: bytes -> string): Report {
    Report(SortedSet(EnvNames(items, Func, decode)), SortedSet(EnvNames(items, Global, decode)),
           SortedSet(EnvNames(items, Memory, decode)), SortedSet(EnvNames(items, Table, decode)))
  }

  const MAGIC: bytes := [0x00, 0x61, 0x73, 0x6D]

  function Parse(data: bytes, decode: bytes -> string): Result<Report, Error> {
    if Slice(data, 0, 4) != MAGIC then Err(NotWasm)
    else
      var items :- ReadSections(data, 8);
      Ok(ReportOf(items, decode))
  }

  // ------------------------------------------------------------ the reading loops

  /** The description behind the kind byte, number by number as the source skips it. */
  method SkipDescription(data: bytes, start: nat) returns (r: Result<(Kind, nat), Error>)
    ensures r == ReadDesc(data, start)
  {
    if start >= |data| {
      return Err(IndexError);
    }
    var kind, idx := data[start], start + 1;
    assert forall i: nat :: SkipLayout(data, i, Done) == Ok(i);
    if kind == 0 {
      var typeIndex :- ReadU32Leb(data, idx);
      return Ok((Func, typeIndex.1));
    } else if kind == 1 {
      var elem :- ReadU32Leb(data, idx);
      var end := SkipLimitNumbers(data, elem.1);
      assert end.Ok? ==> SkipLayout(data, elem.1, Limit(Done)) == Ok(end.value);
      if end.Err? {
        return Err(end.error);
      }
      return Ok((Table, end.value));
    } else if kind == 2 {
      var end :- SkipLimitNumbers(data, idx);
      return Ok((Memory, end));
    } else if kind == 3 {
      return Ok((Global, idx + 2));
    } else if kind == 4 {
      var attr :- ReadU32Leb(data, idx);
      var typeIndex := ReadU32Leb(data, attr.1);
      assert typeIndex.Ok? ==> SkipLayout(data, attr.1, Number(Done)) == Ok(typeIndex.value.1);
      if typeIndex.Err? {
        return Err(typeIndex.error);
      }
      return Ok((Tag, typeIndex.value.1));
    }
    return Err(UnknownKind);
  }

  method SkipLimitNumbers(data: bytes, start: nat) returns (r: Result<nat, Error>)
    ensures r == SkipLimits(data, start)
  {
    var flags :- ReadU32Leb(data, start);
    var min :- ReadU32Leb(data, flags.1);
    if flags.0 % 2 == 1 {
      var max :- ReadU32Leb(data, min.1);
      return Ok(max.1);
    }
    return Ok(min.1);
  }

  /** The four lists the loop appends to. */
  datatype Lists = Lists(funcs: seq<string>, globals: seq<string>, memories: seq<string>, tables: seq<string>)

  ghost function Collected(items: seq<Item>, decode: bytes -> string): Lists {
    Lists(EnvNames(items, Func, decode), EnvNames(items, Global, decode),
          EnvNames(items, Memory, decode), EnvNames(items, Table, decode))
  }

  lemma CollectOne(items: seq<Item>, item: Item, decode: bytes -> string, kind: Kind)
    ensures EnvNames(items + [item], kind, decode) == EnvNames(items, kind, decode) +
              if item.kind == kind && decode(item.mod) == "env" then [decode(item.field)] else []
  {
    assert (items + [item])[..|items|] == items;
  }

  ghost function Extend(items: seq<Item>, r: Result<seq<Item>, Error>): (e: Result<seq<Item>, Error>)
    ensures items == [] ==> e == r
  {
    assert r.Ok? ==> [] + r.value == r.value;
    if r.Ok? then Ok(items + r.value) else r
  }

  /** Append the field name to the list of its kind; tags are not kept. */
  method Keep(lists: Lists, item: Item, decode: bytes -> string, ghost items: seq<Item>) returns (r: Lists)
    requires lists == Collected(items, decode)
    ensures r == Collected(items + [item], decode)
  {
    CollectOne(items, item, decode, Func);
    CollectOne(items, item, decode, Global);
    CollectOne(items, item, decode, Memory);
    CollectOne(items, item, decode, Table);
    r := lists;
    if decode(item.mod) == "env" {
      match item.kind {
        case Func => r := r.(funcs := r.funcs + [decode(item.field)]);
        case Global => r := r.(globals := r.globals + [decode(item.field)]);
        case Memory => r := r.(memories := r.memories + [decode(item.field)]);
        case Table => r := r.(tables := r.tables + [decode(item.field)]);
        case Tag =>
      }
    }
  }

  method ReadEntry(data: bytes, start: nat) returns (r: Result<(Item, nat), Error>)
    ensures r == ReadImport(data, start)
  {
    var mod :- ReadName(data, start);
    var field :- ReadName(data, mod.1);
    var desc :- SkipDescription(data, field.1);
    return Ok((Item(mod.0, field.0, desc.0), desc.1));
  }

  /** `read` reads the imports of `data`. */
  ghost predicate Reads(read: Reader, data: bytes) {
    forall idx {:trigger ReadImport(data, idx)} :: read(idx) == ReadImport(data, idx)
  }

  /** One import, gathered into its list. */
  method TakeEntry(data: bytes, start: nat, before: Lists, decode: bytes -> string, ghost read: Reader, ghost items: seq<Item>)
      returns (r: Result<(Lists, nat), Error>)
    requires before == Collected(items, decode) && Reads(read, data)
    ensures match read(start)
            case Ok(entry) => r == Ok((Collected(items + [entry.0], decode), entry.1))
            case Err(e) => r == Err(e)
  {
    var entry :- ReadEntry(data, start);
    var lists := Keep(before, entry.0, decode, items);
    return Ok((lists, entry.1));
  }

  /** The loop over one import section, as a recursion. */
  ghost function SectionLists(read: Reader, idx: nat, left: nat, items: seq<Item>, decode: bytes -> string): Result<Lists, Error>
    decreases left
  {
    if left == 0 then Ok(Collected(items, decode))
    else
      match read(idx)
      case Err(e) => Err(e)
      case Ok(entry) => SectionLists(read, entry.1, left - 1, items + [entry.0], decode)
  }

  ghost function ListsAfter(items: seq<Item>, r: Result<seq<Item>, Error>, decode: bytes -> string): Result<Lists, Error> {
    match r
    case Ok(here) => Ok(Collected(items + here, decode))
    case Err(e) => Err(e)
  }

  lemma {:induction false} SectionListsRead(read: Reader, idx: nat, left: nat, items: seq<Item>, decode: bytes -> string)
    ensures SectionLists(read, idx, left, items, decode) == ListsAfter(items, ReadMany(read, idx, left), decode)
    decreases left
  {
    if left == 0 {
      assert items + [] == items;
    } else {
      var first := read(idx);
      if first.Ok? {
        var (item, next) := first.value;
        SectionListsRead(read, next, left - 1, items + [item], decode);
        JoinItems(items, item, ReadMany(read, next, left - 1));
      }
    }
  }

  lemma JoinItems(items: seq<Item>, item: Item, rest: Result<seq<Item>, Error>)
    ensures rest.Ok? ==> items + ([item] + rest.value) == items + [item] + rest.value
  {
  }

  method ImportSection(data: bytes, start: nat, count: nat, before: Lists, decode: bytes -> string, ghost read: Reader,
                       ghost items: seq<Item>)
      returns (r: Result<Lists, Error>)
    requires before == Collected(items, decode) && Reads(read, data)
    ensures r == ListsAfter(items, ReadMany(read, start, count), decode)
  {
    SectionListsRead(read, start, count, items, decode);
    var idx, lists := start, before;
    ghost var seen := items;
    for n := 0 to count
      invariant lists == Collected(seen, decode)
      invariant SectionLists(read, start, count, items, decode) == SectionLists(read, idx, count - n, seen, decode)
    {
      ghost var item := read(idx);
      var entry :- TakeEntry(data, idx, lists, decode, read, seen);
      seen := seen + [item.value.0];
      lists, idx := entry.0, entry.1;
    }
    return Ok(lists);
  }

  /** The body of one section; only import sections are read. */
  method TakeBody(data: bytes, start: nat, id: byte, before: Lists, decode: bytes -> string, ghost items: seq<Item>)
      returns (r: Result<Lists, Error>)
    requires before == Collected(items, decode)
    ensures r == ListsAfter(items, ReadBody(data, start, id), decode)
  {
    if id == 2 {
      var count :- ReadU32Leb(data, start);
      r := ImportSection(data, count.1, count.0, before, decode, ImportReader(data), items);
    } else {
      assert items + [] == items;
      return Ok(before);
    }
  }

  /** Reading goes on behind a section that could be read, and fails where it fails. */
  lemma SectionsStep(data: bytes, idx: nat, items: seq<Item>, size: (nat, nat))
    requires idx < |data| && ReadLeb(data, idx + 1) == Ok(size)
    ensures match ReadBody(data, size.1, data[idx])
            case Ok(here) => Extend(items, ReadSections(data, idx)) == Extend(items + here, ReadSections(data, size.1 + size.0))
            case Err(e) => Extend(items, ReadSections(data, idx)) == Err(e)
  {
    var body := ReadBody(data, size.1, data[idx]);
    if body.Ok? {
      ExtendMany(items, body.value, ReadSections(data, size.1 + size.0));
    }
  }

  /** `parse_env_imports`, with the UTF-8 decoding of names as a parameter. */
  method ParseEnvImports(data: bytes, decode: bytes -> string) returns (r: Result<Report, Error>)
    ensures r == Parse(data, decode)
  {
    if Slice(data, 0, 4) != MAGIC {
      return Err(NotWasm);
    }
    var lists :- ParseSections(data, decode);
    ghost var items := ReadSections(data, 8).value;
    assert [] + items == items;
    return Ok(Report(SortedSet(lists.funcs), SortedSet(lists.globals),
                     SortedSet(lists.memories), SortedSet(lists.tables)));
  }

  /** The loop over the sections. */
  method ParseSections(data: bytes, decode: bytes -> string) returns (r: Result<Lists, Error>)
    ensures r == ListsAfter([], ReadSections(data, 8), decode)
  {
    var idx, lists := 8, Lists([], [], [], []);
    ghost var items: seq<Item> := [];
    while idx < |data|
      invariant lists == Collected(items, decode)
      invariant ReadSections(data, 8) == Extend(items, ReadSections(data, idx))
      decreases |data| - idx
    {
      var size :- ReadU32Leb(data, idx + 1);
      SectionsStep(data, idx, items, size);
      ghost var body := ReadBody(data, size.1, data[idx]);
      lists :- TakeBody(data, size.1, data[idx], lists, decode, items);
      items := items + body.value;
      idx := size.1 + size.0;
    }
    assert items + [] == items && [] + items == items;
    return Ok(lists);
  }

  lemma ExtendMany(items: seq<Item>, here: seq<Item>, r: Result<seq<Item>, Error>)
    ensures Extend(items, if r.Ok? then Ok(here + r.value) else r) == Extend(items + here, r)
  {
    assert r.Ok? ==> items + (here + r.value) == items + here + r.value;
  }

  // ------------------------------------------------- reading inverts encoding

  /** What an import entry encodes after its kind byte; `max` is empty unless the flags are odd. */
  datatype Desc =
    | FuncDesc(typeIndex: bytes)
    | TableDesc(elem: bytes, limits: Limits)
    | MemoryDesc(limits: Limits)
    | GlobalDesc(valType: byte, mutability: byte)
    | TagDesc(attribute: bytes, typeIndex: bytes)

  datatype Limits = Limits(flags: bytes, min: bytes, max: bytes)

  /** An import with the LEB128 strings of its name lengths, in any valid form. */
  datatype Import = Import(modSize: bytes, mod: bytes, fieldSize: bytes, field: bytes, desc: Desc)

  datatype Section =
    | OtherSection(id: byte, size: bytes, payload: bytes)
    | ImportsSection(size: bytes, count: bytes, imports: seq<Import>, rest: bytes)

  predicate ValidLimits(l: Limits) {
    IsLeb(l.flags) && IsLeb(l.min) && if LebValue(l.flags) % 2 == 1 then IsLeb(l.max) else l.max == []
  }

  predicate ValidDesc(d: Desc) {
    match d
    case FuncDesc(t) => IsLeb(t)
    case TableDesc(e, l) => IsLeb(e) && ValidLimits(l)
    case MemoryDesc(l) => ValidLimits(l)
    case GlobalDesc(_, _) => true
    case TagDesc(a, t) => IsLeb(a) && IsLeb(t)
  }

  predicate ValidImport(i: Import) {
    && IsLeb(i.modSize) && LebValue(i.modSize) == |i.mod|
    && IsLeb(i.fieldSize) && LebValue(i.fieldSize) == |i.field|
    && ValidDesc(i.desc)
  }

  predicate ValidSection(s: Section) {
    match s
    case OtherSection(id, size, payload) => id != 2 && IsLeb(size) && LebValue(size) == |payload|
    case ImportsSection(size, count, imports, rest) =>
      && IsLeb(size) && LebValue(size) == Len(Payload(s))
      && IsLeb(count) && LebValue(count) == |imports|
      && AllValid(imports)
  }

  predicate AllValid(imports: seq<Import>) {
    imports != [] ==> ValidImport(imports[0]) && AllValid(imports[1..])
  }

  function EncodeLimits(l: Limits): Pieces {
    Then(Piece(l.flags), Then(Piece(l.min), Piece(l.max)))
  }

  function EncodeDesc(d: Desc): Pieces {
    match d
    case FuncDesc(t) => Then(Piece([0]), Piece(t))
    case TableDesc(e, l) => Then(Piece([1]), Then(Piece(e), EncodeLimits(l)))
    case MemoryDesc(l) => Then(Piece([2]), EncodeLimits(l))
    case GlobalDesc(v, m) => Then(Piece([3]), Piece([v, m]))
    case TagDesc(a, t) => Then(Piece([4]), Then(Piece(a), Piece(t)))
  }

  function EncodeName(size: bytes, name: bytes): Pieces {
    Then(Piece(size), Piece(name))
  }

  function EncodeImport(i: Import): Pieces {
    Then(EncodeName(i.modSize, i.mod), Then(EncodeName(i.fieldSize, i.field), EncodeDesc(i.desc)))
  }

  function EncodeImports(imports: seq<Import>): Pieces {
    if imports == [] then Piece([]) else Then(EncodeImport(imports[0]), EncodeImports(imports[1..]))
  }

  function Payload(s: Section): Pieces {
    match s
    case OtherSection(_, _, payload) => Piece(payload)
    case ImportsSection(_, count, imports, rest) => Then(Piece(count), Then(EncodeImports(imports), Piece(rest)))
  }

  function EncodeSection(s: Section): Pieces {
    Then(Piece([if s.OtherSection? then s.id else 2]), Then(Piece(s.size), Payload(s)))
  }

  function EncodeSections(sections: seq<Section>): Pieces {
    if sections == [] then Piece([]) else Then(EncodeSection(sections[0]), EncodeSections(sections[1..]))
  }

  function KindOf(d: Desc): Kind {
    match d
    case FuncDesc(_) => Func
    case TableDesc(_, _) => Table
    case MemoryDesc(_) => Memory
    case GlobalDesc(_, _) => Global
    case TagDesc(_, _) => Tag
  }

  function ItemOf(i: Import): Item {
    Item(i.mod, i.field, KindOf(i.desc))
  }

  function ItemsOf(imports: seq<Import>): seq<Item> {
    if imports == [] then [] else [ItemOf(imports[0])] + ItemsOf(imports[1..])
  }

  function AllItems(sections: seq<Section>): seq<Item> {
    if sections == [] then [] else SectionItems(sections[0]) + AllItems(sections[1..])
  }

  lemma ReadsLimits(data: bytes, idx: nat, l: Limits)
    requires ValidLimits(l) && PiecesAt(data, idx, EncodeLimits(l))
    ensures SkipLimits(data, idx) == Ok(idx + Len(EncodeLimits(l)))
  {
    Peel(data, idx, l.flags, Then(Piece(l.min), Piece(l.max)));
    PeelPair(data, idx + |l.flags|, l.min, l.max);
    ReadsLeb(data, idx, l.flags);
    ReadsLeb(data, idx + |l.flags|, l.min);
    if LebValue(l.flags) % 2 == 1 {
      ReadsLeb(data, idx + |l.flags| + |l.min|, l.max);
    }
  }

  lemma ReadsFunc(data: bytes, idx: nat, t: bytes)
    requires IsLeb(t) && PiecesAt(data, idx, EncodeDesc(FuncDesc(t)))
    ensures ReadDesc(data, idx) == Ok((Func, idx + Len(EncodeDesc(FuncDesc(t)))))
  {
    PeelByte(data, idx, 0, Piece(t));
    ReadsLeb(data, idx + 1, t);
    assert SkipLayout(data, idx + 1 + |t|, Done) == Ok(idx + 1 + |t|);
  }

  lemma ReadsTable(data: bytes, idx: nat, e: bytes, l: Limits)
    requires IsLeb(e) && ValidLimits(l) && PiecesAt(data, idx, EncodeDesc(TableDesc(e, l)))
    ensures ReadDesc(data, idx) == Ok((Table, idx + Len(EncodeDesc(TableDesc(e, l)))))
  {
    PeelByte(data, idx, 1, Then(Piece(e), EncodeLimits(l)));
    Peel(data, idx + 1, e, EncodeLimits(l));
    ReadsLeb(data, idx + 1, e);
    ReadsLimits(data, idx + 1 + |e|, l);
    var end := idx + 1 + |e| + Len(EncodeLimits(l));
    assert SkipLayout(data, idx + 1 + |e|, Limit(Done)) == SkipLayout(data, end, Done) == Ok(end);
  }

  lemma ReadsMemory(data: bytes, idx: nat, l: Limits)
    requires ValidLimits(l) && PiecesAt(data, idx, EncodeDesc(MemoryDesc(l)))
    ensures ReadDesc(data, idx) == Ok((Memory, idx + Len(EncodeDesc(MemoryDesc(l)))))
  {
    PeelByte(data, idx, 2, EncodeLimits(l));
    ReadsLimits(data, idx + 1, l);
    var end := idx + 1 + Len(EncodeLimits(l));
    assert SkipLayout(data, end, Done) == Ok(end);
  }

  lemma ReadsTag(data: bytes, idx: nat, a: bytes, t: bytes)
    requires IsLeb(a) && IsLeb(t) && PiecesAt(data, idx, EncodeDesc(TagDesc(a, t)))
    ensures ReadDesc(data, idx) == Ok((Tag, idx + Len(EncodeDesc(TagDesc(a, t)))))
  {
    PeelByte(data, idx, 4, Then(Piece(a), Piece(t)));
    PeelPair(data, idx + 1, a, t);
    ReadsLeb(data, idx + 1, a);
    ReadsLeb(data, idx + 1 + |a|, t);
    var end := idx + 1 + |a| + |t|;
    assert SkipLayout(data, idx + 1 + |a|, Number(Done)) == SkipLayout(data, end, Done) == Ok(end);
  }

  lemma ReadsDesc(data: bytes, idx: nat, d: Desc)
    requires ValidDesc(d) && PiecesAt(data, idx, EncodeDesc(d))
    ensures ReadDesc(data, idx) == Ok((KindOf(d), idx + Len(EncodeDesc(d))))
  {
    match d
    case FuncDesc(t) => ReadsFunc(data, idx, t);
    case TableDesc(e, l) => ReadsTable(data, idx, e, l);
    case MemoryDesc(l) => ReadsMemory(data, idx, l);
    case GlobalDesc(v, m) =>
      PeelByte(data, idx, 3, Piece([v, m]));
      assert SkipLayout(data, idx + 1 + 2, Done) == Ok(idx + 3);
    case TagDesc(a, t) => ReadsTag(data, idx, a, t);
  }

  lemma ReadsName(data: bytes, idx: nat, size: bytes, name: bytes) returns (next: nat)
    requires IsLeb(size) && LebValue(size) == |name| && PiecesAt(data, idx, EncodeName(size, name))
    ensures next == idx + Len(EncodeName(size, name)) && ReadName(data, idx) == Ok((name, next))
  {
    PeelPair(data, idx, size, name);
    ReadsLeb(data, idx, size);
    AtSlice(data, idx + |size|, name);
    next := idx + |size| + |name|;
  }

  /** The two names of an import. */
  lemma ReadsNames(data: bytes, idx: nat, i: Import) returns (second: nat, third: nat)
    requires ValidImport(i) && PiecesAt(data, idx, EncodeImport(i))
    ensures ReadName(data, idx) == Ok((i.mod, second)) && ReadName(data, second) == Ok((i.field, third))
    ensures PiecesAt(data, third, EncodeDesc(i.desc)) && third + Len(EncodeDesc(i.desc)) == idx + Len(EncodeImport(i))
  {
    var mod, field := EncodeName(i.modSize, i.mod), EncodeName(i.fieldSize, i.field);
    PeelThree(data, idx, mod, field, EncodeDesc(i.desc));
    second := ReadsName(data, idx, i.modSize, i.mod);
    third := ReadsName(data, second, i.fieldSize, i.field);
  }

  lemma ReadsImport(data: bytes, idx: nat, i: Import) returns (next: nat)
    requires ValidImport(i) && PiecesAt(data, idx, EncodeImport(i))
    ensures next == idx + Len(EncodeImport(i)) && ReadImport(data, idx) == Ok((ItemOf(i), next))
  {
    var second, third := ReadsNames(data, idx, i);
    ReadsDesc(data, third, i.desc);
    next := third + Len(EncodeDesc(i.desc));
    ImportFrom(data, idx, i.mod, second, i.field, third, KindOf(i.desc), next);
  }

  lemma ImportFrom(data: bytes, idx: nat, mod: bytes, second: nat, field: bytes, third: nat, kind: Kind, next: nat)
    requires ReadName(data, idx) == Ok((mod, second)) && ReadName(data, second) == Ok((field, third))
    requires ReadDesc(data, third) == Ok((kind, next))
    ensures ReadImport(data, idx) == Ok((Item(mod, field, kind), next))
  {
  }

  lemma PeelThree(data: bytes, idx: nat, a: Pieces, b: Pieces, c: Pieces)
    requires PiecesAt(data, idx, Then(a, Then(b, c)))
    ensures PiecesAt(data, idx, a) && PiecesAt(data, idx + Len(a), b) && PiecesAt(data, idx + Len(a) + Len(b), c)
    ensures Len(Then(a, Then(b, c))) == Len(a) + Len(b) + Len(c)
  {
    assert PiecesAt(data, idx + Len(a), Then(b, c)) && Len(Then(b, c)) == Len(b) + Len(c);
  }

  lemma {:induction false} ReadsImports(data: bytes, idx: nat, imports: seq<Import>)
    requires PiecesAt(data, idx, EncodeImports(imports)) && AllValid(imports)
    ensures ReadImports(data, idx, |imports|) == Ok(ItemsOf(imports))
    decreases |imports|
  {
    if imports != [] {
      assert PiecesAt(data, idx, Then(EncodeImport(imports[0]), EncodeImports(imports[1..])));
      var next := ReadsImport(data, idx, imports[0]);
      ReadsImports(data, next, imports[1..]);
      ImportsCons(data, idx, |imports|, ItemOf(imports[0]), next, ItemsOf(imports[1..]));
    }
  }

  lemma ImportsCons(data: bytes, idx: nat, count: nat, item: Item, next: nat, rest: seq<Item>)
    requires count > 0 && ReadImport(data, idx) == Ok((item, next)) && ReadImports(data, next, count - 1) == Ok(rest)
    ensures ReadImports(data, idx, count) == Ok([item] + rest)
  {
  }

  lemma ReadsPayload(data: bytes, idx: nat, s: Section) returns (first: nat)
    requires ValidSection(s) && s.ImportsSection? && PiecesAt(data, idx, Payload(s))
    ensures ReadLeb(data, idx) == Ok((|s.imports|, first))
    ensures ReadImports(data, first, |s.imports|) == Ok(ItemsOf(s.imports))
  {
    Peel(data, idx, s.count, Then(EncodeImports(s.imports), Piece(s.rest)));
    ReadsLeb(data, idx, s.count);
    first := idx + |s.count|;
    assert PiecesAt(data, first, EncodeImports(s.imports));
    ReadsImports(data, first, s.imports);
  }

  /** The header of a section: its id, and a size that leads to its end. */
  lemma ReadsHeader(data: bytes, idx: nat, s: Section) returns (at: nat)
    requires ValidSection(s) && PiecesAt(data, idx, EncodeSection(s))
    ensures idx < |data| && data[idx] == (if s.OtherSection? then s.id else 2)
    ensures ReadLeb(data, idx + 1) == Ok((Len(Payload(s)), at))
    ensures PiecesAt(data, at, Payload(s))
    ensures idx + Len(EncodeSection(s)) == at + Len(Payload(s))
  {
    PeelByte(data, idx, if s.OtherSection? then s.id else 2, Then(Piece(s.size), Payload(s)));
    Peel(data, idx + 1, s.size, Payload(s));
    ReadsLeb(data, idx + 1, s.size);
    at := idx + 1 + |s.size|;
  }

  function SectionItems(s: Section): seq<Item> {
    if s.OtherSection? then [] else ItemsOf(s.imports)
  }

  lemma ReadsSection(data: bytes, idx: nat, s: Section) returns (at: nat)
    requires ValidSection(s) && PiecesAt(data, idx, EncodeSection(s))
    ensures idx < |data| && ReadLeb(data, idx + 1) == Ok((Len(Payload(s)), at))
    ensures idx + Len(EncodeSection(s)) == at + Len(Payload(s))
    ensures ReadBody(data, at, data[idx]) == Ok(SectionItems(s))
  {
    at := ReadsHeader(data, idx, s);
    if s.ImportsSection? {
      var first := ReadsPayload(data, at, s);
    }
  }

  lemma SectionsCons(data: bytes, idx: nat, size: nat, at: nat, end: nat, here: seq<Item>, rest: seq<Item>)
    requires idx < |data| && ReadLeb(data, idx + 1) == Ok((size, at)) && end == at + size
    requires ReadBody(data, at, data[idx]) == Ok(here) && ReadSections(data, end) == Ok(rest)
    ensures ReadSections(data, idx) == Ok(here + rest)
  {
  }

  lemma {:induction false} ReadsSections(data: bytes, idx: nat, sections: seq<Section>)
    requires PiecesAt(data, idx, EncodeSections(sections)) && idx + Len(EncodeSections(sections)) == |data|
    requires forall i :: 0 <= i < |sections| ==> ValidSection(sections[i])
    ensures ReadSections(data, idx) == Ok(AllItems(sections))
    decreases |sections|
  {
    if sections != [] {
      var s := sections[0];
      var end := idx + Len(EncodeSection(s));
      ReadsSections(data, end, sections[1..]);
      var at := ReadsSection(data, idx, s);
      SectionsCons(data, idx, Len(Payload(s)), at, end, SectionItems(s), AllItems(sections[1..]));
    }
  }

  /** A module: magic number, four version bytes, sections. */
  function EncodeModule(version: bytes, sections: seq<Section>): bytes {
    MAGIC + version + Flat(EncodeSections(sections))
  }

  lemma ModuleLayout(version: bytes, sections: seq<Section>)
    requires |version| == 4
    ensures var data := EncodeModule(version, sections);
      && Slice(data, 0, 4) == MAGIC
      && PiecesAt(data, 8, EncodeSections(sections)) && 8 + Len(EncodeSections(sections)) == |data|
  {
    var data, body := EncodeModule(version, sections), Flat(EncodeSections(sections));
    AtSlice(data, 8, body);
    FlatAt(data, 8, EncodeSections(sections));
  }

  predicate StartsAsModule(data: bytes) {
    |data| >= 4 && data[0] == 0 && data[1] == 'a' as int && data[2] == 's' as int && data[3] == 'm' as int
  }

  /** A file is read as a module exactly if it starts with a zero byte and the letters asm. */
  lemma ModuleStart(data: bytes, decode: bytes -> string)
    ensures if StartsAsModule(data) then Parse(data, decode).Ok? <==> ReadSections(data, 8).Ok?
            else Parse(data, decode) == Err(NotWasm)
  {
    var start := Slice(data, 0, 4);
    if |data| >= 4 {
      assert start == [data[0], data[1], data[2], data[3]];
    }
  }

  /** For every well-formed module the reader reports exactly the imports of
      its import sections, whatever the other sections hold. */
  lemma ParseInvertsEncode(version: bytes, sections: seq<Section>, decode: bytes -> string)
    requires |version| == 4 && forall i :: 0 <= i < |sections| ==> ValidSection(sections[i])
    ensures Parse(EncodeModule(version, sections), decode) == Ok(ReportOf(AllItems(sections), decode))
    ensures EncodeModule(version, sections)[..4] == [0, 'a' as int, 's' as int, 'm' as int]
  {
    ModuleLayout(version, sections);
    ReadsSections(EncodeModule(version, sections), 8, sections);
  }

  /** Each reported list is strictly increasing and holds exactly the field
      names imported from `env` with that kind. */
  lemma ReportExact(items: seq<Item>, decode: bytes -> string)
    ensures var r := ReportOf(items, decode);
      && Increasing(r.funcs) && Increasing(r.globals) && Increasing(r.memories) && Increasing(r.tables)
      && (forall name :: name in r.funcs <==> ImportedFromEnv(items, Func, name, decode))
      && (forall name :: name in r.globals <==> ImportedFromEnv(items, Global, name, decode))
      && (forall name :: name in r.memories <==> ImportedFromEnv(items, Memory, name, decode))
      && (forall name :: name in r.tables <==> ImportedFromEnv(items, Table, name, decode))
  {
    ListExact(items, Func, decode);
    ListExact(items, Global, decode);
    ListExact(items, Memory, decode);
    ListExact(items, Table, decode);
  }

  ghost predicate ImportedFromEnv(items: seq<Item>, kind: Kind, name: string, decode: bytes -> string) {
    exists i :: 0 <= i < |items| && items[i].kind == kind && decode(items[i].mod) == "env" && decode(items[i].field) == name
  }

  lemma ListExact(items: seq<Item>, kind: Kind, decode: bytes -> string)
    ensures Increasing(SortedSet(EnvNames(items, kind, decode)))
    ensures forall name :: name in SortedSet(EnvNames(items, kind, decode)) <==> ImportedFromEnv(items, kind, name, decode)
  {
    SortedSetIncreasing(EnvNames(items, kind, decode));
    EnvNamesExact(items, kind, decode);
  }

  lemma {:induction false} EnvNamesExact(items: seq<Item>, kind: Kind, decode: bytes -> string)
    ensures forall name :: name in EnvNames(items, kind, decode) <==> ImportedFromEnv(items, kind, name, decode)
  {
    if items != [] {
      var last := |items| - 1;
      var before := items[..last];
      EnvNamesExact(before, kind, decode);
      forall name
        ensures name in EnvNames(items, kind, decode) <==> ImportedFromEnv(items, kind, name, decode)
      {
        var item := items[last];
        var hit := item.kind == kind && decode(item.mod) == "env" && decode(item.field) == name;
        assert name in EnvNames(items, kind, decode) <==> name in EnvNames(before, kind, decode) || hit;
        if ImportedFromEnv(before, kind, name, decode) {
          var i :| 0 <= i < last && before[i].kind == kind && decode(before[i].mod) == "env" && decode(before[i].field) == name;
          assert items[i] == before[i];
        }
        if ImportedFromEnv(items, kind, name, decode) && !hit {
          var i :| 0 <= i < |items| && items[i].kind == kind && decode(items[i].mod) == "env" && decode(items[i].field) == name;
          assert before[i] == items[i];
        }
      }
    }
  }
}
