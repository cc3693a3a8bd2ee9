/**
 Whole runs of the dict backend.  Up to the first removal that fails to
 renumber, a run on any keys goes as a list does in which every operation finds
 its key as far as hash and comparison allow; and it answers like a finite map
 that remembers insertion order exactly when these sort the keys into classes.
 */
module DictRuns {
  import opened Common
  import opened Bits
  import opened DictBackend

  datatype Op = Set(key: Key, value: Value) | Lookup(key: Key) | Remove(key: Key) | Clear

  // ----------------------------------------------- runs as the list sees them

  /** The entries, and whether there is a slot table. */
  datatype Listing = Listing(entries: Entries, tabled: bool)

  const NEW := Listing([], false)

  /** A stored key that the table gives for `key`. */
  predicate Same(stored: Key, key: Key) {
    KeyEqual(stored, key) && stored.hash == key.hash
  }

  /** An operation on `key` may settle on `at`: through the table on any entry
      that is the same, without it on the first that is equal. */
  ghost predicate Where(entries: Entries, tabled: bool, key: Key, at: Option<nat>) {
    if key.hash.Some? && tabled then
      if at.Some? then at.value < |entries| && Same(entries[at.value].0, key)
      else forall e :: 0 <= e < |entries| ==> !Same(entries[e].0, key)
    else
      at == FirstEqual(entries, key)
  }

  function ValueAt(entries: Entries, at: Option<nat>): Option<Value>
    requires at.Some? ==> at.value < |entries|
  {
    if at.Some? then Some(entries[at.value].1) else None
  }

  /** Without the entry; the table goes with the last one. */
  function TakenAt(s: Listing, at: Option<nat>): Listing
    requires at.Some? ==> at.value < |s.entries|
  {
    if at.None? then s
    else
      var left := Without(s.entries, at.value);
      Listing(left, s.tabled && |left| > 0)
  }

  ghost predicate StepsAt(s: Listing, op: Op, at: Option<nat>, after: Listing, out: Option<Value>) {
    match op
    case Set(key, value) =>
      && Where(s.entries, true, key, at)
      && after == Listing(PutAt(s.entries, at, key, value), s.tabled || key.hash.Some?) && out == None
    case Lookup(key) =>
      Where(s.entries, s.tabled, key, at) && after == s && out == ValueAt(s.entries, at)
    case Remove(key) =>
      Where(s.entries, s.tabled, key, at) && after == TakenAt(s, at) && out == ValueAt(s.entries, at)
    case Clear =>
      after == NEW && out == None
  }

  ghost predicate StepsTo(s: Listing, op: Op, after: Listing, out: Option<Value>) {
    exists at :: StepsAt(s, op, at, after, out)
  }

  /** Starting empty, the operations may go through `states` with answers `outs`. */
  ghost predicate Traces(ops: seq<Op>, outs: seq<Option<Value>>, states: seq<Listing>) {
    && |outs| == |ops| && |states| == |ops| + 1 && states[0] == NEW
    && forall i :: 0 <= i < |ops| ==> StepsTo(states[i], ops[i], states[i + 1], outs[i])
  }

  lemma TraceMore(ops: seq<Op>, outs: seq<Option<Value>>, states: seq<Listing>, op: Op, after: Listing, out: Option<Value>)
    requires Traces(ops, outs, states) && StepsTo(states[|ops|], op, after, out)
    ensures Traces(ops + [op], outs + [out], states + [after])
  {
  }

  lemma TraceTaken(ops: seq<Op>, outs: seq<Option<Value>>, states: seq<Listing>, n: nat)
    requires Traces(ops, outs, states) && n <= |ops|
    ensures Traces(ops[..n], outs[..n], states[..n + 1])
  {
  }

  // ------------------------------------------------------- runs of a finite map

  /** Keys as a map sees them: numbered classes. */
  type Classing = Key -> nat

  /** One operation on a finite map, and what a caller sees of it. */
  function MapStep(cls: Classing, m: map<nat, Value>, op: Op): (map<nat, Value>, Option<Value>) {
    match op
    case Set(key, value) => (m[cls(key) := value], None)
    case Lookup(key) => (m, if cls(key) in m then Some(m[cls(key)]) else None)
    case Remove(key) => (m - {cls(key)}, if cls(key) in m then Some(m[cls(key)]) else None)
    case Clear => (map[], None)
  }

  function MapRun(cls: Classing, ops: seq<Op>): (map<nat, Value>, seq<Option<Value>>)
    decreases |ops|
  {
    if ops == [] then (map[], [])
    else
      var last := |ops| - 1;
      var (before, seen) := MapRun(cls, ops[..last]);
      var (after, out) := MapStep(cls, before, ops[last]);
      (after, seen + [out])
  }

  /** Classes in order of first insertion since they were last absent. */
  function OrderStep(cls: Classing, order: seq<nat>, op: Op): seq<nat> {
    match op
    case Set(key, _) => if cls(key) in order then order else order + [cls(key)]
    case Lookup(_) => order
    case Remove(key) => Dropped(order, cls(key))
    case Clear => []
  }

  function Dropped(order: seq<nat>, c: nat): seq<nat> {
    if order == [] then []
    else Dropped(order[..|order| - 1], c) + if order[|order| - 1] == c then [] else [order[|order| - 1]]
  }

  function OrderRun(cls: Classing, ops: seq<Op>): seq<nat>
    decreases |ops|
  {
    if ops == [] then [] else OrderStep(cls, OrderRun(cls, ops[..|ops| - 1]), ops[|ops| - 1])
  }

  lemma TakeOneMore(ops: seq<Op>, i: nat)
    requires i < |ops|
    ensures ops[..i] + [ops[i]] == ops[..i + 1]
  {
  }

  /** The map with these classes answers so. */
  predicate MapAnswers(cls: Classing, ops: seq<Op>, outs: seq<Option<Value>>) {
    outs == MapRun(cls, ops).1
  }

  lemma MapMore(cls: Classing, ops: seq<Op>, op: Op)
    ensures var (m, seen) := MapRun(cls, ops);
            MapRun(cls, ops + [op]) == (MapStep(cls, m, op).0, seen + [MapStep(cls, m, op).1])
    ensures OrderRun(cls, ops + [op]) == OrderStep(cls, OrderRun(cls, ops), op)
  {
    assert (ops + [op])[..|ops|] == ops;
  }

  lemma MapNone(cls: Classing)
    ensures MapRun(cls, []) == (map[], []) && OrderRun(cls, []) == []
  {
  }

  // ------------------------------------------------------------ lawful keys

  /** On these two keys the classes are what the backend can tell apart. */
  predicate Fits(cls: Classing, a: Key, b: Key) {
    && (cls(a) == cls(b) <==> Same(a, b))
    && (KeyEqual(a, b) ==> a.hash.Some? == b.hash.Some?)
  }

  ghost predicate Lawful(cls: Classing, keys: seq<Key>) {
    forall a, b :: a in keys && b in keys ==> Fits(cls, a, b)
  }

  /** Every key an operation names is one of `keys`. */
  ghost predicate Over(ops: seq<Op>, keys: seq<Key>) {
    forall i :: 0 <= i < |ops| ==> ops[i].Clear? || ops[i].key in keys
  }

  /** What the keys themselves must satisfy: being the same is an equivalence,
      and no hashable key equals an unhashable one. */
  ghost predicate Equivalence(keys: seq<Key>) {
    && (forall a, b :: a in keys && b in keys && KeyEqual(a, b) ==> a.hash.Some? == b.hash.Some?)
    && (forall a :: a in keys ==> Same(a, a))
    && (forall a, b :: a in keys && b in keys && Same(a, b) ==> Same(b, a))
    && (forall a, b, c :: a in keys && b in keys && c in keys && Same(a, b) && Same(b, c) ==> Same(a, c))
  }

  /** The first of `keys` that is the same as `key`. */
  function FirstSame(keys: seq<Key>, key: Key): (r: nat)
    ensures r <= |keys|
    ensures forall i :: 0 <= i < r ==> !Same(keys[i], key)
    ensures r < |keys| ==> Same(keys[r], key)
  {
    if keys == [] then 0
    else if Same(keys[0], key) then 0
    else 1 + FirstSame(keys[1..], key)
  }

  /** Keys can be sorted into classes exactly when being the same is an equivalence. */
  lemma ClassesExist(keys: seq<Key>)
    ensures (exists cls: Classing :: Lawful(cls, keys)) <==> Equivalence(keys)
  {
    if cls: Classing :| Lawful(cls, keys) {
      LawfulIsEquivalence(cls, keys);
    }
    if Equivalence(keys) {
      EquivalenceIsLawful(keys);
    }
  }

  lemma LawfulIsEquivalence(cls: Classing, keys: seq<Key>)
    requires Lawful(cls, keys)
    ensures Equivalence(keys)
  {
    forall a | a in keys
      ensures Same(a, a)
    {
      assert Fits(cls, a, a);
    }
    forall a, b | a in keys && b in keys
      ensures KeyEqual(a, b) ==> a.hash.Some? == b.hash.Some?
      ensures Same(a, b) ==> Same(b, a)
    {
      assert Fits(cls, a, b) && Fits(cls, b, a);
    }
    forall a, b, c | a in keys && b in keys && c in keys && Same(a, b) && Same(b, c)
      ensures Same(a, c)
    {
      assert Fits(cls, a, b) && Fits(cls, b, c) && Fits(cls, a, c);
    }
  }

  lemma EquivalenceIsLawful(keys: seq<Key>)
    requires Equivalence(keys)
    ensures Lawful(key => FirstSame(keys, key), keys)
  {
    var cls: Classing := key => FirstSame(keys, key);
    forall a, b | a in keys && b in keys
      ensures Fits(cls, a, b)
    {
      FirstSameIsClass(keys, a, b);
    }
  }

  lemma FirstSameIsClass(keys: seq<Key>, a: Key, b: Key)
    requires Equivalence(keys) && a in keys && b in keys
    ensures FirstSame(keys, a) == FirstSame(keys, b) <==> Same(a, b)
  {
    var i, j := FirstSame(keys, a), FirstSame(keys, b);
    assert i < |keys| && j < |keys| by {
      assert Same(a, a) && Same(b, b);
    }
    assert Same(keys[i], a) && Same(keys[j], b);
    if i == j {
      assert Same(a, keys[i]);
    }
    if Same(a, b) {
      assert Same(keys[i], b) && Same(keys[j], a) by {
        assert Same(b, a);
      }
    }
  }

  // ----------------------------------------------------- laws of the entry list

  function Classes(cls: Classing, entries: Entries): (r: seq<nat>)
    ensures |r| == |entries| && forall i :: 0 <= i < |r| ==> r[i] == cls(entries[i].0)
  {
    seq<nat>(|entries|, i requires 0 <= i < |entries| => cls(entries[i].0))
  }

  ghost predicate Distinct(order: seq<nat>) {
    forall i, j :: 0 <= i < j < |order| ==> order[i] != order[j]
  }

  function PlaceOf(order: seq<nat>, c: nat): (r: Option<nat>)
    ensures r.Some? ==> r.value < |order| && order[r.value] == c
    ensures r.None? ==> c !in order
  {
    if order == [] then None
    else if order[|order| - 1] == c then Some(|order| - 1)
    else PlaceOf(order[..|order| - 1], c)
  }

  /** The value the list has for a class. */
  function Held(cls: Classing, entries: Entries, c: nat): Option<Value> {
    ValueAt(entries, PlaceOf(Classes(cls, entries), c))
  }

  lemma PlaceUnique(order: seq<nat>, c: nat, e: nat)
    requires Distinct(order) && e < |order| && order[e] == c
    ensures PlaceOf(order, c) == Some(e)
  {
  }

  lemma PutLaw(cls: Classing, entries: Entries, key: Key, value: Value, c: nat)
    requires Distinct(Classes(cls, entries))
    ensures var after := PutAt(entries, PlaceOf(Classes(cls, entries), cls(key)), key, value);
      && Distinct(Classes(cls, after))
      && Held(cls, after, c) == if c == cls(key) then Some(value) else Held(cls, entries, c)
  {
    var order := Classes(cls, entries);
    var at := PlaceOf(order, cls(key));
    var after := PutAt(entries, at, key, value);
    if c == cls(key) {
      PlaceUnique(Classes(cls, after), c, if at.Some? then at.value else |entries|);
    } else if e :| 0 <= e < |entries| && order[e] == c {
      PlaceUnique(order, c, e);
      PlaceUnique(Classes(cls, after), c, e);
    }
  }

  lemma DeleteLaw(cls: Classing, entries: Entries, at: nat, c: nat)
    requires Distinct(Classes(cls, entries)) && at < |entries|
    ensures var after := Without(entries, at);
      && Distinct(Classes(cls, after))
      && Held(cls, after, c) == if c == cls(entries[at].0) then None else Held(cls, entries, c)
  {
    var order, after := Classes(cls, entries), Without(entries, at);
    if c != cls(entries[at].0) {
      if e :| 0 <= e < |entries| && order[e] == c {
        PlaceUnique(order, c, e);
        PlaceUnique(Classes(cls, after), c, if at < e then e - 1 else e);
      }
    }
  }

  /** The list is the map, in the given order. */
  ghost predicate Models(cls: Classing, entries: Entries, m: map<nat, Value>, order: seq<nat>) {
    && Classes(cls, entries) == order && Distinct(order)
    && forall c: nat :: Held(cls, entries, c) == if c in m then Some(m[c]) else None
  }

  lemma ModelsPut(cls: Classing, entries: Entries, m: map<nat, Value>, order: seq<nat>, key: Key, value: Value)
    requires Models(cls, entries, m, order)
    ensures Models(cls, PutAt(entries, PlaceOf(order, cls(key)), key, value), m[cls(key) := value],
                   OrderStep(cls, order, Set(key, value)))
  {
    var after := PutAt(entries, PlaceOf(order, cls(key)), key, value);
    PutLaw(cls, entries, key, value, cls(key));
    forall c: nat
      ensures Held(cls, after, c) == if c in m[cls(key) := value] then Some(m[cls(key) := value][c]) else None
    {
      PutLaw(cls, entries, key, value, c);
    }
    assert Classes(cls, after) == OrderStep(cls, order, Set(key, value));
  }

  lemma ModelsDelete(cls: Classing, entries: Entries, m: map<nat, Value>, order: seq<nat>, at: nat)
    requires Models(cls, entries, m, order) && at < |entries|
    ensures Models(cls, Without(entries, at), m - {order[at]}, Dropped(order, order[at]))
  {
    var after := Without(entries, at);
    DeleteLaw(cls, entries, at, order[at]);
    forall c: nat
      ensures Held(cls, after, c) == if c in m - {order[at]} then Some((m - {order[at]})[c]) else None
    {
      DeleteLaw(cls, entries, at, c);
    }
    DroppedOnce(order, at);
    assert Classes(cls, after) == Without(order, at);
  }

  lemma {:induction false} DroppedNone(order: seq<nat>, c: nat)
    requires c !in order
    ensures Dropped(order, c) == order
  {
    if order != [] {
      var init, last := order[..|order| - 1], order[|order| - 1];
      DroppedNone(init, c);
      assert order == init + [last];
    }
  }

  lemma {:induction false} DroppedOnce(order: seq<nat>, i: nat)
    requires i < |order| && forall j :: 0 <= j < |order| && j != i ==> order[j] != order[i]
    ensures Dropped(order, order[i]) == Without(order, i)
  {
    var last := |order| - 1;
    if i == last {
      DroppedNone(order[..last], order[i]);
    } else {
      DroppedOnce(order[..last], i);
    }
  }

  // ------------------------------------------------- lawful runs are map runs

  /** The list holds only keys of `keys`, and without a table none that is hashable. */
  ghost predicate Known(keys: seq<Key>, s: Listing) {
    && (forall e :: 0 <= e < |s.entries| ==> s.entries[e].0 in keys)
    && (!s.tabled ==> forall e :: 0 <= e < |s.entries| ==> s.entries[e].0.hash.None?)
  }

  /** With lawful keys an operation can settle on one entry only, that of its class. */
  lemma WhereIsPlace(cls: Classing, keys: seq<Key>, s: Listing, tabled: bool, key: Key, at: Option<nat>)
    requires Lawful(cls, keys) && key in keys && Known(keys, s) && Distinct(Classes(cls, s.entries))
    requires Where(s.entries, tabled, key, at) && (s.tabled ==> tabled)
    ensures at == PlaceOf(Classes(cls, s.entries), cls(key))
  {
    var order := Classes(cls, s.entries);
    forall e | 0 <= e < |order|
      ensures order[e] == cls(key) <==> Same(s.entries[e].0, key)
      ensures KeyEqual(s.entries[e].0, key) ==> s.entries[e].0.hash.Some? == key.hash.Some?
    {
      assert Fits(cls, s.entries[e].0, key);
    }
    if at.Some? {
      assert Same(s.entries[at.value].0, key);
      PlaceUnique(order, cls(key), at.value);
    }
  }

  lemma SetIsMap(cls: Classing, keys: seq<Key>, s: Listing, m: map<nat, Value>, order: seq<nat>,
                 key: Key, value: Value, at: Option<nat>, after: Listing)
    requires Lawful(cls, keys) && key in keys && Known(keys, s) && Models(cls, s.entries, m, order)
    requires StepsAt(s, Set(key, value), at, after, None)
    ensures Known(keys, after)
    ensures Models(cls, after.entries, m[cls(key) := value], OrderStep(cls, order, Set(key, value)))
  {
    WhereIsPlace(cls, keys, s, true, key, at);
    ModelsPut(cls, s.entries, m, order, key, value);
  }

  lemma FoundIsMap(cls: Classing, keys: seq<Key>, s: Listing, m: map<nat, Value>, order: seq<nat>, key: Key, at: Option<nat>)
    requires Lawful(cls, keys) && key in keys && Known(keys, s) && Models(cls, s.entries, m, order)
    requires Where(s.entries, s.tabled, key, at)
    ensures at == PlaceOf(order, cls(key))
    ensures ValueAt(s.entries, at) == if cls(key) in m then Some(m[cls(key)]) else None
  {
    WhereIsPlace(cls, keys, s, s.tabled, key, at);
    assert ValueAt(s.entries, at) == Held(cls, s.entries, cls(key));
  }

  lemma KnownTaken(keys: seq<Key>, s: Listing, at: Option<nat>)
    requires Known(keys, s) && (at.Some? ==> at.value < |s.entries|)
    ensures Known(keys, TakenAt(s, at))
  {
  }

  lemma ModelsTaken(cls: Classing, s: Listing, m: map<nat, Value>, order: seq<nat>, c: nat)
    requires Models(cls, s.entries, m, order)
    ensures Models(cls, TakenAt(s, PlaceOf(order, c)).entries, m - {c}, Dropped(order, c))
  {
    var at := PlaceOf(order, c);
    if at.Some? {
      ModelsDelete(cls, s.entries, m, order, at.value);
    } else {
      DroppedNone(order, c);
      assert Held(cls, s.entries, c) == None;
      assert m - {c} == m;
    }
  }

  lemma StepIsMap(cls: Classing, keys: seq<Key>, s: Listing, m: map<nat, Value>, order: seq<nat>,
                  op: Op, at: Option<nat>, after: Listing, out: Option<Value>)
    requires Lawful(cls, keys) && (op.Clear? || op.key in keys)
    requires Known(keys, s) && Models(cls, s.entries, m, order) && StepsAt(s, op, at, after, out)
    ensures Known(keys, after)
    ensures Models(cls, after.entries, MapStep(cls, m, op).0, OrderStep(cls, order, op))
    ensures out == MapStep(cls, m, op).1
  {
    match op
    case Set(key, value) =>
      SetIsMap(cls, keys, s, m, order, key, value, at, after);
    case Lookup(key) =>
      FoundIsMap(cls, keys, s, m, order, key, at);
    case Remove(key) =>
      FoundIsMap(cls, keys, s, m, order, key, at);
      ModelsTaken(cls, s, m, order, cls(key));
      KnownTaken(keys, s, at);
    case Clear =>
  }

  /** The answers and the list are those of a map with these classes. */
  ghost predicate RanAsMap(cls: Classing, entries: Entries, ops: seq<Op>, outs: seq<Option<Value>>) {
    MapAnswers(cls, ops, outs) && Models(cls, entries, MapRun(cls, ops).0, OrderRun(cls, ops))
  }

  lemma MoreIsMap(cls: Classing, keys: seq<Key>, ops: seq<Op>, outs: seq<Option<Value>>, s: Listing,
                  op: Op, after: Listing, out: Option<Value>)
    requires Lawful(cls, keys) && (op.Clear? || op.key in keys) && StepsTo(s, op, after, out)
    requires RanAsMap(cls, s.entries, ops, outs) && Known(keys, s)
    ensures RanAsMap(cls, after.entries, ops + [op], outs + [out]) && Known(keys, after)
  {
    var at :| StepsAt(s, op, at, after, out);
    StepIsMap(cls, keys, s, MapRun(cls, ops).0, OrderRun(cls, ops), op, at, after, out);
    MapMore(cls, ops, op);
  }

  lemma NoneIsMap(cls: Classing, keys: seq<Key>)
    ensures RanAsMap(cls, NEW.entries, [], []) && Known(keys, NEW)
  {
    MapNone(cls);
  }

  /** Every run over lawful keys answers like the map, and lists it in insertion order. */
  lemma {:induction false} TraceIsMap(cls: Classing, keys: seq<Key>, ops: seq<Op>, outs: seq<Option<Value>>, states: seq<Listing>)
    requires Lawful(cls, keys) && Over(ops, keys) && Traces(ops, outs, states)
    ensures RanAsMap(cls, states[|ops|].entries, ops, outs) && Known(keys, states[|ops|])
    decreases |ops|
  {
    if ops == [] {
      NoneIsMap(cls, keys);
    } else {
      var last := |ops| - 1;
      TraceTaken(ops, outs, states, last);
      TraceIsMap(cls, keys, ops[..last], outs[..last], states[..last + 1]);
      assert StepsTo(states[last], ops[last], states[last + 1], outs[last]);
      MoreIsMap(cls, keys, ops[..last], outs[..last], states[last], ops[last], states[last + 1], outs[last]);
      assert ops == ops[..last] + [ops[last]] && outs == outs[..last] + [outs[last]];
    }
  }

  // --------------------------------------- unlawful keys answer unlike the map

  lemma WhereExists(entries: Entries, tabled: bool, key: Key) returns (at: Option<nat>)
    ensures Where(entries, tabled, key, at)
  {
    if !(key.hash.Some? && tabled) {
      at := FirstEqual(entries, key);
    } else if e :| 0 <= e < |entries| && Same(entries[e].0, key) {
      at := Some(e);
    } else {
      at := None;
    }
  }

  lemma StepExists(s: Listing, op: Op) returns (after: Listing, out: Option<Value>)
    ensures StepsTo(s, op, after, out)
  {
    var at := None;
    match op {
      case Set(key, value) =>
        at := WhereExists(s.entries, true, key);
        after, out := Listing(PutAt(s.entries, at, key, value), s.tabled || key.hash.Some?), None;
      case Lookup(key) =>
        at := WhereExists(s.entries, s.tabled, key);
        after, out := s, ValueAt(s.entries, at);
      case Remove(key) =>
        at := WhereExists(s.entries, s.tabled, key);
        after, out := TakenAt(s, at), ValueAt(s.entries, at);
      case Clear =>
        after, out := NEW, None;
    }
    assert StepsAt(s, op, at, after, out);
  }

  /** Every sequence of operations has a run. */
  lemma {:induction false} TraceExists(ops: seq<Op>) returns (outs: seq<Option<Value>>, states: seq<Listing>)
    ensures Traces(ops, outs, states)
    decreases |ops|
  {
    if ops == [] {
      outs, states := [], [NEW];
    } else {
      var last := |ops| - 1;
      var before, through := TraceExists(ops[..last]);
      var after, out := StepExists(through[last], ops[last]);
      TraceMore(ops[..last], before, through, ops[last], after, out);
      outs, states := before + [out], through + [after];
      assert ops == ops[..last] + [ops[last]];
    }
  }

  /** A lookup of `b` right behind the insertion of `a` finds it. */
  predicate Meets(a: Key, b: Key) {
    if a.hash.Some? && b.hash.Some? then Same(a, b) else KeyEqual(a, b)
  }

  lemma FirstSet(a: Key, value: Value, after: Listing, out: Option<Value>)
    requires StepsTo(NEW, Set(a, value), after, out)
    ensures after == Listing([(a, value)], a.hash.Some?) && out == None
  {
  }

  lemma TwoSteps(a: Key, b: Key, outs: seq<Option<Value>>, states: seq<Listing>)
    requires Traces([Set(a, 1), Lookup(b)], outs, states)
    ensures outs == [None, if Meets(a, b) then Some(1) else None]
  {
    FirstSet(a, 1, states[1], outs[0]);
    assert StepsTo(states[1], Lookup(b), states[2], outs[1]);
    assert states[1].entries[0].0 == a;
  }

  lemma TwoStepsMap(cls: Classing, a: Key, b: Key)
    ensures MapRun(cls, [Set(a, 1), Lookup(b)]).1 == [None, if cls(a) == cls(b) then Some(1) else None]
  {
    MapNone(cls);
    MapMore(cls, [], Set(a, 1));
    assert [] + [Set(a, 1)] == [Set(a, 1)];
    MapMore(cls, [Set(a, 1)], Lookup(b));
    assert [Set(a, 1)] + [Lookup(b)] == [Set(a, 1), Lookup(b)];
  }

  lemma ThreeSteps(u: Key, h: Key, outs: seq<Option<Value>>, states: seq<Listing>)
    requires u.hash.None? && h.hash.Some? && KeyEqual(u, u)
    requires Traces([Set(u, 1), Set(h, 2), Lookup(u)], outs, states)
    ensures outs[2] == Some(1)
  {
    FirstSet(u, 1, states[1], outs[0]);
    assert StepsTo(states[1], Set(h, 2), states[2], outs[1]);
    assert states[2].entries == [(u, 1), (h, 2)];
    assert StepsTo(states[2], Lookup(u), states[3], outs[2]);
    assert states[2].entries[0].0 == u;
  }

  lemma ThreeStepsMap(cls: Classing, u: Key, h: Key)
    requires cls(u) == cls(h)
    ensures var outs := MapRun(cls, [Set(u, 1), Set(h, 2), Lookup(u)]).1;
            |outs| == 3 && outs[2] == Some(2)
  {
    MapNone(cls);
    MapMore(cls, [], Set(u, 1));
    assert [] + [Set(u, 1)] == [Set(u, 1)];
    MapMore(cls, [Set(u, 1)], Set(h, 2));
    assert [Set(u, 1)] + [Set(h, 2)] == [Set(u, 1), Set(h, 2)];
    MapMore(cls, [Set(u, 1), Set(h, 2)], Lookup(u));
    assert [Set(u, 1), Set(h, 2)] + [Lookup(u)] == [Set(u, 1), Set(h, 2), Lookup(u)];
  }

  /** Two keys that do not fit the classes have a short run, without a removal,
      that the map never answers so. */
  lemma Refuted(cls: Classing, a: Key, b: Key) returns (ops: seq<Op>)
    requires !Fits(cls, a, b)
    ensures Over(ops, [a, b]) && forall i :: 0 <= i < |ops| ==> !ops[i].Remove?
    ensures forall outs, states :: Traces(ops, outs, states) ==> !MapAnswers(cls, ops, outs)
  {
    if Meets(a, b) != (cls(a) == cls(b)) {
      ops := TwoRefuted(cls, a, b);
    } else {
      var u, h := if a.hash.None? then a else b, if a.hash.None? then b else a;
      if !KeyEqual(u, u) {
        ops := TwoRefuted(cls, u, u);
      } else {
        ops := [Set(u, 1), Set(h, 2), Lookup(u)];
        ThreeStepsMap(cls, u, h);
        forall outs, states | Traces(ops, outs, states)
          ensures !MapAnswers(cls, ops, outs)
        {
          ThreeSteps(u, h, outs, states);
        }
      }
    }
  }

  lemma TwoRefuted(cls: Classing, a: Key, b: Key) returns (ops: seq<Op>)
    requires Meets(a, b) != (cls(a) == cls(b))
    ensures ops == [Set(a, 1), Lookup(b)]
    ensures forall outs, states :: Traces(ops, outs, states) ==> !MapAnswers(cls, ops, outs)
  {
    ops := [Set(a, 1), Lookup(b)];
    TwoStepsMap(cls, a, b);
    forall outs, states | Traces(ops, outs, states)
      ensures !MapAnswers(cls, ops, outs)
    {
      TwoSteps(a, b, outs, states);
    }
  }

  /** Every run over these keys answers like the map with these classes. */
  ghost predicate AllAnswer(cls: Classing, keys: seq<Key>) {
    forall ops: seq<Op>, outs: seq<Option<Value>>, states: seq<Listing> ::
      Over(ops, keys) && Traces(ops, outs, states) ==> MapAnswers(cls, ops, outs)
  }

  /** All runs over some keys answer like the map on their classes exactly when
      the keys are lawful for these classes. */
  lemma AnswersAsMap(cls: Classing, keys: seq<Key>)
    ensures AllAnswer(cls, keys) <==> Lawful(cls, keys)
  {
    if Lawful(cls, keys) {
      forall ops, outs, states | Over(ops, keys) && Traces(ops, outs, states)
        ensures MapAnswers(cls, ops, outs)
      {
        TraceIsMap(cls, keys, ops, outs, states);
      }
    } else {
      UnlawfulAnswers(cls, keys);
    }
  }

  lemma UnlawfulAnswers(cls: Classing, keys: seq<Key>)
    requires !Lawful(cls, keys)
    ensures !AllAnswer(cls, keys)
  {
    var a, b :| a in keys && b in keys && !Fits(cls, a, b);
    var ops := Refuted(cls, a, b);
    var outs, states := TraceExists(ops);
    assert Over(ops, keys) && !MapAnswers(cls, ops, outs);
  }

  /** A run on two keys and a third that equals both. */
  function SplitOps(a: Key, b: Key, both: Key): seq<Op> {
    [Set(a, 1), Set(b, 2), Remove(a), Lookup(both), Set(a, 3), Remove(b), Lookup(both)]
  }

  lemma SplitSteps(a: Key, b: Key, both: Key, outs: seq<Option<Value>>, states: seq<Listing>)
    requires a.hash.Some? && Same(a, a) && Same(b, b) && Same(a, both) && Same(b, both) && !Same(a, b) && !Same(b, a)
    requires Traces(SplitOps(a, b, both), outs, states)
    ensures outs[3] == Some(2) && outs[6] == Some(3)
  {
    var ops := SplitOps(a, b, both);
    FirstSet(a, 1, states[1], outs[0]);
    assert StepsTo(states[1], ops[1], states[2], outs[1]) && StepsTo(states[2], ops[2], states[3], outs[2]);
    Replaced((a, 1), (b, 2), states[2], outs[1], states[3], outs[2]);
    assert StepsTo(states[3], ops[3], states[4], outs[3]);
    LookupOnly((b, 2), both, states[4], outs[3]);
    assert StepsTo(states[4], ops[4], states[5], outs[4]) && StepsTo(states[5], ops[5], states[6], outs[5]);
    Replaced((b, 2), (a, 3), states[5], outs[4], states[6], outs[5]);
    assert StepsTo(states[6], ops[6], states[7], outs[6]);
    LookupOnly((a, 3), both, states[7], outs[6]);
  }

  /** One entry set behind another, and the front one removed. */
  lemma Replaced(front: (Key, Value), back: (Key, Value), both: Listing, out: Option<Value>, after: Listing, last: Option<Value>)
    requires front.0.hash.Some? && back.0.hash.Some? && Same(front.0, front.0)
    requires !Same(back.0, front.0) && !Same(front.0, back.0)
    requires StepsTo(Listing([front], true), Set(back.0, back.1), both, out) && StepsTo(both, Remove(front.0), after, last)
    ensures after == Listing([back], true)
  {
    SetBehind(front, back.0, back.1, both, out);
    RemoveFront(front, back, after, last);
  }

  lemma SetBehind(front: (Key, Value), key: Key, value: Value, after: Listing, out: Option<Value>)
    requires key.hash.Some? && !Same(front.0, key) && StepsTo(Listing([front], true), Set(key, value), after, out)
    ensures after == Listing([front, (key, value)], true)
  {
    assert [front][0] == front;
  }

  lemma RemoveFront(front: (Key, Value), back: (Key, Value), after: Listing, out: Option<Value>)
    requires front.0.hash.Some? && Same(front.0, front.0) && !Same(back.0, front.0)
    requires StepsTo(Listing([front, back], true), Remove(front.0), after, out)
    ensures after == Listing([back], true)
  {
    assert [front, back][0] == front && [front, back][1] == back;
    assert Without([front, back], 0) == [back];
  }

  lemma LookupOnly(entry: (Key, Value), key: Key, after: Listing, out: Option<Value>)
    requires key.hash.Some? && Same(entry.0, key) && StepsTo(Listing([entry], true), Lookup(key), after, out)
    ensures after == Listing([entry], true) && out == Some(entry.1)
  {
    assert [entry][0] == entry;
  }

  lemma SplitMap(cls: Classing, a: Key, b: Key, both: Key)
    ensures var outs := MapRun(cls, SplitOps(a, b, both)).1;
            |outs| == 7 && !(outs[3] == Some(2) && outs[6] == Some(3))
  {
    var ops := SplitOps(a, b, both);
    MapNone(cls);
    MapTaken(cls, ops, 0);
    MapTaken(cls, ops, 1);
    MapTaken(cls, ops, 2);
    MapTaken(cls, ops, 3);
    MapTaken(cls, ops, 4);
    MapTaken(cls, ops, 5);
    MapTaken(cls, ops, 6);
    assert ops[..0] == [] && ops[..7] == ops;
  }

  lemma MapTaken(cls: Classing, ops: seq<Op>, i: nat)
    requires i < |ops|
    ensures var (m, seen) := MapRun(cls, ops[..i]);
            MapRun(cls, ops[..i + 1]) == (MapStep(cls, m, ops[i]).0, seen + [MapStep(cls, m, ops[i]).1])
  {
    MapMore(cls, ops[..i], ops[i]);
    TakeOneMore(ops, i);
  }

  /** If a key is the same as two keys that are not the same, a run on the
      three answers as no map does, whatever the classes. */
  lemma SplitRefuted(cls: Classing, a: Key, b: Key, both: Key, outs: seq<Option<Value>>, states: seq<Listing>)
    requires a.hash.Some? && Same(a, a) && Same(b, b) && Same(a, both) && Same(b, both) && !Same(a, b) && !Same(b, a)
    requires Traces(SplitOps(a, b, both), outs, states)
    ensures !MapAnswers(cls, SplitOps(a, b, both), outs)
  {
    SplitSteps(a, b, both, outs, states);
    SplitMap(cls, a, b, both);
  }

  lemma RoomToDouble(bits: nat, size: nat)
    requires TableSize(bits, size) && 16 * size <= Pow2(bits)
    ensures TableSize(bits, 2 * size)
  {
    var k: nat :| 3 <= k && k + 3 <= bits && size == Pow2(k);
    assert Pow2(k + 3) == 2 * Pow2(k + 2) && Pow2(k + 2) == 2 * Pow2(k + 1);
    assert k + 3 != bits;
    assert 2 * size == Pow2(k + 1);
  }

  // --------------------------------------------------- runs of the backend

  /** A backend after a run with at most `sets` insertions. */
  ghost predicate RunState(d: Backend, sets: nat)
    reads d
  {
    d.Valid() && Plain(d.entries, d.entryHashes) && d.filled <= sets && |d.slots| <= 8 + 3 * sets
  }

  ghost function ListingOf(d: Backend): Listing
    reads d
  {
    Listing(d.entries, d.slots != [])
  }

  /** The operation is not a removal that leaves stale slots behind. */
  predicate Renumbers(bits: nat, entries: Entries, hashes: Hashes, slots: seq<Slot>, filled: nat, op: Op)
    requires |entries| == |hashes|
  {
    op.Remove? ==>
      var at := IndexOf(bits, entries, slots, slots != [], op.key);
      at.Some? ==> RemovalRenumbers(hashes, slots, filled, at.value)
  }

  /** Removing a hashable key always renumbers. */
  lemma HashableRenumbers(bits: nat, entries: Entries, hashes: Hashes, entrySlots: seq<nat>, slots: seq<Slot>,
                          used: nat, filled: nat, key: Key)
    requires State(bits, entries, hashes, entrySlots, slots, used, filled) && key.hash.Some?
    ensures Renumbers(bits, entries, hashes, slots, filled, Remove(key))
  {
    LocatedIsMeant(bits, entries, hashes, entrySlots, slots, key, key.hash.value);
  }

  lemma MeantIsWhere(entries: Entries, hashes: Hashes, tabled: bool, key: Key, at: Option<nat>)
    requires Plain(entries, hashes)
    requires if key.hash.Some? && tabled then Meant(entries, hashes, key, key.hash.value, at)
             else at == FirstEqual(entries, key)
    ensures Where(entries, tabled, key, at)
  {
    if key.hash.Some? && tabled && at.None? {
      forall e | 0 <= e < |entries|
        ensures !Same(entries[e].0, key)
      {
        assert !Matches(entries, hashes, e, key, key.hash.value);
      }
    }
  }

  method StepSet(d: Backend, key: Key, value: Value, ghost sets: nat)
    requires RunState(d, sets) && 16 * (8 + 3 * sets) <= Pow2(d.bits)
    modifies d
    ensures RunState(d, sets + 1) && StepsTo(old(ListingOf(d)), Set(key, value), ListingOf(d), None)
  {
    if d.slots != [] {
      RoomToDouble(d.bits, |d.slots|);
    }
    ghost var at := IndexOf(d.bits, d.entries, d.slots, true, key);
    d.Insert(key, value);
    MeantIsWhere(old(d.entries), old(d.entryHashes), true, key, at);
    assert StepsAt(old(ListingOf(d)), Set(key, value), at, ListingOf(d), None);
  }

  method StepLookup(d: Backend, key: Key) returns (out: Option<Value>)
    requires d.Valid() && Plain(d.entries, d.entryHashes)
    ensures StepsTo(ListingOf(d), Lookup(key), ListingOf(d), out)
  {
    ghost var at := IndexOf(d.bits, d.entries, d.slots, d.slots != [], key);
    out := d.Find(key);
    MeantIsWhere(d.entries, d.entryHashes, d.slots != [], key, at);
    assert StepsAt(ListingOf(d), Lookup(key), at, ListingOf(d), out);
  }

  lemma RemoveSteps(entries: Entries, hashes: Hashes, tabled: bool, key: Key, at: Option<nat>)
    requires Plain(entries, hashes)
    requires if key.hash.Some? && tabled then Meant(entries, hashes, key, key.hash.value, at)
             else at == FirstEqual(entries, key)
    ensures at.Some? ==> at.value < |entries|
    ensures var s := Listing(entries, tabled); StepsTo(s, Remove(key), TakenAt(s, at), ValueAt(entries, at))
  {
    MeantIsWhere(entries, hashes, tabled, key, at);
    var s := Listing(entries, tabled);
    assert StepsAt(s, Remove(key), at, TakenAt(s, at), ValueAt(entries, at));
  }

  method StepRemove(d: Backend, key: Key, ghost sets: nat) returns (out: Option<Value>)
    requires RunState(d, sets) && Renumbers(d.bits, d.entries, d.entryHashes, d.slots, d.filled, Remove(key))
    modifies d
    ensures RunState(d, sets) && StepsTo(old(ListingOf(d)), Remove(key), ListingOf(d), out)
  {
    ghost var at := IndexOf(d.bits, d.entries, d.slots, d.slots != [], key);
    var removed := d.RemoveKey(key);
    out := if removed.Some? then Some(removed.value.1) else None;
    RemoveSteps(old(d.entries), old(d.entryHashes), old(d.slots) != [], key, at);
  }

  method Step(d: Backend, op: Op, ghost sets: nat) returns (out: Option<Value>)
    requires RunState(d, sets) && Renumbers(d.bits, d.entries, d.entryHashes, d.slots, d.filled, op)
    requires 16 * (8 + 3 * sets) <= Pow2(d.bits)
    modifies d
    ensures RunState(d, sets + 1) && StepsTo(old(ListingOf(d)), op, ListingOf(d), out)
  {
    match op {
      case Set(key, value) =>
        StepSet(d, key, value, sets);
        out := None;
      case Lookup(key) =>
        out := StepLookup(d, key);
      case Remove(key) =>
        out := StepRemove(d, key, sets);
      case Clear =>
        d.Clear();
        out := None;
        assert StepsAt(old(ListingOf(d)), op, None, ListingOf(d), out);
    }
  }

  /** The backend after the operations `ops`: its table is in order, and it has
      answered and stands as the list does. */
  ghost predicate RanAs(d: Backend, ops: seq<Op>, outs: seq<Option<Value>>, states: seq<Listing>)
    reads d
  {
    RunState(d, |ops|) && Traces(ops, outs, states) && ListingOf(d) == states[|ops|]
  }

  method Start(bits: nat) returns (d: Backend)
    requires bits == 32 || bits == 64
    ensures fresh(d) && d.bits == bits && RanAs(d, [], [], [NEW])
  {
    d := new Backend(bits);
  }

  /** One more operation. */
  method Advance(d: Backend, ghost ops: seq<Op>, op: Op, outs: seq<Option<Value>>, ghost states: seq<Listing>)
      returns (more: seq<Option<Value>>)
    requires RanAs(d, ops, outs, states) && Renumbers(d.bits, d.entries, d.entryHashes, d.slots, d.filled, op)
    requires 16 * (8 + 3 * |ops|) <= Pow2(d.bits)
    modifies d
    ensures RanAs(d, ops + [op], more, states + [ListingOf(d)])
  {
    var out := Step(d, op, |ops|);
    TraceMore(ops, outs, states, op, ListingOf(d), out);
    more := outs + [out];
  }

  lemma LawfulRuns(ops: seq<Op>, done: nat, outs: seq<Option<Value>>, states: seq<Listing>)
    requires done <= |ops| && Traces(ops[..done], outs, states)
    ensures forall cls, keys :: Lawful(cls, keys) && Over(ops, keys) ==>
              RanAsMap(cls, states[done].entries, ops[..done], outs)
  {
    forall cls, keys | Lawful(cls, keys) && Over(ops, keys)
      ensures RanAsMap(cls, states[done].entries, ops[..done], outs)
    {
      TraceIsMap(cls, keys, ops[..done], outs, states);
    }
  }

  /** Every run on any keys goes as the list does, up to the first removal that
      does not renumber; only the removal of an unhashable key can be one.  On
      lawful keys it answers like the map, and lists the keys in insertion order. */
  method Run(bits: nat, ops: seq<Op>) returns (d: Backend, outs: seq<Option<Value>>, done: nat, ghost states: seq<Listing>)
    requires bits == 32 || bits == 64
    requires 16 * (8 + 3 * |ops|) <= Pow2(bits)  // the table stays within the address space
    ensures fresh(d) && done <= |ops| && RanAs(d, ops[..done], outs, states)
    ensures done < |ops| ==> !Renumbers(d.bits, d.entries, d.entryHashes, d.slots, d.filled, ops[done])
    ensures done < |ops| ==> ops[done].Remove? && ops[done].key.hash.None?
    ensures forall cls, keys :: Lawful(cls, keys) && Over(ops, keys) ==> RanAsMap(cls, d.entries, ops[..done], outs)
  {
    d := Start(bits);
    outs, done, states := [], 0, [NEW];
    assert ops[..0] == [];
    while done < |ops| && Renumbers(d.bits, d.entries, d.entryHashes, d.slots, d.filled, ops[done])
      invariant fresh(d) && d.bits == bits && done <= |ops| && RanAs(d, ops[..done], outs, states)
    {
      TakeOneMore(ops, done);
      outs := Advance(d, ops[..done], ops[done], outs, states);
      done, states := done + 1, states + [ListingOf(d)];
    }
    if done < |ops| && ops[done].key.hash.Some? {
      HashableRenumbers(d.bits, d.entries, d.entryHashes, d.entrySlots, d.slots, d.used, d.filled, ops[done].key);
    }
    LawfulRuns(ops, done, outs, states);
  }

  /** Such a run of the backend. */
  method SplitRun(bits: nat, a: Key, b: Key, both: Key) returns (outs: seq<Option<Value>>)
    requires bits == 32 || bits == 64
    requires a.hash.Some? && Same(a, a) && Same(b, b) && Same(a, both) && Same(b, both) && !Same(a, b) && !Same(b, a)
    ensures |outs| == 7 && outs[3] == Some(2) && outs[6] == Some(3)
    ensures forall cls :: !MapAnswers(cls, SplitOps(a, b, both), outs)
  {
    var ops := SplitOps(a, b, both);
    assert 16 * (8 + 3 * 7) <= Pow2(bits) by {
      assert Pow2(3) == 8 && Pow2(6) == 8 * Pow2(3) && Pow2(9) == 8 * Pow2(6);
      Pow2Monotone(9, bits);
    }
    var d, done;
    ghost var states;
    d, outs, done, states := Run(bits, ops);
    assert ops[..done] == ops;
    SplitSteps(a, b, both, outs, states);
    forall cls
      ensures !MapAnswers(cls, ops, outs)
    {
      SplitRefuted(cls, a, b, both, outs, states);
    }
  }

  method OneOfEach(unhashable: Key, hashable: Key) returns (d: Backend)
    requires unhashable.hash.None? && hashable.hash.Some?
    ensures fresh(d) && d.Valid() && Plain(d.entries, d.entryHashes) && d.entries == [(unhashable, 0), (hashable, 1)]
    ensures |d.slots| <= 8 && d.filled <= 1
  {
    d := new Backend(64);
    d.Insert(unhashable, 0);
    assert d.entries == [(unhashable, 0)];
    d.Insert(hashable, 1);
  }

  /** The one slot of the second of two entries, met by a lookup after the first is gone. */
  lemma MeetsStaleSlot(bits: nat, hashes: Hashes, entrySlots: seq<nat>, slots: seq<Slot>, left: Entries, key: Key, hash: u64)
    requires |hashes| == |entrySlots| == 2 && hashes[0].None? && hashes[1] == Some(hash) && |left| == 1
    requires IndexOk(bits, hashes, entrySlots, slots, 2)
    ensures slots != [] && Occupied(hash, 1) in slots
    ensures WalkFrom(bits, left, slots, key, hash, 0) == OutOfRange
  {
    assert slots[entrySlots[1]] == Occupied(hash, 1);
    var stop: nat :| MetAt(bits, slots, hash, entrySlots[1], stop);
    WalkLeaves(bits, left, slots, key, hash, 0, stop);
  }

  /** With an unhashable key in front of a hashable one, removing the first
      leaves a slot that names entry 1 of a one-entry list, and the next lookup
      of the hashable key meets it. */
  method UnhashableRemovalBreaksIndex(unhashable: Key, hashable: Key) returns (d: Backend)
    requires unhashable.hash.None? && hashable.hash.Some?
    ensures d.entries == [(hashable, 1)] && d.slots != []
    ensures Occupied(hashable.hash.value, 1) in d.slots
    ensures WalkFrom(d.bits, d.entries, d.slots, hashable, hashable.hash.value, 0) == OutOfRange
  {
    d := OneOfEach(unhashable, hashable);
    DropFirst(d, unhashable, hashable);
  }

  method DropFirst(d: Backend, unhashable: Key, hashable: Key)
    requires unhashable.hash.None? && hashable.hash.Some?
    requires d.Valid() && Plain(d.entries, d.entryHashes) && d.entries == [(unhashable, 0), (hashable, 1)]
    requires |d.slots| <= 8 && d.filled <= 1
    modifies d
    ensures d.entries == [(hashable, 1)] && d.slots != []
    ensures Occupied(hashable.hash.value, 1) in d.slots
    ensures WalkFrom(d.bits, d.entries, d.slots, hashable, hashable.hash.value, 0) == OutOfRange
  {
    var left := [(hashable, 1)];
    MeetsStaleSlot(d.bits, d.entryHashes, d.entrySlots, d.slots, left, hashable, hashable.hash.value);
    ghost var met := d.slots;
    var removed := d.Remove(0);
    assert d.slots == met && d.entries == left;
  }
}
