/** Splitting benchmark entries into batches and adding the summaries up again
    (`scripts/dispatch_cpython_compat_benchmark.py`, `scripts/run_cpython_compat_benchmark.py`). */
module Batches {
  import opened Common

  // ------------------------------------------------------------- partition

  /** `max(1, ceil(n / batch_count))`, or the batch size asked for. */
  function ChunkSize(n: nat, entriesPerBatch: int, batchCount: int): (r: nat)
    ensures r >= 1
  {
    var size := if batchCount > 0 then Ceil(n, batchCount) else entriesPerBatch;
    if size < 1 then 1 else size
  }

  function Ceil(n: nat, d: nat): (r: nat)
    requires d > 0
    ensures (r - 1) * d < n || r == 0
    ensures n <= r * d
  {
    CeilBounds(n, d);
    (n + d - 1) / d
  }

  lemma CeilBounds(n: nat, d: nat)
    requires d > 0
    ensures var r := (n + d - 1) / d;
            n <= r * d && ((r - 1) * d < n || r == 0)
  {
    var r := (n + d - 1) / d;
    assert n + d - 1 == r * d + (n + d - 1) % d;
    assert (r - 1) * d == r * d - d;
  }

  function Chunks<T>(entries: seq<T>, size: nat): seq<seq<T>>
    requires size > 0
    decreases |entries|
  {
    if entries == [] then []
    else if |entries| <= size then [entries]
    else [entries[..size]] + Chunks(entries[size..], size)
  }

  function PartitionEntries<T>(entries: seq<T>, entriesPerBatch: int, batchCount: int): Option<seq<seq<T>>> {
    if entries == [] then None else Some(Chunks(entries, ChunkSize(|entries|, entriesPerBatch, batchCount)))
  }

  function Flat<T>(parts: seq<seq<T>>): seq<T> {
    if parts == [] then [] else parts[0] + Flat(parts[1..])
  }

  /** Batches in order, none empty, all full but the last, with as many as are needed. */
  ghost predicate Partition<T>(entries: seq<T>, parts: seq<seq<T>>, size: nat) {
    && Flat(parts) == entries
    && (forall i :: 0 <= i < |parts| ==> 0 < |parts[i]| <= size)
    && (forall i :: 0 <= i < |parts| - 1 ==> |parts[i]| == size)
    && |entries| <= |parts| * size && (parts != [] ==> (|parts| - 1) * size < |entries|)
  }

  lemma {:induction false} ChunksPartition<T>(entries: seq<T>, size: nat)
    requires size > 0
    ensures Partition(entries, Chunks(entries, size), size)
    decreases |entries|
  {
    var parts := Chunks(entries, size);
    if entries == [] {
    } else if |entries| <= size {
      assert parts[1..] == [] && Flat(parts) == entries + [];
    } else {
      var rest := Chunks(entries[size..], size);
      ChunksPartition(entries[size..], size);
      assert parts[1..] == rest && Flat(parts) == entries[..size] + entries[size..];
      assert forall i :: 1 <= i < |parts| ==> parts[i] == rest[i - 1];
      OneMore(|rest|, size);
    }
  }

  lemma OneMore(n: nat, size: nat)
    ensures (n + 1) * size == n * size + size && n * size == (n - 1) * size + size
  {
  }

  /** The partition concatenates back to the entries; with a batch count there
      are at most that many batches, and exactly that many iff all but one full
      batch leave something over. */
  lemma PartitionCorrect<T>(entries: seq<T>, entriesPerBatch: int, batchCount: int)
    ensures entries == [] <==> PartitionEntries(entries, entriesPerBatch, batchCount).None?
    ensures entries != [] ==>
              var size := ChunkSize(|entries|, entriesPerBatch, batchCount);
              var parts := PartitionEntries(entries, entriesPerBatch, batchCount).value;
              Partition(entries, parts, size)
              && (batchCount <= 0 ==> forall i :: 0 <= i < |parts| - 1 ==>
                    |parts[i]| == if entriesPerBatch > 1 then entriesPerBatch else 1)
              && (batchCount > 0 ==> |parts| <= batchCount && (|parts| == batchCount <==> (batchCount - 1) * size < |entries|))
  {
    if entries != [] {
      var size := ChunkSize(|entries|, entriesPerBatch, batchCount);
      ChunksPartition(entries, size);
      if batchCount > 0 {
        var parts := Chunks(entries, size);
        CountBounded(|parts|, batchCount, size, |entries|);
      }
    }
  }

  lemma CountBounded(parts: nat, batches: nat, size: nat, n: nat)
    requires 0 < batches && 0 < parts && 0 < size && (parts - 1) * size < n <= parts * size && n <= size * batches
    ensures parts <= batches && (parts == batches <==> (batches - 1) * size < n)
  {
    if parts > batches {
      Scale(batches, parts - 1, size);
    }
    if parts < batches {
      Scale(parts, batches - 1, size);
    }
  }

  lemma Scale(a: nat, b: nat, size: nat)
    requires a <= b
    ensures a * size <= b * size
  {
  }

  /** Five entries in four batches: two to a batch, so only three batches. */
  lemma FewerBatchesThanAsked()
    ensures var parts := PartitionEntries([1, 2, 3, 4, 5], 25, 4);
            parts.Some? && |parts.value| == 3
  {
    var entries := [1, 2, 3, 4, 5];
    PartitionCorrect(entries, 25, 4);
    var parts := PartitionEntries(entries, 25, 4).value;
    assert ChunkSize(5, 25, 4) == 2;
    assert |parts| * 2 >= 5 && (|parts| - 1) * 2 < 5;
  }

  // --------------------------------------------------------------- counters

  /** A Python counter. */
  type Counter = map<string, nat>

  function At(c: Counter, key: string): nat {
    if key in c then c[key] else 0
  }

  /** `Counter.update`. */
  function Plus(a: Counter, b: Counter): Counter {
    map k | k in a.Keys + b.Keys :: At(a, k) + At(b, k)
  }

  lemma PlusAt(a: Counter, b: Counter, key: string)
    ensures At(Plus(a, b), key) == At(a, key) + At(b, key)
    ensures key in Plus(a, b) <==> key in a || key in b
  {
  }

  /** Counters that have the same keys and counts are the same. */
  lemma SameCounter(a: Counter, b: Counter)
    requires forall key :: (key in a <==> key in b) && At(a, key) == At(b, key)
    ensures a == b
  {
    assert a.Keys == b.Keys;
    forall key | key in a
      ensures a[key] == b[key]
    {
      assert At(a, key) == At(b, key);
    }
  }

  lemma PlusAssociative(a: Counter, b: Counter, c: Counter)
    ensures Plus(Plus(a, b), c) == Plus(a, Plus(b, c))
  {
    var l, r := Plus(Plus(a, b), c), Plus(a, Plus(b, c));
    forall key
      ensures (key in l <==> key in r) && At(l, key) == At(r, key)
    {
      PlusAt(a, b, key);
      PlusAt(Plus(a, b), c, key);
      PlusAt(b, c, key);
      PlusAt(a, Plus(b, c), key);
    }
    SameCounter(l, r);
  }

  lemma PlusNothing(a: Counter)
    ensures Plus(a, map[]) == a && Plus(map[], a) == a
  {
  }

  // -------------------------------------------------------------- summaries

  /** What the inventory and the run of one module say. */
  datatype Inventory = Inventory(status: string, caseCount: nat)

  datatype RunRow = RunRow(status: string, cases: Counter, subtests: Counter, fixtures: Counter)

  datatype Totals = Totals(discoverable: nat, hostSkips: nat, modules: Counter, cases: Counter, subtests: Counter,
                           fixtures: Counter)

  const Nothing := Totals(0, 0, map[], map[], map[], map[])

  function Add(a: Totals, b: Totals): Totals {
    Totals(a.discoverable + b.discoverable, a.hostSkips + b.hostSkips, Plus(a.modules, b.modules), Plus(a.cases, b.cases),
           Plus(a.subtests, b.subtests), Plus(a.fixtures, b.fixtures))
  }

  lemma AddAssociative(a: Totals, b: Totals, c: Totals)
    ensures Add(Add(a, b), c) == Add(a, Add(b, c))
  {
    var l, r := Add(Add(a, b), c), Add(a, Add(b, c));
    assert l.modules == r.modules by {
      PlusAssociative(a.modules, b.modules, c.modules);
    }
    assert l.cases == r.cases by {
      PlusAssociative(a.cases, b.cases, c.cases);
    }
    assert l.subtests == r.subtests by {
      PlusAssociative(a.subtests, b.subtests, c.subtests);
    }
    assert l.fixtures == r.fixtures by {
      PlusAssociative(a.fixtures, b.fixtures, c.fixtures);
    }
    SameTotals(l, r);
  }

  lemma SameTotals(l: Totals, r: Totals)
    requires l.discoverable == r.discoverable && l.hostSkips == r.hostSkips && l.modules == r.modules
    requires l.cases == r.cases && l.subtests == r.subtests && l.fixtures == r.fixtures
    ensures l == r
  {
  }

  lemma AddNothing(a: Totals)
    ensures Add(a, Nothing) == a && Add(Nothing, a) == a
  {
    PlusNothing(a.modules);
    PlusNothing(a.cases);
    PlusNothing(a.subtests);
    PlusNothing(a.fixtures);
  }

  /** The contribution of one module: its cases if its inventory is good, one
      host skip if it is skipped, and its run if there is one. */
  function Share(inventory: Inventory, run: Option<RunRow>): Totals {
    var found := if inventory.status == "ok" then inventory.caseCount else 0;
    var skipped := if inventory.status == "host_skip" then 1 else 0;
    match run
    case None => Totals(found, skipped, map[], map[], map[], map[])
    case Some(row) => Totals(found, skipped, map[row.status := 1], row.cases, row.subtests, row.fixtures)
  }

  /** Values put together from the left. */
  function Fold<T>(op: (T, T) -> T, unit: T, xs: seq<T>): T {
    if xs == [] then unit else op(Fold(op, unit, xs[..|xs| - 1]), xs[|xs| - 1])
  }

  ghost predicate Monoid<T(!new)>(op: (T, T) -> T, unit: T) {
    && (forall a, b, c :: op(op(a, b), c) == op(a, op(b, c)))
    && (forall a :: op(a, unit) == a)
    && (forall a :: op(unit, a) == a)
  }

  lemma {:induction false} FoldAppend<T(!new)>(op: (T, T) -> T, unit: T, a: seq<T>, b: seq<T>)
    requires Monoid(op, unit)
    ensures Fold(op, unit, a + b) == op(Fold(op, unit, a), Fold(op, unit, b))
  {
    if b == [] {
      assert a + b == a;
    } else {
      assert (a + b)[..|a + b| - 1] == a + b[..|b| - 1];
      FoldAppend(op, unit, a, b[..|b| - 1]);
    }
  }

  function Folds<T>(op: (T, T) -> T, unit: T, lists: seq<seq<T>>): (r: seq<T>)
    ensures |r| == |lists| && forall i :: 0 <= i < |lists| ==> r[i] == Fold(op, unit, lists[i])
  {
    seq(|lists|, i requires 0 <= i < |lists| => Fold(op, unit, lists[i]))
  }

  /** Adding list by list is adding everything. */
  lemma {:induction false} FoldOfFolds<T(!new)>(op: (T, T) -> T, unit: T, lists: seq<seq<T>>)
    requires Monoid(op, unit)
    ensures Fold(op, unit, Folds(op, unit, lists)) == Fold(op, unit, Flat(lists))
  {
    if lists != [] {
      var first := Fold(op, unit, lists[0]);
      FoldOfFolds(op, unit, lists[1..]);
      assert Folds(op, unit, lists) == [first] + Folds(op, unit, lists[1..]);
      FoldAppend(op, unit, [first], Folds(op, unit, lists[1..]));
      assert [first][..0] == [];
      FoldAppend(op, unit, lists[0], Flat(lists[1..]));
    }
  }

  lemma AddMonoid()
    ensures Monoid(Add, Nothing)
  {
    forall a, b, c
      ensures Add(Add(a, b), c) == Add(a, Add(b, c))
    {
      AddAssociative(a, b, c);
    }
    forall a
      ensures Add(a, Nothing) == a && Add(Nothing, a) == a
    {
      AddNothing(a);
    }
  }

  function Sum(shares: seq<Totals>): Totals {
    Fold(Add, Nothing, shares)
  }

  function RunOf(runs: map<string, RunRow>, name: string): Option<RunRow> {
    if name in runs then Some(runs[name]) else None
  }

  /** What each module contributes, by name. */
  function ShareOf(inventory: map<string, Inventory>, runs: map<string, RunRow>): string -> Totals {
    name => if name in inventory then Share(inventory[name], RunOf(runs, name)) else Nothing
  }

  function Shares(entries: seq<string>, share: string -> Totals): (r: seq<Totals>)
    ensures |r| == |entries| && forall i :: 0 <= i < |entries| ==> r[i] == share(entries[i])
  {
    seq(|entries|, i requires 0 <= i < |entries| => share(entries[i]))
  }

  lemma PlusOne(a: Counter, key: string)
    ensures a[key := At(a, key) + 1] == Plus(a, map[key := 1])
  {
  }

  /** A weight added up over the entries. */
  function Tally(entries: seq<string>, weight: string -> nat): nat {
    if entries == [] then 0 else Tally(entries[..|entries| - 1], weight) + weight(entries[|entries| - 1])
  }

  lemma {:induction false} TallySame(entries: seq<string>, v: string -> nat, w: string -> nat)
    requires forall i :: 0 <= i < |entries| ==> v(entries[i]) == w(entries[i])
    ensures Tally(entries, v) == Tally(entries, w)
  {
    if entries != [] {
      TallySame(entries[..|entries| - 1], v, w);
    }
  }

  /** A figure that adds up is the tally of what the modules contribute. */
  lemma {:induction false} FigureTallied(entries: seq<string>, share: string -> Totals, figure: Totals -> nat)
    requires figure(Nothing) == 0 && forall a, b :: figure(Add(a, b)) == figure(a) + figure(b)
    ensures figure(Sum(Shares(entries, share))) == Tally(entries, name => figure(share(name)))
  {
    if entries != [] {
      var n := |entries| - 1;
      FigureTallied(entries[..n], share, figure);
      var shares := Shares(entries, share);
      SumStep(shares, n);
      assert shares[..n] == Shares(entries[..n], share) && shares[..n + 1] == shares;
      TallySame(entries[..n], name => figure(share(name)), name => figure(share(name)));
    }
  }

  /** A figure is the tally of a weight that is the figure of each module's contribution. */
  lemma FigureIs(entries: seq<string>, share: string -> Totals, figure: Totals -> nat, weight: string -> nat)
    requires figure(Nothing) == 0 && forall a, b :: figure(Add(a, b)) == figure(a) + figure(b)
    requires forall i :: 0 <= i < |entries| ==> figure(share(entries[i])) == weight(entries[i])
    ensures figure(Sum(Shares(entries, share))) == Tally(entries, weight)
  {
    FigureTallied(entries, share, figure);
    TallySame(entries, name => figure(share(name)), weight);
  }

  function GoodCases(inventory: map<string, Inventory>): string -> nat {
    name => if name in inventory && inventory[name].status == "ok" then inventory[name].caseCount else 0
  }

  function HostSkips(inventory: map<string, Inventory>): string -> nat {
    name => if name in inventory && inventory[name].status == "host_skip" then 1 else 0
  }

  function Ended(runs: map<string, RunRow>, status: string): string -> nat {
    name => if name in runs && runs[name].status == status then 1 else 0
  }

  /** What a counter of the runs has under a key. */
  function Counted(runs: map<string, RunRow>, counter: RunRow -> Counter, key: string): string -> nat {
    name => if name in runs then At(counter(runs[name]), key) else 0
  }

  lemma GoodCasesTallied(entries: seq<string>, inventory: map<string, Inventory>, runs: map<string, RunRow>)
    requires forall i :: 0 <= i < |entries| ==> entries[i] in inventory
    ensures Sum(Shares(entries, ShareOf(inventory, runs))).discoverable == Tally(entries, GoodCases(inventory))
  {
    FigureIs(entries, ShareOf(inventory, runs), (t: Totals) => t.discoverable, GoodCases(inventory));
  }

  lemma HostSkipsTallied(entries: seq<string>, inventory: map<string, Inventory>, runs: map<string, RunRow>)
    requires forall i :: 0 <= i < |entries| ==> entries[i] in inventory
    ensures Sum(Shares(entries, ShareOf(inventory, runs))).hostSkips == Tally(entries, HostSkips(inventory))
  {
    FigureIs(entries, ShareOf(inventory, runs), (t: Totals) => t.hostSkips, HostSkips(inventory));
  }

  lemma ModulesTallied(entries: seq<string>, inventory: map<string, Inventory>, runs: map<string, RunRow>, status: string)
    requires forall i :: 0 <= i < |entries| ==> entries[i] in inventory
    ensures At(Sum(Shares(entries, ShareOf(inventory, runs))).modules, status) == Tally(entries, Ended(runs, status))
  {
    FigureIs(entries, ShareOf(inventory, runs), (t: Totals) => At(t.modules, status), Ended(runs, status));
  }

  lemma CounterTallied(entries: seq<string>, inventory: map<string, Inventory>, runs: map<string, RunRow>,
                       total: Totals -> Counter, counter: RunRow -> Counter, key: string)
    requires forall i :: 0 <= i < |entries| ==> entries[i] in inventory
    requires total(Nothing) == map[] && forall a, b :: total(Add(a, b)) == Plus(total(a), total(b))
    requires forall inv, run :: total(Share(inv, run)) == if run.Some? then counter(run.value) else map[]
    ensures At(total(Sum(Shares(entries, ShareOf(inventory, runs)))), key) == Tally(entries, Counted(runs, counter, key))
  {
    FigureIs(entries, ShareOf(inventory, runs), (t: Totals) => At(total(t), key), Counted(runs, counter, key));
  }

  function CasesOf(row: RunRow): Counter {
    row.cases
  }

  function SubtestsOf(row: RunRow): Counter {
    row.subtests
  }

  function FixturesOf(row: RunRow): Counter {
    row.fixtures
  }

  lemma CasesTallied(entries: seq<string>, inventory: map<string, Inventory>, runs: map<string, RunRow>, key: string)
    requires forall i :: 0 <= i < |entries| ==> entries[i] in inventory
    ensures At(Sum(Shares(entries, ShareOf(inventory, runs))).cases, key) == Tally(entries, Counted(runs, CasesOf, key))
  {
    CounterTallied(entries, inventory, runs, (t: Totals) => t.cases, CasesOf, key);
  }

  lemma SubtestsTallied(entries: seq<string>, inventory: map<string, Inventory>, runs: map<string, RunRow>, key: string)
    requires forall i :: 0 <= i < |entries| ==> entries[i] in inventory
    ensures At(Sum(Shares(entries, ShareOf(inventory, runs))).subtests, key) == Tally(entries, Counted(runs, SubtestsOf, key))
  {
    CounterTallied(entries, inventory, runs, (t: Totals) => t.subtests, SubtestsOf, key);
  }

  lemma FixturesTallied(entries: seq<string>, inventory: map<string, Inventory>, runs: map<string, RunRow>, key: string)
    requires forall i :: 0 <= i < |entries| ==> entries[i] in inventory
    ensures At(Sum(Shares(entries, ShareOf(inventory, runs))).fixtures, key) == Tally(entries, Counted(runs, FixturesOf, key))
  {
    CounterTallied(entries, inventory, runs, (t: Totals) => t.fixtures, FixturesOf, key);
  }

  /** The totals are tallies over the entries: the cases of the good
      inventories, the host skips, the runs with a status, and what the runs count. */
  lemma TotalsTallied(entries: seq<string>, inventory: map<string, Inventory>, runs: map<string, RunRow>, key: string)
    requires forall i :: 0 <= i < |entries| ==> entries[i] in inventory
    ensures var t := Sum(Shares(entries, ShareOf(inventory, runs)));
      && t.discoverable == Tally(entries, GoodCases(inventory))
      && t.hostSkips == Tally(entries, HostSkips(inventory))
      && At(t.modules, key) == Tally(entries, Ended(runs, key))
      && At(t.cases, key) == Tally(entries, Counted(runs, CasesOf, key))
      && At(t.subtests, key) == Tally(entries, Counted(runs, SubtestsOf, key))
      && At(t.fixtures, key) == Tally(entries, Counted(runs, FixturesOf, key))
  {
    GoodCasesTallied(entries, inventory, runs);
    HostSkipsTallied(entries, inventory, runs);
    ModulesTallied(entries, inventory, runs, key);
    CasesTallied(entries, inventory, runs, key);
    SubtestsTallied(entries, inventory, runs, key);
    FixturesTallied(entries, inventory, runs, key);
  }

  /** What one module adds to the running totals. */
  method CountModule(t: Totals, row: Inventory, run: Option<RunRow>) returns (next: Totals)
    ensures next == Add(t, Share(row, run))
  {
    var discoverable, hostSkips := t.discoverable, t.hostSkips;
    if row.status == "ok" {
      discoverable := discoverable + row.caseCount;
    } else if row.status == "host_skip" {
      hostSkips := hostSkips + 1;
    }
    if run == None {
      PlusNothing(t.modules);
      PlusNothing(t.cases);
      PlusNothing(t.subtests);
      PlusNothing(t.fixtures);
      next := t.(discoverable := discoverable, hostSkips := hostSkips);
    } else {
      var results := run.value;
      PlusOne(t.modules, results.status);
      next := Totals(discoverable, hostSkips, t.modules[results.status := At(t.modules, results.status) + 1],
                     Plus(t.cases, results.cases), Plus(t.subtests, results.subtests), Plus(t.fixtures, results.fixtures));
    }
    SameTotals(next, Add(t, Share(row, run)));
  }

  method CountEntry(t: Totals, name: string, inventory: map<string, Inventory>, runs: map<string, RunRow>)
    returns (next: Totals)
    requires name in inventory
    ensures next == Add(t, ShareOf(inventory, runs)(name))
  {
    next := CountModule(t, inventory[name], RunOf(runs, name));
  }

  /** The running totals of `summarize`. */
  method Summarize(entries: seq<string>, inventory: map<string, Inventory>, runs: map<string, RunRow>) returns (t: Totals)
    requires forall i :: 0 <= i < |entries| ==> entries[i] in inventory
    ensures t == Sum(Shares(entries, ShareOf(inventory, runs)))
  {
    t := Nothing;
    ghost var shares := Shares(entries, ShareOf(inventory, runs));
    for i := 0 to |entries|
      invariant t == Sum(shares[..i])
    {
      SumStep(shares, i);
      t := CountEntry(t, entries[i], inventory, runs);
    }
    assert shares[..|entries|] == shares;
  }

  /** The totals of `aggregate_summary`: batches without a summary add nothing. */
  method AggregateSummary(summaries: seq<Option<Totals>>) returns (t: Totals)
    ensures t == Sum(Present(summaries))
  {
    t := Nothing;
    for i := 0 to |summaries|
      invariant t == Sum(Present(summaries[..i]))
    {
      PresentStep(summaries, i);
      if summaries[i] == None {
        continue;
      }
      t := AddBatch(t, summaries[i].value);
    }
    assert summaries[..|summaries|] == summaries;
  }

  method AddBatch(t: Totals, batch: Totals) returns (next: Totals)
    ensures next == Add(t, batch)
  {
    next := Totals(t.discoverable + batch.discoverable, t.hostSkips + batch.hostSkips, Plus(t.modules, batch.modules),
                   Plus(t.cases, batch.cases), Plus(t.subtests, batch.subtests), Plus(t.fixtures, batch.fixtures));
  }

  lemma SumStep(shares: seq<Totals>, i: nat)
    requires i < |shares|
    ensures Sum(shares[..i + 1]) == Add(Sum(shares[..i]), shares[i])
  {
    assert shares[..i + 1][..i] == shares[..i];
  }

  lemma PresentStep(summaries: seq<Option<Totals>>, i: nat)
    requires i < |summaries|
    ensures summaries[i].None? ==> Present(summaries[..i + 1]) == Present(summaries[..i])
    ensures summaries[i].Some? ==> Sum(Present(summaries[..i + 1])) == Add(Sum(Present(summaries[..i])), summaries[i].value)
  {
    var before := Present(summaries[..i]);
    assert summaries[..i + 1][..i] == summaries[..i];
    if summaries[i].Some? {
      var all := before + [summaries[i].value];
      SumStep(all, |before|);
      assert all[..|before| + 1] == all && all[..|before|] == before;
    }
  }

  function Present(summaries: seq<Option<Totals>>): seq<Totals> {
    if summaries == [] then []
    else
      var last := summaries[|summaries| - 1];
      Present(summaries[..|summaries| - 1]) + if last.Some? then [last.value] else []
  }

  // ------------------------------------------------------ batches add up

  function BatchShares(parts: seq<seq<string>>, share: string -> Totals): (r: seq<seq<Totals>>)
    ensures |r| == |parts| && forall i :: 0 <= i < |parts| ==> r[i] == Shares(parts[i], share)
  {
    seq(|parts|, i requires 0 <= i < |parts| => Shares(parts[i], share))
  }

  /** The totals that each batch's own summary reports. */
  function BatchTotals(parts: seq<seq<string>>, share: string -> Totals): (r: seq<Totals>)
    ensures |r| == |parts| && forall i :: 0 <= i < |parts| ==> r[i] == Sum(Shares(parts[i], share))
  {
    Folds(Add, Nothing, BatchShares(parts, share))
  }

  lemma SharesAppend(a: seq<string>, b: seq<string>, share: string -> Totals)
    ensures Shares(a + b, share) == Shares(a, share) + Shares(b, share)
  {
  }

  lemma {:induction false} FlatShares(parts: seq<seq<string>>, share: string -> Totals)
    ensures Flat(BatchShares(parts, share)) == Shares(Flat(parts), share)
  {
    if parts != [] {
      FlatShares(parts[1..], share);
      assert BatchShares(parts, share)[1..] == BatchShares(parts[1..], share);
      SharesAppend(parts[0], Flat(parts[1..]), share);
    }
  }

  /** Adding up the totals of the batches gives the totals of the whole list,
      however it is cut and whatever the modules contribute. */
  lemma BatchesAddUp(parts: seq<seq<string>>, share: string -> Totals)
    ensures Sum(BatchTotals(parts, share)) == Sum(Shares(Flat(parts), share))
  {
    FlatShares(parts, share);
    AddMonoid();
    FoldOfFolds(Add, Nothing, BatchShares(parts, share));
  }

  /** Dispatching a list in batches and aggregating gives the counts of summarizing it whole. */
  lemma BatchingPreservesTotals(entries: seq<string>, entriesPerBatch: int, batchCount: int,
                                inventory: map<string, Inventory>, runs: map<string, RunRow>, parts: seq<seq<string>>)
    requires PartitionEntries(entries, entriesPerBatch, batchCount) == Some(parts)
    ensures Sum(BatchTotals(parts, ShareOf(inventory, runs))) == Sum(Shares(entries, ShareOf(inventory, runs)))
  {
    PartitionCorrect(entries, entriesPerBatch, batchCount);
    BatchesAddUp(parts, ShareOf(inventory, runs));
  }

  lemma {:induction false} AllPresent(summaries: seq<Option<Totals>>, totals: seq<Totals>)
    requires |summaries| == |totals| && forall i :: 0 <= i < |totals| ==> summaries[i] == Some(totals[i])
    ensures Present(summaries) == totals
  {
    if totals != [] {
      var n := |totals| - 1;
      AllPresent(summaries[..n], totals[..n]);
      assert totals == totals[..n] + [totals[n]];
    }
  }

  lemma {:induction false} PartsOfFlat<T>(parts: seq<seq<T>>, i: nat)
    requires i < |parts|
    ensures forall x :: x in parts[i] ==> x in Flat(parts)
  {
    if i > 0 {
      PartsOfFlat(parts[1..], i - 1);
    }
  }

  /** A dispatch: the entries are cut into batches, every batch is summarized by
      itself and the summaries are aggregated. The counts are those of
      summarizing the whole list. */
  method DispatchInBatches(entries: seq<string>, entriesPerBatch: int, batchCount: int,
                           inventory: map<string, Inventory>, runs: map<string, RunRow>) returns (t: Option<Totals>)
    requires forall i :: 0 <= i < |entries| ==> entries[i] in inventory
    ensures entries == [] <==> t == None
    ensures entries != [] ==> t == Some(Sum(Shares(entries, ShareOf(inventory, runs))))
  {
    var parts := PartitionEntries(entries, entriesPerBatch, batchCount);
    PartitionCorrect(entries, entriesPerBatch, batchCount);
    if parts == None {
      return None;
    }
    var summaries := SummarizeBatches(parts.value, inventory, runs);
    var total := AggregateSummary(summaries);
    AllPresent(summaries, BatchTotals(parts.value, ShareOf(inventory, runs)));
    BatchingPreservesTotals(entries, entriesPerBatch, batchCount, inventory, runs, parts.value);
    return Some(total);
  }

  lemma PartInInventory(parts: seq<seq<string>>, i: nat, inventory: map<string, Inventory>)
    requires i < |parts| && forall k :: 0 <= k < |Flat(parts)| ==> Flat(parts)[k] in inventory
    ensures forall k :: 0 <= k < |parts[i]| ==> parts[i][k] in inventory
  {
    PartsOfFlat(parts, i);
    forall k | 0 <= k < |parts[i]|
      ensures parts[i][k] in inventory
    {
      assert parts[i][k] in Flat(parts);
    }
  }

  method SummarizeBatches(parts: seq<seq<string>>, inventory: map<string, Inventory>, runs: map<string, RunRow>)
    returns (summaries: seq<Option<Totals>>)
    requires forall i :: 0 <= i < |Flat(parts)| ==> Flat(parts)[i] in inventory
    ensures |summaries| == |parts|
    ensures forall i :: 0 <= i < |parts| ==> summaries[i] == Some(BatchTotals(parts, ShareOf(inventory, runs))[i])
  {
    summaries := [];
    ghost var totals := BatchTotals(parts, ShareOf(inventory, runs));
    for i := 0 to |parts|
      invariant |summaries| == i && forall k :: 0 <= k < i ==> summaries[k] == Some(totals[k])
    {
      PartInInventory(parts, i, inventory);
      var summary := Summarize(parts[i], inventory, runs);
      summaries := summaries + [Some(summary)];
    }
  }
}
