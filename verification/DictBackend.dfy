/**
 The dict storage backend (src/runtime/dict_backend.rs): a dense entry list in
 insertion order, and an open-addressing slot table that indexes it.
 */
module DictBackend {
  import opened Common
  import opened Bits
  import opened DictProbe

  const MIN_TABLE_SIZE := 8

  type u64 = h: int | 0 <= h <= 0xFFFF_FFFF_FFFF_FFFF

  /** A key is an object with its hash, none if unhashable, and the objects it
      compares equal to when stored.  No law of equality is assumed: a key may
      equal keys with another hash, or two keys that differ, or not itself. */
  datatype Key = Key(object_: nat, hash: Option<u64>, equalTo: nat -> bool)

  /** `value_key_equal(stored, key)`. */
  predicate KeyEqual(stored: Key, key: Key) {
    stored.equalTo(key.object_)
  }

  type Value = nat
  type Entries = seq<(Key, Value)>
  type Hashes = seq<Option<u64>>

  datatype Slot = Empty | Dummy | Occupied(hash: u64, entry: nat)

  datatype SlotLookup = Found(entry: nat) | Vacant(slot: nat)

  // -------------------------------------------------------------- table shape

  ghost predicate TableSize(bits: nat, size: nat) {
    exists k: nat :: 3 <= k && k + 3 <= bits && size == Pow2(k)
  }

  function NextPowerOfTwo(value: nat, from: nat): nat
    requires from > 0
    decreases if from < value then value - from else 0
  {
    if from >= value then from else NextPowerOfTwo(value, 2 * from)
  }

  function Larger(a: nat, b: nat): nat {
    if a > b then a else b
  }

  /** `hash as usize`. */
  function Word(bits: nat, hash: u64): (w: nat)
    ensures w < Pow2(bits)
  {
    hash % Pow2(bits)
  }

  /** `usize::MAX`, the slot of an entry that has none. */
  function NoSlot(bits: nat): (w: nat)
    ensures w < Pow2(bits) <= w + 1
  {
    Pow2(bits) - 1
  }

  function ProbeSlot(bits: nat, size: nat, hash: u64, round: nat): (s: nat)
    requires size > 0
    ensures s < size
  {
    Probe(bits, size, Word(bits, hash), round)
  }

  /** Walking from the hash, `slot` is met before any empty slot. */
  ghost predicate Reachable(bits: nat, slots: seq<Slot>, hash: u64, slot: nat) {
    |slots| > 0 && exists round: nat :: MetAt(bits, slots, hash, slot, round)
  }

  ghost predicate MetAt(bits: nat, slots: seq<Slot>, hash: u64, slot: nat, round: nat)
    requires |slots| > 0
  {
    && round < |slots| + PerturbRounds(bits)
    && ProbeSlot(bits, |slots|, hash, round) == slot
    && NoEmptyBefore(bits, slots, hash, round)
  }

  ghost predicate NoEmptyBefore(bits: nat, slots: seq<Slot>, hash: u64, round: nat)
    requires |slots| > 0
  {
    forall i: nat :: i < round ==> slots[ProbeSlot(bits, |slots|, hash, i)] != Empty
  }

  function CountOccupied(slots: seq<Slot>): (n: nat)
    ensures n <= |slots|
  {
    if slots == [] then 0 else CountOccupied(slots[..|slots| - 1]) + if slots[|slots| - 1].Occupied? then 1 else 0
  }

  function CountUsed(slots: seq<Slot>): (n: nat)
    ensures CountOccupied(slots) <= n <= |slots|
  {
    if slots == [] then 0 else CountUsed(slots[..|slots| - 1]) + if slots[|slots| - 1].Empty? then 0 else 1
  }

  function CountHashed(hashes: Hashes, n: nat): (r: nat)
    requires n <= |hashes|
    ensures r <= n
  {
    if n == 0 then 0 else CountHashed(hashes, n - 1) + if hashes[n - 1].Some? then 1 else 0
  }

  function NumHashed(hashes: Hashes): nat {
    CountHashed(hashes, |hashes|)
  }

  // ---------------------------------------------------------------- the index

  /** The first `n` entries and the occupied slots point at each other. */
  ghost predicate Linked(bits: nat, hashes: Hashes, entrySlots: seq<nat>, slots: seq<Slot>, n: nat) {
    && n <= |hashes| && n <= |entrySlots|
    && (forall e :: 0 <= e < n && hashes[e].None? ==> entrySlots[e] == NoSlot(bits))
    && (forall e :: 0 <= e < n && hashes[e].Some? ==>
          entrySlots[e] < |slots| && slots[entrySlots[e]] == Occupied(hashes[e].value, e))
    && (forall s :: 0 <= s < |slots| && slots[s].Occupied? ==>
          slots[s].entry < n && entrySlots[slots[s].entry] == s && hashes[slots[s].entry] == Some(slots[s].hash))
  }

  ghost predicate Chained(bits: nat, hashes: Hashes, entrySlots: seq<nat>, slots: seq<Slot>, n: nat)
    requires n <= |hashes| && n <= |entrySlots|
  {
    forall e :: 0 <= e < n && hashes[e].Some? ==> Reachable(bits, slots, hashes[e].value, entrySlots[e])
  }

  /** Same hash and equal key: what a lookup compares. */
  predicate Matches(entries: Entries, hashes: Hashes, e: nat, key: Key, hash: u64)
    requires e < |entries| && e < |hashes|
  {
    hashes[e] == Some(hash) && KeyEqual(entries[e].0, key)
  }

  ghost predicate NoMatch(entries: Entries, hashes: Hashes, key: Key, hash: u64)
    requires |entries| == |hashes|
  {
    forall e :: 0 <= e < |entries| ==> !Matches(entries, hashes, e, key, hash)
  }

  /** What the entry list alone must satisfy. */
  ghost predicate EntriesOk(entries: Entries, hashes: Hashes) {
    && |entries| == |hashes|
    && (forall e :: 0 <= e < |entries| && hashes[e].None? ==> entries[e].0.hash.None?)
    && (forall i, j :: 0 <= i < j < |entries| && hashes[i].Some? && hashes[i] == hashes[j] ==>
          !KeyEqual(entries[i].0, entries[j].0))
  }

  ghost predicate IndexOk(bits: nat, hashes: Hashes, entrySlots: seq<nat>, slots: seq<Slot>, n: nat) {
    && Linked(bits, hashes, entrySlots, slots, n)
    && Chained(bits, hashes, entrySlots, slots, n)
    && CountOccupied(slots) == CountHashed(hashes, n)
  }

  // ------------------------------------------------------------ counting slots

  lemma {:induction false} CountsUpdate(slots: seq<Slot>, i: nat, slot: Slot)
    requires i < |slots|
    ensures CountOccupied(slots[i := slot]) ==
              CountOccupied(slots) - (if slots[i].Occupied? then 1 else 0) + if slot.Occupied? then 1 else 0
    ensures CountUsed(slots[i := slot]) ==
              CountUsed(slots) - (if slots[i].Empty? then 0 else 1) + if slot.Empty? then 0 else 1
  {
    var last := |slots| - 1;
    var after := slots[i := slot];
    if i == last {
      assert after[..last] == slots[..last];
    } else {
      assert after[..last] == slots[..last][i := slot];
      CountsUpdate(slots[..last], i, slot);
    }
  }

  lemma {:induction false} FreeSlotExists(slots: seq<Slot>) returns (s: nat)
    requires CountOccupied(slots) < |slots|
    ensures s < |slots| && !slots[s].Occupied?
  {
    var last := |slots| - 1;
    if slots[last].Occupied? {
      s := FreeSlotExists(slots[..last]);
    } else {
      s := last;
    }
  }

  lemma {:induction false} CountAllEmpty(slots: seq<Slot>)
    requires forall s :: 0 <= s < |slots| ==> slots[s] == Empty
    ensures CountOccupied(slots) == 0 && CountUsed(slots) == 0
  {
    if slots != [] {
      CountAllEmpty(slots[..|slots| - 1]);
    }
  }

  // -------------------------------------------------------- index maintenance

  lemma ReachableGrows(bits: nat, before: seq<Slot>, after: seq<Slot>, hash: u64, slot: nat)
    requires |before| == |after| && Reachable(bits, before, hash, slot)
    requires forall s :: 0 <= s < |before| && before[s] != Empty ==> after[s] != Empty
    ensures Reachable(bits, after, hash, slot)
  {
    var round: nat :| MetAt(bits, before, hash, slot, round);
    assert MetAt(bits, after, hash, slot, round);
  }

  lemma {:induction false} CountHashedSame(a: Hashes, b: Hashes, n: nat)
    requires n <= |a| && n <= |b| && forall e :: 0 <= e < n ==> a[e] == b[e]
    ensures CountHashed(a, n) == CountHashed(b, n)
  {
    if n > 0 {
      CountHashedSame(a, b, n - 1);
    }
  }

  /** Putting entry `n` into a free slot its hash reaches extends the index. */
  lemma IndexPlace(bits: nat, hashes: Hashes, entrySlots: seq<nat>, slots: seq<Slot>, n: nat,
                   hash: u64, slot: nat, hashes': Hashes, entrySlots': seq<nat>)
    requires IndexOk(bits, hashes, entrySlots, slots, n)
    requires slot < |slots| && !slots[slot].Occupied? && Reachable(bits, slots, hash, slot)
    requires n < |hashes'| && n < |entrySlots'| && hashes'[n] == Some(hash) && entrySlots'[n] == slot
    requires forall e :: 0 <= e < n ==> hashes'[e] == hashes[e] && entrySlots'[e] == entrySlots[e]
    ensures IndexOk(bits, hashes', entrySlots', slots[slot := Occupied(hash, n)], n + 1)
  {
    var slots' := slots[slot := Occupied(hash, n)];
    CountsUpdate(slots, slot, Occupied(hash, n));
    CountHashedSame(hashes, hashes', n);
    forall e | 0 <= e < n + 1 && hashes'[e].Some?
      ensures Reachable(bits, slots', hashes'[e].value, entrySlots'[e])
    {
      ReachableGrows(bits, slots, slots', hashes'[e].value, entrySlots'[e]);
    }
  }

  /** An entry without a slot extends the index as it is. */
  lemma IndexSkip(bits: nat, hashes: Hashes, entrySlots: seq<nat>, slots: seq<Slot>, n: nat,
                  hashes': Hashes, entrySlots': seq<nat>)
    requires IndexOk(bits, hashes, entrySlots, slots, n)
    requires n < |hashes'| && n < |entrySlots'| && hashes'[n] == None && entrySlots'[n] == NoSlot(bits)
    requires forall e :: 0 <= e < n ==> hashes'[e] == hashes[e] && entrySlots'[e] == entrySlots[e]
    ensures IndexOk(bits, hashes', entrySlots', slots, n + 1)
  {
    CountHashedSame(hashes, hashes', n);
  }

  lemma {:induction false} CountHashedGrows(hashes: Hashes, m: nat, n: nat)
    requires m <= n <= |hashes|
    ensures CountHashed(hashes, m) <= CountHashed(hashes, n)
  {
    if m < n {
      CountHashedGrows(hashes, m, n - 1);
    }
  }

  /** When every used slot is occupied there is no dummy. */
  lemma {:induction false} NoDummies(slots: seq<Slot>, slot: nat)
    requires slot < |slots| && CountUsed(slots) == CountOccupied(slots)
    ensures slots[slot] != Dummy
  {
    var last := |slots| - 1;
    if slot < last {
      assert CountUsed(slots[..last]) == CountOccupied(slots[..last]);
      NoDummies(slots[..last], slot);
    }
  }

  /** A walk that has met only non-empty slots in all its rounds has met every slot. */
  lemma FullWalkMeetsAll(bits: nat, slots: seq<Slot>, hash: u64, slot: nat) returns (round: nat)
    requires TableSize(bits, |slots|) && slot < |slots|
    ensures round < |slots| + PerturbRounds(bits) && ProbeSlot(bits, |slots|, hash, round) == slot
  {
    var k: nat :| 3 <= k && k + 3 <= bits && |slots| == Pow2(k);
    round := ProbeVisitsAll(bits, k, Word(bits, hash), slot);
  }

  /** State of a walk before `round`: no empty slot so far, and the first dummy if any. */
  ghost predicate Walked(bits: nat, slots: seq<Slot>, hash: u64, round: nat, dummy: Option<nat>)
    requires |slots| > 0
  {
    && round <= |slots| + PerturbRounds(bits)
    && NoEmptyBefore(bits, slots, hash, round)
    && (dummy.None? ==> forall i: nat :: i < round ==> slots[ProbeSlot(bits, |slots|, hash, i)].Occupied?)
    && (dummy.Some? ==> Insertable(bits, slots, hash, dummy.value))
  }

  ghost predicate Insertable(bits: nat, slots: seq<Slot>, hash: u64, slot: nat) {
    slot < |slots| && !slots[slot].Occupied? && Reachable(bits, slots, hash, slot)
  }

  lemma WalkHere(bits: nat, slots: seq<Slot>, hash: u64, round: nat, dummy: Option<nat>)
    requires |slots| > 0 && round < |slots| + PerturbRounds(bits) && Walked(bits, slots, hash, round, dummy)
    ensures var slot := ProbeSlot(bits, |slots|, hash, round);
      && (!slots[slot].Occupied? ==> Insertable(bits, slots, hash, slot))
      && (slots[slot].Dummy? ==> Walked(bits, slots, hash, round + 1, Some(if dummy.Some? then dummy.value else slot)))
      && (slots[slot].Occupied? ==> Walked(bits, slots, hash, round + 1, dummy))
  {
    assert MetAt(bits, slots, hash, ProbeSlot(bits, |slots|, hash, round), round);
  }

  /** After all rounds a dummy has been met, unless every slot is occupied. */
  lemma WalkedOut(bits: nat, slots: seq<Slot>, hash: u64, dummy: Option<nat>)
    requires TableSize(bits, |slots|) && Walked(bits, slots, hash, |slots| + PerturbRounds(bits), dummy)
    ensures CountOccupied(slots) < |slots| ==> dummy.Some?
  {
    if CountOccupied(slots) < |slots| && dummy.None? {
      var free := FreeSlotExists(slots);
      var round := FullWalkMeetsAll(bits, slots, hash, free);
      assert false;
    }
  }

  predicate SlotMatches(entries: Entries, slot: Slot, key: Key, hash: u64) {
    slot.Occupied? && slot.hash == hash && slot.entry < |entries| && KeyEqual(entries[slot.entry].0, key)
  }

  ghost predicate NoneMatched(bits: nat, entries: Entries, slots: seq<Slot>, key: Key, hash: u64, round: nat)
    requires |slots| > 0
  {
    forall i: nat :: i < round ==> !SlotMatches(entries, slots[ProbeSlot(bits, |slots|, hash, i)], key, hash)
  }

  /** A walk without a match up to the first empty slot, or over all rounds,
      has compared every entry that could match. */
  lemma WalkSeesAllMatches(bits: nat, entries: Entries, hashes: Hashes, entrySlots: seq<nat>, slots: seq<Slot>,
                           key: Key, hash: u64, round: nat)
    requires |entries| == |hashes| && IndexOk(bits, hashes, entrySlots, slots, |entries|) && |slots| > 0
    requires round < |slots| + PerturbRounds(bits) ==> slots[ProbeSlot(bits, |slots|, hash, round)] == Empty
    requires NoneMatched(bits, entries, slots, key, hash, round)
    ensures NoMatch(entries, hashes, key, hash)
  {
    forall e | 0 <= e < |entries|
      ensures !Matches(entries, hashes, e, key, hash)
    {
      if Matches(entries, hashes, e, key, hash) {
        var met: nat :| MetAt(bits, slots, hash, entrySlots[e], met);
        assert SlotMatches(entries, slots[ProbeSlot(bits, |slots|, hash, met)], key, hash);
      }
    }
  }

  // ------------------------------------------------- what a lookup meets

  /** The end of a lookup: an equal key, none, or a slot that names no entry,
      where the program indexes past its entry list. */
  datatype Walk = Hit(entry: nat) | Miss | OutOfRange

  /** The lookup loop from `round` on, over any slots and entries. */
  function WalkFrom(bits: nat, entries: Entries, slots: seq<Slot>, key: Key, hash: u64, round: nat): (w: Walk)
    requires |slots| > 0
    ensures w.Hit? ==> w.entry < |entries| && KeyEqual(entries[w.entry].0, key)
    decreases |slots| + PerturbRounds(bits) - round
  {
    if round >= |slots| + PerturbRounds(bits) then Miss
    else
      match slots[ProbeSlot(bits, |slots|, hash, round)]
      case Empty => Miss
      case Dummy => WalkFrom(bits, entries, slots, key, hash, round + 1)
      case Occupied(slotHash, entry) =>
        if slotHash != hash then WalkFrom(bits, entries, slots, key, hash, round + 1)
        else if entry >= |entries| then OutOfRange
        else if KeyEqual(entries[entry].0, key) then Hit(entry)
        else WalkFrom(bits, entries, slots, key, hash, round + 1)
  }

  /** A lookup of `key` under `hash` finds an entry. */
  predicate FindsKey(bits: nat, entries: Entries, slots: seq<Slot>, key: Key, hash: u64) {
    slots != [] && WalkFrom(bits, entries, slots, key, hash, 0).Hit?
  }

  /** Every entry with a hash is found by a lookup with that hash. */
  ghost predicate AllFound(bits: nat, entries: Entries, hashes: Hashes, slots: seq<Slot>)
    requires |entries| == |hashes|
  {
    forall e :: 0 <= e < |entries| && hashes[e].Some? ==> FindsKey(bits, entries, slots, entries[e].0, hashes[e].value)
  }

  /** A walk that meets no empty slot up to `stop`, where an equal key is, finds a key. */
  lemma {:induction false} WalkHits(bits: nat, entries: Entries, hashes: Hashes, entrySlots: seq<nat>, slots: seq<Slot>,
                                    key: Key, hash: u64, round: nat, stop: nat)
    requires |entries| == |hashes| && |slots| > 0 && Linked(bits, hashes, entrySlots, slots, |entries|)
    requires round <= stop < |slots| + PerturbRounds(bits) && NoEmptyBefore(bits, slots, hash, stop)
    requires SlotMatches(entries, slots[ProbeSlot(bits, |slots|, hash, stop)], key, hash)
    ensures WalkFrom(bits, entries, slots, key, hash, round).Hit?
    decreases stop - round
  {
    if round < stop {
      WalkHits(bits, entries, hashes, entrySlots, slots, key, hash, round + 1, stop);
    }
  }

  /** In an index that is in order every entry with a hash and a key that
      equals itself is found. */
  lemma IndexFinds(bits: nat, entries: Entries, hashes: Hashes, entrySlots: seq<nat>, slots: seq<Slot>)
    requires |entries| == |hashes| && IndexOk(bits, hashes, entrySlots, slots, |entries|)
    requires forall e :: 0 <= e < |entries| ==> KeyEqual(entries[e].0, entries[e].0)
    ensures AllFound(bits, entries, hashes, slots)
  {
    forall e | 0 <= e < |entries| && hashes[e].Some?
      ensures FindsKey(bits, entries, slots, entries[e].0, hashes[e].value)
    {
      var stop: nat :| MetAt(bits, slots, hashes[e].value, entrySlots[e], stop);
      WalkHits(bits, entries, hashes, entrySlots, slots, entries[e].0, hashes[e].value, 0, stop);
    }
  }

  /** No slot a walk can stop at names an equal key. */
  lemma {:induction false} WalkNeverHits(bits: nat, entries: Entries, slots: seq<Slot>, key: Key, hash: u64, round: nat)
    requires |slots| > 0 && forall s :: 0 <= s < |slots| ==> !SlotMatches(entries, slots[s], key, hash)
    ensures !WalkFrom(bits, entries, slots, key, hash, round).Hit?
    decreases |slots| + PerturbRounds(bits) - round
  {
    if round < |slots| + PerturbRounds(bits) {
      WalkNeverHits(bits, entries, slots, key, hash, round + 1);
    }
  }

  /** A walk that meets nothing of its hash up to a stale slot leaves the entry list. */
  lemma {:induction false} WalkLeaves(bits: nat, entries: Entries, slots: seq<Slot>, key: Key, hash: u64, round: nat, stop: nat)
    requires |slots| > 0 && round <= stop < |slots| + PerturbRounds(bits) && NoEmptyBefore(bits, slots, hash, stop)
    requires forall s :: 0 <= s < |slots| && slots[s].Occupied? && slots[s].hash == hash ==> slots[s].entry >= |entries|
    requires var s := slots[ProbeSlot(bits, |slots|, hash, stop)];
             s.Occupied? && s.hash == hash
    ensures WalkFrom(bits, entries, slots, key, hash, round) == OutOfRange
    decreases stop - round
  {
    if round < stop {
      WalkLeaves(bits, entries, slots, key, hash, round + 1, stop);
    }
  }

  /** The first `n` entries have been put into a table that had no other use. */
  ghost predicate Rebuilt(bits: nat, hashes: Hashes, entrySlots: seq<nat>, slots: seq<Slot>, filled: nat, n: nat) {
    && |entrySlots| == |hashes| && n <= |hashes|
    && filled == CountUsed(slots) == CountHashed(hashes, n)
    && (forall e :: n <= e < |entrySlots| ==> entrySlots[e] == NoSlot(bits))
    && IndexOk(bits, hashes, entrySlots, slots, n)
  }

  lemma RebuildStart(bits: nat, hashes: Hashes, entrySlots: seq<nat>, slots: seq<Slot>)
    requires |entrySlots| == |hashes|
    requires forall s :: 0 <= s < |slots| ==> slots[s] == Empty
    requires forall e :: 0 <= e < |entrySlots| ==> entrySlots[e] == NoSlot(bits)
    ensures Rebuilt(bits, hashes, entrySlots, slots, 0, 0)
  {
    CountAllEmpty(slots);
  }

  lemma RoomLeft(hashes: Hashes, slots: seq<Slot>, n: nat)
    requires n < |hashes| && hashes[n].Some? && CountUsed(slots) == CountHashed(hashes, n)
    requires CountHashed(hashes, |hashes|) <= |slots|
    ensures CountOccupied(slots) < |slots|
  {
    CountHashedGrows(hashes, n + 1, |hashes|);
  }

  lemma RebuildStep(bits: nat, hashes: Hashes, entrySlots: seq<nat>, slots: seq<Slot>, filled: nat, n: nat, slot: nat)
    requires Rebuilt(bits, hashes, entrySlots, slots, filled, n) && n < |hashes|
    requires hashes[n].Some? ==> Insertable(bits, slots, hashes[n].value, slot)
    ensures hashes[n].Some? ==>
              Rebuilt(bits, hashes, entrySlots[n := slot], slots[slot := Occupied(hashes[n].value, n)], filled + 1, n + 1)
    ensures hashes[n].None? ==> Rebuilt(bits, hashes, entrySlots, slots, filled, n + 1)
  {
    if hashes[n].Some? {
      IndexPlace(bits, hashes, entrySlots, slots, n, hashes[n].value, slot, hashes, entrySlots[n := slot]);
      CountsUpdate(slots, slot, Occupied(hashes[n].value, n));
      NoDummies(slots, slot);
    } else {
      IndexSkip(bits, hashes, entrySlots, slots, n, hashes, entrySlots);
    }
  }

  // ------------------------------------------------------ the dict as a list

  /** The entry a walk through the table ends at. */
  function Located(bits: nat, entries: Entries, slots: seq<Slot>, key: Key, hash: u64): (r: Option<nat>)
    ensures r.Some? ==> r.value < |entries| && KeyEqual(entries[r.value].0, key)
  {
    if slots == [] then None
    else
      var walk := WalkFrom(bits, entries, slots, key, hash, 0);
      if walk.Hit? then Some(walk.entry) else None
  }

  /** What a lookup is for: an entry of that hash with an equal key, if there is one. */
  ghost predicate Meant(entries: Entries, hashes: Hashes, key: Key, hash: u64, at: Option<nat>)
    requires |entries| == |hashes|
  {
    if at.Some? then at.value < |entries| && Matches(entries, hashes, at.value, key, hash)
    else NoMatch(entries, hashes, key, hash)
  }

  /** In an index that is in order a walk ends inside the list, at an entry that matches if any does. */
  lemma {:induction false} WalkIsMeant(bits: nat, entries: Entries, hashes: Hashes, entrySlots: seq<nat>, slots: seq<Slot>,
                                       key: Key, hash: u64, round: nat)
    requires |entries| == |hashes| && IndexOk(bits, hashes, entrySlots, slots, |entries|) && |slots| > 0
    requires round <= |slots| + PerturbRounds(bits) && NoneMatched(bits, entries, slots, key, hash, round)
    ensures var walk := WalkFrom(bits, entries, slots, key, hash, round);
      && walk != OutOfRange
      && Meant(entries, hashes, key, hash, if walk.Hit? then Some(walk.entry) else None)
    decreases |slots| + PerturbRounds(bits) - round
  {
    if round == |slots| + PerturbRounds(bits) || slots[ProbeSlot(bits, |slots|, hash, round)].Empty? {
      WalkSeesAllMatches(bits, entries, hashes, entrySlots, slots, key, hash, round);
    } else if !SlotMatches(entries, slots[ProbeSlot(bits, |slots|, hash, round)], key, hash) {
      WalkIsMeant(bits, entries, hashes, entrySlots, slots, key, hash, round + 1);
    }
  }

  lemma LocatedIsMeant(bits: nat, entries: Entries, hashes: Hashes, entrySlots: seq<nat>, slots: seq<Slot>, key: Key, hash: u64)
    requires |entries| == |hashes| && IndexOk(bits, hashes, entrySlots, slots, |entries|)
    ensures Meant(entries, hashes, key, hash, Located(bits, entries, slots, key, hash))
    ensures slots != [] ==> WalkFrom(bits, entries, slots, key, hash, 0) != OutOfRange
  {
    if slots != [] {
      WalkIsMeant(bits, entries, hashes, entrySlots, slots, key, hash, 0);
    }
  }

  /** The first entry with an equal key, whatever its hash. */
  function FirstEqual(entries: Entries, key: Key, from: nat := 0): (r: Option<nat>)
    requires from <= |entries|
    ensures r.Some? ==> from <= r.value < |entries| && KeyEqual(entries[r.value].0, key)
    ensures var end := if r.Some? then r.value else |entries|;
            forall e :: from <= e < end ==> !KeyEqual(entries[e].0, key)
    decreases |entries| - from
  {
    if from == |entries| then None
    else if KeyEqual(entries[from].0, key) then Some(from)
    else FirstEqual(entries, key, from + 1)
  }

  /** An update keeps place and stored key; a new key goes last. */
  function PutAt(entries: Entries, at: Option<nat>, key: Key, value: Value): Entries
    requires at.Some? ==> at.value < |entries|
  {
    if at.Some? then entries[at.value := (entries[at.value].0, value)] else entries + [(key, value)]
  }

  /** `s` without its element `i`. */
  function Without<T>(s: seq<T>, i: nat): (r: seq<T>)
    requires i < |s|
    ensures |r| == |s| - 1
    ensures forall e :: 0 <= e < i ==> r[e] == s[e]
    ensures forall e :: i <= e < |s| - 1 ==> r[e] == s[e + 1]
  {
    s[..i] + s[i + 1..]
  }

  lemma {:induction false} NextPowerOfTwoExact(k: nat, j: nat)
    requires j <= k
    ensures NextPowerOfTwo(Pow2(k), Pow2(j)) == Pow2(k)
    decreases k - j
  {
    if j < k {
      Pow2Monotone(j + 1, k);
      NextPowerOfTwoExact(k, j + 1);
    }
  }

  lemma {:induction false} NextPowerOfTwoLarge(value: nat, from: nat)
    requires from > 0
    ensures NextPowerOfTwo(value, from) >= value
    decreases if from < value then value - from else 0
  {
    if from < value {
      NextPowerOfTwoLarge(value, 2 * from);
    }
  }

  lemma SizeExact(bits: nat, size: nat)
    requires TableSize(bits, size)
    ensures NextPowerOfTwo(size, 8) == size
  {
    var k: nat :| 3 <= k && k + 3 <= bits && size == Pow2(k);
    assert Pow2(3) == 8;
    NextPowerOfTwoExact(k, 3);
  }

  lemma SmallestSize(bits: nat)
    requires bits >= 6
    ensures TableSize(bits, 8) && NextPowerOfTwo(8, 8) == 8
    ensures bits >= 7 ==> TableSize(bits, 16)
  {
    assert Pow2(3) == 8 && Pow2(4) == 16;
  }

  /** Appending an entry with a hash no equal key has keeps the list in order. */
  lemma EntriesAppend(entries: Entries, hashes: Hashes, key: Key, value: Value, hash: Option<u64>)
    requires EntriesOk(entries, hashes)
    requires hash.Some? ==> NoMatch(entries, hashes, key, hash.value)
    requires hash.None? ==> key.hash.None?
    ensures EntriesOk(entries + [(key, value)], hashes + [hash])
  {
    var entries', hashes' := entries + [(key, value)], hashes + [hash];
    forall i, j | 0 <= i < j < |entries'| && hashes'[i].Some? && hashes'[i] == hashes'[j]
      ensures !KeyEqual(entries'[i].0, entries'[j].0)
    {
      if j == |entries| {
        assert !Matches(entries, hashes, i, key, hash.value);
      }
    }
  }

  // ------------------------------------------------------------------ removal

  /** Entry numbers above the removed one move down. */
  function Shifted(slot: Slot, removed: nat): Slot {
    if slot.Occupied? && slot.entry > removed then slot.(entry := slot.entry - 1) else slot
  }

  function ShiftDown(slots: seq<Slot>, removed: nat): (r: seq<Slot>)
    ensures |r| == |slots| && forall s :: 0 <= s < |slots| ==> r[s] == Shifted(slots[s], removed)
  {
    seq(|slots|, s requires 0 <= s < |slots| => Shifted(slots[s], removed))
  }

  lemma {:induction false} CountsShiftDown(a: seq<Slot>, b: seq<Slot>)
    requires |a| == |b|
    requires forall s :: 0 <= s < |a| ==> a[s].Occupied? == b[s].Occupied? && a[s].Empty? == b[s].Empty?
    ensures CountOccupied(a) == CountOccupied(b) && CountUsed(a) == CountUsed(b)
  {
    if a != [] {
      CountsShiftDown(a[..|a| - 1], b[..|b| - 1]);
    }
  }

  lemma {:induction false} CountHashedWithout(hashes: Hashes, i: nat, n: nat)
    requires i < n <= |hashes|
    ensures CountHashed(Without(hashes, i), n - 1) == CountHashed(hashes, n) - if hashes[i].Some? then 1 else 0
  {
    if i == n - 1 {
      CountHashedSame(Without(hashes, i), hashes, i);
    } else {
      CountHashedWithout(hashes, i, n - 1);
    }
  }

  /** The slot table without entry `i`: its slot a dummy, later entries renumbered. */
  function Unlinked(hashes: Hashes, entrySlots: seq<nat>, slots: seq<Slot>, i: nat): (r: seq<Slot>)
    requires i < |hashes| && i < |entrySlots|
    requires hashes[i].Some? ==> entrySlots[i] < |slots|
    ensures |r| == |slots|
    ensures forall s :: 0 <= s < |slots| && slots[s] != Empty ==> r[s] != Empty
  {
    ShiftDown(if hashes[i].Some? then slots[entrySlots[i] := Dummy] else slots, i)
  }

  lemma LinkedRemove(bits: nat, hashes: Hashes, entrySlots: seq<nat>, slots: seq<Slot>, i: nat)
    requires |hashes| == |entrySlots| && i < |hashes| && Linked(bits, hashes, entrySlots, slots, |hashes|)
    ensures Linked(bits, Without(hashes, i), Without(entrySlots, i), Unlinked(hashes, entrySlots, slots, i), |hashes| - 1)
  {
    var hashes', entrySlots' := Without(hashes, i), Without(entrySlots, i);
    var slots' := Unlinked(hashes, entrySlots, slots, i);
    forall e | 0 <= e < |hashes'| && hashes'[e].Some?
      ensures entrySlots'[e] < |slots'| && slots'[entrySlots'[e]] == Occupied(hashes'[e].value, e)
    {
      SlotAfterRemove(bits, hashes, entrySlots, slots, i, if e < i then e else e + 1);
    }
    forall s | 0 <= s < |slots'| && slots'[s].Occupied?
      ensures slots'[s].entry < |hashes'| && entrySlots'[slots'[s].entry] == s
      ensures hashes'[slots'[s].entry] == Some(slots'[s].hash)
    {
      EntryAfterRemove(bits, hashes, entrySlots, slots, i, s);
    }
  }

  lemma SlotAfterRemove(bits: nat, hashes: Hashes, entrySlots: seq<nat>, slots: seq<Slot>, i: nat, o: nat)
    requires |hashes| == |entrySlots| && i < |hashes| && Linked(bits, hashes, entrySlots, slots, |hashes|)
    requires o < |hashes| && o != i && hashes[o].Some?
    ensures entrySlots[o] < |slots|
    ensures Unlinked(hashes, entrySlots, slots, i)[entrySlots[o]] == Occupied(hashes[o].value, if o < i then o else o - 1)
  {
    assert slots[entrySlots[o]] == Occupied(hashes[o].value, o);
    if hashes[i].Some? {
      assert slots[entrySlots[i]] == Occupied(hashes[i].value, i);
    }
  }

  lemma EntryAfterRemove(bits: nat, hashes: Hashes, entrySlots: seq<nat>, slots: seq<Slot>, i: nat, s: nat)
    requires |hashes| == |entrySlots| && i < |hashes| && Linked(bits, hashes, entrySlots, slots, |hashes|)
    requires s < |slots| && Unlinked(hashes, entrySlots, slots, i)[s].Occupied?
    ensures var slot := Unlinked(hashes, entrySlots, slots, i)[s];
      && slot.entry < |hashes| - 1
      && Without(entrySlots, i)[slot.entry] == s && Without(hashes, i)[slot.entry] == Some(slot.hash)
  {
    assert slots[s].Occupied?;
    var o := slots[s].entry;
    assert o < |hashes| && entrySlots[o] == s && hashes[o] == Some(slots[s].hash);
    assert o != i;
  }

  lemma ChainedRemove(bits: nat, hashes: Hashes, entrySlots: seq<nat>, slots: seq<Slot>, i: nat)
    requires |hashes| == |entrySlots| && i < |hashes| && Linked(bits, hashes, entrySlots, slots, |hashes|)
    requires Chained(bits, hashes, entrySlots, slots, |hashes|)
    ensures Chained(bits, Without(hashes, i), Without(entrySlots, i), Unlinked(hashes, entrySlots, slots, i), |hashes| - 1)
  {
    var hashes', entrySlots' := Without(hashes, i), Without(entrySlots, i);
    var slots' := Unlinked(hashes, entrySlots, slots, i);
    forall e | 0 <= e < |hashes'| && hashes'[e].Some?
      ensures Reachable(bits, slots', hashes'[e].value, entrySlots'[e])
    {
      var o := if e < i then e else e + 1;
      assert hashes'[e] == hashes[o] && entrySlots'[e] == entrySlots[o];
      ReachableGrows(bits, slots, slots', hashes[o].value, entrySlots[o]);
    }
  }

  lemma CountsFreed(slots: seq<Slot>, slot: nat)
    requires slot < |slots| && slots[slot].Occupied?
    ensures CountOccupied(slots[slot := Dummy]) == CountOccupied(slots) - 1
    ensures CountUsed(slots[slot := Dummy]) == CountUsed(slots)
  {
    CountsUpdate(slots, slot, Dummy);
  }

  lemma CountsRemove(bits: nat, hashes: Hashes, entrySlots: seq<nat>, slots: seq<Slot>, i: nat)
    requires |hashes| == |entrySlots| && i < |hashes| && Linked(bits, hashes, entrySlots, slots, |hashes|)
    requires CountOccupied(slots) == CountHashed(hashes, |hashes|)
    ensures var slots' := Unlinked(hashes, entrySlots, slots, i);
      && CountOccupied(slots') == CountHashed(Without(hashes, i), |hashes| - 1)
      && CountUsed(slots') == CountUsed(slots)
  {
    CountHashedWithout(hashes, i, |hashes|);
    if hashes[i].Some? {
      CountsFreed(slots, entrySlots[i]);
      CountsOfShifted(slots[entrySlots[i] := Dummy], i);
    } else {
      CountsOfShifted(slots, i);
    }
  }

  lemma CountsOfShifted(slots: seq<Slot>, i: nat)
    ensures CountOccupied(ShiftDown(slots, i)) == CountOccupied(slots)
    ensures CountUsed(ShiftDown(slots, i)) == CountUsed(slots)
  {
    CountsShiftDown(ShiftDown(slots, i), slots);
  }

  lemma IndexRemove(bits: nat, hashes: Hashes, entrySlots: seq<nat>, slots: seq<Slot>, i: nat)
    requires |hashes| == |entrySlots| && i < |hashes| && IndexOk(bits, hashes, entrySlots, slots, |hashes|)
    ensures var slots' := Unlinked(hashes, entrySlots, slots, i);
      && IndexOk(bits, Without(hashes, i), Without(entrySlots, i), slots', |hashes| - 1)
      && CountUsed(slots') == CountUsed(slots)
  {
    LinkedRemove(bits, hashes, entrySlots, slots, i);
    ChainedRemove(bits, hashes, entrySlots, slots, i);
    CountsRemove(bits, hashes, entrySlots, slots, i);
  }

  lemma EntriesRemove(entries: Entries, hashes: Hashes, i: nat)
    requires EntriesOk(entries, hashes) && i < |entries|
    ensures EntriesOk(Without(entries, i), Without(hashes, i))
  {
  }

  /** `maybe_resize_after_remove` rebuilds the slot table. */
  predicate Rebuilds(left: nat, size: nat, filled: nat) {
    left == 0 || filled > 2 * left || (size > 8 && left * 8 <= size)
  }

  /** Removing entry `i` leaves slots and entries agreeing. */
  predicate RemovalRenumbers(hashes: Hashes, slots: seq<Slot>, filled: nat, i: nat)
    requires i < |hashes|
  {
    || hashes[i].Some?
    || (forall e :: i < e < |hashes| ==> hashes[e].None?)
    || Rebuilds(|hashes| - 1, |slots|, filled)
  }

  lemma SizeBelowWord(bits: nat, size: nat)
    requires TableSize(bits, size)
    ensures size + 1 < Pow2(bits)
  {
    var k: nat :| 3 <= k && k + 3 <= bits && size == Pow2(k);
    Pow2Monotone(k + 3, bits);
    assert Pow2(k + 3) == 2 * Pow2(k + 2) && Pow2(k + 2) == 2 * Pow2(k + 1);
  }

  lemma SlotlessIsUnhashed(bits: nat, hashes: Hashes, entrySlots: seq<nat>, slots: seq<Slot>, e: nat)
    requires Linked(bits, hashes, entrySlots, slots, |hashes|) && e < |hashes|
    requires slots == [] || TableSize(bits, |slots|)
    ensures entrySlots[e] == NoSlot(bits) <==> hashes[e].None?
  {
    if hashes[e].Some? {
      SizeBelowWord(bits, |slots|);
    }
  }

  /** What the renumbering loop relies on: entry `e` has moved down from `e + 1`. */
  ghost predicate Renumberable(bits: nat, entrySlots: seq<nat>, slots: seq<Slot>, removed: nat) {
    && removed <= |entrySlots| && |slots| < Pow2(bits)
    && (forall s :: 0 <= s < |slots| && slots[s].Occupied? && slots[s].entry > removed ==>
          slots[s].entry <= |entrySlots| && entrySlots[slots[s].entry - 1] == s)
    && (forall e :: removed <= e < |entrySlots| && entrySlots[e] != NoSlot(bits) ==>
          entrySlots[e] < |slots| && slots[entrySlots[e]].Occupied? && slots[entrySlots[e]].entry == e + 1)
  }

  lemma RenumberReady(bits: nat, hashes: Hashes, entrySlots: seq<nat>, slots: seq<Slot>, i: nat)
    requires |hashes| == |entrySlots| && i < |hashes| && hashes[i].Some? && |slots| + 1 < Pow2(bits)
    requires Linked(bits, hashes, entrySlots, slots, |hashes|)
    ensures Renumberable(bits, Without(entrySlots, i), slots[entrySlots[i] := Dummy], i)
  {
    var entrySlots', freed := Without(entrySlots, i), slots[entrySlots[i] := Dummy];
    forall e | i <= e < |entrySlots'| && entrySlots'[e] != NoSlot(bits)
      ensures entrySlots'[e] < |freed| && freed[entrySlots'[e]].Occupied? && freed[entrySlots'[e]].entry == e + 1
    {
      assert entrySlots'[e] == entrySlots[e + 1] && hashes[e + 1].Some?;
      assert slots[entrySlots[i]].entry == i && slots[entrySlots[e + 1]].entry == e + 1;
    }
    forall s | 0 <= s < |freed| && freed[s].Occupied? && freed[s].entry > i
      ensures freed[s].entry <= |entrySlots'| && entrySlots'[freed[s].entry - 1] == s
    {
      assert slots[s] == freed[s];
    }
  }

  /** Dropping an entry without a slot leaves slots and entries agreeing exactly
      when no later entry has a slot. */
  lemma UnslottedRemoval(bits: nat, hashes: Hashes, entrySlots: seq<nat>, slots: seq<Slot>, i: nat)
    requires |hashes| == |entrySlots| && i < |hashes| && hashes[i].None?
    requires IndexOk(bits, hashes, entrySlots, slots, |hashes|)
    ensures IndexOk(bits, Without(hashes, i), Without(entrySlots, i), slots, |hashes| - 1)
       <==> forall e :: i < e < |hashes| ==> hashes[e].None?
  {
    var hashes', entrySlots' := Without(hashes, i), Without(entrySlots, i);
    if e :| i < e < |hashes| && hashes[e].Some? {
      assert hashes'[e - 1].Some? && entrySlots'[e - 1] == entrySlots[e];
      assert slots[entrySlots[e]].entry == e;
    } else {
      assert Unlinked(hashes, entrySlots, slots, i) == slots;
      IndexRemove(bits, hashes, entrySlots, slots, i);
    }
  }

  lemma HalfSize(bits: nat, size: nat)
    requires TableSize(bits, size) && size > 8
    ensures TableSize(bits, size / 2)
  {
    var k: nat :| 3 <= k && k + 3 <= bits && size == Pow2(k);
    assert Pow2(3) == 8;
    assert size / 2 == Pow2(k - 1);
  }

  /** What all operations but one keep: the entry list is in order, and the
      slot table indexes exactly the entries that have a hash. */
  ghost predicate State(bits: nat, entries: Entries, hashes: Hashes, entrySlots: seq<nat>, slots: seq<Slot>,
                        used: nat, filled: nat) {
    && bits >= 32
    && EntriesOk(entries, hashes)
    && |entrySlots| == |entries|
    && used == |entries|
    && filled == CountUsed(slots)
    && (slots == [] || TableSize(bits, |slots|))
    && IndexOk(bits, hashes, entrySlots, slots, |entries|)
  }

  lemma RebuildDone(bits: nat, entries: Entries, hashes: Hashes, entrySlots: seq<nat>, slots: seq<Slot>, filled: nat)
    requires bits >= 32 && EntriesOk(entries, hashes) && TableSize(bits, |slots|)
    requires Rebuilt(bits, hashes, entrySlots, slots, filled, |entries|)
    ensures State(bits, entries, hashes, entrySlots, slots, |entries|, filled)
  {
  }

  /** A new entry in a free slot its hash reaches. */
  lemma StateAppend(bits: nat, entries: Entries, hashes: Hashes, entrySlots: seq<nat>, slots: seq<Slot>,
                    used: nat, filled: nat, key: Key, value: Value, hash: u64, slot: nat)
    requires State(bits, entries, hashes, entrySlots, slots, used, filled) && NoMatch(entries, hashes, key, hash)
    requires Insertable(bits, slots, hash, slot)
    ensures State(bits, entries + [(key, value)], hashes + [Some(hash)], entrySlots + [slot],
                  slots[slot := Occupied(hash, |entries|)], used + 1, filled + if slots[slot].Empty? then 1 else 0)
  {
    EntriesAppend(entries, hashes, key, value, Some(hash));
    IndexPlace(bits, hashes, entrySlots, slots, |entries|, hash, slot, hashes + [Some(hash)], entrySlots + [slot]);
    CountsUpdate(slots, slot, Occupied(hash, |entries|));
  }

  lemma StateRemove(bits: nat, entries: Entries, hashes: Hashes, entrySlots: seq<nat>, slots: seq<Slot>,
                    used: nat, filled: nat, i: nat)
    requires State(bits, entries, hashes, entrySlots, slots, used, filled) && i < |entries|
    ensures State(bits, Without(entries, i), Without(hashes, i), Without(entrySlots, i),
                  Unlinked(hashes, entrySlots, slots, i), used - 1, filled)
    ensures hashes[i].Some? ==> Renumberable(bits, Without(entrySlots, i), slots[entrySlots[i] := Dummy], i)
    ensures NumHashed(Without(hashes, i)) <= filled
  {
    EntriesRemove(entries, hashes, i);
    IndexRemove(bits, hashes, entrySlots, slots, i);
    if hashes[i].Some? {
      SizeBelowWord(bits, |slots|);
      RenumberReady(bits, hashes, entrySlots, slots, i);
    }
  }

  /** The same without touching the slots, for an entry that has none. */
  lemma StateRemoveUnslotted(bits: nat, entries: Entries, hashes: Hashes, entrySlots: seq<nat>, slots: seq<Slot>,
                             used: nat, filled: nat, i: nat)
    requires State(bits, entries, hashes, entrySlots, slots, used, filled) && i < |entries| && hashes[i].None?
    ensures State(bits, Without(entries, i), Without(hashes, i), Without(entrySlots, i), slots, used - 1, filled)
       <==> forall e :: i < e < |hashes| ==> hashes[e].None?
    ensures EntriesOk(Without(entries, i), Without(hashes, i))
    ensures NumHashed(Without(hashes, i)) <= filled
  {
    EntriesRemove(entries, hashes, i);
    UnslottedRemoval(bits, hashes, entrySlots, slots, i);
    CountHashedWithout(hashes, i, |hashes|);
  }

  // ------------------------------------------------- stored hashes are the keys'

  /** Every stored hash is the key's own: no caller supplied another one. */
  ghost predicate Plain(entries: Entries, hashes: Hashes) {
    |entries| == |hashes| && forall e :: 0 <= e < |entries| ==> hashes[e] == entries[e].0.hash
  }

  /** The first entry with a hash from `from` on. */
  lemma {:induction false} FirstHashed(hashes: Hashes, from: nat, e: nat) returns (first: nat)
    requires from <= e < |hashes| && hashes[e].Some?
    ensures from <= first <= e && hashes[first].Some? && forall k :: from <= k < first ==> hashes[k].None?
    decreases e - from
  {
    if hashes[from].Some? {
      first := from;
    } else {
      first := FirstHashed(hashes, from + 1, e);
    }
  }

  /** Among the stored keys: each equals itself, and equality goes both ways
      and never between different hashes. */
  ghost predicate Steady(entries: Entries) {
    forall i, j :: 0 <= i < |entries| && 0 <= j < |entries| ==>
      && (i == j ==> KeyEqual(entries[i].0, entries[j].0))
      && (KeyEqual(entries[i].0, entries[j].0) ==> KeyEqual(entries[j].0, entries[i].0) && entries[i].0.hash == entries[j].0.hash)
  }

  /** Dropping an entry without a slot, with a hashed entry behind it and the
      slots left alone, loses the first such entry: no lookup finds it. */
  lemma StaleNotFound(bits: nat, entries: Entries, hashes: Hashes, entrySlots: seq<nat>, slots: seq<Slot>, i: nat, e: nat)
    requires EntriesOk(entries, hashes) && Plain(entries, hashes) && Steady(entries)
    requires |entrySlots| == |entries| && Linked(bits, hashes, entrySlots, slots, |entries|)
    requires i < e < |entries| && hashes[e].Some? && forall k :: i <= k < e ==> hashes[k].None?
    ensures Without(entries, i)[e - 1] == entries[e] && Without(hashes, i)[e - 1] == hashes[e]
    ensures !FindsKey(bits, Without(entries, i), slots, entries[e].0, hashes[e].value)
  {
    var left, key, hash := Without(entries, i), entries[e].0, hashes[e].value;
    forall s | 0 <= s < |slots|
      ensures !SlotMatches(left, slots[s], key, hash)
    {
      if slots[s].Occupied? && slots[s].entry < |left| {
        var at := slots[s].entry;
        assert left[at] == entries[if at < i then at else at + 1];
      }
    }
    WalkNeverHits(bits, left, slots, key, hash, 0);
  }

  /** So not every entry left is found. */
  lemma StaleLosesEntry(bits: nat, entries: Entries, hashes: Hashes, entrySlots: seq<nat>, slots: seq<Slot>, i: nat)
    requires EntriesOk(entries, hashes) && Plain(entries, hashes) && Steady(entries)
    requires |entrySlots| == |entries| && Linked(bits, hashes, entrySlots, slots, |entries|)
    requires i < |entries| && hashes[i].None? && exists e :: i < e < |hashes| && hashes[e].Some?
    ensures !AllFound(bits, Without(entries, i), Without(hashes, i), slots)
  {
    var e :| i < e < |hashes| && hashes[e].Some?;
    var first := FirstHashed(hashes, i, e);
    StaleNotFound(bits, entries, hashes, entrySlots, slots, i, first);
  }

  /** All entries left are found exactly when the removal leaves the index in order. */
  lemma FoundAfterRemoval(bits: nat, entries: Entries, hashes: Hashes, entrySlots: seq<nat>, slots: seq<Slot>,
                          used: nat, filled: nat, i: nat,
                          entrySlots': seq<nat>, slots': seq<Slot>, used': nat, filled': nat)
    requires State(bits, entries, hashes, entrySlots, slots, used, filled) && i < |entries|
    requires if RemovalRenumbers(hashes, slots, filled, i)
             then State(bits, Without(entries, i), Without(hashes, i), entrySlots', slots', used', filled')
             else slots' == slots
    ensures Plain(entries, hashes) ==> Plain(Without(entries, i), Without(hashes, i))
    ensures Plain(entries, hashes) && Steady(entries) ==>
              (AllFound(bits, Without(entries, i), Without(hashes, i), slots') <==> RemovalRenumbers(hashes, slots, filled, i))
  {
    if Plain(entries, hashes) && Steady(entries) {
      if RemovalRenumbers(hashes, slots, filled, i) {
        IndexFinds(bits, Without(entries, i), Without(hashes, i), entrySlots', slots');
      } else {
        StaleLosesEntry(bits, entries, hashes, entrySlots, slots, i);
      }
    }
  }

  /** The entry an operation on `key` means: by hash where the table is used,
      else the first with an equal key. */
  function IndexOf(bits: nat, entries: Entries, slots: seq<Slot>, tabled: bool, key: Key): (r: Option<nat>)
    ensures r.Some? ==> r.value < |entries| && KeyEqual(entries[r.value].0, key)
  {
    if key.hash.Some? && tabled then Located(bits, entries, slots, key, key.hash.value) else FirstEqual(entries, key)
  }

  /** At most one stored key equals `key`, and it has its hash. */
  ghost predicate Settles(entries: Entries, key: Key) {
    && (forall e :: 0 <= e < |entries| && KeyEqual(entries[e].0, key) ==> entries[e].0.hash == key.hash)
    && (forall i, j :: 0 <= i < j < |entries| && KeyEqual(entries[i].0, key) ==> !KeyEqual(entries[j].0, key))
  }

  /** Then an operation with the key's own hash is a search for an equal key. */
  lemma SettledIndexOf(bits: nat, entries: Entries, hashes: Hashes, entrySlots: seq<nat>, slots: seq<Slot>, tabled: bool, key: Key)
    requires Plain(entries, hashes) && IndexOk(bits, hashes, entrySlots, slots, |entries|) && Settles(entries, key)
    ensures IndexOf(bits, entries, slots, tabled, key) == FirstEqual(entries, key)
  {
    if key.hash.Some? && tabled {
      LocatedIsMeant(bits, entries, hashes, entrySlots, slots, key, key.hash.value);
      var first := FirstEqual(entries, key);
      assert first.Some? ==> Matches(entries, hashes, first.value, key, key.hash.value);
    }
  }

  /** Insert-or-update on the list: what a Python dict promises. */
  function Put(entries: Entries, key: Key, value: Value): Entries {
    PutAt(entries, FirstEqual(entries, key), key, value)
  }

  function Get(entries: Entries, key: Key): Option<Value> {
    var at := FirstEqual(entries, key);
    if at.Some? then Some(entries[at.value].1) else None
  }

  function Delete(entries: Entries, key: Key): Entries {
    var at := FirstEqual(entries, key);
    if at.Some? then Without(entries, at.value) else entries
  }

  /** The entries whose flag is set, in order. */
  function Kept<T>(s: seq<T>, keep: seq<bool>): seq<T>
    requires |s| == |keep|
  {
    if s == [] then []
    else Kept(s[..|s| - 1], keep[..|s| - 1]) + if keep[|s| - 1] then [s[|s| - 1]] else []
  }

  lemma {:induction false} KeptOk(entries: Entries, hashes: Hashes, keep: seq<bool>)
    requires EntriesOk(entries, hashes) && |keep| == |entries|
    ensures EntriesOk(Kept(entries, keep), Kept(hashes, keep))
    ensures forall e :: 0 <= e < |Kept(entries, keep)| ==>
              exists o :: 0 <= o < |entries| && Kept(entries, keep)[e] == entries[o] && Kept(hashes, keep)[e] == hashes[o]
    ensures |Kept(entries, keep)| <= |entries|
  {
    if entries != [] {
      var n := |entries| - 1;
      var before, beforeHashes := Kept(entries[..n], keep[..n]), Kept(hashes[..n], keep[..n]);
      KeptOk(entries[..n], hashes[..n], keep[..n]);
      forall e | 0 <= e < |before|
        ensures exists o :: 0 <= o < n && before[e] == entries[o] && beforeHashes[e] == hashes[o]
      {
        var o :| 0 <= o < n && before[e] == entries[..n][o] && beforeHashes[e] == hashes[..n][o];
        assert before[e] == entries[o];
      }
      if keep[n] && hashes[n].Some? {
        forall e | 0 <= e < |before|
          ensures !Matches(before, beforeHashes, e, entries[n].0, hashes[n].value)
        {
          var o :| 0 <= o < n && before[e] == entries[o] && beforeHashes[e] == hashes[o];
        }
      }
      if keep[n] {
        EntriesAppend(before, beforeHashes, entries[n].0, entries[n].1, hashes[n]);
      }
    }
  }

  function HashesPut(hashes: Hashes, at: Option<nat>, key: Key): Hashes {
    if at.Some? then hashes else hashes + [key.hash]
  }

  lemma PlainPut(entries: Entries, hashes: Hashes, at: Option<nat>, key: Key, value: Value)
    requires Plain(entries, hashes) && (at.Some? ==> at.value < |entries|)
    ensures Plain(PutAt(entries, at, key, value), HashesPut(hashes, at, key))
  {
  }

  class Backend {
    const bits: nat
    var entries: Entries
    var entryHashes: Hashes
    var entrySlots: seq<nat>
    var slots: seq<Slot>
    var used: nat
    var filled: nat

    ghost predicate Valid()
      reads this
    {
      State(bits, entries, entryHashes, entrySlots, slots, used, filled)
    }

    constructor (bits: nat)
      requires bits == 32 || bits == 64
      ensures Valid() && entries == [] && slots == [] && this.bits == bits
    {
      this.bits := bits;
      entries, entryHashes, entrySlots, slots := [], [], [], [];
      used, filled := 0, 0;
    }

    method Clear()
      requires bits >= 32
      modifies this
      ensures Valid() && entries == [] && slots == []
    {
      entries, entryHashes, entrySlots, slots := [], [], [], [];
      used, filled := 0, 0;
    }

    /** A free slot the hash reaches, whenever there is a free slot at all. */
    method LookupVacantSlot(hash: u64) returns (found: nat)
      requires TableSize(bits, |slots|)
      ensures found < |slots|
      ensures CountOccupied(slots) < |slots| ==> Insertable(bits, slots, hash, found)
    {
      var slot, perturb := Word(bits, hash) % |slots|, Word(bits, hash);
      var firstDummy: Option<nat> := None;
      for round := 0 to |slots| + PerturbRounds(bits)
        invariant slot == ProbeSlot(bits, |slots|, hash, round) && perturb == Perturb(Word(bits, hash), round)
        invariant Walked(bits, slots, hash, round, firstDummy)
      {
        WalkHere(bits, slots, hash, round, firstDummy);
        match slots[slot] {
          case Empty =>
            return if firstDummy.Some? then firstDummy.value else slot;
          case Dummy =>
            if firstDummy.None? {
              firstDummy := Some(slot);
            }
          case Occupied(_, _) =>
        }
        slot := NextSlot(bits, |slots|, slot, perturb);
        perturb := perturb / 32;
      }
      WalkedOut(bits, slots, hash, firstDummy);
      return if firstDummy.Some? then firstDummy.value else slot;
    }

    /** The matching entry if there is one; otherwise where to insert. */
    method LookupSlot(key: Key, hash: u64) returns (r: SlotLookup)
      requires Valid() && slots != []
      ensures r.Found? ==> r.entry < |entries| && Matches(entries, entryHashes, r.entry, key, hash)
      ensures r.Vacant? ==> NoMatch(entries, entryHashes, key, hash) && r.slot < |slots|
      ensures r.Vacant? && CountOccupied(slots) < |slots| ==> Insertable(bits, slots, hash, r.slot)
      ensures WalkFrom(bits, entries, slots, key, hash, 0) == if r.Found? then Hit(r.entry) else Miss
    {
      LocatedIsMeant(bits, entries, entryHashes, entrySlots, slots, key, hash);
      var slot, perturb := Word(bits, hash) % |slots|, Word(bits, hash);
      var firstDummy: Option<nat> := None;
      for round := 0 to |slots| + PerturbRounds(bits)
        invariant slot == ProbeSlot(bits, |slots|, hash, round) && perturb == Perturb(Word(bits, hash), round)
        invariant WalkFrom(bits, entries, slots, key, hash, 0) == WalkFrom(bits, entries, slots, key, hash, round)
        invariant Walked(bits, slots, hash, round, firstDummy)
      {
        WalkHere(bits, slots, hash, round, firstDummy);
        match slots[slot] {
          case Empty =>
            return Vacant(if firstDummy.Some? then firstDummy.value else slot);
          case Dummy =>
            if firstDummy.None? {
              firstDummy := Some(slot);
            }
          case Occupied(slotHash, entry) =>
            if slotHash == hash && KeyEqual(entries[entry].0, key) {
              return Found(entry);
            }
        }
        slot := NextSlot(bits, |slots|, slot, perturb);
        perturb := perturb / 32;
      }
      WalkedOut(bits, slots, hash, firstDummy);
      return Vacant(if firstDummy.Some? then firstDummy.value else slot);
    }

    /** The stored hash of an entry, or its key's, which is stored then. */
    method EntryHash(entry: nat) returns (hash: Option<u64>)
      requires EntriesOk(entries, entryHashes) && entry < |entries|
      modifies this`entryHashes
      ensures entryHashes == old(entryHashes) && hash == entryHashes[entry]
    {
      hash := entryHashes[entry];
      if hash.None? {
        hash := entries[entry].0.hash;
        entryHashes := entryHashes[entry := hash];
      }
    }

    /** The slot of the next entry, if it has a hash. */
    method PlaceHashed(entry: nat, hash: u64)
      requires TableSize(bits, |slots|) && Rebuilt(bits, entryHashes, entrySlots, slots, filled, entry)
      requires entry < |entryHashes| && entryHashes[entry] == Some(hash) && CountHashed(entryHashes, |entryHashes|) <= |slots|
      modifies this`entrySlots, this`slots, this`filled
      ensures |slots| == old(|slots|) && Rebuilt(bits, entryHashes, entrySlots, slots, filled, entry + 1)
    {
      RoomLeft(entryHashes, slots, entry);
      var slot := LookupVacantSlot(hash);
      RebuildStep(bits, entryHashes, entrySlots, slots, filled, entry, slot);
      slots := slots[slot := Occupied(hash, entry)];
      entrySlots := entrySlots[entry := slot];
      filled := filled + 1;
    }

    /** One round of the rebuilding loop. */
    method PlaceEntry(entry: nat)
      requires EntriesOk(entries, entryHashes) && entry < |entries| && TableSize(bits, |slots|)
      requires Rebuilt(bits, entryHashes, entrySlots, slots, filled, entry)
      requires CountHashed(entryHashes, |entries|) <= |slots|
      modifies this`entryHashes, this`entrySlots, this`slots, this`filled
      ensures entryHashes == old(entryHashes) && |slots| == old(|slots|)
      ensures Rebuilt(bits, entryHashes, entrySlots, slots, filled, entry + 1)
    {
      var hash := EntryHash(entry);
      if hash.Some? {
        PlaceHashed(entry, hash.value);
      } else {
        RebuildStep(bits, entryHashes, entrySlots, slots, filled, entry, 0);
      }
    }

    method StartTable(size: nat)
      requires |entries| == |entryHashes|
      modifies this`entrySlots, this`slots, this`used, this`filled
      ensures |slots| == size && used == |entries|
      ensures Rebuilt(bits, entryHashes, entrySlots, slots, filled, 0)
    {
      slots, entrySlots := seq(size, _ => Empty), seq(|entries|, _ => NoSlot(bits));
      filled, used := 0, |entries|;
      RebuildStart(bits, entryHashes, entrySlots, slots);
    }

    /** Rebuild the slot table with room for `target` slots. */
    method ResizeSlots(target: nat)
      requires bits >= 32 && EntriesOk(entries, entryHashes)
      requires TableSize(bits, NextPowerOfTwo(target, 8))
      requires CountHashed(entryHashes, |entries|) <= NextPowerOfTwo(target, 8)
      modifies this`entryHashes, this`entrySlots, this`slots, this`used, this`filled
      ensures Valid() && entryHashes == old(entryHashes)
      ensures |slots| == NextPowerOfTwo(target, 8) && filled == CountHashed(entryHashes, |entries|)
    {
      StartTable(NextPowerOfTwo(target, 8));
      PlaceEntries();
      RebuildDone(bits, entries, entryHashes, entrySlots, slots, filled);
    }

    /** The rebuilding loop. */
    method PlaceEntries()
      requires EntriesOk(entries, entryHashes) && TableSize(bits, |slots|)
      requires Rebuilt(bits, entryHashes, entrySlots, slots, filled, 0)
      requires CountHashed(entryHashes, |entries|) <= |slots|
      modifies this`entryHashes, this`entrySlots, this`slots, this`filled
      ensures entryHashes == old(entryHashes) && |slots| == old(|slots|)
      ensures Rebuilt(bits, entryHashes, entrySlots, slots, filled, |entries|)
    {
      for entry := 0 to |entries|
        invariant entryHashes == old(entryHashes) && |slots| == old(|slots|)
        invariant Rebuilt(bits, entryHashes, entrySlots, slots, filled, entry)
      {
        PlaceEntry(entry);
      }
    }

    /** The replaced value of an existing entry. */
    method SetValueAt(entry: nat, value: Value)
      requires Valid() && entry < |entries|
      modifies this`entries
      ensures Valid() && entries == old(entries)[entry := (old(entries)[entry].0, value)]
    {
      entries := entries[entry := (entries[entry].0, value)];
    }

    /** The slot for a new entry, in a table grown beyond its load limit if need be. */
    method SlotWithRoom(hash: u64, vacant: nat) returns (slot: nat)
      requires Valid() && slots != [] && TableSize(bits, 2 * |slots|)
      requires CountOccupied(slots) < |slots| ==> Insertable(bits, slots, hash, vacant)
      modifies this`entryHashes, this`entrySlots, this`slots, this`used, this`filled
      ensures Valid() && slots != [] && entryHashes == old(entryHashes)
      ensures Insertable(bits, slots, hash, slot)
      ensures filled <= old(filled)
      ensures |slots| == (if old(filled) + 1 > old(|slots|) * 2 / 3 then 2 * old(|slots|) else old(|slots|))
      ensures |slots| == old(|slots|) || |slots| <= 3 * old(filled) + 2
    {
      slot := vacant;
      if filled + 1 > |slots| * 2 / 3 {
        SizeExact(bits, 2 * |slots|);
        ResizeSlots(|slots| * 2);
        slot := LookupVacantSlot(hash);
      }
    }

    /** The first slot table, when there is none. */
    method EnsureTable()
      requires Valid() && (slots == [] || TableSize(bits, 2 * |slots|))
      modifies this`entryHashes, this`entrySlots, this`slots, this`used, this`filled
      ensures Valid() && slots != [] && TableSize(bits, 2 * |slots|) && entryHashes == old(entryHashes)
      ensures old(slots) != [] ==> slots == old(slots)
      ensures filled <= old(filled) && |slots| <= Larger(old(|slots|), 8)
    {
      if slots == [] {
        SmallestSize(bits);
        ResizeSlots(MIN_TABLE_SIZE);
      }
    }

    /** Insert or update with a caller-supplied hash; the table is doubled
        exactly when a new entry would use more than two thirds of it. */
    method InsertWithHash(key: Key, value: Value, hash: u64)
      requires Valid()
      requires slots == [] || TableSize(bits, 2 * |slots|)  // the doubled table fits the address space
      modifies this
      ensures Valid() && slots != []
      ensures filled <= old(filled) + 1 && |slots| <= Larger(old(|slots|), 3 * old(filled) + 8)
      ensures old(slots) != [] ==>
                var grows := Located(bits, old(entries), old(slots), key, hash).None? && old(filled) + 1 > old(|slots|) * 2 / 3;
                |slots| == if grows then 2 * old(|slots|) else old(|slots|)
      ensures var at := Located(bits, old(entries), old(slots), key, hash);
        && Meant(old(entries), old(entryHashes), key, hash, at)
        && entries == PutAt(old(entries), at, key, value)
        && entryHashes == if at.Some? then old(entryHashes) else old(entryHashes) + [Some(hash)]
    {
      LocatedIsMeant(bits, entries, entryHashes, entrySlots, slots, key, hash);
      EnsureTable();
      var lookup := LookupSlot(key, hash);
      match lookup {
        case Found(entry) =>
          SetValueAt(entry, value);
        case Vacant(vacant) =>
          AppendNew(key, value, hash, vacant);
      }
    }

    /** A new entry, with the table grown first if need be. */
    method AppendNew(key: Key, value: Value, hash: u64, vacant: nat)
      requires Valid() && NoMatch(entries, entryHashes, key, hash) && slots != [] && TableSize(bits, 2 * |slots|)
      requires CountOccupied(slots) < |slots| ==> Insertable(bits, slots, hash, vacant)
      modifies this
      ensures Valid() && slots != [] && filled <= old(filled) + 1
      ensures |slots| == (if old(filled) + 1 > old(|slots|) * 2 / 3 then 2 * old(|slots|) else old(|slots|))
      ensures |slots| == old(|slots|) || |slots| <= 3 * old(filled) + 2
      ensures entries == old(entries) + [(key, value)] && entryHashes == old(entryHashes) + [Some(hash)]
    {
      var slot := SlotWithRoom(hash, vacant);
      Append(key, value, hash, slot);
    }

    /** The tail of an insertion: the new entry in its slot. */
    method Append(key: Key, value: Value, hash: u64, slot: nat)
      requires Valid() && NoMatch(entries, entryHashes, key, hash)
      requires Insertable(bits, slots, hash, slot)
      modifies this
      ensures Valid() && |slots| == old(|slots|) && filled <= old(filled) + 1
      ensures entries == old(entries) + [(key, value)] && entryHashes == old(entryHashes) + [Some(hash)]
    {
      var entry := |entries|;
      StateAppend(bits, entries, entryHashes, entrySlots, slots, used, filled, key, value, hash, slot);
      entries := entries + [(key, value)];
      entryHashes := entryHashes + [Some(hash)];
      entrySlots := entrySlots + [slot];
      used := used + 1;
      if slots[slot].Empty? {
        filled := filled + 1;
      }
      slots := slots[slot := Occupied(hash, entry)];
    }

    /** Renumber the slots of the entries that moved down. */
    method AdjustSlotIndicesAfterRemove(removed: nat)
      requires Renumberable(bits, entrySlots, slots, removed)
      modifies this`slots
      ensures slots == ShiftDown(old(slots), removed)
    {
      var p := removed;
      while p < |entrySlots|
        invariant removed <= p <= |entrySlots| && |slots| == |old(slots)|
        invariant forall s :: 0 <= s < |slots| ==>
                    slots[s] == if old(slots)[s].Occupied? && old(slots)[s].entry <= p
                                then Shifted(old(slots)[s], removed) else old(slots)[s]
      {
        var slot := entrySlots[p];
        if slot != NoSlot(bits) && slot < |slots| && slots[slot].Occupied? && slots[slot].entry > removed {
          slots := slots[slot := slots[slot].(entry := slots[slot].entry - 1)];
        }
        p := p + 1;
      }
    }

    /** After a removal: rebuild when empty, full of dummies or far too large. */
    method MaybeResizeAfterRemove()
      requires bits >= 32 && EntriesOk(entries, entryHashes) && used == |entries|
      requires filled == CountUsed(slots) && (slots == [] || TableSize(bits, |slots|))
      requires NumHashed(entryHashes) <= filled
      modifies this
      ensures entries == old(entries) && entryHashes == old(entryHashes)
      ensures filled <= old(filled) && |slots| <= old(|slots|)
      ensures slots == [] <==> entries == [] || old(slots) == []
      ensures entries != [] && old(filled) > 2 * |entries| ==> |slots| == Larger(old(|slots|), 8)
      ensures entries != [] && old(filled) <= 2 * |entries| && Rebuilds(|entries|, old(|slots|), old(filled)) ==>
                |slots| == old(|slots|) / 2
      ensures if Rebuilds(|entries|, old(|slots|), old(filled)) then Valid() else
                entrySlots == old(entrySlots) && slots == old(slots) && used == old(used) && filled == old(filled)
    {
      if entries == [] {
        Clear();
        return;
      }
      var dummyCount := if filled > used then filled - used else 0;
      if dummyCount > used {
        SizeExact(bits, |slots|);
        ResizeSlots(if |slots| > MIN_TABLE_SIZE then |slots| else MIN_TABLE_SIZE);
        return;
      }
      if |slots| <= MIN_TABLE_SIZE {
        return;
      }
      if used * 8 <= |slots| {
        HalfSize(bits, |slots|);
        SizeExact(bits, |slots| / 2);
        ResizeSlots(|slots| / 2);
      }
    }

    method RemoveSlotForEntry(entry: nat, slot: nat)
      modifies this`slots
      ensures slots == if slot < |old(slots)| && old(slots)[slot].Occupied? && old(slots)[slot].entry == entry
                       then old(slots)[slot := Dummy] else old(slots)
    {
      if slot < |slots| && slots[slot].Occupied? && slots[slot].entry == entry {
        slots := slots[slot := Dummy];
      }
    }

    /** The slot of a removed entry becomes a dummy and later entries are renumbered. */
    method Unlink(index: nat)
      requires |entries| == |entryHashes| == |entrySlots| && index < |entries| && entryHashes[index].Some?
      requires entrySlots[index] < |slots| && slots[entrySlots[index]] == Occupied(entryHashes[index].value, index)
      requires Renumberable(bits, Without(entrySlots, index), slots[entrySlots[index] := Dummy], index)
      modifies this`entries, this`entryHashes, this`entrySlots, this`slots, this`used
      ensures entries == Without(old(entries), index) && entryHashes == Without(old(entryHashes), index)
      ensures entrySlots == Without(old(entrySlots), index) && used == |entries|
      ensures slots == Unlinked(old(entryHashes), old(entrySlots), old(slots), index)
    {
      RemoveSlotForEntry(index, entrySlots[index]);
      entries, entryHashes := Without(entries, index), Without(entryHashes, index);
      entrySlots := Without(entrySlots, index);
      AdjustSlotIndicesAfterRemove(index);
      used := |entries|;
    }

    /** The removal proper, before the table is reconsidered. */
    method DropEntry(index: nat)
      requires Valid() && index < |entries|
      modifies this`entries, this`entryHashes, this`entrySlots, this`slots, this`used
      ensures entries == Without(old(entries), index) && entryHashes == Without(old(entryHashes), index)
      ensures EntriesOk(entries, entryHashes) && used == |entries| && |slots| == old(|slots|)
      ensures filled == CountUsed(slots) && NumHashed(entryHashes) <= filled
      ensures Valid() <==> (old(entryHashes)[index].None? ==>
                forall e :: index < e < |old(entries)| ==> old(entryHashes)[e].None?)
      ensures old(entryHashes)[index].None? ==> slots == old(slots) && filled == old(filled)
    {
      SlotlessIsUnhashed(bits, entryHashes, entrySlots, slots, index);
      if entrySlots[index] != NoSlot(bits) {
        StateRemove(bits, entries, entryHashes, entrySlots, slots, used, filled, index);
        Unlink(index);
      } else {
        StateRemoveUnslotted(bits, entries, entryHashes, entrySlots, slots, used, filled, index);
        entries, entryHashes := Without(entries, index), Without(entryHashes, index);
        entrySlots := Without(entrySlots, index);
        used := |entries|;
      }
    }

    /** The removal with the table reconsidered. */
    method TakeOut(index: nat)
      requires Valid() && index < |entries|
      modifies this
      ensures entries == Without(old(entries), index) && entryHashes == Without(old(entryHashes), index)
      ensures filled <= old(filled) && |slots| <= old(|slots|)
      ensures Valid() <==> RemovalRenumbers(old(entryHashes), old(slots), old(filled), index)
      ensures !Valid() ==> slots == old(slots)
      ensures slots == [] <==> entries == [] || old(slots) == []
    {
      DropEntry(index);
      MaybeResizeAfterRemove();
    }

    /** Take entry `index` out of the list.  An entry without a slot is taken
        out without renumbering, which breaks the index exactly when a later
        entry has a slot and no rebuild follows. */
    method Remove(index: nat) returns (removed: (Key, Value))
      requires Valid() && index < |entries|
      modifies this
      ensures removed == old(entries)[index]
      ensures entries == Without(old(entries), index) && entryHashes == Without(old(entryHashes), index)
      ensures filled <= old(filled) && |slots| <= old(|slots|)
      ensures Valid() <==> RemovalRenumbers(old(entryHashes), old(slots), old(filled), index)
      ensures !Valid() ==> slots == old(slots)
      ensures slots == [] <==> entries == [] || old(slots) == []
      ensures Plain(old(entries), old(entryHashes)) ==> Plain(entries, entryHashes)
      ensures Plain(old(entries), old(entryHashes)) && Steady(old(entries)) ==>
                (AllFound(bits, entries, entryHashes, slots)
                 <==> RemovalRenumbers(old(entryHashes), old(slots), old(filled), index))
    {
      removed := entries[index];
      TakeOut(index);
      FoundAfterRemoval(bits, old(entries), old(entryHashes), old(entrySlots), old(slots), old(used), old(filled), index,
                        entrySlots, slots, used, filled);
    }

    method FindIndexWithHash(key: Key, hash: u64) returns (r: Option<nat>)
      requires Valid()
      ensures r == if slots == [] then FirstEqual(entries, key) else Located(bits, entries, slots, key, hash)
      ensures slots != [] ==> Meant(entries, entryHashes, key, hash, r)
    {
      if slots != [] {
        var lookup := LookupSlot(key, hash);
        match lookup {
          case Found(entry) =>
            return Some(entry);
          case Vacant(_) =>
            return None;
        }
      }
      r := FirstEqual(entries, key);
    }

    method FindIndex(key: Key) returns (r: Option<nat>)
      requires Valid()
      ensures r == IndexOf(bits, entries, slots, slots != [], key)
      ensures key.hash.Some? && slots != [] ==> Meant(entries, entryHashes, key, key.hash.value, r)
      ensures Plain(entries, entryHashes) && Settles(entries, key) ==> r == FirstEqual(entries, key)
    {
      if key.hash.Some? {
        r := FindIndexWithHash(key, key.hash.value);
      } else {
        r := FirstEqual(entries, key);
      }
      if Plain(entries, entryHashes) && Settles(entries, key) {
        SettledIndexOf(bits, entries, entryHashes, entrySlots, slots, slots != [], key);
      }
    }

    method Find(key: Key) returns (r: Option<Value>)
      requires Valid()
      ensures var at := IndexOf(bits, entries, slots, slots != [], key);
        && r == (if at.Some? then Some(entries[at.value].1) else None)
        && (key.hash.Some? && slots != [] ==> Meant(entries, entryHashes, key, key.hash.value, at))
      ensures Plain(entries, entryHashes) && Settles(entries, key) ==> r == Get(entries, key)
    {
      var at := FindIndex(key);
      r := if at.Some? then Some(entries[at.value].1) else None;
    }

    /** Insert or update with the key's own hash, or without one if unhashable. */
    method Insert(key: Key, value: Value)
      requires Valid()
      requires slots == [] || TableSize(bits, 2 * |slots|)  // the doubled table fits the address space
      modifies this
      ensures Valid()
      ensures var at := IndexOf(bits, old(entries), old(slots), true, key);
        && entries == PutAt(old(entries), at, key, value)
        && entryHashes == HashesPut(old(entryHashes), at, key)
        && (key.hash.Some? ==> Meant(old(entries), old(entryHashes), key, key.hash.value, at))
      ensures Plain(old(entries), old(entryHashes)) ==> Plain(entries, entryHashes)
      ensures Plain(old(entries), old(entryHashes)) && Settles(old(entries), key) ==> entries == Put(old(entries), key, value)
      ensures if key.hash.None? then slots == old(slots) && filled == old(filled) else slots != []
      ensures filled <= old(filled) + 1 && |slots| <= Larger(old(|slots|), 3 * old(filled) + 8)
    {
      ghost var at := IndexOf(bits, entries, slots, true, key);
      if Plain(entries, entryHashes) {
        PlainPut(entries, entryHashes, at, key, value);
        if Settles(entries, key) {
          SettledIndexOf(bits, entries, entryHashes, entrySlots, slots, true, key);
        }
      }
      if key.hash.Some? {
        InsertWithHash(key, value, key.hash.value);
      } else {
        InsertUnhashed(key, value);
      }
    }

    /** An unhashable key is searched for, and appended without a slot. */
    method InsertUnhashed(key: Key, value: Value)
      requires Valid() && key.hash.None?
      modifies this`entries, this`entryHashes, this`entrySlots, this`used
      ensures Valid()
      ensures var at := FirstEqual(old(entries), key);
        && entries == PutAt(old(entries), at, key, value)
        && entryHashes == if at.Some? then old(entryHashes) else old(entryHashes) + [None]
    {
      var at := FindIndex(key);
      if at.Some? {
        SetValueAt(at.value, value);
      } else {
        AppendUnhashed(key, value);
      }
    }

    method AppendUnhashed(key: Key, value: Value)
      requires Valid() && key.hash.None?
      modifies this`entries, this`entryHashes, this`entrySlots, this`used
      ensures Valid()
      ensures entries == old(entries) + [(key, value)] && entryHashes == old(entryHashes) + [None]
    {
      EntriesAppend(entries, entryHashes, key, value, None);
      IndexSkip(bits, entryHashes, entrySlots, slots, |entries|, entryHashes + [None], entrySlots + [NoSlot(bits)]);
      entries := entries + [(key, value)];
      entryHashes := entryHashes + [None];
      entrySlots := entrySlots + [NoSlot(bits)];
      used := |entries|;
    }

    method RemoveKey(key: Key) returns (r: Option<(Key, Value)>)
      requires Valid()
      modifies this
      ensures var at := IndexOf(bits, old(entries), old(slots), old(slots) != [], key);
        && (key.hash.Some? && old(slots) != [] ==> Meant(old(entries), old(entryHashes), key, key.hash.value, at))
        && r == (if at.Some? then Some(old(entries)[at.value]) else None)
        && entries == (if at.Some? then Without(old(entries), at.value) else old(entries))
        && entryHashes == (if at.Some? then Without(old(entryHashes), at.value) else old(entryHashes))
        && (Valid() <==> at.None? || RemovalRenumbers(old(entryHashes), old(slots), old(filled), at.value))
        && (slots == [] <==> old(slots) == [] || (at.Some? && entries == []))
      ensures Plain(old(entries), old(entryHashes)) ==> Plain(entries, entryHashes)
      ensures Plain(old(entries), old(entryHashes)) && Settles(old(entries), key) ==> entries == Delete(old(entries), key)
      ensures Plain(old(entries), old(entryHashes)) && Steady(old(entries)) ==>
                (AllFound(bits, entries, entryHashes, slots) <==> Valid())
      ensures !Valid() ==> slots == old(slots)
      ensures filled <= old(filled) && |slots| <= old(|slots|)
    {
      var at := FindIndex(key);
      if at.None? {
        if Steady(entries) {
          IndexFinds(bits, entries, entryHashes, entrySlots, slots);
        }
        return None;
      }
      var removed := Remove(at.value);
      r := Some(removed);
    }

    /** Keep the flagged entries.  The table is rebuilt to the next power of
        two, possibly without a single free slot. */
    method Retain(keep: seq<bool>)
      requires bits >= 32 && EntriesOk(entries, entryHashes) && |keep| == |entries|
      requires TableSize(bits, NextPowerOfTwo(Larger(|Kept(entries, keep)|, MIN_TABLE_SIZE), 8))
      modifies this
      ensures Valid() && entries == Kept(old(entries), keep) && entryHashes == Kept(old(entryHashes), keep)
    {
      KeptOk(entries, entryHashes, keep);
      ghost var allEntries, allHashes := entries, entryHashes;
      var newEntries: Entries, newHashes: Hashes := [], [];
      for e := 0 to |entries|
        invariant entries == allEntries && entryHashes == allHashes
        invariant newEntries == Kept(entries[..e], keep[..e]) && newHashes == Kept(entryHashes[..e], keep[..e])
      {
        assert entries[..e + 1][..e] == entries[..e] && entryHashes[..e + 1][..e] == entryHashes[..e];
        assert keep[..e + 1][..e] == keep[..e];
        if keep[e] {
          newEntries, newHashes := newEntries + [entries[e]], newHashes + [entryHashes[e]];
        }
      }
      assert entries[..|entries|] == entries && entryHashes[..|entries|] == entryHashes && keep[..|entries|] == keep;
      entries, entryHashes := newEntries, newHashes;
      if entries == [] {
        Clear();
      } else {
        NextPowerOfTwoLarge(Larger(|entries|, MIN_TABLE_SIZE), 8);
        ResizeSlots(Larger(|entries|, MIN_TABLE_SIZE));
      }
    }
  }
}
