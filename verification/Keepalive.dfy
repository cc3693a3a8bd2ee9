/** Ownership of shared library handles and the keepalive registry
    (`src/extensions/mod.rs`). The dynamic loader is a reference count per
    library; what it finds is a parameter. */
module Keepalive {
  import opened Common

  /** What one library loading step asks for. `found` is the library the loader
      opens, and `resolved` whether the symbol is in it. */
  datatype Step<Lib, Key> =
    | LoadSymbol(found: Option<Lib>, resolved: bool)
    | Keep(key: Key, handle: Lib)
    | DropHandle(dropped: Lib)

  function Handle<Lib, Key>(step: Step<Lib, Key>): Lib
    requires !step.LoadSymbol?
  {
    if step.Keep? then step.handle else step.dropped
  }

  /** Who owns the references: running code, or the registry under its keys. */
  datatype Ownership<Lib(==), Key(==)> = Ownership(live: multiset<Lib>, paths: set<Key>, leaked: seq<Lib>, keys: seq<Key>)

  /** What a step does: a resolved load gives a live handle; keeping one leaks
      it under a new key and drops it under an old one. */
  function StepOwners<Lib(==), Key(==)>(o: Ownership<Lib, Key>, step: Step<Lib, Key>): Ownership<Lib, Key> {
    match step
    case LoadSymbol(found, resolved) =>
      if found.Some? && resolved then o.(live := o.live + multiset{found.value}) else o
    case Keep(key, handle) =>
      if handle !in o.live then o
      else if key in o.paths then o.(live := o.live - multiset{handle})
      else Ownership(o.live - multiset{handle}, o.paths + {key}, o.leaked + [handle], o.keys + [key])
    case DropHandle(handle) =>
      if handle !in o.live then o else o.(live := o.live - multiset{handle})
  }

  function RunOwners<Lib(==), Key(==)>(o: Ownership<Lib, Key>, steps: seq<Step<Lib, Key>>): Ownership<Lib, Key> {
    if steps == [] then o else StepOwners(RunOwners(o, steps[..|steps| - 1]), steps[|steps| - 1])
  }

  lemma CountOneLess<Lib>(counts: multiset<Lib>, live: multiset<Lib>, leaked: seq<Lib>, handle: Lib)
    requires counts == live + multiset(leaked) && handle in live
    ensures counts - multiset{handle} == (live - multiset{handle}) + multiset(leaked)
    ensures handle !in counts - multiset{handle} <==> live[handle] == 1 && handle !in leaked
  {
    assert handle in leaked <==> multiset(leaked)[handle] > 0;
    assert counts[handle] == live[handle] + multiset(leaked)[handle];
  }

  class Process<Lib(==), Key(==, !new)> {
    /** The loader's reference counts. */
    var counts: multiset<Lib>
    /** The registry: registered keys and the raw handles it leaks. */
    var paths: set<Key>
    var rawHandles: seq<Lib>
    /** The handles that are owned by running code. */
    ghost var live: multiset<Lib>
    /** The key each leaked handle was registered under. */
    ghost var keys: seq<Key>

    /** Every reference the loader counts is a live handle or a leaked one, and
        the registry leaks exactly one handle per registered key. */
    ghost predicate Valid()
      reads this
    {
      && counts == live + multiset(rawHandles)
      && |keys| == |rawHandles| && (forall k :: k in paths <==> k in keys)
      && forall i, j :: 0 <= i < j < |keys| ==> keys[i] != keys[j]
    }

    constructor ()
      ensures Valid() && counts == multiset{} && live == multiset{} && paths == {} && rawHandles == []
    {
      counts, paths, rawHandles, live, keys := multiset{}, {}, [], multiset{}, [];
    }

    method Open(found: Option<Lib>) returns (handle: Option<Lib>)
      requires Valid()
      modifies this`counts, this`live
      ensures Valid() && handle == found
      ensures live == if found.Some? then old(live) + multiset{found.value} else old(live)
    {
      if found.Some? {
        counts := counts + multiset{found.value};
        live := live + multiset{found.value};
      }
      return found;
    }

    /** `Drop`: the loader counts one reference less, so the library is unloaded
        exactly when this was its only live handle and none is leaked. */
    method Close(handle: Lib)
      requires Valid() && handle in live
      modifies this`counts, this`live
      ensures Valid() && live == old(live) - multiset{handle}
      ensures handle !in counts <==> old(live)[handle] == 1 && handle !in rawHandles
    {
      CountOneLess(counts, live, rawHandles, handle);
      counts := counts - multiset{handle};
      live := live - multiset{handle};
    }

    /** A failed symbol lookup closes what it opened: no reference is left behind. */
    method LoadDynamicSymbol(found: Option<Lib>, resolved: bool) returns (handle: Option<Lib>)
      requires Valid()
      modifies this`counts, this`live
      ensures Valid()
      ensures handle == if resolved then found else None
      ensures live == if handle.Some? then old(live) + multiset{handle.value} else old(live)
      ensures handle.None? ==> counts == old(counts)
    {
      handle := Open(found);
      if handle.Some? && !resolved {
        ghost var before := live;
        Close(handle.value);
        assert live + multiset(rawHandles) == old(live) + multiset(rawHandles);
        handle := None;
      }
    }

    /** The first handle for a key is leaked; a later one is dropped. */
    method KeepDynamicLibraryLoaded(key: Key, handle: Lib)
      requires Valid() && handle in live
      modifies this
      ensures Valid() && live == old(live) - multiset{handle}
      ensures paths == old(paths) + {key}
      ensures rawHandles == if key in old(paths) then old(rawHandles) else old(rawHandles) + [handle]
      ensures keys == if key in old(paths) then old(keys) else old(keys) + [key]
    {
      if key !in paths {
        paths := paths + {key};
        rawHandles := rawHandles + [handle];
        live := live - multiset{handle};
        keys := keys + [key];
      } else {
        Close(handle);
      }
    }

    ghost function Owners(): Ownership<Lib, Key>
      reads this
    {
      Ownership(live, paths, rawHandles, keys)
    }

    /** One step of a program; dropping or keeping a handle it does not own is refused. */
    method Perform(step: Step<Lib, Key>) returns (performed: bool)
      requires Valid()
      modifies this
      ensures Valid() && Owners() == StepOwners(old(Owners()), step)
      ensures performed <==> step.LoadSymbol? || Handle(step) in old(live)
    {
      match step {
        case LoadSymbol(found, resolved) =>
          var _ := LoadDynamicSymbol(found, resolved);
          return true;
        case Keep(key, handle) =>
          Owned(handle);
          if handle in counts && OwnedBesides(handle) {
            KeepDynamicLibraryLoaded(key, handle);
            return true;
          }
          return false;
        case DropHandle(handle) =>
          Owned(handle);
          if handle in counts && OwnedBesides(handle) {
            Close(handle);
            return true;
          }
          return false;
      }
    }

    /** Whether the loader counts more references than the registry leaks. */
    predicate OwnedBesides(handle: Lib)
      reads this
    {
      counts[handle] > multiset(rawHandles)[handle]
    }

    lemma Owned(handle: Lib)
      requires Valid()
      ensures handle in counts && OwnedBesides(handle) <==> handle in live
    {
    }
  }

  /** Over every run: the owners are those the steps make, what was registered
      before is still registered, with the same leaked handle, and a registered
      library is never unloaded. */
  method Run<Lib(==), Key(==, !new)>(p: Process<Lib, Key>, steps: seq<Step<Lib, Key>>)
    requires p.Valid()
    modifies p
    ensures p.Valid() && p.Owners() == RunOwners(old(p.Owners()), steps)
    ensures old(p.keys) <= p.keys && old(p.rawHandles) <= p.rawHandles && old(p.paths) <= p.paths
    ensures forall lib :: lib in p.rawHandles ==> lib in p.counts
  {
    ghost var before := p.Owners();
    for i := 0 to |steps|
      invariant p.Valid() && p.Owners() == RunOwners(before, steps[..i])
      invariant before.keys <= p.keys && before.leaked <= p.rawHandles && before.paths <= p.paths
    {
      assert steps[..i + 1][..i] == steps[..i];
      var _ := p.Perform(steps[i]);
    }
    assert steps[..|steps|] == steps;
    forall lib | lib in p.rawHandles
      ensures lib in p.counts
    {
      assert lib in multiset(p.rawHandles);
    }
  }
}
