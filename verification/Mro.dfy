/**
 The C3 merge behind class creation (`build_class_mro` in src/vm/vm_execution.rs).

 Classes are their object ids.  The merge takes the linearizations of the bases
 followed by the list of bases, and must find an order that keeps all of them.
 */
module Mro {
  import opened Common

  type Class = nat
  type Lists = seq<seq<Class>>

  // ------------------------------------------------------------- reference

  predicate Distinct(s: seq<Class>) {
    forall i, j :: 0 <= i < j < |s| ==> s[i] != s[j]
  }

  /** `a` stands somewhere before `b`. */
  predicate Before(order: seq<Class>, a: Class, b: Class) {
    exists p, q :: 0 <= p < q < |order| && order[p] == a && order[q] == b
  }

  /** Everything in `s` occurs in `order`, in the same relative order. */
  predicate Keeps(order: seq<Class>, s: seq<Class>) {
    && (forall i :: 0 <= i < |s| ==> s[i] in order)
    && (forall i, j :: 0 <= i < j < |s| ==> Before(order, s[i], s[j]))
  }

  /** A consistent method resolution order for the lists. */
  predicate Linearizes(order: seq<Class>, lists: Lists) {
    Distinct(order) && forall k :: 0 <= k < |lists| ==> Keeps(order, lists[k])
  }

  ghost function Members(lists: Lists): set<Class> {
    set k, i | 0 <= k < |lists| && 0 <= i < |lists[k]| :: lists[k][i]
  }

  // ---------------------------------------------------------------- merging

  predicate InTail(lists: Lists, c: Class) {
    exists k :: 0 <= k < |lists| && |lists[k]| > 0 && c in lists[k][1..]
  }

  /** `k` is the first list at or after `from` whose head is in no tail. */
  predicate FirstFree(lists: Lists, from: nat, k: nat) {
    && from <= k < |lists| && |lists[k]| > 0 && !InTail(lists, lists[k][0])
    && forall j :: from <= j < k && |lists[j]| > 0 ==> InTail(lists, lists[j][0])
  }

  /** The head of the first list whose head is in no tail. */
  function Candidate(lists: Lists, from: nat): (r: Option<Class>)
    requires from <= |lists|
    ensures r.Some? ==> !InTail(lists, r.value)
    ensures r.Some? ==> exists k: nat :: FirstFree(lists, from, k) && lists[k][0] == r.value
    ensures r.None? ==> forall k :: from <= k < |lists| && |lists[k]| > 0 ==> InTail(lists, lists[k][0])
    decreases |lists| - from
  {
    if from == |lists| then None
    else if |lists[from]| > 0 && !InTail(lists, lists[from][0]) then Some(lists[from][0])
    else Candidate(lists, from + 1)
  }

  function NonEmpty(lists: Lists): (r: Lists)
    ensures forall s :: s in r <==> s in lists && s != []
    ensures Size(r) == Size(lists)
  {
    if lists == [] then []
    else if lists[0] == [] then NonEmpty(lists[1..])
    else [lists[0]] + NonEmpty(lists[1..])
  }

  function Size(lists: Lists): nat {
    if lists == [] then 0 else |lists[0]| + Size(lists[1..])
  }

  function DropHead(s: seq<Class>, head: Class): seq<Class> {
    if s != [] && s[0] == head then s[1..] else s
  }

  function DropHeads(lists: Lists, head: Class): (r: Lists)
    ensures |r| == |lists|
    ensures forall k :: 0 <= k < |lists| ==> r[k] == DropHead(lists[k], head)
    ensures Size(r) <= Size(lists)
    ensures (exists k :: 0 <= k < |lists| && |lists[k]| > 0 && lists[k][0] == head) ==> Size(r) < Size(lists)
  {
    if lists == [] then [] else [DropHead(lists[0], head)] + DropHeads(lists[1..], head)
  }

  function Merge(lists: Lists): Option<seq<Class>>
    decreases Size(lists)
  {
    var live := NonEmpty(lists);
    if live == [] then Some([])
    else
      match Candidate(live, 0)
      case None => None
      case Some(head) =>
        match Merge(DropHeads(live, head))
        case None => None
        case Some(rest) => Some([head] + rest)
  }

  function Prepend(front: seq<Class>, r: Option<seq<Class>>): (p: Option<seq<Class>>)
    ensures front == [] ==> p == r
  {
    assert r.Some? ==> [] + r.value == r.value;
    if r.Some? then Some(front + r.value) else None
  }

  lemma PrependTwice(front: seq<Class>, head: Class, r: Option<seq<Class>>)
    ensures Prepend(front, Prepend([head], r)) == Prepend(front + [head], r)
  {
    assert r.Some? ==> front + ([head] + r.value) == front + [head] + r.value;
  }

  /** `build_class_mro`: the class in front of the merge, or an error. */
  method BuildClassMro(class_: Class, bases: seq<Class>, baseMros: Lists) returns (r: Option<seq<Class>>)
    requires |baseMros| == |bases|
    ensures bases == [] ==> r == Some([class_])
    ensures bases != [] ==> r == Prepend([class_], Merge(baseMros + [bases]))
  {
    if bases == [] {
      return Some([class_]);
    }
    var lists, merged := baseMros + [bases], [];
    ghost var all := lists;
    while true
      invariant Merge(all) == Prepend(merged, Merge(lists))
      decreases Size(lists)
    {
      lists := NonEmpty(lists);
      if lists == [] {
        break;
      }
      var candidate := Candidate(lists, 0);
      if candidate.None? {
        return None;
      }
      PrependTwice(merged, candidate.value, Merge(DropHeads(lists, candidate.value)));
      merged := merged + [candidate.value];
      lists := DropHeads(lists, candidate.value);
    }
    assert merged + [] == merged;
    return Some([class_] + merged);
  }

  // ------------------------------------------------ an order exists iff merged

  lemma {:induction false} MergeLinearizes(lists: Lists)
    requires Merge(lists).Some?
    ensures Linearizes(Merge(lists).value, lists)
    ensures forall c :: c in Merge(lists).value <==> c in Members(lists)
    decreases Size(lists)
  {
    var live := NonEmpty(lists);
    if live != [] {
      var head := Candidate(live, 0).value;
      var left := DropHeads(live, head);
      var rest := Merge(left).value;
      MergeLinearizes(left);
      HeadGone(live, head);
      assert forall k :: 0 <= k < |live| ==> live[k] in live;
      LinearizesCons(live, head, rest);
    }
    LiveSame(lists, Merge(lists).value);
  }

  /** Empty lists constrain nothing. */
  lemma LiveSame(lists: Lists, order: seq<Class>)
    ensures Linearizes(order, NonEmpty(lists)) <==> Linearizes(order, lists)
    ensures Members(NonEmpty(lists)) == Members(lists)
  {
    var live := NonEmpty(lists);
    forall k | 0 <= k < |live|
      ensures exists j :: 0 <= j < |lists| && lists[j] == live[k]
    {
      assert live[k] in live;
    }
    forall j | 0 <= j < |lists| && lists[j] != []
      ensures exists k :: 0 <= k < |live| && live[k] == lists[j]
    {
      assert lists[j] in live;
    }
  }

  lemma HeadGone(lists: Lists, head: Class)
    requires !InTail(lists, head)
    ensures head !in Members(DropHeads(lists, head))
    ensures Members(lists) <= Members(DropHeads(lists, head)) + {head}
    ensures Members(DropHeads(lists, head)) <= Members(lists)
  {
    var left := DropHeads(lists, head);
    forall k | 0 <= k < |lists|
      ensures head !in left[k]
      ensures forall c :: c in left[k] ==> c in lists[k]
      ensures forall c :: c in lists[k] ==> c in left[k] || c == head
    {
    }
    forall c | c in Members(lists)
      ensures c in Members(left) + {head}
    {
      var k, i :| 0 <= k < |lists| && 0 <= i < |lists[k]| && lists[k][i] == c;
      assert c in lists[k];
    }
    forall c | c in Members(left)
      ensures c in Members(lists) && c != head
    {
      var k, i :| 0 <= k < |left| && 0 <= i < |left[k]| && left[k][i] == c;
      assert c in left[k];
    }
  }

  lemma BeforeCons(head: Class, rest: seq<Class>, a: Class, b: Class)
    ensures Before(rest, a, b) ==> Before([head] + rest, a, b)
    ensures b in rest ==> Before([head] + rest, head, b)
  {
    var order := [head] + rest;
    if Before(rest, a, b) {
      var p, q :| 0 <= p < q < |rest| && rest[p] == a && rest[q] == b;
      assert order[p + 1] == a && order[q + 1] == b;
    }
    if b in rest {
      var q :| 0 <= q < |rest| && rest[q] == b;
      assert order[0] == head && order[q + 1] == b;
    }
  }

  lemma KeepsCons(s: seq<Class>, head: Class, rest: seq<Class>)
    requires s != [] && head !in s[1..]
    requires Keeps(rest, DropHead(s, head))
    ensures Keeps([head] + rest, s)
  {
    var left := DropHead(s, head);
    var off := |s| - |left|;
    assert forall i :: off <= i < |s| ==> s[i] == left[i - off];
    forall i, j | 0 <= i < j < |s|
      ensures Before([head] + rest, s[i], s[j])
    {
      BeforeCons(head, rest, s[i], s[j]);
    }
  }

  lemma LinearizesCons(lists: Lists, head: Class, rest: seq<Class>)
    requires forall k :: 0 <= k < |lists| ==> lists[k] != []
    requires !InTail(lists, head) && head !in rest
    requires Linearizes(rest, DropHeads(lists, head))
    ensures Linearizes([head] + rest, lists)
  {
    forall k | 0 <= k < |lists|
      ensures Keeps([head] + rest, lists[k])
    {
      KeepsCons(lists[k], head, rest);
    }
  }

  lemma HeadIsBlocked(lists: Lists, c: Class)
    requires Candidate(lists, 0).None? && HeadOf(lists, c)
    ensures InTail(lists, c)
  {
  }

  lemma {:induction false} NoHeadBefore(lists: Lists, order: seq<Class>, p: nat, q: nat)
    requires Candidate(lists, 0).None? && Linearizes(order, lists) && q < p <= |order|
    ensures !HeadOf(lists, order[q])
  {
    if HeadOf(lists, order[q]) {
      HeadIsBlocked(lists, order[q]);
      var earlier := BlockedByEarlier(lists, order, q);
      NoHeadBefore(lists, order, q, earlier);
    }
  }

  /** While some order keeps all lists, the earliest head in it is in no tail. */
  lemma CandidateExists(lists: Lists, order: seq<Class>)
    requires lists != [] && forall k :: 0 <= k < |lists| ==> lists[k] != []
    requires Linearizes(order, lists)
    ensures Candidate(lists, 0).Some?
  {
    if Candidate(lists, 0).None? {
      var h :| 0 <= h < |order| && order[h] == lists[0][0];
      assert HeadOf(lists, order[h]);
      NoHeadBefore(lists, order, |order|, h);
    }
  }

  predicate HeadOf(lists: Lists, c: Class) {
    exists k :: 0 <= k < |lists| && |lists[k]| > 0 && lists[k][0] == c
  }

  lemma BlockedByEarlier(lists: Lists, order: seq<Class>, p: nat) returns (q: nat)
    requires p < |order| && Linearizes(order, lists) && InTail(lists, order[p])
    ensures q < p && HeadOf(lists, order[q])
  {
    var k :| 0 <= k < |lists| && |lists[k]| > 0 && order[p] in lists[k][1..];
    var i :| 0 <= i < |lists[k]| - 1 && lists[k][1..][i] == order[p];
    assert Keeps(order, lists[k]) && Before(order, lists[k][0], lists[k][i + 1]);
    var a, b :| 0 <= a < b < |order| && order[a] == lists[k][0] && order[b] == lists[k][i + 1];
    assert b == p;
    q := a;
  }

  lemma DropHeadsKeeps(lists: Lists, head: Class, order: seq<Class>)
    requires Linearizes(order, lists)
    ensures Linearizes(order, DropHeads(lists, head))
  {
    forall k | 0 <= k < |lists|
      ensures Keeps(order, DropHeads(lists, head)[k])
    {
      KeepsTail(order, lists[k], head);
    }
  }

  lemma KeepsTail(order: seq<Class>, s: seq<Class>, head: Class)
    requires Keeps(order, s)
    ensures Keeps(order, DropHead(s, head))
  {
    var t := DropHead(s, head);
    if t != s {
      assert forall i :: 0 <= i < |t| ==> t[i] == s[i + 1];
      forall i, j | 0 <= i < j < |t|
        ensures Before(order, t[i], t[j])
      {
        assert Before(order, s[i + 1], s[j + 1]);
      }
    }
  }

  lemma {:induction false} MergeComplete(lists: Lists, order: seq<Class>)
    requires Linearizes(order, lists)
    ensures Merge(lists).Some?
    decreases Size(lists)
  {
    var live := NonEmpty(lists);
    LiveSame(lists, order);
    if live != [] {
      assert forall k :: 0 <= k < |live| ==> live[k] in live;
      CandidateExists(live, order);
      var head := Candidate(live, 0).value;
      DropHeadsKeeps(live, head, order);
      MergeComplete(DropHeads(live, head), order);
    }
  }

  /** The merge reports an inconsistent hierarchy exactly when no order exists;
      otherwise it returns one, over exactly the classes given. */
  lemma MergeCorrect(lists: Lists)
    ensures Merge(lists).Some? <==> exists order :: Linearizes(order, lists)
    ensures Merge(lists).Some? ==>
              Linearizes(Merge(lists).value, lists) && forall c :: c in Merge(lists).value <==> c in Members(lists)
  {
    if Merge(lists).Some? {
      MergeLinearizes(lists);
    }
    forall order | Linearizes(order, lists)
      ensures Merge(lists).Some?
    {
      MergeComplete(lists, order);
    }
  }

  // ----------------------------------------------- the merge is the only order

  /** What is left of a list without the classes already taken. */
  function Left(s: seq<Class>, taken: seq<Class>): (r: seq<Class>)
    ensures forall c :: c in r <==> c in s && c !in taken
  {
    if s == [] then [] else if s[0] in taken then Left(s[1..], taken) else [s[0]] + Left(s[1..], taken)
  }

  function LeftOf(lists: Lists, taken: seq<Class>): (r: Lists)
    ensures |r| == |lists| && forall k :: 0 <= k < |lists| ==> r[k] == Left(lists[k], taken)
  {
    seq(|lists|, k requires 0 <= k < |lists| => Left(lists[k], taken))
  }

  /** `c` heads the first list whose head is in no tail. */
  ghost predicate IsFirstFree(lists: Lists, c: Class) {
    exists k: nat :: FirstFree(lists, 0, k) && lists[k][0] == c
  }

  /** Every class is the first free head of what is left when its turn comes. */
  ghost predicate TakesFirstFree(lists: Lists, order: seq<Class>) {
    forall p :: 0 <= p < |order| ==> IsFirstFree(LeftOf(lists, order[..p]), order[p])
  }

  lemma FirstFreeUnique(lists: Lists, c: Class, d: Class)
    requires IsFirstFree(lists, c) && IsFirstFree(lists, d)
    ensures c == d
  {
    var j: nat :| FirstFree(lists, 0, j) && lists[j][0] == c;
    var k: nat :| FirstFree(lists, 0, k) && lists[k][0] == d;
    assert j == k;
  }

  /** The first head of `lists` that is in no tail of `all`. */
  function FirstOf(all: Lists, lists: Lists): Option<Class> {
    if lists == [] then None
    else if lists[0] != [] && !InTail(all, lists[0][0]) then Some(lists[0][0])
    else FirstOf(all, lists[1..])
  }

  lemma {:induction false} CandidateIsFirst(lists: Lists, from: nat)
    requires from <= |lists|
    ensures Candidate(lists, from) == FirstOf(lists, lists[from..])
    decreases |lists| - from
  {
    if from < |lists| {
      assert lists[from..][0] == lists[from] && lists[from..][1..] == lists[from + 1..];
      CandidateIsFirst(lists, from + 1);
    }
  }

  lemma {:induction false} FirstOfLive(all: Lists, lists: Lists)
    ensures FirstOf(all, NonEmpty(lists)) == FirstOf(all, lists)
  {
    if lists != [] {
      FirstOfLive(all, lists[1..]);
    }
  }

  lemma {:induction false} FirstOfSameTails(a: Lists, b: Lists, lists: Lists)
    requires forall c :: InTail(a, c) <==> InTail(b, c)
    ensures FirstOf(a, lists) == FirstOf(b, lists)
  {
    if lists != [] {
      FirstOfSameTails(a, b, lists[1..]);
    }
  }

  lemma TailsOfLive(lists: Lists, c: Class)
    ensures InTail(NonEmpty(lists), c) <==> InTail(lists, c)
  {
    var live := NonEmpty(lists);
    if k :| 0 <= k < |live| && |live[k]| > 0 && c in live[k][1..] {
      assert live[k] in live;
    }
    if k :| 0 <= k < |lists| && |lists[k]| > 0 && c in lists[k][1..] {
      assert lists[k] in live;
    }
  }

  /** Empty lists do not matter for the candidate. */
  lemma CandidateOfLive(lists: Lists)
    ensures Candidate(NonEmpty(lists), 0) == Candidate(lists, 0)
  {
    var live := NonEmpty(lists);
    CandidateIsFirst(live, 0);
    CandidateIsFirst(lists, 0);
    assert live[0..] == live && lists[0..] == lists;
    forall c
      ensures InTail(live, c) <==> InTail(lists, c)
    {
      TailsOfLive(lists, c);
    }
    FirstOfSameTails(live, lists, live);
    FirstOfLive(lists, lists);
  }

  lemma LeftKeeps(c: Class, s: seq<Class>, taken: seq<Class>)
    ensures Left([c] + s, taken) == if c in taken then Left(s, taken) else [c] + Left(s, taken)
  {
    assert ([c] + s)[1..] == s;
  }

  lemma {:induction false} LeftTwice(s: seq<Class>, a: seq<Class>, b: seq<Class>)
    ensures Left(Left(s, a), b) == Left(s, a + b)
  {
    if s != [] {
      LeftTwice(s[1..], a, b);
      LeftKeeps(s[0], Left(s[1..], a), b);
      assert s[0] in a + b <==> s[0] in a || s[0] in b;
    }
  }

  lemma {:induction false} LeftNone(s: seq<Class>, taken: seq<Class>)
    requires forall c :: c in s ==> c !in taken
    ensures Left(s, taken) == s
  {
    if s != [] {
      LeftNone(s[1..], taken);
    }
  }

  /** Dropping a head that is in no tail takes it from everywhere. */
  lemma DropIsLeft(lists: Lists, head: Class)
    requires !InTail(lists, head)
    ensures DropHeads(lists, head) == LeftOf(lists, [head])
  {
    forall k | 0 <= k < |lists|
      ensures DropHead(lists[k], head) == Left(lists[k], [head])
    {
      assert lists[k] != [] ==> head !in lists[k][1..];
      DropOneIsLeft(lists[k], head);
    }
  }

  lemma DropOneIsLeft(s: seq<Class>, head: Class)
    requires s != [] ==> head !in s[1..]
    ensures DropHead(s, head) == Left(s, [head])
  {
    if s != [] {
      LeftNone(s[1..], [head]);
    }
  }

  lemma LeftOfTwice(lists: Lists, a: seq<Class>, b: seq<Class>)
    ensures LeftOf(LeftOf(lists, a), b) == LeftOf(lists, a + b)
  {
    forall k | 0 <= k < |lists|
      ensures Left(Left(lists[k], a), b) == Left(lists[k], a + b)
    {
      LeftTwice(lists[k], a, b);
    }
  }

  lemma LeftOfCons(s: seq<Class>, lists: Lists, taken: seq<Class>)
    ensures LeftOf([s] + lists, taken) == [Left(s, taken)] + LeftOf(lists, taken)
  {
  }

  lemma LiveCons(s: seq<Class>, lists: Lists)
    ensures NonEmpty([s] + lists) == if s == [] then NonEmpty(lists) else [s] + NonEmpty(lists)
  {
    assert ([s] + lists)[1..] == lists;
  }

  lemma {:induction false} LiveOfLeft(lists: Lists, taken: seq<Class>)
    ensures NonEmpty(LeftOf(NonEmpty(lists), taken)) == NonEmpty(LeftOf(lists, taken))
  {
    if lists != [] {
      var s, rest := lists[0], lists[1..];
      LiveOfLeft(rest, taken);
      assert lists == [s] + rest;
      LeftOfCons(s, rest, taken);
      LiveCons(Left(s, taken), LeftOf(rest, taken));
      if s != [] {
        LeftOfCons(s, NonEmpty(rest), taken);
        LiveCons(Left(s, taken), LeftOf(NonEmpty(rest), taken));
      }
    }
  }

  /** The candidate after one more class is taken. */
  lemma CandidateLater(lists: Lists, head: Class, taken: seq<Class>)
    requires !InTail(NonEmpty(lists), head)
    ensures Candidate(LeftOf(DropHeads(NonEmpty(lists), head), taken), 0) == Candidate(LeftOf(lists, [head] + taken), 0)
  {
    var live := NonEmpty(lists);
    DropIsLeft(live, head);
    LeftOfTwice(live, [head], taken);
    LiveOfLeft(lists, [head] + taken);
    CandidateOfLive(LeftOf(live, [head] + taken));
    CandidateOfLive(LeftOf(lists, [head] + taken));
  }

  /** A merge that takes a class, taken apart. */
  lemma MergeSteps(lists: Lists) returns (head: Class, rest: seq<Class>)
    requires Merge(lists).Some? && Merge(lists).value != []
    ensures var live := NonEmpty(lists);
      && Candidate(live, 0) == Some(head) && !InTail(live, head)
      && Merge(DropHeads(live, head)) == Some(rest) && Merge(lists).value == [head] + rest
      && Size(DropHeads(live, head)) < Size(lists)
  {
    var live := NonEmpty(lists);
    head := Candidate(live, 0).value;
    rest := Merge(DropHeads(live, head)).value;
  }

  lemma FirstThenRest(head: Class, rest: seq<Class>, taken: seq<Class>, c: Class, later: seq<Class>)
    requires [head] + rest == taken + [c] + later
    ensures taken == [] ==> head == c
    ensures taken != [] ==> taken == [head] + taken[1..] && rest == taken[1..] + [c] + later
  {
    var all := taken + [c] + later;
    assert all[0] == head && all[1..] == rest;
  }

  lemma {:induction false} MergeTakesCandidate(lists: Lists, taken: seq<Class>, c: Class, later: seq<Class>)
    requires Merge(lists) == Some(taken + [c] + later)
    ensures Candidate(LeftOf(lists, taken), 0) == Some(c)
    decreases |taken|
  {
    var head, rest := MergeSteps(lists);
    FirstThenRest(head, rest, taken, c, later);
    if taken == [] {
      LeftOfNothing(lists);
      CandidateOfLive(lists);
    } else {
      MergeTakesCandidate(DropHeads(NonEmpty(lists), head), taken[1..], c, later);
      CandidateLater(lists, head, taken[1..]);
    }
  }

  lemma LeftOfNothing(lists: Lists)
    ensures LeftOf(lists, []) == lists
  {
    forall k | 0 <= k < |lists|
      ensures Left(lists[k], []) == lists[k]
    {
      LeftNone(lists[k], []);
    }
  }

  lemma CutAt(order: seq<Class>, p: nat)
    requires p < |order|
    ensures order == order[..p] + [order[p]] + order[p + 1..]
  {
  }

  lemma CandidateIsFirstFree(lists: Lists, c: Class)
    requires Candidate(lists, 0) == Some(c)
    ensures IsFirstFree(lists, c)
  {
  }

  /** At every step the merge takes the first free head of what is left. */
  lemma MergeTakesFirstFree(lists: Lists)
    requires Merge(lists).Some?
    ensures TakesFirstFree(lists, Merge(lists).value)
  {
    var order := Merge(lists).value;
    forall p | 0 <= p < |order|
      ensures IsFirstFree(LeftOf(lists, order[..p]), order[p])
    {
      CutAt(order, p);
      MergeTakesCandidate(lists, order[..p], order[p], order[p + 1..]);
      CandidateIsFirstFree(LeftOf(lists, order[..p]), order[p]);
    }
  }

  /** Orders over all classes that take the first free head are the same. */
  lemma {:induction false} FirstFreeDetermines(lists: Lists, a: seq<Class>, b: seq<Class>, n: nat)
    requires TakesFirstFree(lists, a) && TakesFirstFree(lists, b)
    requires n <= |a| && n <= |b|
    ensures a[..n] == b[..n]
  {
    if n > 0 {
      FirstFreeDetermines(lists, a, b, n - 1);
      FirstFreeUnique(LeftOf(lists, a[..n - 1]), a[n - 1], b[n - 1]);
      OneMore(a, n);
      OneMore(b, n);
    }
  }

  lemma OneMore(s: seq<Class>, n: nat)
    requires 0 < n <= |s|
    ensures s[..n] == s[..n - 1] + [s[n - 1]]
  {
  }

  /** No longer order takes a class that a complete one has not. */
  lemma CompleteIsLonger(lists: Lists, a: seq<Class>, b: seq<Class>)
    requires Linearizes(a, lists) && TakesFirstFree(lists, a) && TakesFirstFree(lists, b)
    ensures |b| <= |a|
  {
    if |b| > |a| {
      FirstFreeDetermines(lists, a, b, |a|);
      assert b[..|a|] == a by {
        assert a[..|a|] == a;
      }
      NothingLeft(lists, a, b[|a|]);
    }
  }

  lemma NothingLeft(lists: Lists, order: seq<Class>, c: Class)
    requires Linearizes(order, lists)
    ensures !IsFirstFree(LeftOf(lists, order), c)
  {
    forall k | 0 <= k < |lists|
      ensures LeftOf(lists, order)[k] == []
    {
      assert Keeps(order, lists[k]);
      AllTaken(lists[k], order);
    }
  }

  lemma {:induction false} AllTaken(s: seq<Class>, taken: seq<Class>)
    requires forall i :: 0 <= i < |s| ==> s[i] in taken
    ensures Left(s, taken) == []
  {
    if s != [] {
      AllTaken(s[1..], taken);
    }
  }

  /** The merge is the one order that keeps all lists and at every step takes
      the first free head. */
  lemma MergeCharacterized(lists: Lists, order: seq<Class>)
    ensures Merge(lists) == Some(order) <==> Linearizes(order, lists) && TakesFirstFree(lists, order)
  {
    if Merge(lists).Some? {
      MergeLinearizes(lists);
      MergeTakesFirstFree(lists);
    }
    if Linearizes(order, lists) && TakesFirstFree(lists, order) {
      MergeComplete(lists, order);
      var merged := Merge(lists).value;
      MergeLinearizes(lists);
      MergeTakesFirstFree(lists);
      CompleteIsLonger(lists, order, merged);
      CompleteIsLonger(lists, merged, order);
      FirstFreeDetermines(lists, order, merged, |order|);
      assert order[..|order|] == order && merged[..|order|] == merged;
    }
  }
}
