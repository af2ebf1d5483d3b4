/** Kahn's traversal, which lays out files, orders imported layouts and checks dependency closures: every node is
    released after the nodes it needs, and all of them are released exactly when no cycle of needs exists. */
module Topological {

  /** Every node has a list of the nodes it needs, all of them nodes. */
  ghost predicate Closed<T>(nodes: set<T>, needs: map<T, seq<T>>) {
    needs.Keys == nodes && forall x, y :: x in needs && y in needs[x] ==> y in nodes
  }

  /** Each node of the walk is needed by the next. */
  ghost predicate Walk<T>(needs: map<T, seq<T>>, path: seq<T>) {
    && (forall i :: 0 <= i < |path| ==> path[i] in needs)
    && (forall i, j :: 0 <= i && i + 1 == j < |path| ==> path[i] in needs[path[j]])
  }

  ghost predicate Cyclic<T(!new)>(needs: map<T, seq<T>>) {
    exists path :: |path| >= 2 && Walk(needs, path) && path[0] == path[|path| - 1]
  }

  ghost predicate Distinct<T>(order: seq<T>) {
    forall i, j :: 0 <= i < j < |order| ==> order[i] != order[j]
  }

  /** No node stands before one it needs. */
  ghost predicate Ordered<T>(needs: map<T, seq<T>>, order: seq<T>) {
    && Distinct(order)
    && forall j :: 0 <= j < |order| ==> order[j] in needs && forall y :: y in needs[order[j]] ==> y in order[..j]
  }

  // ----- cycles -----

  lemma {:induction false} WalkClimbs<T(!new)>(needs: map<T, seq<T>>, order: seq<T>, path: seq<T>, i: nat, j: nat)
    requires Ordered(needs, order) && Walk(needs, path) && path != []
    requires i < |order| && j < |order| && order[i] == path[0] && order[j] == path[|path| - 1]
    ensures i + |path| - 1 <= j
    decreases |path|
  {
    if |path| > 1 {
      var k := |path| - 2;
      assert path[k] in needs[path[k + 1]];
      assert path[k] in order[..j];
      var p :| 0 <= p < j && order[p] == path[k];
      WalkClimbs(needs, order, path[..k + 1], i, p);
    }
  }

  /** An order of all the nodes rules cycles out. */
  lemma OrderExcludesCycles<T(!new)>(needs: map<T, seq<T>>, order: seq<T>)
    requires Ordered(needs, order) && forall x :: x in needs ==> x in order
    ensures !Cyclic(needs)
  {
    if path :| |path| >= 2 && Walk(needs, path) && path[0] == path[|path| - 1] {
      assert path[0] in order;
      var i :| 0 <= i < |order| && order[i] == path[0];
      WalkClimbs(needs, order, path, i, i);
    }
  }

  /** Nodes each of which needs another of them: walks among them never end. */
  ghost predicate Stuck<T(!new)>(needs: map<T, seq<T>>, rest: set<T>) {
    rest <= needs.Keys && forall x {:trigger Blocked(needs, rest, x)} :: x in rest ==> Blocked(needs, rest, x)
  }

  ghost predicate Blocked<T(!new)>(needs: map<T, seq<T>>, rest: set<T>, x: T) {
    x in needs && exists y :: y in needs[x] && y in rest
  }

  lemma {:induction false} LongWalk<T(!new)>(needs: map<T, seq<T>>, rest: set<T>, n: nat) returns (path: seq<T>)
    requires Stuck(needs, rest) && rest != {} && n > 0
    ensures |path| == n && Walk(needs, path) && forall i :: 0 <= i < n ==> path[i] in rest
  {
    if n == 1 {
      var x :| x in rest;
      path := [x];
    } else {
      var later := LongWalk(needs, rest, n - 1);
      assert Blocked(needs, rest, later[0]);
      var y :| y in needs[later[0]] && y in rest;
      path := [y] + later;
      forall i, j | 0 <= i && i + 1 == j < n ensures path[i] in needs[path[j]] {
        assert path[j] == later[i];
        if i > 0 {
          assert path[i] == later[i - 1];
        }
      }
    }
  }

  lemma {:induction false} Repeats<T>(path: seq<T>, rest: set<T>) returns (i: nat, j: nat)
    requires |path| > |rest| && forall k :: 0 <= k < |path| ==> path[k] in rest
    ensures i < j < |path| && path[i] == path[j]
    decreases |rest|
  {
    var last := |path| - 1;
    if k :| 0 <= k < last && path[k] == path[last] {
      return k, last;
    }
    i, j := Repeats(path[..last], rest - {path[last]});
  }

  lemma WalkSlice<T>(needs: map<T, seq<T>>, path: seq<T>, from: nat, to: nat)
    requires Walk(needs, path) && from <= to <= |path|
    ensures Walk(needs, path[from..to])
  {
    var slice := path[from..to];
    forall i, j | 0 <= i && i + 1 == j < |slice| ensures slice[i] in needs[slice[j]] {
      assert slice[i] == path[from + i] && slice[j] == path[from + j];
    }
  }

  lemma StuckIsCyclic<T(!new)>(needs: map<T, seq<T>>, rest: set<T>)
    requires Stuck(needs, rest) && rest != {}
    ensures Cyclic(needs)
  {
    var path := LongWalk(needs, rest, |rest| + 1);
    var i, j := Repeats(path, rest);
    var cycle := path[i..j + 1];
    WalkSlice(needs, path, i, j + 1);
    assert cycle[0] == cycle[|cycle| - 1];
  }

  // ----- counting -----

  function Times<T(==)>(s: seq<T>, x: T): nat {
    if s == [] then 0 else Times(s[..|s| - 1], x) + if s[|s| - 1] == x then 1 else 0
  }

  lemma TimesLast<T>(s: seq<T>, last: T, x: T)
    ensures Times(s + [last], x) == Times(s, x) + if last == x then 1 else 0
  {
    assert (s + [last])[..|s|] == s;
  }

  lemma {:induction false} TimesMember<T>(s: seq<T>, x: T)
    ensures Times(s, x) > 0 <==> x in s
  {
    if s != [] {
      TimesMember(s[..|s| - 1], x);
      assert s == s[..|s| - 1] + [s[|s| - 1]];
    }
  }

  /** How many entries of a list are not done. */
  ghost function Unmet<T>(list: seq<T>, done: set<T>): nat {
    if list == [] then 0 else (if list[0] in done then 0 else 1) + Unmet(list[1..], done)
  }

  lemma {:induction false} TimesFirst<T>(list: seq<T>, x: T)
    requires list != []
    ensures Times(list, x) == (if list[0] == x then 1 else 0) + Times(list[1..], x)
  {
    if |list| > 1 {
      var front := list[..|list| - 1];
      TimesFirst(front, x);
      assert list[1..][..|list| - 2] == front[1..];
    }
  }

  lemma {:induction false} UnmetWhenDone<T>(list: seq<T>, done: set<T>, x: T)
    requires x !in done
    ensures Unmet(list, done) == Unmet(list, done + {x}) + Times(list, x)
  {
    if list != [] {
      UnmetWhenDone(list[1..], done, x);
      TimesFirst(list, x);
    }
  }

  lemma {:induction false} UnmetZero<T>(list: seq<T>, done: set<T>)
    ensures Unmet(list, done) == 0 <==> forall y :: y in list ==> y in done
  {
    if list != [] {
      UnmetZero(list[1..], done);
      assert forall y :: y in list <==> y == list[0] || y in list[1..];
    }
  }

  lemma {:induction false} UnmetNothing<T>(list: seq<T>)
    ensures Unmet(list, {}) == |list|
  {
    if list != [] {
      UnmetNothing(list[1..]);
    }
  }

  ghost function Elements<T>(order: seq<T>): set<T> {
    set x | x in order
  }

  // ----- the traversal -----

  /** The lists of dependents reverse the lists of needs, entry by entry. */
  ghost predicate Reverses<T(!new)>(needs: map<T, seq<T>>, dependents: map<T, seq<T>>) {
    && dependents.Keys == needs.Keys
    && (forall x, y :: x in needs && y in needs ==> Times(dependents[y], x) == Times(needs[x], y))
    && (forall y, z :: y in needs && z in dependents[y] ==> z in needs)
  }

  /** Counts of what is unmet once `done` is, with `owed` decrements still to come for each node. */
  ghost predicate Counting<T(!new)>(needs: map<T, seq<T>>, pending: map<T, nat>, done: set<T>, owed: seq<T>) {
    pending.Keys == needs.Keys && forall x :: x in needs ==> pending[x] == Unmet(needs[x], done) + Times(owed, x)
  }

  ghost predicate Ready<T(!new)>(pending: map<T, nat>, ready: set<T>, done: set<T>) {
    forall x :: x in ready <==> x in pending && x !in done && pending[x] == 0
  }

  /** Between two nodes of the traversal. */
  ghost predicate Traversing<T(!new)>(needs: map<T, seq<T>>, dependents: map<T, seq<T>>, pending: map<T, nat>,
                                      ready: set<T>, order: seq<T>) {
    && Reverses(needs, dependents) && Ordered(needs, order)
    && Counting(needs, pending, Elements(order), []) && Ready(pending, ready, Elements(order))
  }

  lemma ReleaseExtends<T(!new)>(needs: map<T, seq<T>>, order: seq<T>, x: T)
    requires Ordered(needs, order) && x in needs && x !in order && Unmet(needs[x], Elements(order)) == 0
    ensures Ordered(needs, order + [x]) && Elements(order + [x]) == Elements(order) + {x}
  {
    UnmetZero(needs[x], Elements(order));
    var longer := order + [x];
    forall j | 0 <= j < |longer| ensures longer[j] in needs && forall y :: y in needs[longer[j]] ==> y in longer[..j] {
      assert longer[..j] == order[..j];
      if j == |order| {
        assert order[..j] == order;
      }
    }
  }

  /** The dependents of a released node are what its release owes. */
  lemma ReleaseOwes<T(!new)>(needs: map<T, seq<T>>, dependents: map<T, seq<T>>, pending: map<T, nat>, done: set<T>,
                             x: T)
    requires Reverses(needs, dependents) && Counting(needs, pending, done, []) && x in needs && x !in done
    ensures Counting(needs, pending, done + {x}, dependents[x])
  {
    forall z | z in needs ensures pending[z] == Unmet(needs[z], done + {x}) + Times(dependents[x], z) {
      UnmetWhenDone(needs[z], done, x);
    }
  }

  lemma CountingLowered<T(!new)>(needs: map<T, seq<T>>, pending: map<T, nat>, done: set<T>, owed: seq<T>)
    requires Counting(needs, pending, done, owed) && owed != [] && owed[0] in needs
    ensures pending[owed[0]] > 0 && Counting(needs, pending[owed[0] := pending[owed[0]] - 1], done, owed[1..])
  {
    TimesFirst(owed, owed[0]);
    forall x | x in needs ensures Times(owed, x) == (if owed[0] == x then 1 else 0) + Times(owed[1..], x) {
      TimesFirst(owed, x);
    }
  }

  /** Only waiting nodes are owed anything. */
  lemma OwedIsWaiting<T(!new)>(needs: map<T, seq<T>>, order: seq<T>, x: T, dependents: map<T, seq<T>>, z: T)
    requires Ordered(needs, order + [x]) && Reverses(needs, dependents) && x in needs && z in dependents[x]
    ensures z in needs && z !in order + [x]
  {
    TimesMember(dependents[x], z);
    TimesMember(needs[z], x);
    LastIsNotNeeded(needs, order, x, z);
  }

  lemma LastIsNotNeeded<T(!new)>(needs: map<T, seq<T>>, order: seq<T>, x: T, z: T)
    requires Ordered(needs, order + [x]) && z in needs && x in needs[z]
    ensures z !in order + [x]
  {
    var longer := order + [x];
    forall j | 0 <= j < |longer| ensures longer[j] != z {
      assert x !in longer[..j] by {
        assert longer[|order|] == x && forall k :: 0 <= k < j ==> longer[k] != x;
      }
    }
  }

  lemma {:induction false} DistinctCount<T>(order: seq<T>)
    requires Distinct(order)
    ensures |Elements(order)| == |order|
  {
    if order != [] {
      var front, last := order[..|order| - 1], order[|order| - 1];
      DistinctCount(front);
      assert Elements(order) == Elements(front) + {last};
      assert last !in Elements(front);
    }
  }

  lemma WaitingIsStuck<T(!new)>(needs: map<T, seq<T>>, pending: map<T, nat>, done: set<T>)
    requires Closed(needs.Keys, needs) && Counting(needs, pending, done, []) && Ready(pending, {}, done)
    ensures Stuck(needs, needs.Keys - done)
  {
    var rest := needs.Keys - done;
    forall x | x in rest ensures Blocked(needs, rest, x) {
      assert pending[x] != 0;
      UnmetZero(needs[x], done);
    }
  }

  lemma OrderedCount<T(!new)>(needs: map<T, seq<T>>, order: seq<T>)
    requires Ordered(needs, order)
    ensures Elements(order) <= needs.Keys
    ensures |order| == |needs.Keys| <==> Elements(order) == needs.Keys
  {
    var done := Elements(order);
    DistinctCount(order);
    assert done <= needs.Keys;
    var rest := needs.Keys - done;
    assert |rest| == |needs.Keys| - |done|;
    assert rest == {} <==> done == needs.Keys;
  }

  /** When nothing is ready any more, everything has been released exactly when there is no cycle. */
  lemma EndIsExact<T(!new)>(needs: map<T, seq<T>>, dependents: map<T, seq<T>>, pending: map<T, nat>, order: seq<T>)
    requires Closed(needs.Keys, needs) && Traversing(needs, dependents, pending, {}, order)
    ensures |order| == |needs.Keys| <==> !Cyclic(needs)
    ensures |order| == |needs.Keys| ==> Elements(order) == needs.Keys
  {
    OrderedCount(needs, order);
    if Elements(order) == needs.Keys {
      assert forall x :: x in needs ==> x in Elements(order);
      OrderExcludesCycles(needs, order);
    } else {
      WaitingIsStuck(needs, pending, Elements(order));
      StuckIsCyclic(needs, needs.Keys - Elements(order));
    }
  }

  /** Entries added to the lists: `x` once for each time its list names the node. */
  ghost predicate Added<T(!new)>(before: map<T, seq<T>>, after: map<T, seq<T>>, x: T, list: seq<T>) {
    && after.Keys == before.Keys
    && forall y, z :: y in before ==> Times(after[y], z) == Times(before[y], z) + if z == x then Times(list, y) else 0
  }

  lemma AddedNothing<T(!new)>(lists: map<T, seq<T>>, x: T, list: seq<T>)
    requires list == []
    ensures Added(lists, lists, x, list)
  {
    assert forall y :: Times(list, y) == 0;
  }

  lemma AddedOne<T(!new)>(before: map<T, seq<T>>, middle: map<T, seq<T>>, x: T, list: seq<T>, next: T)
    requires Added(before, middle, x, list) && next in before
    ensures Added(before, middle[next := middle[next] + [x]], x, list + [next])
  {
    var after := middle[next := middle[next] + [x]];
    forall y, z | y in before
      ensures Times(after[y], z) == Times(before[y], z) + if z == x then Times(list + [next], y) else 0
    {
      TimesLast(list, next, y);
      TimesLast(middle[next], x, z);
    }
  }

  /** Adds one dependent to the list of each node it needs. */
  method AddDependent<T(==, !new)>(dependents: map<T, seq<T>>, x: T, list: seq<T>) returns (r: map<T, seq<T>>)
    requires forall y :: y in list ==> y in dependents
    ensures Added(dependents, r, x, list)
  {
    r := dependents;
    AddedNothing(dependents, x, list[..0]);
    for k := 0 to |list|
      invariant Added(dependents, r, x, list[..k])
    {
      AddedOne(dependents, r, x, list[..k], list[k]);
      assert list[..k + 1] == list[..k] + [list[k]];
      r := r[list[k] := r[list[k]] + [x]];
    }
    assert list[..|list|] == list;
  }

  /** The lists once the nodes of `seen` have been entered. */
  ghost predicate Listed<T(!new)>(needs: map<T, seq<T>>, dependents: map<T, seq<T>>, seen: set<T>) {
    && dependents.Keys == needs.Keys && seen <= needs.Keys
    && forall x, y :: y in needs ==> Times(dependents[y], x) == if x in seen then Times(needs[x], y) else 0
  }

  /** The counts and the free nodes then. */
  ghost predicate Counted<T(!new)>(needs: map<T, seq<T>>, pending: map<T, nat>, ready: set<T>, seen: set<T>) {
    && pending.Keys == seen && seen <= needs.Keys
    && (forall x :: x in pending ==> pending[x] == |needs[x]|)
    && Ready(pending, ready, {})
  }

  lemma ListedOne<T(!new)>(needs: map<T, seq<T>>, before: map<T, seq<T>>, after: map<T, seq<T>>, seen: set<T>, x: T)
    requires Listed(needs, before, seen) && x in needs && x !in seen && Added(before, after, x, needs[x])
    ensures Listed(needs, after, seen + {x})
  {
    forall z, y | y in needs ensures Times(after[y], z) == if z in seen + {x} then Times(needs[z], y) else 0 {
      assert Times(before[y], z) == if z in seen then Times(needs[z], y) else 0;
    }
  }

  lemma ListedAll<T(!new)>(needs: map<T, seq<T>>, dependents: map<T, seq<T>>)
    requires Listed(needs, dependents, needs.Keys)
    ensures Reverses(needs, dependents)
  {
    forall y, z | y in needs && z in dependents[y] ensures z in needs {
      TimesMember(dependents[y], z);
    }
  }

  lemma CountedAll<T(!new)>(needs: map<T, seq<T>>, pending: map<T, nat>, ready: set<T>)
    requires Counted(needs, pending, ready, needs.Keys)
    ensures Counting(needs, pending, {}, [])
  {
    forall x | x in needs ensures pending[x] == Unmet(needs[x], {}) + Times([], x) {
      UnmetNothing(needs[x]);
    }
  }

  /** Everything once the nodes of `seen` have been entered. */
  ghost predicate Entered<T(!new)>(needs: map<T, seq<T>>, dependents: map<T, seq<T>>, pending: map<T, nat>,
                                   ready: set<T>, seen: set<T>) {
    Listed(needs, dependents, seen) && Counted(needs, pending, ready, seen)
  }

  function WithReady<T(==)>(ready: set<T>, x: T, needed: nat): set<T> {
    if needed == 0 then ready + {x} else ready
  }

  lemma CountedOne<T(!new)>(needs: map<T, seq<T>>, pending: map<T, nat>, ready: set<T>, seen: set<T>, x: T)
    requires Counted(needs, pending, ready, seen) && x in needs && x !in seen
    ensures Counted(needs, pending[x := |needs[x]|], WithReady(ready, x, |needs[x]|), seen + {x})
  {
  }

  /** Enters one more node. */
  method Enter<T(==, !new)>(needs: map<T, seq<T>>, dependents: map<T, seq<T>>, pending: map<T, nat>, ready: set<T>,
                            ghost seen: set<T>, x: T)
      returns (dependents': map<T, seq<T>>, pending': map<T, nat>, ready': set<T>)
    requires Closed(needs.Keys, needs) && Entered(needs, dependents, pending, ready, seen) && x in needs && x !in seen
    ensures Entered(needs, dependents', pending', ready', seen + {x})
  {
    dependents' := AddDependent(dependents, x, needs[x]);
    pending' := pending[x := |needs[x]|];
    ready' := WithReady(ready, x, |needs[x]|);
    ListedOne(needs, dependents, dependents', seen, x);
    CountedOne(needs, pending, ready, seen, x);
  }

  lemma NothingEntered<T(!new)>(needs: map<T, seq<T>>, dependents: map<T, seq<T>>)
    requires dependents.Keys == needs.Keys && forall y :: y in dependents ==> dependents[y] == []
    ensures Entered(needs, dependents, map[], {}, {})
  {
  }

  lemma EverythingEntered<T(!new)>(needs: map<T, seq<T>>, dependents: map<T, seq<T>>, pending: map<T, nat>,
                                   ready: set<T>)
    requires Entered(needs, dependents, pending, ready, needs.Keys)
    ensures Reverses(needs, dependents) && Counting(needs, pending, {}, []) && Ready(pending, ready, {})
  {
    ListedAll(needs, dependents);
    CountedAll(needs, pending, ready);
  }

  /** The lists of dependents, the counts of needs and the nodes without any. */
  method Prepare<T(==, !new)>(nodes: seq<T>, needs: map<T, seq<T>>)
      returns (dependents: map<T, seq<T>>, pending: map<T, nat>, ready: set<T>)
    requires Distinct(nodes) && Elements(nodes) == needs.Keys && Closed(needs.Keys, needs)
    ensures Reverses(needs, dependents) && Counting(needs, pending, {}, []) && Ready(pending, ready, {})
  {
    dependents, pending, ready := map x | x in needs :: [], map[], {};
    ghost var seen := {};
    NothingEntered(needs, dependents);
    for i := 0 to |nodes|
      invariant SeenUpTo(nodes, i, seen) && Entered(needs, dependents, pending, ready, seen)
    {
      var x := nodes[i];
      SeenNext(nodes, i, seen);
      dependents, pending, ready := Enter(needs, dependents, pending, ready, seen, x);
      seen := seen + {x};
    }
    assert nodes[..|nodes|] == nodes;
    EverythingEntered(needs, dependents, pending, ready);
  }

  ghost predicate SeenUpTo<T(!new)>(nodes: seq<T>, i: nat, seen: set<T>) {
    i <= |nodes| && seen == Elements(nodes[..i])
  }

  lemma SeenNext<T(!new)>(nodes: seq<T>, i: nat, seen: set<T>)
    requires Distinct(nodes) && i < |nodes| && SeenUpTo(nodes, i, seen)
    ensures nodes[i] in Elements(nodes) && nodes[i] !in seen && SeenUpTo(nodes, i + 1, seen + {nodes[i]})
  {
  }

  /** What taking a ready node leaves to be done. */
  lemma TakeReady<T(!new)>(needs: map<T, seq<T>>, dependents: map<T, seq<T>>, pending: map<T, nat>, ready: set<T>,
                           order: seq<T>, x: T)
    requires Traversing(needs, dependents, pending, ready, order) && x in ready
    ensures x in needs && x !in order && forall y :: y in needs[x] ==> y in order
    ensures Ordered(needs, order + [x]) && Elements(order + [x]) == Elements(order) + {x}
    ensures Counting(needs, pending, Elements(order) + {x}, dependents[x])
    ensures Ready(pending, ready - {x}, Elements(order) + {x})
    ensures forall z :: z in dependents[x] ==> z in needs && z !in Elements(order) + {x}
  {
    UnmetZero(needs[x], Elements(order));
    ReleaseExtends(needs, order, x);
    ReleaseOwes(needs, dependents, pending, Elements(order), x);
    forall z | z in dependents[x] ensures z in needs && z !in Elements(order) + {x} {
      OwedIsWaiting(needs, order, x, dependents, z);
    }
  }

  class Traversal<T(==, !new)> {
    ghost const needs: map<T, seq<T>>
    var dependents: map<T, seq<T>>
    var pending: map<T, nat>
    var ready: set<T>
    /** The nodes released so far, in order. */
    ghost var order: seq<T>

    ghost predicate Valid()
      reads this
    {
      Traversing(needs, dependents, pending, ready, order)
    }

    constructor (nodes: seq<T>, lists: map<T, seq<T>>)
      requires Distinct(nodes) && Elements(nodes) == lists.Keys && Closed(lists.Keys, lists)
      ensures Valid() && needs == lists && order == []
    {
      var reversed, counts, free := Prepare(nodes, lists);
      needs, order := lists, [];
      dependents, pending, ready := reversed, counts, free;
      new;
      assert Elements(order) == {};
    }

    /** Lowers the counts of the dependents of a released node. */
    method Lower(list: seq<T>, ghost done: set<T>)
      requires Counting(needs, pending, done, list) && Ready(pending, ready, done)
      requires forall z :: z in list ==> z in needs && z !in done
      modifies this`pending, this`ready
      ensures Counting(needs, pending, done, []) && Ready(pending, ready, done)
    {
      assert list[0..] == list;
      for k := 0 to |list|
        invariant Counting(needs, pending, done, list[k..]) && Ready(pending, ready, done)
      {
        var z := list[k];
        CountingLowered(needs, pending, done, list[k..]);
        assert list[k..][1..] == list[k + 1..];
        pending := pending[z := pending[z] - 1];
        if pending[z] == 0 {
          ready := ready + {z};
        }
      }
      assert list[|list|..] == [];
    }

    /** Releases a node whose needs have all been released. */
    method Next() returns (x: T)
      requires Valid() && ready != {}
      modifies this
      ensures Valid() && order == old(order) + [x]
      ensures Elements(order) == old(Elements(order)) + {x} && x !in old(Elements(order))
      ensures x in needs && x !in old(order) && forall y :: y in needs[x] ==> y in old(order)
    {
      x :| x in ready;
      TakeReady(needs, dependents, pending, ready, order, x);
      ready := ready - {x};
      Lower(dependents[x], Elements(order) + {x});
      order := order + [x];
    }

    /** Releases everything that can be, in order. */
    method Drain() returns (released: seq<T>)
      requires Valid() && order == []
      modifies this
      ensures Valid() && ready == {} && released == order
    {
      released := [];
      while ready != {}
        invariant Valid() && released == order
        decreases needs.Keys - Elements(order)
      {
        var x := Next();
        assert x in needs.Keys;
        released := released + [x];
      }
    }
  }

  /** An order in which every node comes after its needs, of as many nodes as possible: all of them exactly when
      there is no cycle. */
  method Sort<T(==, !new)>(nodes: seq<T>, needs: map<T, seq<T>>) returns (order: seq<T>)
    requires Distinct(nodes) && Elements(nodes) == needs.Keys && Closed(needs.Keys, needs)
    ensures Ordered(needs, order) && Stuck(needs, needs.Keys - Elements(order))
    ensures |order| == |nodes| <==> !Cyclic(needs)
    ensures |order| == |nodes| ==> Elements(order) == needs.Keys
  {
    var traversal := new Traversal(nodes, needs);
    order := traversal.Drain();
    EndIsExact(needs, traversal.dependents, traversal.pending, order);
    WaitingIsStuck(needs, traversal.pending, Elements(order));
    DistinctCount(nodes);
  }
}
