/** The table of files and folders as a parent-pointer graph: ancestors, cycles, subtrees, and what a
    change of one parent does to them. */
module Ancestry {
  import opened Wrappers
  import opened Sets

  type Id = int

  datatype Kind = File | Folder

  datatype Row = Row(user: nat, parent: Option<Id>, name: string, kind: Kind, trashed: bool)

  type Table = map<Id, Row>

  /** The n-th ancestor of x, x itself for n = 0, as long as the parents are present. */
  function Up(t: Table, x: Id, n: nat): (r: Option<Id>)
    ensures r.Some? ==> r.value in t
    decreases n
  {
    if x !in t then None
    else if n == 0 then Some(x)
    else match t[x].parent
      case None => None
      case Some(p) => Up(t, p, n - 1)
  }

  /** root is an ancestor of x, or x itself. */
  ghost predicate Within(t: Table, root: Id, x: Id) {
    exists n: nat :: Up(t, x, n) == Some(root)
  }

  /** y is a proper ancestor of x. */
  ghost predicate Below(t: Table, x: Id, y: Id) {
    exists n: nat :: n > 0 && Up(t, x, n) == Some(y)
  }

  /** x is its own proper ancestor. */
  ghost predicate OnCycle(t: Table, x: Id) {
    Below(t, x, x)
  }

  ghost predicate NoCycleAbove(t: Table, x: Id) {
    forall n: nat :: Up(t, x, n).Some? ==> !OnCycle(t, Up(t, x, n).value)
  }

  ghost predicate Acyclic(t: Table) {
    forall x :: x in t ==> !OnCycle(t, x)
  }

  /** The walk up from x ends. */
  ghost predicate Grounded(t: Table, x: Id) {
    exists n: nat :: Up(t, x, n) == None
  }

  ghost predicate ParentsExist(t: Table) {
    forall x :: x in t && t[x].parent.Some? ==> t[x].parent.value in t
  }

  /** A child belongs to its parent's owner. */
  ghost predicate OwnersAgree(t: Table) {
    forall x :: x in t && t[x].parent.Some? && t[x].parent.value in t ==> t[t[x].parent.value].user == t[x].user
  }

  lemma {:induction false} UpAdd(t: Table, x: Id, m: nat, n: nat)
    ensures Up(t, x, m + n) == match Up(t, x, m) case None => None case Some(y) => Up(t, y, n)
    decreases m
  {
    if x in t && m > 0 && t[x].parent.Some? {
      UpAdd(t, t[x].parent.value, m - 1, n);
    }
  }

  // Cycles and the end of walks

  lemma {:induction false} CycleNeverEnds(t: Table, x: Id, n: nat, k: nat)
    requires n > 0 && Up(t, x, n) == Some(x)
    ensures Up(t, x, k).Some?
    decreases k
  {
    if k < n {
      UpAdd(t, x, k, n - k);
    } else {
      UpAdd(t, x, n, k - n);
      CycleNeverEnds(t, x, n, k - n);
    }
  }

  /** A walk that has passed the entries in seen without repeating, in a table without cycles, ends. */
  lemma {:induction false} WalkEnds(t: Table, x: Id, seen: set<Id>)
    requires seen <= t.Keys
    requires forall y :: y in seen ==> Below(t, y, x)
    requires NoCycleAbove(t, x)
    ensures Grounded(t, x)
    decreases t.Keys - seen
  {
    if x !in t {
      assert Up(t, x, 0) == None;
    } else if t[x].parent.None? {
      assert Up(t, x, 1) == None;
    } else {
      var p := t[x].parent.value;
      assert Up(t, x, 0) == Some(x);
      if p !in t {
        assert Up(t, x, 1) == None;
      } else {
        var seen' := seen + {x};
        forall y | y in seen'
          ensures Below(t, y, p)
        {
          assert Up(t, x, 1) == Some(p);
          if y in seen {
            var n: nat :| n > 0 && Up(t, y, n) == Some(x);
            UpAdd(t, y, n, 1);
            assert Up(t, y, n + 1) == Some(p);
          }
        }
        forall n: nat | Up(t, p, n).Some?
          ensures !OnCycle(t, Up(t, p, n).value)
        {
          assert Up(t, x, n + 1) == Up(t, p, n);
        }
        WalkEnds(t, p, seen');
        var n: nat :| Up(t, p, n) == None;
        assert Up(t, x, n + 1) == None;
      }
    }
  }

  /** The walk up from x ends iff it meets no cycle: finitely many rows leave no other way. */
  lemma GroundedIffNoCycleAbove(t: Table, x: Id)
    ensures Grounded(t, x) <==> NoCycleAbove(t, x)
  {
    if NoCycleAbove(t, x) {
      WalkEnds(t, x, {});
    } else {
      var n: nat :| Up(t, x, n).Some? && OnCycle(t, Up(t, x, n).value);
      var y := Up(t, x, n).value;
      var m: nat :| m > 0 && Up(t, y, m) == Some(y);
      forall k: nat
        ensures Up(t, x, k).Some?
      {
        CycleNeverEnds(t, y, m, k);
        UpAdd(t, x, n, k);
        UpAdd(t, x, k, n);
      }
    }
  }

  lemma AcyclicIffGrounded(t: Table)
    ensures Acyclic(t) <==> forall x :: x in t ==> Grounded(t, x)
  {
    forall x | x in t
      ensures Acyclic(t) ==> Grounded(t, x)
      ensures Grounded(t, x) ==> !OnCycle(t, x)
    {
      GroundedIffNoCycleAbove(t, x);
      assert Up(t, x, 0) == Some(x);
      if Acyclic(t) {
        assert NoCycleAbove(t, x);
      }
    }
  }

  /** A table whose rows can be numbered so that parents come first has no cycle. */
  lemma RankedIsAcyclic(t: Table, rank: Id -> nat)
    requires forall x :: x in t && t[x].parent.Some? && t[x].parent.value in t ==> rank(t[x].parent.value) < rank(x)
    ensures Acyclic(t)
  {
    forall x | x in t
      ensures !OnCycle(t, x)
    {
      forall n: nat | n > 0
        ensures Up(t, x, n) != Some(x)
      {
        RankFalls(t, rank, x, n);
      }
    }
  }

  lemma {:induction false} RankFalls(t: Table, rank: Id -> nat, x: Id, n: nat)
    requires forall y :: y in t && t[y].parent.Some? && t[y].parent.value in t ==> rank(t[y].parent.value) < rank(y)
    ensures Up(t, x, n).Some? ==> rank(Up(t, x, n).value) <= rank(x) && (n > 0 ==> rank(Up(t, x, n).value) < rank(x))
    decreases n
  {
    if x in t && n > 0 && t[x].parent.Some? && t[x].parent.value in t {
      RankFalls(t, rank, t[x].parent.value, n - 1);
    }
  }

  lemma OwnParent(t: Table, x: Id)
    requires x in t && t[x].parent == Some(x)
    ensures OnCycle(t, x)
  {
    assert Up(t, x, 1) == Up(t, x, 0) == Some(x);
  }

  // Changing rows

  /** Two tables that agree on rows, parents and presence along a walk have the same walk. */
  ghost predicate SameParents(t: Table, t': Table) {
    t.Keys == t'.Keys && forall x :: x in t ==> t[x].parent == t'[x].parent
  }

  lemma {:induction false} SameParentsSameWalks(t: Table, t': Table, x: Id, n: nat)
    requires SameParents(t, t')
    ensures Up(t, x, n) == Up(t', x, n)
    decreases n
  {
    if x in t && n > 0 && t[x].parent.Some? {
      SameParentsSameWalks(t, t', t[x].parent.value, n - 1);
    }
  }

  lemma SameParentsKeep(t: Table, t': Table)
    requires SameParents(t, t')
    ensures Acyclic(t) ==> Acyclic(t')
    ensures forall r, x :: Within(t, r, x) <==> Within(t', r, x)
  {
    forall x, n: nat
      ensures Up(t, x, n) == Up(t', x, n)
    {
      SameParentsSameWalks(t, t', x, n);
    }
    forall x | x in t'
      ensures OnCycle(t', x) ==> OnCycle(t, x)
    {
      if OnCycle(t', x) {
        var n: nat :| n > 0 && Up(t', x, n) == Some(x);
        assert Up(t, x, n) == Some(x);
      }
    }
  }

  /** Removing rows only cuts walks short. */
  lemma {:induction false} FewerRowsShorterWalks(t: Table, gone: set<Id>, x: Id, n: nat)
    ensures Up(t - gone, x, n).Some? ==> Up(t - gone, x, n) == Up(t, x, n)
    decreases n
  {
    if x in t - gone && n > 0 && t[x].parent.Some? {
      FewerRowsShorterWalks(t, gone, t[x].parent.value, n - 1);
    }
  }

  lemma FewerRowsAcyclic(t: Table, gone: set<Id>)
    requires Acyclic(t)
    ensures Acyclic(t - gone)
  {
    forall x | x in t - gone
      ensures !OnCycle(t - gone, x)
    {
      forall n: nat
        ensures n > 0 ==> Up(t - gone, x, n) != Some(x)
      {
        FewerRowsShorterWalks(t, gone, x, n);
        assert !OnCycle(t, x);
      }
    }
  }

  /** The first time a walk meets item. */
  lemma {:induction false} FirstMeeting(t: Table, x: Id, item: Id, n: nat) returns (m: nat)
    requires Up(t, x, n) == Some(item)
    ensures m <= n && Up(t, x, m) == Some(item)
    ensures forall k: nat :: k < m ==> Up(t, x, k) != Some(item)
  {
    m := 0;
    while Up(t, x, m) != Some(item)
      invariant m <= n
      invariant forall k: nat :: k < m ==> Up(t, x, k) != Some(item)
      decreases n - m
    {
      m := m + 1;
    }
  }

  /** Up to its first meeting with the changed row, a walk is as it was. */
  lemma {:induction false} WalkBeforeMeeting(t: Table, t': Table, item: Id, x: Id, n: nat)
    requires t.Keys == t'.Keys && forall y :: y in t && y != item ==> t[y] == t'[y]
    requires forall k: nat :: k < n ==> Up(t, x, k) != Some(item)
    ensures Up(t', x, n) == Up(t, x, n)
    decreases n
  {
    if x in t && n > 0 {
      assert Up(t, x, 0) == Some(x);
      if t[x].parent.Some? {
        var p := t[x].parent.value;
        assert forall k: nat :: k < n - 1 ==> Up(t, p, k) == Up(t, x, k + 1);
        WalkBeforeMeeting(t, t', item, p, n - 1);
      }
    }
  }

  function Reparented(t: Table, item: Id, target: Option<Id>): Table
    requires item in t
  {
    t[item := t[item].(parent := target)]
  }

  /** A move under an entry of the moved subtree makes the moved entry its own ancestor. */
  lemma MoveInsideMakesCycle(t: Table, item: Id, g: Id)
    requires item in t && Within(t, item, g)
    ensures OnCycle(Reparented(t, item, Some(g)), item)
  {
    var t' := Reparented(t, item, Some(g));
    var n: nat :| Up(t, g, n) == Some(item);
    var m := FirstMeeting(t, g, item, n);
    WalkBeforeMeeting(t, t', item, g, m);
    assert Up(t', item, m + 1) == Up(t', g, m);
  }

  /** A cycle of the new table that passes through item shows the target inside the old subtree. */
  lemma CycleThroughItem(t: Table, item: Id, target: Option<Id>, n: nat)
    requires item in t && n > 0
    requires Up(Reparented(t, item, target), item, n) == Some(item)
    ensures target.Some? && Within(t, item, target.value)
  {
    var t' := Reparented(t, item, target);
    var g := target.value;
    assert Up(t', g, n - 1) == Some(item);
    var m := FirstMeeting(t', g, item, n - 1);
    WalkBeforeMeeting(t', t, item, g, m);
  }

  lemma MoveOutsideKeepsAcyclic(t: Table, item: Id, target: Option<Id>)
    requires Acyclic(t) && item in t && (target.Some? ==> !Within(t, item, target.value))
    ensures Acyclic(Reparented(t, item, target))
  {
    var t' := Reparented(t, item, target);
    forall x | x in t'
      ensures !OnCycle(t', x)
    {
      if OnCycle(t', x) {
        var n: nat :| n > 0 && Up(t', x, n) == Some(x);
        MeetsItem(t, t', item, x, n);
        var k: nat :| k < n && Up(t', x, k) == Some(item);
        UpAdd(t', x, n, k);
        UpAdd(t', x, k, n);
        CycleThroughItem(t, item, target, n);
      }
    }
  }

  lemma MeetsItem(t: Table, t': Table, item: Id, x: Id, n: nat)
    requires Acyclic(t) && t.Keys == t'.Keys && forall y :: y in t && y != item ==> t[y] == t'[y]
    requires n > 0 && Up(t', x, n) == Some(x)
    ensures exists k: nat :: k < n && Up(t', x, k) == Some(item)
  {
    if forall k: nat :: k < n ==> Up(t', x, k) != Some(item) {
      WalkBeforeMeeting(t', t, item, x, n);
      assert OnCycle(t, x);
    }
  }

  /** Moving keeps a table acyclic iff the target lies outside the moved subtree. */
  lemma MoveIsSafeIffOutside(t: Table, item: Id, target: Option<Id>)
    requires Acyclic(t) && item in t
    ensures Acyclic(Reparented(t, item, target)) <==> !(target.Some? && Within(t, item, target.value))
  {
    if target.Some? && Within(t, item, target.value) {
      MoveInsideMakesCycle(t, item, target.value);
    } else {
      MoveOutsideKeepsAcyclic(t, item, target);
    }
  }

  /** A new row that no row points at yet is on no cycle and makes none. */
  lemma NewRowKeepsAcyclic(t: Table, id: Id, row: Row)
    requires Acyclic(t) && ParentsExist(t) && id !in t && (row.parent.Some? ==> row.parent.value in t)
    ensures Acyclic(t[id := row])
  {
    var t' := t[id := row];
    forall x | x in t'
      ensures !OnCycle(t', x)
    {
      forall n: nat | n > 0
        ensures Up(t', x, n) != Some(x)
      {
        WalkAvoidsNewRow(t, id, row, x, n);
        assert x in t ==> !OnCycle(t, x);
      }
    }
  }

  lemma {:induction false} WalkAvoidsNewRow(t: Table, id: Id, row: Row, x: Id, n: nat)
    requires ParentsExist(t) && id !in t && (row.parent.Some? ==> row.parent.value in t)
    ensures x in t ==> Up(t[id := row], x, n) == Up(t, x, n)
    ensures n > 0 ==> Up(t[id := row], id, n) != Some(id)
    decreases n
  {
    var t' := t[id := row];
    if x in t && n > 0 && t[x].parent.Some? {
      WalkAvoidsNewRow(t, id, row, t[x].parent.value, n - 1);
    }
    if n > 0 && row.parent.Some? {
      WalkAvoidsNewRow(t, id, row, row.parent.value, n - 1);
    }
  }

  /** The rows of t with the parents that u has for its own rows. */
  ghost predicate Overlaid(t: Table, u: Table, out: Table) {
    && out.Keys == t.Keys + u.Keys
    && (forall x :: x in u ==> out[x].parent == u[x].parent)
    && (forall x :: x in t && x !in u ==> out[x].parent == t[x].parent)
  }

  lemma {:induction false} OverlaidWalk(t: Table, u: Table, out: Table, x: Id, n: nat)
    requires Overlaid(t, u, out) && ParentsExist(u)
    ensures x in u ==> Up(out, x, n) == Up(u, x, n)
    ensures (forall k: nat :: k < n ==> Up(out, x, k).Some? && Up(out, x, k).value !in u) && x in t ==>
      Up(out, x, n).None? || Up(out, x, n).value in u || Up(out, x, n) == Up(t, x, n)
    decreases n
  {
    if x in out && n > 0 && out[x].parent.Some? {
      var p := out[x].parent.value;
      OverlaidWalk(t, u, out, p, n - 1);
      assert Up(out, x, 0) == Some(x);
      if forall k: nat :: k < n ==> Up(out, x, k).Some? && Up(out, x, k).value !in u {
        forall k: nat | k < n - 1
          ensures Up(out, p, k).Some? && Up(out, p, k).value !in u
        {
          assert Up(out, x, k + 1) == Up(out, p, k);
        }
        if n > 1 {
          assert Up(out, p, 0) == Some(p);
        }
      }
    }
  }

  /** Laying rows whose parents are among themselves over a table makes no cycle when both have none. */
  lemma OverlaidAcyclic(t: Table, u: Table, out: Table)
    requires Overlaid(t, u, out) && ParentsExist(u) && Acyclic(t) && Acyclic(u)
    ensures Acyclic(out)
  {
    forall x | x in out
      ensures !OnCycle(out, x)
    {
      forall n: nat | n > 0
        ensures Up(out, x, n) != Some(x)
      {
        NotBackAfter(t, u, out, x, n);
      }
    }
  }

  lemma NotBackAfter(t: Table, u: Table, out: Table, x: Id, n: nat)
    requires Overlaid(t, u, out) && ParentsExist(u) && Acyclic(t) && Acyclic(u) && n > 0 && x in out
    ensures Up(out, x, n) != Some(x)
  {
    if x in u {
      OverlaidWalk(t, u, out, x, n);
      assert !OnCycle(u, x);
    } else if k: nat :| k < n && Up(out, x, k).Some? && Up(out, x, k).value in u {
      var y := Up(out, x, k).value;
      OverlaidWalk(t, u, out, y, n - k);
      UpAdd(out, x, k, n - k);
      WalkStays(u, y, n - k);
    } else if Up(out, x, n).Some? {
      WalkContinues(out, x, n);
      OverlaidWalk(t, u, out, x, n);
      assert !OnCycle(t, x);
    }
  }

  lemma WalkStays(u: Table, y: Id, n: nat)
    ensures Up(u, y, n).Some? ==> Up(u, y, n).value in u
  {
  }

  lemma {:induction false} WalkContinues(out: Table, x: Id, n: nat)
    requires Up(out, x, n).Some?
    ensures forall k: nat :: k < n ==> Up(out, x, k).Some?
  {
    forall k: nat | k < n
      ensures Up(out, x, k).Some?
    {
      UpAdd(out, x, k, n - k);
    }
  }

  /** A cycle stays as long as its rows keep their parents. */
  lemma CycleKept(t: Table, t': Table, x: Id)
    requires OnCycle(t, x) && forall y :: Below(t, x, y) ==> y in t' && t'[y].parent == t[y].parent
    ensures OnCycle(t', x)
  {
    var n: nat :| n > 0 && Up(t, x, n) == Some(x);
    assert Up(t, x, 0) == Some(x);
    WalkKept(t, t', x, x, n, 0);
  }

  /** The rest of a walk from x, from its k-th entry on. */
  lemma {:induction false} WalkKept(t: Table, t': Table, x: Id, y: Id, n: nat, k: nat)
    requires OnCycle(t, x) && forall z :: Below(t, x, z) ==> z in t' && t'[z].parent == t[z].parent
    requires Up(t, x, k) == Some(y) && Up(t, y, n).Some?
    ensures Up(t', y, n) == Up(t, y, n)
    decreases n
  {
    assert Below(t, x, y) by {
      if k > 0 {
        assert Below(t, x, y);
      } else {
        assert y == x;
      }
    }
    if n > 0 {
      UpAdd(t, x, k, 1);
      var p := t[y].parent.value;
      assert Up(t, y, 1) == Up(t, p, 0);
      assert Up(t, x, k + 1) == Some(p) by {
        assert Up(t, p, n - 1).Some?;
      }
      WalkKept(t, t', x, p, n - 1, k + 1);
    }
  }

  lemma BelowWithin(t: Table, root: Id, x: Id, y: Id)
    requires Below(t, x, y) && Within(t, root, y)
    ensures Within(t, root, x)
  {
    var m: nat :| m > 0 && Up(t, x, m) == Some(y);
    var n: nat :| Up(t, y, n) == Some(root);
    UpAdd(t, x, m, n);
  }

  // Subtrees, level by level

  ghost function Subtree(t: Table, root: Id): set<Id> {
    set x | x in t && Within(t, root, x)
  }

  /** The entries n steps below root. */
  ghost function Level(t: Table, root: Id, n: nat): set<Id> {
    set x | x in t && Up(t, x, n) == Some(root)
  }

  function Children(t: Table, parents: set<Id>): set<Id> {
    set x | x in t && t[x].parent.Some? && t[x].parent.value in parents
  }

  lemma NextLevel(t: Table, root: Id, n: nat)
    ensures Children(t, Level(t, root, n)) == Level(t, root, n + 1)
  {
    forall x | x in t
      ensures x in Children(t, Level(t, root, n)) <==> x in Level(t, root, n + 1)
    {
      assert Up(t, x, n + 1) == match t[x].parent case None => None case Some(p) => Up(t, p, n);
    }
  }

  /** Unless root is on a cycle, no entry is on two levels, so every level brings something new or is the last. */
  lemma LevelsAreDisjoint(t: Table, root: Id, m: nat, n: nat)
    requires m < n && !OnCycle(t, root)
    ensures Level(t, root, m) !! Level(t, root, n)
  {
    forall x | x in Level(t, root, m)
      ensures x !in Level(t, root, n)
    {
      UpAdd(t, x, m, n - m);
    }
  }

  lemma NoGapBetweenLevels(t: Table, root: Id, n: nat, k: nat)
    requires n <= k && Level(t, root, k) != {}
    ensures Level(t, root, n) != {}
  {
    var x := Any(Level(t, root, k));
    UpAdd(t, x, k - n, n);
    assert Up(t, x, k - n).value in Level(t, root, n);
  }

  /** The recursive query: rows reached so far, and the working table of the rows reached last. The database
      gives up when the query is not finished after the given number of rounds. */
  method Descendants(t: Table, root: Id, rounds: nat) returns (r: Option<set<Id>>)
    requires root in t
    ensures r.Some? <==> Level(t, root, rounds) == {}
    ensures r.Some? ==> r.value == Subtree(t, root)
  {
    var working, ids := {root}, {root};
    ghost var done: set<Id> := {};
    FirstLevel(t, root);
    for n := 0 to rounds
      invariant working == Level(t, root, n) && ids == done + working && working != {}
      invariant forall x :: x in done <==> exists k: nat :: k < n && x in Level(t, root, k)
    {
      NextLevel(t, root, n);
      done := done + working;
      assert forall x :: x in done <==> exists k: nat :: k < n + 1 && x in Level(t, root, k);
      working := Children(t, working);
      ids := ids + working;
      if working == {} {
        EmptyLevels(t, root, n + 1, rounds);
        AllLevels(t, root, n + 1, ids);
        return Some(ids);
      }
    }
    return None;
  }

  lemma FirstLevel(t: Table, root: Id)
    requires root in t
    ensures Level(t, root, 0) == {root}
  {
    assert Up(t, root, 0) == Some(root);
  }

  lemma EmptyLevels(t: Table, root: Id, n: nat, k: nat)
    requires n <= k && Level(t, root, n) == {}
    ensures Level(t, root, k) == {}
  {
    if Level(t, root, k) != {} {
      NoGapBetweenLevels(t, root, n, k);
    }
  }

  /** The levels before an empty one are the whole subtree. */
  lemma AllLevels(t: Table, root: Id, n: nat, ids: set<Id>)
    requires Level(t, root, n) == {}
    requires forall x :: x in ids <==> exists k: nat :: k < n && x in Level(t, root, k)
    ensures ids == Subtree(t, root)
  {
    forall x
      ensures x in ids <==> x in Subtree(t, root)
    {
      if x in t && Within(t, root, x) {
        var k: nat :| Up(t, x, k) == Some(root);
        assert x in Level(t, root, k);
        if k >= n {
          EmptyLevels(t, root, n, k);
        }
      }
    }
  }

  ghost predicate WithinSome(t: Table, roots: set<Id>, x: Id) {
    exists r :: r in roots && Within(t, r, x)
  }

  /** ON DELETE CASCADE: the rows that go when the given rows are deleted. */
  method Cascade(t: Table, roots: set<Id>) returns (gone: set<Id>)
    requires roots <= t.Keys
    ensures forall x :: x in gone <==> x in t && WithinSome(t, roots, x)
  {
    gone := roots;
    var more := Children(t, gone) - gone;
    RootsWithin(t, roots);
    while more != {}
      invariant roots <= gone <= t.Keys && more == Children(t, gone) - gone
      invariant forall x :: x in gone ==> WithinSome(t, roots, x)
      decreases t.Keys - gone
    {
      ChildrenWithin(t, roots, gone);
      assert Any(more) in more;
      gone := gone + more;
      more := Children(t, gone) - gone;
    }
    ClosedHoldsAll(t, gone, roots);
  }

  lemma RootsWithin(t: Table, roots: set<Id>)
    requires roots <= t.Keys
    ensures forall x :: x in roots ==> WithinSome(t, roots, x)
  {
    forall x | x in roots
      ensures WithinSome(t, roots, x)
    {
      assert Up(t, x, 0) == Some(x);
    }
  }

  lemma ChildrenWithin(t: Table, roots: set<Id>, s: set<Id>)
    requires forall x :: x in s ==> WithinSome(t, roots, x)
    ensures forall x :: x in Children(t, s) ==> WithinSome(t, roots, x)
  {
    forall x | x in Children(t, s)
      ensures WithinSome(t, roots, x)
    {
      var r :| r in roots && Within(t, r, t[x].parent.value);
      var n: nat :| Up(t, t[x].parent.value, n) == Some(r);
      assert Up(t, x, n + 1) == Some(r);
    }
  }

  lemma ClosedHoldsAll(t: Table, s: set<Id>, roots: set<Id>)
    requires roots <= s && Children(t, s) - s == {}
    ensures forall x :: WithinSome(t, roots, x) ==> x in s
  {
    forall x | WithinSome(t, roots, x)
      ensures x in s
    {
      var r :| r in roots && Within(t, r, x);
      var n: nat :| Up(t, x, n) == Some(r);
      ClosedHolds(t, s, r, x, n);
    }
  }

  lemma {:induction false} ClosedHolds(t: Table, s: set<Id>, r: Id, x: Id, n: nat)
    requires r in s && Up(t, x, n) == Some(r) && Children(t, s) - s == {}
    ensures x in s
    decreases n
  {
    if n > 0 {
      var p := t[x].parent.value;
      ClosedHolds(t, s, r, p, n - 1);
      assert x in Children(t, s);
      assert x in s || x in Children(t, s) - s;
    }
  }

  /** The query ends iff root is not on a cycle, and then within as many rounds as there are rows. */
  lemma QueryEndsIffNotOnCycle(t: Table, root: Id, rounds: nat)
    requires root in t
    ensures OnCycle(t, root) ==> Level(t, root, rounds) != {}
    ensures !OnCycle(t, root) && rounds >= |t| ==> Level(t, root, rounds) == {}
  {
    if OnCycle(t, root) {
      var m: nat :| m > 0 && Up(t, root, m) == Some(root);
      LevelOnCycle(t, root, m, rounds);
    } else if rounds >= |t| {
      var n := LastLevel(t, root, 0, {});
      EmptyLevels(t, root, n, rounds);
    }
  }

  lemma {:induction false} LevelOnCycle(t: Table, root: Id, m: nat, n: nat)
    requires m > 0 && Up(t, root, m) == Some(root)
    ensures Level(t, root, n) != {}
  {
    Turns(t, root, m, n);
    assert m * n >= n;
    UpAdd(t, root, m * n - n, n);
    assert Up(t, root, m * n - n).value in Level(t, root, n);
  }

  lemma {:induction false} Turns(t: Table, root: Id, m: nat, n: nat)
    requires m > 0 && Up(t, root, m) == Some(root)
    ensures m * n >= n && Up(t, root, m * n) == Some(root)
  {
    if n > 0 {
      Turns(t, root, m, n - 1);
      UpAdd(t, root, m * (n - 1), m);
      assert m * n == m * (n - 1) + m;
    } else {
      assert Up(t, root, 0) == Some(root);
    }
  }

  lemma {:induction false} LastLevel(t: Table, root: Id, n: nat, done: set<Id>) returns (last: nat)
    requires !OnCycle(t, root) && done <= t.Keys
    requires n <= |done| && forall x :: x in done <==> exists k: nat :: k < n && x in Level(t, root, k)
    ensures Level(t, root, last) == {} && last <= |t|
    decreases t.Keys - done
  {
    SubsetSize(done, t.Keys);
    assert |t.Keys| == |t|;
    if Level(t, root, n) == {} {
      last := n;
    } else {
      forall k: nat | k < n
        ensures Level(t, root, k) !! Level(t, root, n)
      {
        LevelsAreDisjoint(t, root, k, n);
      }
      var x := Any(Level(t, root, n));
      assert x !in done;
      SubsetSize(done + {x}, done + Level(t, root, n));
      last := LastLevel(t, root, n + 1, done + Level(t, root, n));
    }
  }
}
