/** Replica rebalancing: one replica per file and call in the backend, all at once in the worker. */
module Rebalance {
  import opened Wrappers
  import opened Sets
  import opened Numbers

  type File = int
  type Node = int

  /** The rows of file_replicas; the pair is unique. */
  type Replicas = set<(File, Node)>

  function NodesOf(r: Replicas, f: File): set<Node> {
    set p | p in r && p.0 == f :: p.1
  }

  predicate Distinct(nodes: seq<Node>) {
    forall i, j :: 0 <= i < j < |nodes| ==> nodes[i] != nodes[j]
  }

  function Range(nodes: seq<Node>): set<Node> {
    set n | n in nodes
  }

  // Specification

  /** The first online node that has no replica yet. */
  function FirstMissing(existing: set<Node>, online: seq<Node>): Option<Node> {
    if online == [] then None
    else if online[0] !in existing then Some(online[0])
    else FirstMissing(existing, online[1..])
  }

  /** What one backend call does to the nodes of one file. */
  function OneMore(existing: set<Node>, online: seq<Node>, target: nat): set<Node> {
    if target > 1 && |online| > 1 && |existing| < target && FirstMissing(existing, online).Some?
    then existing + {FirstMissing(existing, online).value}
    else existing
  }

  /** The nodes of a file after a call that does or does not list the file. */
  function AfterCall(existing: set<Node>, listed: bool, online: seq<Node>, target: nat): set<Node> {
    if listed then OneMore(existing, online, target) else existing
  }

  function Calls(existing: set<Node>, online: seq<Node>, target: nat, n: nat): set<Node> {
    if n == 0 then existing else OneMore(Calls(existing, online, target, n - 1), online, target)
  }

  /** The worker's loop over the online nodes. */
  function Fill(existing: set<Node>, online: seq<Node>, target: nat): set<Node>
    decreases |online|
  {
    if online == [] then existing
    else
      var next := if online[0] !in existing && |existing| < target then existing + {online[0]} else existing;
      Fill(next, online[1..], target)
  }

  function Primary(primary: Option<Node>): set<Node> {
    match primary case Some(n) => {n} case None => {}
  }

  /** What the worker's pass does to the replica rows of one file: the primary node counts but gets no row. */
  function Pass(existing: set<Node>, primary: Option<Node>, online: seq<Node>, target: nat): set<Node> {
    if target > 1 && |online| > 1
    then existing + (Fill(existing + Primary(primary), online, target) - (existing + Primary(primary)))
    else existing
  }

  // The code

  class ReplicaTable {
    var rows: Replicas

    constructor ()
      ensures rows == {}
    {
      rows := {};
    }

    /** SELECT COUNT(*) of the replicas of a file. */
    method CountRows(f: File) returns (count: nat)
      ensures count == |NodesOf(rows, f)|
    {
      return |NodesOf(rows, f)|;
    }

    /** The backend's inner loop: INSERT ... ON CONFLICT DO NOTHING until a row went in. */
    method InsertFirst(f: File, online: seq<Node>) returns (inserted: bool)
      modifies this
      ensures var m := FirstMissing(NodesOf(old(rows), f), online);
        && inserted == m.Some?
        && rows == if m.Some? then old(rows) + {(f, m.value)} else old(rows)
    {
      assert online[0..] == online;
      for i := 0 to |online|
        invariant rows == old(rows)
        invariant FirstMissing(NodesOf(rows, f), online) == FirstMissing(NodesOf(rows, f), online[i..])
      {
        NodesOfMember(rows, f, online[i]);
        assert online[i..][1..] == online[i + 1..];
        if (f, online[i]) !in rows {
          rows := rows + {(f, online[i])};
          return true;
        }
      }
      return false;
    }

    /** rebalance_cluster: every file gets at most one replica, and the count says how many rows were added. */
    method RebalanceCluster(files: seq<File>, online: seq<Node>, target: nat) returns (rebalancedCount: nat)
      requires Distinct(files)
      modifies this
      ensures forall f :: NodesOf(rows, f) == AfterCall(NodesOf(old(rows), f), f in files, online, target)
      ensures old(rows) <= rows && |rows| == |old(rows)| + rebalancedCount
    {
      hide Called, NodesOf;
      rebalancedCount := 0;
      ghost var start := rows;
      NothingCalled(rows, online, target);
      assert files[..0] == [];
      for i := 0 to |files|
        invariant Called(start, rows, files[..i], online, target, rebalancedCount)
      {
        var f := files[i];
        CalledOneMore(start, rows, files[..i], f, online, target, rebalancedCount);
        assert files[..i + 1] == files[..i] + [f];
        if target > 1 && |online| > 1 {
          var repCount := CountRows(f);
          if repCount < target {
            var inserted := InsertFirst(f, online);
            if inserted {
              rebalancedCount := rebalancedCount + 1;
            }
          }
        }
      }
      assert files[..|files|] == files;
      CalledParts(start, rows, files, online, target, rebalancedCount);
    }

    /** The worker's body for one file: the primary node and the stored replicas, then every online node in turn. */
    method FillFile(f: File, primary: Option<Node>, online: seq<Node>, target: nat) returns (added: nat)
      requires target > 1 && |online| > 1
      modifies this
      ensures NodesOf(rows, f) == Pass(NodesOf(old(rows), f), primary, online, target)
      ensures forall g :: g != f ==> NodesOf(rows, g) == NodesOf(old(rows), g)
      ensures var e := NodesOf(old(rows), f) + Primary(primary);
        added == |Fill(e, online, target)| - |e|
      ensures old(rows) <= rows && |rows| == |old(rows)| + added
    {
      hide NodesOf, Fill, Filled;
      added := 0;
      var existingNodeIds := NodesOf(rows, f) + Primary(primary);
      ghost var existing, start := existingNodeIds, rows;
      NothingFilled(rows, f, existing);
      assert online[0..] == online;
      for i := 0 to |online|
        invariant Filled(start, rows, f, existing, existingNodeIds, added)
        invariant Fill(existing, online, target) == Fill(existingNodeIds, online[i..], target)
      {
        FillStep(existingNodeIds, online, i, target);
        if online[i] !in existingNodeIds && |existingNodeIds| < target {
          OneMoreFilled(start, rows, f, existing, existingNodeIds, added, online[i]);
          rows := rows + {(f, online[i])};
          existingNodeIds := existingNodeIds + {online[i]};
          added := added + 1;
        }
      }
      FillStep(existingNodeIds, online, |online|, target);
      FilledParts(start, rows, f, existing, existingNodeIds, added);
    }

    /** The worker's pass over all files. */
    method RebalancePass(files: seq<(File, Option<Node>)>, online: seq<Node>, target: nat)
      returns (rebalancedCount: nat)
      requires forall i, j :: 0 <= i < j < |files| ==> files[i].0 != files[j].0
      modifies this
      ensures forall i :: 0 <= i < |files| ==>
        NodesOf(rows, files[i].0) == Pass(NodesOf(old(rows), files[i].0), files[i].1, online, target)
      ensures forall g :: (forall i :: 0 <= i < |files| ==> files[i].0 != g) ==>
        NodesOf(rows, g) == NodesOf(old(rows), g)
      ensures old(rows) <= rows && |rows| == |old(rows)| + rebalancedCount
    {
      hide NodesOf, Pass;
      rebalancedCount := 0;
      for k := 0 to |files|
        invariant old(rows) <= rows && |rows| == |old(rows)| + rebalancedCount
        invariant forall i :: 0 <= i < k ==>
          NodesOf(rows, files[i].0) == Pass(NodesOf(old(rows), files[i].0), files[i].1, online, target)
        invariant forall g :: (forall i :: 0 <= i < k ==> files[i].0 != g) ==> NodesOf(rows, g) == NodesOf(old(rows), g)
      {
        NoPass(NodesOf(rows, files[k].0), files[k].1, online, target);
        if target > 1 && |online| > 1 {
          var added := FillFile(files[k].0, files[k].1, online, target);
          rebalancedCount := rebalancedCount + added;
        }
      }
    }
  }

  lemma NoPass(existing: set<Node>, primary: Option<Node>, online: seq<Node>, target: nat)
    ensures !(target > 1 && |online| > 1) ==> Pass(existing, primary, online, target) == existing
  {
  }

  /** The backend's loop on the way: since the start the files done got their node, one row each. */
  ghost predicate Called(start: Replicas, rows: Replicas, done: seq<File>, online: seq<Node>, target: nat, count: nat) {
    && start <= rows && |rows| == |start| + count
    && (forall f :: NodesOf(rows, f) == AfterCall(NodesOf(start, f), f in done, online, target))
  }

  lemma NothingCalled(rows: Replicas, online: seq<Node>, target: nat)
    ensures Called(rows, rows, [], online, target, 0)
  {
  }

  lemma CalledParts(start: Replicas, rows: Replicas, done: seq<File>, online: seq<Node>, target: nat, count: nat)
    requires Called(start, rows, done, online, target, count)
    ensures start <= rows && |rows| == |start| + count
    ensures forall f :: NodesOf(rows, f) == AfterCall(NodesOf(start, f), f in done, online, target)
  {
  }

  /** The next file gets a row when it is short of nodes and an online one is missing, and none otherwise. */
  lemma CalledOneMore(start: Replicas, rows: Replicas, done: seq<File>, f: File, online: seq<Node>, target: nat,
                      count: nat)
    requires Called(start, rows, done, online, target, count) && f !in done
    ensures var e := NodesOf(rows, f);
      var m := FirstMissing(e, online);
      if target > 1 && |online| > 1 && |e| < target && m.Some?
      then Called(start, rows + {(f, m.value)}, done + [f], online, target, count + 1)
      else Called(start, rows, done + [f], online, target, count)
  {
    hide NodesOf, FirstMissing, AfterCall, Called;
    var e := NodesOf(rows, f);
    var m := FirstMissing(e, online);
    FirstMissingIsMissing(e, online);
    CalledSoFar(start, rows, done, f, online, target, count);
    if target > 1 && |online| > 1 && |e| < target && m.Some? {
      CalledRow(start, rows, done, f, online, target, count, m.value);
    } else {
      CalledNoRow(start, rows, done, f, online, target, count);
    }
  }

  lemma CalledSoFar(start: Replicas, rows: Replicas, done: seq<File>, f: File, online: seq<Node>, target: nat,
                    count: nat)
    requires Called(start, rows, done, online, target, count) && f !in done
    ensures NodesOf(rows, f) == NodesOf(start, f)
  {
    hide NodesOf;
  }

  lemma CalledRow(start: Replicas, rows: Replicas, done: seq<File>, f: File, online: seq<Node>, target: nat,
                  count: nat, n: Node)
    requires Called(start, rows, done, online, target, count) && f !in done && n !in NodesOf(rows, f)
    requires OneMore(NodesOf(start, f), online, target) == NodesOf(start, f) + {n}
      && NodesOf(rows, f) == NodesOf(start, f)
    ensures Called(start, rows + {(f, n)}, done + [f], online, target, count + 1)
  {
    hide NodesOf, OneMore;
    NodesOfMember(rows, f, n);
    NodesOfInsert(rows, f, n);
  }

  lemma CalledNoRow(start: Replicas, rows: Replicas, done: seq<File>, f: File, online: seq<Node>, target: nat,
                    count: nat)
    requires Called(start, rows, done, online, target, count) && f !in done
    requires OneMore(NodesOf(start, f), online, target) == NodesOf(start, f) == NodesOf(rows, f)
    ensures Called(start, rows, done + [f], online, target, count)
  {
    hide NodesOf, OneMore;
  }

  lemma NodesOfMember(r: Replicas, f: File, n: Node)
    ensures n in NodesOf(r, f) <==> (f, n) in r
  {
    if (f, n) in r {
      var p := (f, n);
      assert p.0 == f && p.1 == n;
    }
  }

  lemma NodesOfInsert(r: Replicas, f: File, n: Node)
    ensures forall g :: NodesOf(r + {(f, n)}, g) == if g == f then NodesOf(r, g) + {n} else NodesOf(r, g)
  {
    forall g
      ensures NodesOf(r + {(f, n)}, g) == if g == f then NodesOf(r, g) + {n} else NodesOf(r, g)
    {
      forall m
        ensures m in NodesOf(r + {(f, n)}, g) <==> m in NodesOf(r, g) || (g == f && m == n)
      {
        NodesOfMember(r + {(f, n)}, g, m);
        NodesOfMember(r, g, m);
      }
    }
  }

  lemma FillStep(now: set<Node>, online: seq<Node>, i: nat, target: nat)
    requires i <= |online|
    ensures i == |online| ==> Fill(now, online[i..], target) == now
    ensures i < |online| ==>
      Fill(now, online[i..], target)
        == Fill(if online[i] !in now && |now| < target then now + {online[i]} else now, online[i + 1..], target)
  {
    assert i < |online| ==> online[i..][1..] == online[i + 1..];
  }

  /** The worker's loop for f on the way: since the start the nodes of now - existing got a row each. */
  ghost predicate Filled(start: Replicas, rows: Replicas, f: File, existing: set<Node>, now: set<Node>, added: nat) {
    && NodesOf(start, f) <= existing <= now && added == |now| - |existing|
    && NodesOf(rows, f) == NodesOf(start, f) + (now - existing)
    && (forall g :: g != f ==> NodesOf(rows, g) == NodesOf(start, g))
    && start <= rows && |rows| == |start| + added
  }

  lemma NothingFilled(rows: Replicas, f: File, existing: set<Node>)
    requires NodesOf(rows, f) <= existing
    ensures Filled(rows, rows, f, existing, existing, 0)
  {
    hide NodesOf;
    assert NodesOf(rows, f) + (existing - existing) == NodesOf(rows, f);
  }

  lemma OneMoreFilled(start: Replicas, rows: Replicas, f: File, existing: set<Node>, now: set<Node>, added: nat,
                      x: Node)
    requires Filled(start, rows, f, existing, now, added) && x !in now
    ensures Filled(start, rows + {(f, x)}, f, existing, now + {x}, added + 1)
  {
    hide NodesOf;
    NodesOfInsert(rows, f, x);
    NodesOfMember(rows, f, x);
    AddedNode(NodesOf(start, f), now, existing, x);
    assert (f, x) !in rows;
  }

  lemma FilledParts(start: Replicas, rows: Replicas, f: File, existing: set<Node>, now: set<Node>, added: nat)
    requires Filled(start, rows, f, existing, now, added)
    ensures NodesOf(rows, f) == NodesOf(start, f) + (now - existing) && added == |now| - |existing|
    ensures forall g :: g != f ==> NodesOf(rows, g) == NodesOf(start, g)
    ensures start <= rows && |rows| == |start| + added
  {
  }

  lemma AddedNode(base: set<Node>, now: set<Node>, existing: set<Node>, x: Node)
    requires x !in now && existing <= now
    ensures (base + (now - existing)) + {x} == base + ((now + {x}) - existing)
  {
  }

  // Convergence

  /** How many replicas a file ends with. */
  function Goal(existing: set<Node>, online: seq<Node>, target: nat): int {
    Max(|existing|, Min(target, |existing + Range(online)|))
  }

  lemma {:induction false} FirstMissingIsMissing(existing: set<Node>, online: seq<Node>)
    ensures var m := FirstMissing(existing, online);
      && (m.Some? ==> m.value in online && m.value !in existing)
      && (m.None? <==> Range(online) <= existing)
  {
    if online != [] {
      FirstMissingIsMissing(existing, online[1..]);
      assert Range(online) == {online[0]} + Range(online[1..]);
    }
  }

  /** A call adds one online node while the file is short of its goal, and nothing afterwards. */
  lemma OneMoreStep(existing: set<Node>, online: seq<Node>, target: nat)
    requires target > 1 && |online| > 1
    ensures var e' := OneMore(existing, online, target);
      && existing <= e' <= existing + Range(online)
      && |e'| == (if |existing| < Goal(existing, online, target) then |existing| + 1 else |existing|)
      && Goal(e', online, target) == Goal(existing, online, target)
      && e' + Range(online) == existing + Range(online)
  {
    FirstMissingIsMissing(existing, online);
    var u := existing + Range(online);
    SubsetSize(existing, u);
    if Range(online) <= existing {
      assert u == existing;
    } else {
      var x := FirstMissing(existing, online).value;
      assert existing + {x} <= u;
      SubsetSize(existing + {x}, u);
      assert (existing + {x}) + Range(online) == u;
    }
  }

  /** Nothing is added for a target of one or with fewer than two nodes online, in either form. */
  lemma NothingToSpread(existing: set<Node>, primary: Option<Node>, online: seq<Node>, target: nat)
    requires target <= 1 || |online| <= 1
    ensures OneMore(existing, online, target) == existing == Pass(existing, primary, online, target)
  {
  }

  /** Repeated backend calls take a file from c replicas to max(c, min(target, |existing + online|)) in at most
      target - c calls, keep what was there, add online nodes only, and then change nothing. */
  lemma {:induction false} CallsConverge(existing: set<Node>, online: seq<Node>, target: nat, n: nat)
    requires target > 1 && |online| > 1
    ensures var e' := Calls(existing, online, target, n);
      && existing <= e' <= existing + Range(online)
      && |e'| == Min(|existing| + n, Goal(existing, online, target))
      && Goal(e', online, target) == Goal(existing, online, target)
      && (n >= target - |existing| ==> |e'| == Goal(existing, online, target) && OneMore(e', online, target) == e')
  {
    if n == 0 {
      OneMoreStep(existing, online, target);
      SameSize(existing, OneMore(existing, online, target));
    } else {
      CallsConverge(existing, online, target, n - 1);
      OneMoreStep(Calls(existing, online, target, n - 1), online, target);
      OneMoreStep(Calls(existing, online, target, n), online, target);
      SameSize(Calls(existing, online, target, n), OneMore(Calls(existing, online, target, n), online, target));
    }
  }

  lemma SameSize(a: set<Node>, b: set<Node>)
    requires a <= b
    ensures |a| == |b| ==> a == b
  {
    if |a| == |b| {
      SubsetOfSameSize(a, b);
    }
  }

  /** The one-pass loop reaches the same number at once. */
  lemma {:induction false} FillReachesGoal(existing: set<Node>, online: seq<Node>, target: nat)
    ensures var e' := Fill(existing, online, target);
      existing <= e' <= existing + Range(online) && |e'| == Goal(existing, online, target)
    decreases |online|
  {
    hide Goal;
    if online == [] {
      GoalReached(existing, online, target);
    } else {
      var x, rest := online[0], online[1..];
      var next := if x !in existing && |existing| < target then existing + {x} else existing;
      FillReachesGoal(next, rest, target);
      GoalNext(existing, x, rest, target);
      assert online == [x] + rest;
      assert Range(online) == {x} + Range(rest);
    }
  }

  lemma GoalReached(existing: set<Node>, online: seq<Node>, target: nat)
    requires online == []
    ensures Goal(existing, online, target) == |existing|
  {
    assert existing + Range(online) == existing;
  }

  /** Visiting one more node does not change the goal. */
  lemma GoalNext(existing: set<Node>, x: Node, rest: seq<Node>, target: nat)
    ensures var next := if x !in existing && |existing| < target then existing + {x} else existing;
      Goal(next, rest, target) == Goal(existing, [x] + rest, target)
  {
    hide Range;
    assert Range([x] + rest) == {x} + Range(rest) by { RangeCons(x, rest); }
    GoalNextSets(existing, x, Range(rest), target);
  }

  lemma RangeCons(x: Node, rest: seq<Node>)
    ensures Range([x] + rest) == {x} + Range(rest)
  {
  }

  lemma GoalNextSets(existing: set<Node>, x: Node, range: set<Node>, target: nat)
    ensures var next := if x !in existing && |existing| < target then existing + {x} else existing;
      Max(|next|, Min(target, |next + range|)) == Max(|existing|, Min(target, |existing + ({x} + range)|))
  {
    var next := if x !in existing && |existing| < target then existing + {x} else existing;
    var u := existing + ({x} + range);
    SubsetSize(existing, u);
    SubsetSize(next + range, u);
    SubsetSize(next, next + range);
    if x in existing || |existing| < target {
      assert next + range == u;
    }
  }

  /** After one pass the primary node and the replica rows together are at the goal, and without a primary node
      outside the rows the pass ends where repeated backend calls end. */
  lemma PassReachesGoal(existing: set<Node>, primary: Option<Node>, online: seq<Node>, target: nat)
    requires target > 1 && |online| > 1
    ensures var e := existing + Primary(primary);
      && |Pass(existing, primary, online, target) + Primary(primary)| == Goal(e, online, target)
      && existing <= Pass(existing, primary, online, target) <= existing + Range(online)
    ensures Primary(primary) <= existing ==>
      Pass(existing, primary, online, target) == Calls(existing, online, target, target)
  {
    hide Goal, Fill, Calls, Range, Primary;
    var e := existing + Primary(primary);
    FillReachesGoal(e, online, target);
    PassParts(existing, Primary(primary), Fill(e, online, target), Range(online));
    if Primary(primary) <= existing {
      assert e == existing;
      FillIsRepeatedCalls(existing, online, target, target);
    }
  }

  lemma PassParts(existing: set<Node>, primary: set<Node>, filled: set<Node>, range: set<Node>)
    requires existing + primary <= filled <= existing + primary + range
    ensures var p := existing + (filled - (existing + primary));
      p + primary == filled && existing <= p <= existing + range && (primary <= existing ==> p == filled)
  {
  }

  lemma FillWhenFull(existing: set<Node>, online: seq<Node>, target: nat)
    requires |existing| >= target
    ensures Fill(existing, online, target) == existing
  {
  }

  /** One backend call is the first step of the worker's pass. */
  lemma {:induction false} FillAfterOneMore(existing: set<Node>, online: seq<Node>, target: nat, k: nat)
    requires k <= |online| && |existing| < target && forall i :: 0 <= i < k ==> online[i] in existing
    ensures var m := FirstMissing(existing, online[k..]);
      && (m.Some? ==> Fill(existing, online[k..], target) == Fill(existing + {m.value}, online[k..], target))
      && (m.None? ==> Fill(existing, online[k..], target) == existing)
    decreases |online| - k
  {
    if k < |online| {
      assert online[k..][1..] == online[k + 1..];
      if online[k] in existing {
        FillAfterOneMore(existing, online, target, k + 1);
      }
    }
  }

  /** The worker's pass is the backend's fixed point: from the same replicas both end with the same nodes. */
  lemma {:induction false} FillIsRepeatedCalls(existing: set<Node>, online: seq<Node>, target: nat, n: nat)
    requires target > 1 && |online| > 1 && n >= target - |existing|
    ensures Fill(existing, online, target) == Calls(existing, online, target, n)
    decreases n
  {
    hide Fill, Calls, Range;
    assert online[0..] == online;
    if |existing| >= target {
      FillWhenFull(existing, online, target);
      CallsStay(existing, online, target, n);
    } else {
      FillAfterOneMore(existing, online, target, 0);
      FirstMissingIsMissing(existing, online);
      if FirstMissing(existing, online).Some? {
        var next := OneMore(existing, online, target);
        FillIsRepeatedCalls(next, online, target, n - 1);
        CallsFromNext(existing, online, target, n - 1);
      } else {
        CallsStay(existing, online, target, n);
      }
    }
  }

  lemma {:induction false} CallsStay(existing: set<Node>, online: seq<Node>, target: nat, n: nat)
    requires OneMore(existing, online, target) == existing
    ensures Calls(existing, online, target, n) == existing
  {
    if n > 0 {
      CallsStay(existing, online, target, n - 1);
    }
  }

  lemma {:induction false} CallsFromNext(existing: set<Node>, online: seq<Node>, target: nat, n: nat)
    ensures Calls(OneMore(existing, online, target), online, target, n) == Calls(existing, online, target, n + 1)
  {
    if n > 0 {
      CallsFromNext(existing, online, target, n - 1);
    }
  }

  /** The total number of replicas the files are short of. */
  function Deficit(nodes: map<File, set<Node>>, files: seq<File>, online: seq<Node>, target: nat): nat
    requires forall f :: f in files ==> f in nodes
  {
    if files == [] then 0
    else
      var f := files[|files| - 1];
      Deficit(nodes, files[..|files| - 1], online, target) + Max(0, Goal(nodes[f], online, target) - |nodes[f]|)
  }

  /** Every call that finds a deficit lowers it by the number of replicas it adds, so the calls stop adding. */
  lemma {:induction false} DeficitFalls(nodes: map<File, set<Node>>, nodes': map<File, set<Node>>, files: seq<File>,
                                        online: seq<Node>, target: nat)
    requires target > 1 && |online| > 1
    requires forall f :: f in files ==> f in nodes && f in nodes' && nodes'[f] == OneMore(nodes[f], online, target)
    ensures Deficit(nodes', files, online, target) <= Deficit(nodes, files, online, target)
    ensures Deficit(nodes', files, online, target) == Deficit(nodes, files, online, target) <==>
      Deficit(nodes, files, online, target) == 0
  {
    if files != [] {
      var f := files[|files| - 1];
      DeficitFalls(nodes, nodes', files[..|files| - 1], online, target);
      OneMoreStep(nodes[f], online, target);
    }
  }
}
