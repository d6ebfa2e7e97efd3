/** The agent's offline queue: a priority-ordered list in a file, replaced through a temporary file. */
module Queue {
  import opened Wrappers

  type Id = string

  datatype Transfer = Transfer(id: Id, priority: nat, payload: int)

  // The stable sort

  predicate Descending(items: seq<Transfer>) {
    forall i, j :: 0 <= i < j < |items| ==> items[i].priority >= items[j].priority
  }

  /** The items of one priority, in order. */
  function OfPriority(items: seq<Transfer>, p: nat): seq<Transfer> {
    if items == [] then []
    else
      var last := items[|items| - 1];
      OfPriority(items[..|items| - 1], p) + if last.priority == p then [last] else []
  }

  /** Where sort_by leaves a last item: behind everything of at least its priority. */
  function Placed(items: seq<Transfer>, t: Transfer): seq<Transfer> {
    if items == [] || items[|items| - 1].priority >= t.priority then items + [t]
    else Placed(items[..|items| - 1], t) + [items[|items| - 1]]
  }

  function StableSorted(items: seq<Transfer>): seq<Transfer> {
    if items == [] then [] else Placed(StableSorted(items[..|items| - 1]), items[|items| - 1])
  }

  lemma {:induction false} PlacedSplit(items: seq<Transfer>, t: Transfer) returns (k: nat)
    ensures k <= |items| && Placed(items, t) == items[..k] + [t] + items[k..]
    ensures k > 0 ==> items[k - 1].priority >= t.priority
    ensures forall i :: k <= i < |items| ==> items[i].priority < t.priority
  {
    if items == [] || items[|items| - 1].priority >= t.priority {
      k := |items|;
      assert items + [t] == items[..k] + [t] + items[k..];
    } else {
      var front := items[..|items| - 1];
      k := PlacedSplit(front, t);
      assert front[..k] + [t] + front[k..] + [items[|items| - 1]] == items[..k] + [t] + items[k..];
    }
  }

  lemma {:induction false} OfPriorityAppend(a: seq<Transfer>, b: seq<Transfer>, p: nat)
    ensures OfPriority(a + b, p) == OfPriority(a, p) + OfPriority(b, p)
  {
    if b == [] {
      assert a + b == a;
    } else {
      assert (a + b)[..|a + b| - 1] == a + b[..|b| - 1];
      OfPriorityAppend(a, b[..|b| - 1], p);
    }
  }

  lemma {:induction false} NoneOfPriority(items: seq<Transfer>, p: nat)
    requires forall i :: 0 <= i < |items| ==> items[i].priority != p
    ensures OfPriority(items, p) == []
  {
    if items != [] {
      NoneOfPriority(items[..|items| - 1], p);
    }
  }

  ghost predicate SameGroups(a: seq<Transfer>, b: seq<Transfer>) {
    forall p :: OfPriority(a, p) == OfPriority(b, p)
  }

  lemma PlacedDescends(items: seq<Transfer>, t: Transfer)
    requires Descending(items)
    ensures Descending(Placed(items, t))
  {
    hide Placed;
    var k := PlacedSplit(items, t);
    var out := Placed(items, t);
    assert forall i :: 0 <= i < k ==> out[i] == items[i] && items[i].priority >= t.priority;
    assert out[k] == t && forall i :: k < i < |out| ==> out[i] == items[i - 1];
  }

  lemma PlacedGroups(items: seq<Transfer>, t: Transfer)
    ensures SameGroups(Placed(items, t), items + [t])
  {
    hide Placed, OfPriority;
    var k := PlacedSplit(items, t);
    var a, b := items[..k], items[k..];
    assert items == a + b;
    forall p
      ensures OfPriority(Placed(items, t), p) == OfPriority(items + [t], p)
    {
      OfPriorityAppend(a + [t], b, p);
      OfPriorityAppend(a, [t], p);
      OfPriorityAppend(a, b, p);
      OfPriorityAppend(items, [t], p);
      if p == t.priority {
        NoneOfPriority(b, p);
      } else {
        NoneOfPriority([t], p);
      }
    }
  }

  /** The sort is descending and stable: the items of each priority keep their order, and none is lost. */
  lemma {:induction false} StableSortedIsSort(items: seq<Transfer>)
    ensures Descending(StableSorted(items)) && SameGroups(StableSorted(items), items)
  {
    if items != [] {
      var front, t := items[..|items| - 1], items[|items| - 1];
      StableSortedIsSort(front);
      PlacedDescends(StableSorted(front), t);
      PlacedGroups(StableSorted(front), t);
      GroupsAppend(StableSorted(front), front, t);
      assert items == front + [t];
    }
  }

  lemma GroupsAppend(a: seq<Transfer>, b: seq<Transfer>, t: Transfer)
    requires SameGroups(a, b)
    ensures SameGroups(a + [t], b + [t])
  {
    hide OfPriority;
    forall p
      ensures OfPriority(a + [t], p) == OfPriority(b + [t], p)
    {
      OfPriorityAppend(a, [t], p);
      OfPriorityAppend(b, [t], p);
    }
  }

  /** Only one list is descending with given items of each priority, so any stable sort is this one. */
  lemma {:induction false} SortIsUnique(a: seq<Transfer>, b: seq<Transfer>)
    requires Descending(a) && Descending(b) && SameGroups(a, b)
    ensures a == b
  {
    hide OfPriority;
    if a == [] && b == [] {
      return;
    }
    LastAgrees(a, b);
    var front, front', last := a[..|a| - 1], b[..|b| - 1], a[|a| - 1];
    forall p
      ensures OfPriority(front, p) == OfPriority(front', p)
    {
      FrontGroup(a, b, p);
    }
    SortIsUnique(front, front');
    assert a == front + [last];
    assert b == front' + [last];
  }

  lemma FrontGroup(a: seq<Transfer>, b: seq<Transfer>, p: nat)
    requires a != [] && b != [] && a[|a| - 1] == b[|b| - 1] && SameGroups(a, b)
    ensures OfPriority(a[..|a| - 1], p) == OfPriority(b[..|b| - 1], p)
  {
    var x, y := OfPriority(a[..|a| - 1], p), OfPriority(b[..|b| - 1], p);
    assert OfPriority(a, p) == OfPriority(b, p);
    var tail := if a[|a| - 1].priority == p then [a[|a| - 1]] else [];
    assert x + tail == y + tail;
    assert x == (x + tail)[..|x + tail| - |tail|] && y == (y + tail)[..|y + tail| - |tail|];
  }

  lemma LastAgrees(a: seq<Transfer>, b: seq<Transfer>)
    requires Descending(a) && Descending(b) && (a != [] || b != []) && SameGroups(a, b)
    ensures a != [] && b != [] && a[|a| - 1] == b[|b| - 1]
  {
    if a != [] {
      LastIsThere(a, b);
    }
    if b != [] {
      LastIsThere(b, a);
    }
    SameLast(a, b);
  }

  lemma SameLast(a: seq<Transfer>, b: seq<Transfer>)
    requires a != [] && b != [] && a[|a| - 1].priority == b[|b| - 1].priority && SameGroups(a, b)
    ensures a[|a| - 1] == b[|b| - 1]
  {
    var p := a[|a| - 1].priority;
    var x, y := OfPriority(a, p), OfPriority(b, p);
    assert x == y;
    assert x[|x| - 1] == a[|a| - 1] && y[|y| - 1] == b[|b| - 1];
  }

  /** The last item of a has its priority in b too, so b's last priority is no higher. */
  lemma LastIsThere(a: seq<Transfer>, b: seq<Transfer>)
    requires a != [] && Descending(b) && SameGroups(a, b)
    ensures b != [] && b[|b| - 1].priority <= a[|a| - 1].priority
  {
    var p := a[|a| - 1].priority;
    assert OfPriority(b, p) == OfPriority(a, p) != [];
    if forall i :: 0 <= i < |b| ==> b[i].priority != p {
      NoneOfPriority(b, p);
    }
  }

  // The file

  /** What a file holds: a queue, or bytes that do not parse. */
  datatype Content = Json(items: seq<Transfer>) | Garbage

  datatype Disk = Disk(main: Option<Content>, tmp: Option<Content>)

  function Listed(d: Disk): seq<Transfer> {
    if d.main.Some? && d.main.value.Json? then d.main.value.items else []
  }

  /** The disk after the first k steps of a save: write part of the temporary file, finish it, rename it. */
  function SaveSteps(d: Disk, items: seq<Transfer>, k: nat): Disk {
    if k == 0 then d
    else if k == 1 then d.(tmp := Some(Garbage))
    else if k == 2 then d.(tmp := Some(Json(items)))
    else Disk(Some(Json(items)), None)
  }

  function Without(items: seq<Transfer>, id: Id): seq<Transfer> {
    if items == [] then []
    else
      var last := items[|items| - 1];
      Without(items[..|items| - 1], id) + if last.id == id then [] else [last]
  }

  function Enqueued(items: seq<Transfer>, t: Transfer): seq<Transfer> {
    StableSorted(Without(items, t.id) + [t])
  }

  class OfflineQueue {
    var disk: Disk

    constructor (disk: Disk)
      ensures this.disk == disk
    {
      this.disk := disk;
    }

    method List() returns (items: seq<Transfer>)
      ensures items == Listed(disk)
    {
      if disk.main.None? {
        return [];
      }
      match disk.main.value
      case Json(content) => return content;
      case Garbage => return [];
    }

    method Save(items: seq<Transfer>)
      modifies this
      ensures disk == SaveSteps(old(disk), items, 3)
    {
      disk := disk.(tmp := Some(Garbage));
      disk := disk.(tmp := Some(Json(items)));
      disk := Disk(disk.tmp, None);
    }

    method Enqueue(t: Transfer)
      modifies this
      ensures disk == SaveSteps(old(disk), Enqueued(Listed(old(disk)), t), 3)
    {
      var all := List();
      var items := [];
      assert all[..|all|] == all;
      for i := 0 to |all|
        invariant items == Without(all[..i], t.id)
      {
        assert all[..i + 1][..i] == all[..i];
        if all[i].id != t.id {
          items := items + [all[i]];
        }
      }
      items := StableSorted(items + [t]);
      Save(items);
    }

    method Dequeue(id: Id) returns (r: Option<Transfer>)
      modifies this
      ensures var items := Listed(old(disk)); var i := Position(items, id);
        if i < |items|
        then r == Some(items[i]) && disk == SaveSteps(old(disk), RemovedAt(items, i), 3)
        else r == None && disk == old(disk)
    {
      var items := List();
      assert items[0..] == items;
      for pos := 0 to |items|
        invariant disk == old(disk) && Position(items, id) == pos + Position(items[pos..], id)
      {
        assert items[pos..][1..] == items[pos + 1..];
        if items[pos].id == id {
          Save(RemovedAt(items, pos));
          return Some(items[pos]);
        }
      }
      return None;
    }

    method Drain() returns (items: seq<Transfer>)
      modifies this
      ensures items == Listed(old(disk)) && disk == SaveSteps(old(disk), [], 3)
    {
      items := List();
      Save([]);
    }
  }

  /** The index of the first item with the id, or the length. */
  function Position(items: seq<Transfer>, id: Id): nat {
    if items == [] || items[0].id == id then 0 else 1 + Position(items[1..], id)
  }

  function RemovedAt(items: seq<Transfer>, i: nat): seq<Transfer>
    requires i < |items|
  {
    items[..i] + items[i + 1..]
  }

  // Runs

  datatype Op = Enqueue(t: Transfer) | Dequeue(id: Id) | Drain

  /** The list after one operation. */
  function Applied(items: seq<Transfer>, op: Op): seq<Transfer> {
    match op
    case Enqueue(t) => Enqueued(items, t)
    case Dequeue(id) => Without(items, id)
    case Drain => []
  }

  function Run(ops: seq<Op>): seq<Transfer> {
    if ops == [] then [] else Applied(Run(ops[..|ops| - 1]), ops[|ops| - 1])
  }

  predicate DistinctIds(items: seq<Transfer>) {
    forall i, j :: 0 <= i < j < |items| ==> items[i].id != items[j].id
  }

  lemma {:induction false} PositionIsFirst(items: seq<Transfer>, id: Id)
    ensures Position(items, id) <= |items|
    ensures Position(items, id) < |items| ==> items[Position(items, id)].id == id
    ensures forall i :: 0 <= i < Position(items, id) ==> items[i].id != id
  {
    if items != [] && items[0].id != id {
      PositionIsFirst(items[1..], id);
      assert forall i :: 0 < i < |items| ==> items[i] == items[1..][i - 1];
    }
  }

  /** As ids are distinct, removing the first item of an id removes the id. */
  lemma {:induction false} DequeueRemovesTheId(items: seq<Transfer>, id: Id)
    requires DistinctIds(items)
    ensures Position(items, id) < |items| <==> Has(items, id)
    ensures Without(items, id) == if Has(items, id) then RemovedAt(items, Position(items, id)) else items
  {
    PositionIsFirst(items, id);
    if Has(items, id) {
      WithoutFirst(items, id, Position(items, id));
    } else {
      WithoutAbsent(items, id);
    }
  }

  lemma {:induction false} WithoutFirst(items: seq<Transfer>, id: Id, i: nat)
    requires DistinctIds(items) && i < |items| && items[i].id == id
    ensures Without(items, id) == RemovedAt(items, i)
  {
    var front := items[..|items| - 1];
    if i == |items| - 1 {
      WithoutAbsent(front, id);
      assert RemovedAt(items, i) == front;
    } else {
      WithoutFirst(front, id, i);
      assert RemovedAt(items, i) == RemovedAt(front, i) + [items[|items| - 1]];
    }
  }

  lemma {:induction false} WithoutAbsent(items: seq<Transfer>, id: Id)
    requires forall i :: 0 <= i < |items| ==> items[i].id != id
    ensures Without(items, id) == items
  {
    if items != [] {
      WithoutAbsent(items[..|items| - 1], id);
    }
  }

  /** The number of the latest enqueue of an id. */
  function Latest(ops: seq<Op>, id: Id): int {
    if ops == [] then -1
    else if ops[|ops| - 1].Enqueue? && ops[|ops| - 1].t.id == id then |ops| - 1
    else Latest(ops[..|ops| - 1], id)
  }

  /** Higher priority first, and within a priority the earlier latest enqueue. */
  ghost predicate Before(ops: seq<Op>, a: Transfer, b: Transfer) {
    a.priority > b.priority || (a.priority == b.priority && Latest(ops, a.id) < Latest(ops, b.id))
  }

  ghost predicate InOrder(ops: seq<Op>, items: seq<Transfer>) {
    forall i, j :: 0 <= i < j < |items| ==> Before(ops, items[i], items[j])
  }

  /** Every queued transfer is what its id was last enqueued with. */
  ghost predicate Current(ops: seq<Op>, items: seq<Transfer>) {
    forall i :: 0 <= i < |items| ==>
      0 <= Latest(ops, items[i].id) < |ops| && ops[Latest(ops, items[i].id)] == Enqueue(items[i])
  }

  /** Whether an id is queued: enqueued, and neither dequeued nor drained since. */
  predicate Pending(ops: seq<Op>, id: Id) {
    ops != [] &&
    var last := ops[|ops| - 1];
    if last.Enqueue? && last.t.id == id then true
    else !last.Drain? && !(last.Dequeue? && last.id == id) && Pending(ops[..|ops| - 1], id)
  }

  predicate Has(items: seq<Transfer>, id: Id) {
    exists i :: 0 <= i < |items| && items[i].id == id
  }

  /** The positions of the items that stay. */
  lemma {:induction false} WithoutIsSubsequence(items: seq<Transfer>, id: Id) returns (at: seq<nat>)
    ensures |at| == |Without(items, id)|
    ensures forall i :: 0 <= i < |at| ==>
      at[i] < |items| && Without(items, id)[i] == items[at[i]] && items[at[i]].id != id
    ensures forall i, j :: 0 <= i < j < |at| ==> at[i] < at[j]
    ensures forall k :: 0 <= k < |items| && items[k].id != id ==> k in at
  {
    at := [];
    if items != [] {
      var n := |items| - 1;
      var at' := WithoutIsSubsequence(items[..n], id);
      if items[n].id == id {
        at := at';
      } else {
        at := at' + [n];
        assert at[|at'|] == n;
        assert forall k :: k in at' ==> k in at;
      }
    }
  }

  lemma {:induction false} LatestBound(ops: seq<Op>, id: Id)
    ensures -1 <= Latest(ops, id) < |ops|
  {
    if ops != [] {
      LatestBound(ops[..|ops| - 1], id);
    }
  }

  lemma StableSortedKeeps(items: seq<Transfer>)
    requires Descending(items)
    ensures StableSorted(items) == items
  {
    StableSortedIsSort(items);
    SortIsUnique(StableSorted(items), items);
  }

  /** Enqueueing places the transfer behind everything of at least its priority. */
  lemma EnqueuedIsPlaced(items: seq<Transfer>, t: Transfer)
    requires Descending(items)
    ensures Descending(Without(items, t.id)) && Enqueued(items, t) == Placed(Without(items, t.id), t)
  {
    var at := WithoutIsSubsequence(items, t.id);
    var rest := Without(items, t.id);
    assert Descending(rest);
    StableSortedKeeps(rest);
    assert (rest + [t])[..|rest|] == rest;
  }

  ghost predicate Good(ops: seq<Op>, items: seq<Transfer>) {
    DistinctIds(items) && InOrder(ops, items) && Current(ops, items)
  }

  lemma GoodIsDescending(ops: seq<Op>, items: seq<Transfer>)
    requires InOrder(ops, items)
    ensures Descending(items)
  {
    forall i, j | 0 <= i < j < |items|
      ensures items[i].priority >= items[j].priority
    {
      assert Before(ops, items[i], items[j]);
    }
  }

  /** Leaving out an id keeps the order whatever the next operation says about that id. */
  lemma WithoutKeepsGood(ops: seq<Op>, op: Op, items: seq<Transfer>, id: Id)
    requires Good(ops, items) && (op.Enqueue? ==> op.t.id == id)
    ensures Good(ops + [op], Without(items, id)) && !Has(Without(items, id), id)
  {
    var ops', rest := ops + [op], Without(items, id);
    var at := WithoutIsSubsequence(items, id);
    assert ops'[..|ops|] == ops;
    forall i | 0 <= i < |rest|
      ensures Latest(ops', rest[i].id) == Latest(ops, rest[i].id)
      ensures 0 <= Latest(ops', rest[i].id) < |ops'| && ops'[Latest(ops', rest[i].id)] == Enqueue(rest[i])
    {
      assert rest[i] == items[at[i]];
    }
    forall i, j | 0 <= i < j < |rest|
      ensures Before(ops', rest[i], rest[j]) && rest[i].id != rest[j].id
    {
      assert Before(ops, items[at[i]], items[at[j]]);
    }
  }

  lemma LatestOfLast(ops: seq<Op>, t: Transfer)
    ensures Latest(ops + [Enqueue(t)], t.id) == |ops|
    ensures forall id :: id != t.id ==> Latest(ops + [Enqueue(t)], id) < |ops|
  {
    forall id | id != t.id
      ensures Latest(ops + [Enqueue(t)], id) < |ops|
    {
      LatestBound(ops, id);
      assert (ops + [Enqueue(t)])[..|ops|] == ops;
    }
  }

  lemma PlacedKeepsGood(ops: seq<Op>, rest: seq<Transfer>, t: Transfer)
    requires var ops' := ops + [Enqueue(t)]; Good(ops', rest) && !Has(rest, t.id)
    ensures Good(ops + [Enqueue(t)], Placed(rest, t))
  {
    hide Latest, Placed;
    var ops' := ops + [Enqueue(t)];
    var k := PlacedSplit(rest, t);
    var out := Placed(rest, t);
    GoodIsDescending(ops', rest);
    LatestOfLast(ops, t);
    forall i, j | 0 <= i < j < |out|
      ensures Before(ops', out[i], out[j]) && out[i].id != out[j].id
    {
      var i', j' := if i < k then i else i - 1, if j < k then j else j - 1;
      if i != k && j != k {
        assert Before(ops', rest[i'], rest[j']);
      }
    }
  }

  /** Every run keeps ids distinct, priorities descending, equal priorities in order of latest enqueue, and every
      transfer as it was last enqueued. */
  lemma {:induction false} RunIsOrdered(ops: seq<Op>)
    ensures Good(ops, Run(ops)) && Descending(Run(ops))
  {
    if ops != [] {
      var front, op := ops[..|ops| - 1], ops[|ops| - 1];
      assert ops == front + [op];
      RunIsOrdered(front);
      match op
      case Enqueue(t) =>
        WithoutKeepsGood(front, op, Run(front), t.id);
        EnqueuedIsPlaced(Run(front), t);
        PlacedKeepsGood(front, Without(Run(front), t.id), t);
      case Dequeue(id) =>
        WithoutKeepsGood(front, op, Run(front), id);
      case Drain =>
    }
    GoodIsDescending(ops, Run(ops));
  }

  /** An id is in the queue iff it was enqueued and neither dequeued nor drained since. */
  lemma {:induction false} RunHoldsPending(ops: seq<Op>, id: Id)
    ensures Has(Run(ops), id) <==> Pending(ops, id)
  {
    if ops != [] {
      var front, op := ops[..|ops| - 1], ops[|ops| - 1];
      RunHoldsPending(front, id);
      RunIsOrdered(front);
      match op
      case Enqueue(t) =>
        EnqueuedIsPlaced(Run(front), t);
        HasWithout(Run(front), t.id, id);
        HasPlaced(Without(Run(front), t.id), t, id);
      case Dequeue(gone) =>
        HasWithout(Run(front), gone, id);
      case Drain =>
    }
  }

  lemma HasWithout(items: seq<Transfer>, gone: Id, id: Id)
    ensures Has(Without(items, gone), id) <==> id != gone && Has(items, id)
  {
    var at := WithoutIsSubsequence(items, gone);
    if id != gone && Has(items, id) {
      var k :| 0 <= k < |items| && items[k].id == id;
      var i :| 0 <= i < |at| && at[i] == k;
      assert Without(items, gone)[i].id == id;
    }
  }

  lemma HasPlaced(items: seq<Transfer>, t: Transfer, id: Id)
    ensures Has(Placed(items, t), id) <==> id == t.id || Has(items, id)
  {
    var k := PlacedSplit(items, t);
    var out := Placed(items, t);
    assert out[k] == t;
    if Has(items, id) {
      var i :| 0 <= i < |items| && items[i].id == id;
      assert out[if i < k then i else i + 1] == items[i];
    }
    if i :| 0 <= i < |out| && out[i].id == id {
      assert i != k ==> out[i] == items[if i < k then i else i - 1];
    }
  }

  // Crashes

  /** An operation that crashes after some steps of its save, or completes all three. */
  datatype Attempt = Attempt(op: Op, steps: nat)

  function AfterAttempt(d: Disk, a: Attempt): Disk {
    if a.op.Dequeue? && !Has(Listed(d), a.op.id) then d
    else SaveSteps(d, Applied(Listed(d), a.op), a.steps)
  }

  function CrashRun(d: Disk, attempts: seq<Attempt>): Disk {
    if attempts == [] then d else AfterAttempt(CrashRun(d, attempts[..|attempts| - 1]), attempts[|attempts| - 1])
  }

  /** The operations that got as far as the rename. */
  function Completed(attempts: seq<Attempt>): seq<Op> {
    if attempts == [] then []
    else
      var a := attempts[|attempts| - 1];
      Completed(attempts[..|attempts| - 1]) + if a.steps >= 3 then [a.op] else []
  }

  lemma RunNothing()
    ensures Run([]) == []
  {
  }

  lemma RunSnoc(ops: seq<Op>, op: Op)
    ensures Run(ops + [op]) == Applied(Run(ops), op)
  {
    assert (ops + [op])[..|ops|] == ops;
  }

  /** One attempt changes the listed queue completely or not at all. */
  lemma AttemptIsAtomic(d: Disk, a: Attempt)
    ensures Listed(AfterAttempt(d, a)) == if a.steps >= 3 then Applied(Listed(d), a.op) else Listed(d)
  {
    hide Enqueued, Without;
    if a.op.Dequeue? && !Has(Listed(d), a.op.id) {
      WithoutAbsent(Listed(d), a.op.id);
    }
  }

  /** A crash at any step leaves either the old queue or the new one: after any run with crashes, the file lists
      what the completed operations alone would have left. */
  lemma {:induction false} CrashesAreAtomic(d: Disk, attempts: seq<Attempt>)
    requires Listed(d) == []
    ensures Listed(CrashRun(d, attempts)) == Run(Completed(attempts))
  {
    hide Applied, AfterAttempt, Run;
    assert Run([]) == [] by { RunNothing(); }
    if attempts != [] {
      var front, a := attempts[..|attempts| - 1], attempts[|attempts| - 1];
      CrashesAreAtomic(d, front);
      RunSnoc(Completed(front), a.op);
      assert Completed(front) + [] == Completed(front);
      AttemptIsAtomic(CrashRun(d, front), a);
    }
  }
}
