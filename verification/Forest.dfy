/** The file service: operations on the table of entries, and what every run of them keeps. */
module Forest {
  import opened Wrappers
  import opened Ancestry
  import opened Strings

  /** The service's answers, the database's refusal of a row, and a recursive query that does not finish. */
  datatype Error = NotFound | Conflict | Validation | ConstraintViolation | QueryAborted

  datatype Op =
    | CreateFolder(id: Id, parent: Option<Id>, name: string)
    | Upload(id: Id, parent: Option<Id>, name: string)
    | InitTransfer(id: Id, parent: Option<Id>, name: string, size: int)
    | Rename(item: Id, name: string)
    | Move(item: Id, target: Option<Id>)
    | Trash(item: Id)
    | Restore(item: Id)
    | Purge(item: Id)
    | EmptyTrash

  // The table's constraints

  /** UNIQUE NULLS NOT DISTINCT (user_id, parent_id, name, is_trashed). */
  predicate SameKey(a: Row, b: Row) {
    a.user == b.user && a.parent == b.parent && a.name == b.name && a.trashed == b.trashed
  }

  predicate UniqueKeys(t: Table) {
    forall x, y :: x in t && y in t && x != y ==> !SameKey(t[x], t[y])
  }

  predicate Owned(t: Table, user: nat, x: Id) {
    x in t && t[x].user == user
  }

  predicate ParentOwned(t: Table, user: nat, parent: Option<Id>) {
    parent.Some? ==> Owned(t, user, parent.value)
  }

  /** A live entry of the user with this parent and name, other than x. */
  predicate NameTaken(t: Table, user: nat, parent: Option<Id>, name: string, x: Id) {
    exists y :: y in t && y != x && SameKey(t[y], Row(user, parent, name, File, false))
  }

  // Specification of the operations

  ghost function Marked(t: Table, item: Id, trashed: bool): Table {
    map x | x in t :: if Within(t, item, x) then t[x].(trashed := trashed) else t[x]
  }

  /** The trashed entries of the user, and by the cascading foreign key everything below them. */
  ghost function Trashcan(t: Table, user: nat): set<Id> {
    set x | x in t && WithinSome(t, TrashedOf(t, user), x)
  }

  function TrashedOf(t: Table, user: nat): set<Id> {
    set r | r in t && t[r].user == user && t[r].trashed
  }

  /** A statement that would break the unique constraint fails and changes nothing. */
  function Commit(t: Table, t': Table): (Table, Result<(), Error>) {
    if UniqueKeys(t') then (t', Ok(())) else (t, Err(ConstraintViolation))
  }

  /** The table and the answer after one call of user. */
  ghost function Step(t: Table, user: nat, op: Op): (Table, Result<(), Error>) {
    match op
    case CreateFolder(id, parent, name) =>
      if !ParentOwned(t, user, parent) then (t, Err(NotFound))
      else if NameTaken(t, user, parent, name, id) then (t, Err(Conflict))
      else if id in t then (t, Err(ConstraintViolation))
      else Commit(t, t[id := Row(user, parent, name, Folder, false)])
    case Upload(id, parent, name) =>
      if !ParentOwned(t, user, parent) then (t, Err(NotFound))
      else if id in t then (t, Err(ConstraintViolation))
      else Commit(t, t[id := Row(user, parent, name, File, false)])
    case InitTransfer(id, parent, name, size) =>
      if Trim(name, IsWhitespace) == "" || size < 0 then (t, Err(Validation))
      else if id in t || (parent.Some? && parent.value !in t) then (t, Err(ConstraintViolation))
      else Commit(t, t[id := Row(user, parent, name, File, false)])
    case Rename(item, name) =>
      if !Owned(t, user, item) then (t, Err(NotFound))
      else if NameTaken(t, user, t[item].parent, name, item) then (t, Err(Conflict))
      else Commit(t, t[item := t[item].(name := name)])
    case Move(item, target) =>
      if !Owned(t, user, item) || !ParentOwned(t, user, target) then (t, Err(NotFound))
      else if target.Some? && (t[target.value].kind != Folder || item == target.value) then (t, Err(Validation))
      else Commit(t, Reparented(t, item, target))
    case Trash(item) =>
      if !Owned(t, user, item) then (t, Err(NotFound)) else Commit(t, Marked(t, item, true))
    case Restore(item) =>
      if !Owned(t, user, item) then (t, Err(NotFound))
      else if !t[item].trashed then (t, Err(Validation))
      else Commit(t, Marked(t, item, false))
    case Purge(item) =>
      if !Owned(t, user, item) then (t, Err(NotFound))
      else if !t[item].trashed then (t, Err(Validation))
      else (t - Subtree(t, item), Ok(()))
    case EmptyTrash => (t - Trashcan(t, user), Ok(()))
  }

  /** Whether a call gets as far as its recursive query, and the database gives up on that after some rounds. */
  ghost predicate Aborts(t: Table, user: nat, op: Op, rounds: nat) {
    && (op.Trash? || op.Restore? || op.Purge?) && Owned(t, user, op.item)
    && (op.Trash? || t[op.item].trashed) && Level(t, op.item, rounds) != {}
  }

  /** A call whose recursive query may run for so many rounds; one that is given up changes nothing. */
  ghost function Queried(t: Table, user: nat, op: Op, rounds: nat): (Table, Result<(), Error>) {
    if Aborts(t, user, op, rounds) then (t, Err(QueryAborted)) else Step(t, user, op)
  }

  // The code

  class FileService {
    var rows: Table

    constructor ()
      ensures rows == map[]
    {
      rows := map[];
    }

    method Apply(t: Table) returns (r: Result<(), Error>)
      modifies this
      ensures (rows, r) == Commit(old(rows), t)
    {
      if UniqueKeys(t) {
        rows := t;
        return Ok(());
      }
      return Err(ConstraintViolation);
    }

    method CreateFolderIn(user: nat, id: Id, parent: Option<Id>, name: string) returns (r: Result<(), Error>)
      modifies this
      ensures (rows, r) == Step(old(rows), user, CreateFolder(id, parent, name))
    {
      if parent.Some? && !Owned(rows, user, parent.value) {
        return Err(NotFound);
      }
      if NameTaken(rows, user, parent, name, id) {
        return Err(Conflict);
      }
      if id in rows {
        return Err(ConstraintViolation);
      }
      r := Apply(rows[id := Row(user, parent, name, Folder, false)]);
    }

    method UploadFile(user: nat, id: Id, parent: Option<Id>, name: string) returns (r: Result<(), Error>)
      modifies this
      ensures (rows, r) == Step(old(rows), user, Upload(id, parent, name))
    {
      if parent.Some? && !Owned(rows, user, parent.value) {
        return Err(NotFound);
      }
      if id in rows {
        return Err(ConstraintViolation);
      }
      r := Apply(rows[id := Row(user, parent, name, File, false)]);
    }

    /** The row of a new resumable transfer. Its parent is not looked at: only the foreign key can object. */
    method InitResumable(user: nat, id: Id, parent: Option<Id>, name: string, size: int) returns (r: Result<(), Error>)
      modifies this
      ensures (rows, r) == Step(old(rows), user, InitTransfer(id, parent, name, size))
    {
      if Trim(name, IsWhitespace) == "" {
        return Err(Validation);
      }
      if size < 0 {
        return Err(Validation);
      }
      if id in rows || (parent.Some? && parent.value !in rows) {
        return Err(ConstraintViolation);
      }
      r := Apply(rows[id := Row(user, parent, name, File, false)]);
    }

    method RenameItem(user: nat, item: Id, name: string) returns (r: Result<(), Error>)
      modifies this
      ensures (rows, r) == Step(old(rows), user, Rename(item, name))
    {
      if !Owned(rows, user, item) {
        return Err(NotFound);
      }
      if NameTaken(rows, user, rows[item].parent, name, item) {
        return Err(Conflict);
      }
      r := Apply(rows[item := rows[item].(name := name)]);
    }

    method MoveItem(user: nat, item: Id, target: Option<Id>) returns (r: Result<(), Error>)
      modifies this
      ensures (rows, r) == Step(old(rows), user, Move(item, target))
    {
      if !Owned(rows, user, item) {
        return Err(NotFound);
      }
      if target.Some? {
        if !Owned(rows, user, target.value) {
          return Err(NotFound);
        }
        if rows[target.value].kind != Folder || item == target.value {
          return Err(Validation);
        }
      }
      r := Apply(Reparented(rows, item, target));
    }

    method DeleteItem(user: nat, item: Id, rounds: nat) returns (r: Result<(), Error>)
      modifies this
      ensures (rows, r) == Queried(old(rows), user, Trash(item), rounds)
    {
      if !Owned(rows, user, item) {
        return Err(NotFound);
      }
      var found := Descendants(rows, item, rounds);
      if found.None? {
        return Err(QueryAborted);
      }
      var ids := found.value;
      var t := map x | x in rows :: if x in ids then rows[x].(trashed := true) else rows[x];
      assert t == Marked(rows, item, true);
      r := Apply(t);
    }

    method RestoreFromTrash(user: nat, item: Id, rounds: nat) returns (r: Result<(), Error>)
      modifies this
      ensures (rows, r) == Queried(old(rows), user, Restore(item), rounds)
    {
      if !Owned(rows, user, item) {
        return Err(NotFound);
      }
      if !rows[item].trashed {
        return Err(Validation);
      }
      var found := Descendants(rows, item, rounds);
      if found.None? {
        return Err(QueryAborted);
      }
      var ids := found.value;
      var t := map x | x in rows :: if x in ids then rows[x].(trashed := false) else rows[x];
      assert t == Marked(rows, item, false);
      r := Apply(t);
    }

    method PermanentDelete(user: nat, item: Id, rounds: nat) returns (r: Result<(), Error>)
      modifies this
      ensures (rows, r) == Queried(old(rows), user, Purge(item), rounds)
    {
      if !Owned(rows, user, item) {
        return Err(NotFound);
      }
      if !rows[item].trashed {
        return Err(Validation);
      }
      var found := Descendants(rows, item, rounds);
      if found.None? {
        return Err(QueryAborted);
      }
      var ids := found.value;
      rows := rows - ids;
      return Ok(());
    }

    method EmptyTrashOf(user: nat) returns (r: Result<(), Error>)
      modifies this
      ensures (rows, r) == Step(old(rows), user, EmptyTrash)
    {
      var gone := Cascade(rows, TrashedOf(rows, user));
      forall x
        ensures x in gone <==> x in Trashcan(rows, user)
      {
      }
      assert gone == Trashcan(rows, user);
      rows := rows - gone;
      return Ok(());
    }
  }

  // What every run keeps

  ghost predicate Inv(t: Table) {
    Acyclic(t) && ParentsExist(t) && OwnersAgree(t) && UniqueKeys(t)
  }

  datatype Call = Call(user: nat, op: Op)

  ghost function Run(t: Table, calls: seq<Call>): Table {
    if calls == [] then t
    else
      var c := calls[|calls| - 1];
      Step(Run(t, calls[..|calls| - 1]), c.user, c.op).0
  }

  /** No call moves an entry below itself or starts a transfer in somebody else's folder. */
  ghost predicate ProperRun(t: Table, calls: seq<Call>) {
    calls != [] ==>
      var before, last := Run(t, calls[..|calls| - 1]), calls[|calls| - 1];
      ProperRun(t, calls[..|calls| - 1]) && Proper(before, last.user, last.op)
  }

  ghost predicate Proper(t: Table, user: nat, op: Op) {
    Outside(t, op) && (op.InitTransfer? ==> ParentOwned(t, user, op.parent))
  }

  ghost predicate Outside(t: Table, op: Op) {
    op.Move? && op.target.Some? ==> !Within(t, op.item, op.target.value)
  }

  lemma MarkedSameParents(t: Table, item: Id, trashed: bool)
    ensures SameParents(t, Marked(t, item, trashed))
  {
  }

  lemma SameParentsAndOwners(t: Table, t': Table)
    requires SameParents(t, t') && Acyclic(t) && ParentsExist(t) && OwnersAgree(t)
    requires forall x :: x in t ==> t[x].user == t'[x].user
    ensures Acyclic(t') && ParentsExist(t') && OwnersAgree(t')
  {
    SameParentsKeep(t, t');
    forall x | x in t' && t'[x].parent.Some? && t'[x].parent.value in t'
      ensures t'[t'[x].parent.value].user == t'[x].user
    {
      var p := t[x].parent.value;
      assert t[p].user == t[x].user && t'[p].user == t[p].user;
    }
  }

  /** Removing whole subtrees leaves no entry without its parent. */
  lemma RemovingSubtrees(t: Table, gone: set<Id>)
    requires Inv(t) && forall x :: x in t && t[x].parent.Some? && t[x].parent.value in gone ==> x in gone
    ensures Inv(t - gone)
  {
    FewerRowsAcyclic(t, gone);
  }

  lemma SubtreeIsClosed(t: Table, root: Id, x: Id)
    requires x in t && t[x].parent.Some? && Within(t, root, t[x].parent.value)
    ensures Within(t, root, x)
  {
    var n: nat :| Up(t, t[x].parent.value, n) == Some(root);
    assert Up(t, x, n + 1) == Some(root);
  }

  lemma StepKeepsInv(t: Table, user: nat, op: Op)
    requires Inv(t) && Proper(t, user, op)
    ensures Inv(Step(t, user, op).0)
  {
    var t' := Step(t, user, op).0;
    match op
    case CreateFolder(id, parent, name) =>
      if t' != t {
        NewRowKeepsAcyclic(t, id, t'[id]);
      }
    case Upload(id, parent, name) =>
      if t' != t {
        NewRowKeepsAcyclic(t, id, t'[id]);
      }
    case InitTransfer(id, parent, name, size) =>
      if t' != t {
        NewRowKeepsAcyclic(t, id, t'[id]);
      }
    case Rename(item, name) =>
      if t' != t {
        SameParentsAndOwners(t, t');
      }
    case Move(item, target) =>
      if t' != t {
        MoveOutsideKeepsAcyclic(t, item, target);
      }
    case Trash(item) =>
      if t' != t {
        SameParentsAndOwners(t, t');
      }
    case Restore(item) =>
      if t' != t {
        SameParentsAndOwners(t, t');
      }
    case Purge(item) =>
      if t' != t {
        forall x | x in t && t[x].parent.Some? && t[x].parent.value in Subtree(t, item)
          ensures x in Subtree(t, item)
        {
          SubtreeIsClosed(t, item, x);
        }
        RemovingSubtrees(t, Subtree(t, item));
      }
    case EmptyTrash =>
      forall x | x in t && t[x].parent.Some? && t[x].parent.value in Trashcan(t, user)
        ensures x in Trashcan(t, user)
      {
        var r :| r in TrashedOf(t, user) && Within(t, r, t[x].parent.value);
        SubtreeIsClosed(t, r, x);
      }
      RemovingSubtrees(t, Trashcan(t, user));
  }

  /** Every run whose moves go outside the moved subtree, and whose transfers start in folders of their user, keeps
      the parent relation acyclic,
      parents present, owners equal along it and keys unique. */
  lemma {:induction false} RunKeepsInv(t: Table, calls: seq<Call>)
    requires Inv(t) && ProperRun(t, calls)
    ensures Inv(Run(t, calls))
  {
    if calls != [] {
      RunKeepsInv(t, calls[..|calls| - 1]);
      StepKeepsInv(Run(t, calls[..|calls| - 1]), calls[|calls| - 1].user, calls[|calls| - 1].op);
    }
  }

  /** In a table without cycles no call is given up that may run as many rounds as there are rows, while an entry
      on a cycle can never be trashed, restored or purged, however long its query runs. */
  lemma AbortsIffOnCycle(t: Table, user: nat, op: Op, rounds: nat)
    requires (op.Trash? || op.Restore? || op.Purge?) && Owned(t, user, op.item) && (op.Trash? || t[op.item].trashed)
    ensures OnCycle(t, op.item) ==> Queried(t, user, op, rounds) == (t, Err(QueryAborted))
    ensures !OnCycle(t, op.item) && rounds >= |t| ==> Queried(t, user, op, rounds) == Step(t, user, op)
  {
    QueryEndsIffNotOnCycle(t, op.item, rounds);
  }

  /** A move that the code accepts keeps the table acyclic iff its target is not below the moved entry. */
  lemma AcceptedMove(t: Table, user: nat, item: Id, target: Option<Id>)
    requires Inv(t) && Step(t, user, Move(item, target)).1.Ok?
    ensures Acyclic(Step(t, user, Move(item, target)).0) <==> Outside(t, Move(item, target))
  {
    MoveIsSafeIffOutside(t, item, target);
  }

  /** A transfer that the code starts keeps the invariant iff its parent, if any, is the user's own. */
  lemma AcceptedInit(t: Table, user: nat, op: Op)
    requires Inv(t) && op.InitTransfer? && Step(t, user, op).1.Ok?
    ensures Inv(Step(t, user, op).0) <==> ParentOwned(t, user, op.parent)
  {
    if ParentOwned(t, user, op.parent) {
      StepKeepsInv(t, user, op);
    } else {
      var t' := Step(t, user, op).0;
      assert t'[op.id].parent == op.parent && t'[op.parent.value].user != t'[op.id].user;
    }
  }

  /** Moving the entry back to where it was takes an accepted move back, cycle or not, unless a file was its parent. */
  lemma MoveBack(t: Table, user: nat, item: Id, target: Option<Id>)
    requires Inv(t) && Step(t, user, Move(item, target)).1.Ok?
    requires t[item].parent.Some? ==> t[t[item].parent.value].kind == Folder
    ensures Step(Step(t, user, Move(item, target)).0, user, Move(item, t[item].parent)) == (t, Ok(()))
  {
    var t', back := Step(t, user, Move(item, target)).0, t[item].parent;
    if back.Some? {
      assert t[back.value].user == user;
      if back.value == item {
        OwnParent(t, item);
      }
    }
    assert Reparented(t', item, back) == t;
  }

  /** An accepted move below the moved entry leaves that entry stuck while it stays there: however long the queries
      run, it can not be trashed. */
  lemma MovedBelowIsStuck(t: Table, user: nat, item: Id, target: Id, rounds: nat)
    requires Step(t, user, Move(item, Some(target))).1.Ok? && Within(t, item, target)
    ensures var t' := Step(t, user, Move(item, Some(target))).0;
      Queried(t', user, Trash(item), rounds) == (t', Err(QueryAborted))
  {
    MoveInsideMakesCycle(t, item, target);
    AbortsIffOnCycle(Reparented(t, item, Some(target)), user, Trash(item), rounds);
  }

  /** No call of the run removes the entry or moves an entry of the cycle it is on. */
  ghost predicate CycleUntouched(t: Table, calls: seq<Call>, item: Id) {
    calls != [] ==>
      var front, last := calls[..|calls| - 1], calls[|calls| - 1];
      && CycleUntouched(t, front, item) && item in Run(t, calls)
      && (last.op.Move? ==> !Below(Run(t, front), item, last.op.item))
  }

  /** Whatever else is done, an entry on a cycle stays on it until an entry of the cycle is moved. */
  lemma StepKeepsCycle(t: Table, user: nat, op: Op, item: Id)
    requires OnCycle(t, item) && item in Step(t, user, op).0 && (op.Move? ==> !Below(t, item, op.item))
    ensures OnCycle(Step(t, user, op).0, item)
  {
    hide UniqueKeys, NameTaken;
    var t' := Step(t, user, op).0;
    forall y | Below(t, item, y)
      ensures y in t' && t'[y].parent == t[y].parent
    {
      if op.Purge? && Within(t, op.item, y) {
        BelowWithin(t, op.item, item, y);
      }
      if op.EmptyTrash? && WithinSome(t, TrashedOf(t, user), y) {
        var r :| r in TrashedOf(t, user) && Within(t, r, y);
        BelowWithin(t, r, item, y);
      }
    }
    CycleKept(t, t', item);
  }

  lemma {:induction false} RunKeepsCycle(t: Table, calls: seq<Call>, item: Id)
    requires OnCycle(t, item) && CycleUntouched(t, calls, item)
    ensures OnCycle(Run(t, calls), item)
  {
    hide Step;
    if calls != [] {
      var front, last := calls[..|calls| - 1], calls[|calls| - 1];
      RunKeepsCycle(t, front, item);
      StepKeepsCycle(Run(t, front), last.user, last.op, item);
    }
  }

  /** So after an accepted move of an entry below itself, in any run that moves no entry of the cycle, the entry can
      not be trashed, however long the queries run. */
  lemma StuckUntilMoved(t: Table, user: nat, item: Id, target: Id, calls: seq<Call>, user': nat, rounds: nat)
    requires Step(t, user, Move(item, Some(target))).1.Ok? && Within(t, item, target)
    requires var t' := Step(t, user, Move(item, Some(target))).0; CycleUntouched(t', calls, item)
    ensures var now := Run(Step(t, user, Move(item, Some(target))).0, calls);
      var (after, answer) := Queried(now, user', Trash(item), rounds);
      item in now && answer.Err? && after == now
  {
    MoveInsideMakesCycle(t, item, target);
    RunKeepsCycle(Reparented(t, item, Some(target)), calls, item);
    var now := Run(Reparented(t, item, Some(target)), calls);
    CycleIsThere(now, item);
    if Owned(now, user', item) {
      AbortsIffOnCycle(now, user', Trash(item), rounds);
    }
  }

  lemma CycleIsThere(t: Table, x: Id)
    requires OnCycle(t, x)
    ensures x in t
  {
  }

  /** The code does accept such moves: a folder into a folder inside it. */
  lemma MoveBelowIsAccepted()
    ensures var t: Table := map[1 := Row(7, None, "a", Folder, false), 2 := Row(7, Some(1), "b", Folder, false)];
      Inv(t) && Step(t, 7, Move(1, Some(2))).1.Ok? && !Acyclic(Step(t, 7, Move(1, Some(2))).0)
  {
    var t0: Table := map[1 := Row(7, None, "a", Folder, false)];
    var t := t0[2 := Row(7, Some(1), "b", Folder, false)];
    assert t == map[1 := Row(7, None, "a", Folder, false), 2 := Row(7, Some(1), "b", Folder, false)];
    NewRowKeepsAcyclic(map[], 1, t[1]);
    assert t0 == map[][1 := t[1]];
    NewRowKeepsAcyclic(t0, 2, t[2]);
    assert Up(t, 2, 1) == Up(t, 1, 0) == Some(1);
    assert Within(t, 1, 2);
    AcceptedMove(t, 7, 1, Some(2));
  }

  /** Another entry of the same user, parent, name and trash flag as row. */
  predicate KeyTaken(t: Table, row: Row, x: Id) {
    exists y :: y in t && y != x && SameKey(t[y], row)
  }

  /** Writing a row keeps the keys unique iff no other row has its key. */
  lemma UniqueAfterWrite(t: Table, x: Id, row: Row)
    requires UniqueKeys(t)
    ensures UniqueKeys(t[x := row]) <==> !KeyTaken(t, row, x)
  {
    var t' := t[x := row];
    if y :| y in t && y != x && SameKey(t[y], row) {
      assert SameKey(t'[y], t'[x]);
    }
  }

  /** Which name clashes the code answers itself and which it leaves to the constraint. With fresh ids a new folder
      never reaches the constraint, an upload reaches it for every clash, a rename only for a clash among trashed
      entries, though it also refuses a trashed entry the name of a live one, and a move for every clash at its
      target. */
  lemma NameClashes(t: Table, user: nat, id: Id, parent: Option<Id>, item: Id, name: string)
    requires Inv(t) && id !in t && ParentOwned(t, user, parent) && Owned(t, user, item)
    ensures var clash := KeyTaken(t, Row(user, parent, name, File, false), id);
      && Step(t, user, CreateFolder(id, parent, name)).1 == (if clash then Err(Conflict) else Ok(()))
      && Step(t, user, Upload(id, parent, name)).1 == (if clash then Err(ConstraintViolation) else Ok(()))
    ensures var live := KeyTaken(t, t[item].(name := name, trashed := false), item);
      var clash := KeyTaken(t, t[item].(name := name), item);
      Step(t, user, Rename(item, name)).1
        == (if live then Err(Conflict) else if clash then Err(ConstraintViolation) else Ok(()))
    ensures parent.Some? && t[parent.value].kind == Folder && parent.value != item ==>
      Step(t, user, Move(item, parent)).1
        == (if KeyTaken(t, t[item].(parent := parent), item) then Err(ConstraintViolation) else Ok(()))
  {
    hide Inv, UniqueKeys;
    assert UniqueKeys(t) by { UniqueOfInv(t); }
    SameTaken(t, Row(user, parent, name, File, false), Row(user, parent, name, Folder, false), id);
    SameTaken(t, Row(user, parent, name, File, false), Row(user, parent, name, File, false), id);
    SameTaken(t, Row(user, t[item].parent, name, File, false), t[item].(name := name, trashed := false), item);
    UniqueAfterWrite(t, id, Row(user, parent, name, Folder, false));
    UniqueAfterWrite(t, id, Row(user, parent, name, File, false));
    UniqueAfterWrite(t, item, t[item].(name := name));
    UniqueAfterWrite(t, item, t[item].(parent := parent));
  }

  lemma UniqueOfInv(t: Table)
    requires Inv(t)
    ensures UniqueKeys(t)
  {
  }

  lemma SameTaken(t: Table, a: Row, b: Row, x: Id)
    requires SameKey(a, b)
    ensures KeyTaken(t, a, x) == KeyTaken(t, b, x)
    ensures !a.trashed ==> NameTaken(t, a.user, a.parent, a.name, x) == KeyTaken(t, a, x)
  {
    forall y | y in t
      ensures SameKey(t[y], a) == SameKey(t[y], b)
      ensures !a.trashed ==> SameKey(t[y], a) == SameKey(t[y], Row(a.user, a.parent, a.name, File, false))
    {
    }
  }

  // What an accepted call has done

  /** A call that is refused has changed nothing. */
  lemma RefusedChangesNothing(t: Table, user: nat, op: Op)
    ensures Step(t, user, op).1.Err? ==> Step(t, user, op).0 == t
  {
  }

  /** An accepted folder, upload or transfer is there as a live row of the user, and every other row is as before. */
  lemma CreatesTheRow(t: Table, user: nat, op: Op)
    requires (op.CreateFolder? || op.Upload? || op.InitTransfer?) && Step(t, user, op).1.Ok?
    ensures var t' := Step(t, user, op).0;
      && op.id !in t && t'.Keys == t.Keys + {op.id} && (forall x :: x in t ==> t'[x] == t[x])
      && t'[op.id].user == user && t'[op.id].parent == op.parent && t'[op.id].name == op.name && !t'[op.id].trashed
      && t'[op.id].kind == (if op.CreateFolder? then Folder else File)
  {
  }

  /** An accepted rename changes the name of the item and nothing else. */
  lemma RenamesTheItem(t: Table, user: nat, item: Id, name: string)
    requires Step(t, user, Rename(item, name)).1.Ok?
    ensures var t' := Step(t, user, Rename(item, name)).0;
      && item in t && t'.Keys == t.Keys && (forall x :: x in t && x != item ==> t'[x] == t[x])
      && t'[item].name == name && t'[item].user == t[item].user && t'[item].parent == t[item].parent
      && t'[item].kind == t[item].kind && t'[item].trashed == t[item].trashed
  {
  }

  /** An accepted move changes the parent of the item and nothing else. */
  lemma MovesTheItem(t: Table, user: nat, item: Id, target: Option<Id>)
    requires Step(t, user, Move(item, target)).1.Ok?
    ensures var t' := Step(t, user, Move(item, target)).0;
      && item in t && t'.Keys == t.Keys && (forall x :: x in t && x != item ==> t'[x] == t[x])
      && t'[item].parent == target && t'[item].user == t[item].user && t'[item].name == t[item].name
      && t'[item].kind == t[item].kind && t'[item].trashed == t[item].trashed
  {
  }

  /** Nobody works on an entry or in a folder of somebody else, transfers excepted; only folders other than the item
      take moves; only trashed entries are restored or purged; and only transfers look at names and sizes. */
  lemma RefusedIff(t: Table, user: nat, op: Op)
    ensures var answer := Step(t, user, op).1;
      var itemGone := (op.Rename? || op.Move? || op.Trash? || op.Restore? || op.Purge?) &&
        !(op.item in t && t[op.item].user == user);
      var folder := if op.CreateFolder? || op.Upload? then op.parent else if op.Move? then op.target else None;
      var folderGone := folder.Some? && !(folder.value in t && t[folder.value].user == user);
      var badTarget := op.Move? && op.target.Some? &&
        (op.target.value == op.item || (op.target.value in t && t[op.target.value].kind == File));
      var notTrashed := (op.Restore? || op.Purge?) && op.item in t && !t[op.item].trashed;
      var badTransfer := op.InitTransfer?
        && (op.size < 0 || forall i :: 0 <= i < |op.name| ==> IsWhitespace(op.name[i]));
      && (answer == Err(NotFound) <==> itemGone || folderGone)
      && (answer == Err(Validation) <==> !itemGone && !folderGone && (badTarget || notTrashed || badTransfer))
  {
    hide UniqueKeys, NameTaken, Marked, Trim;
    if op.InitTransfer? {
      TrimEmptyIff(op.name, IsWhitespace);
    }
  }

  /** A folder just created takes every other entry of its user. */
  lemma CreatedFolderTakesMoves(t: Table, user: nat, id: Id, parent: Option<Id>, name: string, item: Id)
    requires Inv(t) && Step(t, user, CreateFolder(id, parent, name)).1.Ok? && Owned(t, user, item)
    ensures var t1 := Step(t, user, CreateFolder(id, parent, name)).0;
      var (t2, r) := Step(t1, user, Move(item, Some(id)));
      r == Ok(()) && t2[item].parent == Some(id) && t2[id].kind == Folder
  {
    hide Inv;
    var t1 := Step(t, user, CreateFolder(id, parent, name)).0;
    StepKeepsInv(t, user, CreateFolder(id, parent, name));
    assert UniqueKeys(t1) by { UniqueOfInv(t1); }
    UniqueAfterWrite(t1, item, t1[item].(parent := Some(id)));
    NoChildrenYet(t, id);
  }

  lemma NoChildrenYet(t: Table, id: Id)
    requires Inv(t) && id !in t
    ensures forall x :: x in t ==> t[x].parent != Some(id)
  {
  }

  // Trash, restore, delete

  /** Trash and restore change the trash flag of the entries with the item as ancestor or self, and nothing else. */
  lemma MarksExactlyTheSubtree(t: Table, user: nat, op: Op)
    requires (op.Trash? || op.Restore?) && Step(t, user, op).1.Ok?
    ensures var t' := Step(t, user, op).0;
      && t'.Keys == t.Keys
      && (forall x :: x in t && x in Subtree(t, op.item) ==> t'[x] == t[x].(trashed := op.Trash?))
      && (forall x :: x in t && x !in Subtree(t, op.item) ==> t'[x] == t[x])
  {
  }

  /** Restoring right after trashing gives every flag back iff nothing in the subtree was already trashed. */
  lemma RestoreUndoesTrashIff(t: Table, user: nat, item: Id)
    requires Inv(t) && Step(t, user, Trash(item)).1.Ok?
    ensures var t1 := Step(t, user, Trash(item)).0;
      var (t2, r) := Step(t1, user, Restore(item));
      r.Ok? && t2 == t <==> forall x :: x in Subtree(t, item) ==> !t[x].trashed
  {
    hide UniqueKeys, Acyclic, ParentsExist, OwnersAgree;
    MarkTwice(t, item);
    assert Up(t, item, 0) == Some(item);
    UniqueOfInv(t);
  }

  /** Marking a subtree live again gives the table back iff nothing in it was trashed before. */
  lemma MarkTwice(t: Table, item: Id)
    ensures Marked(Marked(t, item, true), item, false) == t <==> forall x :: x in Subtree(t, item) ==> !t[x].trashed
    ensures forall x :: Within(Marked(t, item, true), item, x) <==> Within(t, item, x)
  {
    hide Acyclic, Within;
    var t1 := Marked(t, item, true);
    MarkedSameParents(t, item, true);
    SameParentsKeep(t, t1);
    var back := Marked(t1, item, false);
    forall x | x in t
      ensures back[x] == t[x] <==> (x in Subtree(t, item) ==> !t[x].trashed)
    {
    }
    if forall x :: x in Subtree(t, item) ==> !t[x].trashed {
      assert back == t;
    }
  }

  /** The same entry, in the trash, under the same parent and name. */
  ghost predicate Shadowed(t: Table, x: Id, y: Id)
    requires x in t && y in t
  {
    x != y && !t[x].trashed && t[y].trashed && t[x].user == t[y].user && t[x].parent == t[y].parent
      && t[x].name == t[y].name
  }

  /** Trashing fails iff some live entry of the subtree has a namesake beside it in the trash already. */
  lemma TrashFailsIffShadowed(t: Table, user: nat, item: Id)
    requires Inv(t) && Owned(t, user, item)
    ensures Step(t, user, Trash(item)).1.Err? <==>
      exists x, y :: x in Subtree(t, item) && y in t && Shadowed(t, x, y)
  {
    var t' := Marked(t, item, true);
    if x, y :| x in Subtree(t, item) && y in t && Shadowed(t, x, y) {
      assert SameKey(t'[x], t'[y]);
    }
    if x, y :| x in t' && y in t' && x != y && SameKey(t'[x], t'[y]) {
      assert !SameKey(t[x], t[y]);
      assert Shadowed(t, x, y) || Shadowed(t, y, x);
    }
  }

  /** Restoring fails iff some trashed entry of the subtree has a live namesake beside it. */
  lemma RestoreFailsIffReplaced(t: Table, user: nat, item: Id)
    requires Inv(t) && Owned(t, user, item) && t[item].trashed
    ensures Step(t, user, Restore(item)).1.Err? <==>
      exists x, y :: x in t && y in Subtree(t, item) && Shadowed(t, x, y)
  {
    var t' := Marked(t, item, false);
    if x, y :| x in t && y in Subtree(t, item) && Shadowed(t, x, y) {
      assert SameKey(t'[x], t'[y]);
    }
    if x, y :| x in t' && y in t' && x != y && SameKey(t'[x], t'[y]) {
      assert !SameKey(t[x], t[y]);
      assert Shadowed(t, x, y) || Shadowed(t, y, x);
    }
  }

  /** Permanent deletion removes the whole subtree, so no surviving entry has lost its parent. */
  lemma PurgeLeavesNoOrphan(t: Table, user: nat, item: Id)
    requires Inv(t) && Step(t, user, Purge(item)).1.Ok?
    ensures var t' := Step(t, user, Purge(item)).0;
      && (forall x :: x in t' <==> x in t && !Within(t, item, x))
      && (forall x :: x in t' ==> t'[x] == t[x] && (t'[x].parent.Some? ==> t'[x].parent.value in t'))
  {
    StepKeepsInv(t, user, Purge(item));
  }

  /** Emptying the trash removes the user's trashed entries and all below them, and changes nothing else. */
  lemma EmptyTrashRemoves(t: Table, user: nat, x: Id)
    requires x in t
    ensures var t' := Step(t, user, EmptyTrash).0;
      && (x !in t' <==> exists r :: r in t && t[r].user == user && t[r].trashed && Within(t, r, x))
      && (x in t' ==> t'[x] == t[x]) && t'.Keys <= t.Keys
  {
    if r :| r in t && t[r].user == user && t[r].trashed && Within(t, r, x) {
      assert r in TrashedOf(t, user);
    }
  }

  /** Emptying the trash also removes live entries: exactly those below a trashed one. */
  lemma EmptyTrashRemovesLiveEntries(t: Table, user: nat, x: Id)
    requires Inv(t) && x in t && !t[x].trashed
    ensures x !in Step(t, user, EmptyTrash).0 <==>
      exists r :: r in TrashedOf(t, user) && Below(t, x, r)
  {
    if r :| r in TrashedOf(t, user) && Within(t, r, x) {
      var n: nat :| Up(t, x, n) == Some(r);
      assert n > 0;
      assert Below(t, x, r);
    }
  }
}
