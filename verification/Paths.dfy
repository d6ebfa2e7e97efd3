/** Walking up to a breadcrumb and walking down a WebDAV path, and why the second undoes the first. */
module Paths {
  import opened Wrappers
  import opened Ancestry
  import opened Strings
  import opened Sets
  import Forest

  datatype Crumb = Crumb(id: Option<Id>, name: string)

  const ROOT := Crumb(None, "Root")

  /** Every query is filtered by user. */
  function Mine(t: Table, user: nat): Table {
    map x | x in t && t[x].user == user :: t[x]
  }

  /** ids is the walk up from cur, written root first: it ends at an entry without a visible parent. */
  ghost predicate IsPath(t: Table, cur: Option<Id>, ids: seq<Id>)
    decreases |ids|
  {
    if ids == [] then cur.None? || cur.value !in t
    else
      var last := ids[|ids| - 1];
      last in t && cur == Some(last) && IsPath(t, t[last].parent, ids[..|ids| - 1])
  }

  function Crumbs(t: Table, ids: seq<Id>): seq<Crumb>
    requires forall i :: 0 <= i < |ids| ==> ids[i] in t
  {
    seq(|ids|, i requires 0 <= i < |ids| => Crumb(Some(ids[i]), t[ids[i]].name))
  }

  lemma {:induction false} PathPresent(t: Table, cur: Option<Id>, ids: seq<Id>)
    requires IsPath(t, cur, ids)
    ensures forall i :: 0 <= i < |ids| ==> ids[i] in t
    decreases |ids|
  {
    if ids != [] {
      PathPresent(t, t[ids[|ids| - 1]].parent, ids[..|ids| - 1]);
    }
  }

  /** There is only one walk up. */
  lemma {:induction false} PathIsUnique(t: Table, cur: Option<Id>, ids: seq<Id>, ids': seq<Id>)
    requires IsPath(t, cur, ids) && IsPath(t, cur, ids')
    ensures ids == ids'
    decreases |ids|
  {
    if ids != [] && ids' != [] {
      PathIsUnique(t, t[ids[|ids| - 1]].parent, ids[..|ids| - 1], ids'[..|ids'| - 1]);
      assert ids == ids[..|ids| - 1] + [ids[|ids| - 1]];
      assert ids' == ids'[..|ids'| - 1] + [ids'[|ids'| - 1]];
    }
  }

  /** The root, then the entries of the walk up from the folder, read downwards. */
  ghost predicate IsBreadcrumb(t: Table, user: nat, folder: Option<Id>, path: seq<Crumb>) {
    exists ids: seq<Id> :: IsBreadcrumbOf(t, user, folder, ids, path)
  }

  ghost predicate IsBreadcrumbOf(t: Table, user: nat, folder: Option<Id>, ids: seq<Id>, path: seq<Crumb>) {
    && IsPath(Mine(t, user), folder, ids)
    && (forall i :: 0 <= i < |ids| ==> ids[i] in t)
    && path == [ROOT] + Crumbs(t, ids)
  }

  /** build_breadcrumb. It ends whenever the walk up from the folder does. */
  method BuildBreadcrumb(t: Table, user: nat, folder: Option<Id>) returns (path: seq<Crumb>)
    requires folder.Some? ==> Grounded(Mine(t, user), folder.value)
    ensures IsBreadcrumb(t, user, folder, path)
  {
    ghost var mine := Mine(t, user);
    path := [ROOT];
    var currentId := folder;
    var ancestors: seq<Crumb> := [];
    ghost var ids: seq<Id> := [];
    ghost var n: nat := 0;
    if folder.Some? {
      n :| Up(mine, folder.value, n) == None;
    }
    assert forall front: seq<Id> :: front + [] == front;
    while currentId.Some?
      invariant currentId.Some? ==> Up(mine, currentId.value, n) == None
      invariant forall front :: IsPath(mine, currentId, front) ==> IsPath(mine, folder, front + ids)
      invariant forall i :: 0 <= i < |ids| ==> ids[i] in t
      invariant Reverse(ancestors) == Crumbs(t, ids)
      decreases currentId.Some?, n
    {
      var cid := currentId.value;
      if !(cid in t && t[cid].user == user) {
        break;
      }
      ancestors := ancestors + [Crumb(Some(cid), t[cid].name)];
      OneMoreAncestor(mine, folder, cid, ids);
      ids := [cid] + ids;
      currentId := t[cid].parent;
      n := n - 1;
    }
    assert IsPath(mine, currentId, []);
    assert [] + ids == ids;
    path := path + Reverse(ancestors);
    assert IsBreadcrumbOf(t, user, folder, ids, path);
  }

  lemma OneMoreAncestor(mine: Table, folder: Option<Id>, cid: Id, ids: seq<Id>)
    requires cid in mine
    requires forall front :: IsPath(mine, Some(cid), front) ==> IsPath(mine, folder, front + ids)
    ensures forall front :: IsPath(mine, mine[cid].parent, front) ==> IsPath(mine, folder, front + ([cid] + ids))
  {
    forall front | IsPath(mine, mine[cid].parent, front)
      ensures IsPath(mine, folder, front + ([cid] + ids))
    {
      assert (front + [cid])[..|front|] == front;
      assert IsPath(mine, Some(cid), front + [cid]);
      assert (front + [cid]) + ids == front + ([cid] + ids);
    }
  }

  function Reverse<T>(s: seq<T>): seq<T> {
    if s == [] then [] else [s[|s| - 1]] + Reverse(s[..|s| - 1])
  }

  // The way down

  predicate LiveMatch(t: Table, user: nat, name: string, parent: Option<Id>, x: Id) {
    x in t && t[x].user == user && t[x].name == name && !t[x].trashed && t[x].parent == parent
  }

  predicate LiveFolder(t: Table, user: nat, name: string, parent: Option<Id>, x: Id) {
    LiveMatch(t, user, name, parent, x) && t[x].kind == Folder
  }

  /** What resolve_path may answer, LIMIT 1 choosing among several matches in any way. */
  ghost predicate Resolves(t: Table, user: nat, cur: Option<Id>, segments: seq<string>, parent: Option<Id>,
                           target: Option<Id>)
    decreases |segments|
  {
    if segments == [] then
      parent == cur && target == None
    else if |segments| == 1 then
      parent == cur && match target
        case Some(x) => LiveMatch(t, user, segments[0], cur, x)
        case None => forall x :: !LiveMatch(t, user, segments[0], cur, x)
    else
      || (exists y :: LiveFolder(t, user, segments[0], cur, y)
            && Resolves(t, user, Some(y), segments[1..], parent, target))
      || ((forall y :: !LiveFolder(t, user, segments[0], cur, y)) && parent == cur && target == None)
  }

  function Segments(rawPath: string): seq<string> {
    Fields(Trim(rawPath, IsSlash), IsSlash)
  }

  /** resolve_path. */
  method ResolvePath(t: Table, user: nat, rawPath: string) returns (parent: Option<Id>, target: Option<Id>)
    ensures Resolves(t, user, None, Segments(rawPath), parent, target)
  {
    var clean := Trim(rawPath, IsSlash);
    if clean == "" {
      assert Segments(rawPath) == [] by { FieldsJoin([], '/', IsSlash); }
      return None, None;
    }
    var segments := Fields(clean, IsSlash);
    var currentParent: Option<Id> := None;
    assert segments[0..] == segments;
    for i := 0 to |segments|
      invariant forall p, x :: Resolves(t, user, currentParent, segments[i..], p, x) ==>
        Resolves(t, user, None, segments, p, x)
    {
      assert segments[i..][1..] == segments[i + 1..];
      if i == |segments| - 1 {
        var found := set x | x in t && LiveMatch(t, user, segments[i], currentParent, x);
        if found == {} {
          assert forall x :: LiveMatch(t, user, segments[i], currentParent, x) ==> x in found;
          return currentParent, None;
        }
        SomeInt(found);
        var x :| x in found;
        return currentParent, Some(x);
      }
      var found := set y | y in t && LiveFolder(t, user, segments[i], currentParent, y);
      if found == {} {
        assert forall y :: LiveFolder(t, user, segments[i], currentParent, y) ==> y in found;
        return currentParent, None;
      }
      SomeInt(found);
      var y :| y in found;
      assert LiveFolder(t, user, segments[i], currentParent, y);
      currentParent := Some(y);
    }
    return currentParent, None;
  }

  // Walking down undoes walking up

  function Names(t: Table, ids: seq<Id>): seq<string>
    requires forall i :: 0 <= i < |ids| ==> ids[i] in t
  {
    seq(|ids|, i requires 0 <= i < |ids| => t[ids[i]].name)
  }

  /** A chain of live entries hanging below cur, all but the last folders. */
  ghost predicate Hangs(t: Table, user: nat, cur: Option<Id>, ids: seq<Id>)
    decreases |ids|
  {
    ids != [] ==>
      && ids[0] in t
      && LiveMatch(t, user, t[ids[0]].name, cur, ids[0])
      && (|ids| > 1 ==> t[ids[0]].kind == Folder)
      && Hangs(t, user, Some(ids[0]), ids[1..])
  }

  /** The entry and all its ancestors are live, and the ancestors are folders. */
  ghost predicate LiveFolders(t: Table, ids: seq<Id>) {
    forall i :: 0 <= i < |ids| ==> ids[i] in t && !t[ids[i]].trashed && (i < |ids| - 1 ==> t[ids[i]].kind == Folder)
  }

  /** Read from the root down, a walk up hangs from the top. */
  lemma {:induction false} PathHangs(t: Table, user: nat, cur: Option<Id>, ids: seq<Id>, below: seq<Id>)
    requires ParentsExist(t) && OwnersAgree(t)
    requires IsPath(Mine(t, user), cur, ids) && (cur.Some? ==> cur.value in Mine(t, user))
    requires Hangs(t, user, cur, below)
    requires forall i :: 0 <= i < |ids| ==>
      ids[i] in t && !t[ids[i]].trashed && (i < |ids| - 1 || below != [] ==> t[ids[i]].kind == Folder)
    ensures Hangs(t, user, None, ids + below)
    decreases |ids|
  {
    var mine := Mine(t, user);
    if ids == [] {
      assert ids + below == below;
    } else {
      var front, last := ids[..|ids| - 1], ids[|ids| - 1];
      assert ([last] + below)[1..] == below;
      assert ids + below == front + ([last] + below);
      PathHangs(t, user, mine[last].parent, front, [last] + below);
    }
  }

  lemma UniqueMatch(t: Table, user: nat, name: string, parent: Option<Id>, x: Id, y: Id)
    requires Forest.UniqueKeys(t) && LiveMatch(t, user, name, parent, x) && LiveMatch(t, user, name, parent, y)
    ensures x == y
  {
    assert Forest.SameKey(t[x], t[y]);
  }

  /** With unique names the way down along a hanging chain is forced. */
  lemma {:induction false} DownTheChain(t: Table, user: nat, cur: Option<Id>, ids: seq<Id>, parent: Option<Id>,
                                        target: Option<Id>)
    requires Forest.UniqueKeys(t) && ids != [] && Hangs(t, user, cur, ids)
    requires forall i :: 0 <= i < |ids| ==> ids[i] in t
    ensures Resolves(t, user, cur, Names(t, ids), parent, target) <==>
      target == Some(ids[|ids| - 1]) && parent == t[ids[|ids| - 1]].parent
    decreases |ids|
  {
    var names, x := Names(t, ids), ids[0];
    assert LiveMatch(t, user, names[0], cur, x);
    if |ids| == 1 {
      if target.Some? && LiveMatch(t, user, names[0], cur, target.value) {
        UniqueMatch(t, user, names[0], cur, x, target.value);
      }
    } else {
      assert LiveFolder(t, user, names[0], cur, x);
      assert names[1..] == Names(t, ids[1..]);
      DownTheChain(t, user, Some(x), ids[1..], parent, target);
      forall y | LiveFolder(t, user, names[0], cur, y)
        ensures y == x
      {
        UniqueMatch(t, user, names[0], cur, x, y);
      }
    }
  }

  /** The last entry of a chain below cur, or cur. */
  function Deepest(cur: Option<Id>, ids: seq<Id>): Option<Id> {
    if ids == [] then cur else Some(ids[|ids| - 1])
  }

  /** No live entry of the user below parent has the name, or at least no live folder. */
  ghost predicate NoneNamed(t: Table, user: nat, parent: Option<Id>, name: string, foldersOnly: bool) {
    forall y :: y in t && t[y].user == user && t[y].parent == parent && t[y].name == name && !t[y].trashed ==>
      foldersOnly && t[y].kind == File
  }

  /** Where the way down along a chain of folders breaks off, at the last segment or before, there is no target and
      the parent is the deepest folder reached. */
  lemma {:induction false} DownThenMissing(t: Table, user: nat, cur: Option<Id>, ids: seq<Id>, name: string,
                                           more: seq<string>,
                                           parent: Option<Id>, target: Option<Id>)
    requires Forest.UniqueKeys(t) && Hangs(t, user, cur, ids)
    requires forall i :: 0 <= i < |ids| ==> ids[i] in t && t[ids[i]].kind == Folder
    requires NoneNamed(t, user, Deepest(cur, ids), name, more != [])
    ensures Resolves(t, user, cur, Names(t, ids) + ([name] + more), parent, target) <==>
      target == None && parent == Deepest(cur, ids)
    decreases |ids|
  {
    var segments := Names(t, ids) + ([name] + more);
    if ids == [] {
      assert segments == [name] + more && segments[0] == name;
      forall y
        ensures !(if more == [] then LiveMatch(t, user, name, cur, y) else LiveFolder(t, user, name, cur, y))
      {
      }
    } else {
      var x := ids[0];
      assert segments[0] == t[x].name && segments[1..] == Names(t, ids[1..]) + ([name] + more);
      assert LiveFolder(t, user, segments[0], cur, x);
      DownThenMissing(t, user, Some(x), ids[1..], name, more, parent, target);
      forall y | LiveFolder(t, user, segments[0], cur, y)
        ensures y == x
      {
        UniqueMatch(t, user, segments[0], cur, x, y);
      }
    }
  }

  /** For a path: below live folders, a missing last name resolves to the folder it would be in, and a missing folder on
      the way to the deepest one that is there. */
  lemma MissingResolvesToFolder(t: Table, user: nat, ids: seq<Id>, name: string, more: seq<string>,
                                parent: Option<Id>, target: Option<Id>)
    requires Forest.UniqueKeys(t) && Hangs(t, user, None, ids)
    requires forall i :: 0 <= i < |ids| ==> ids[i] in t && t[ids[i]].kind == Folder
    requires NoneNamed(t, user, Deepest(None, ids), name, more != [])
    requires var names := Names(t, ids) + ([name] + more); AllNonEmpty(names) && AllFree(names, IsSlash)
    ensures Resolves(t, user, None, Segments(Join(Names(t, ids) + ([name] + more), '/')), parent, target) <==>
      target == None && parent == Deepest(None, ids)
  {
    hide Resolves, Hangs;
    var names := Names(t, ids) + ([name] + more);
    TrimJoin(names, '/', IsSlash);
    FieldsJoin(names, '/', IsSlash);
    DownThenMissing(t, user, None, ids, name, more, parent, target);
  }

  // Renaming and paths

  /** The i-th entry of a chain is live, in the entry before it, and a folder unless it is the last. */
  ghost predicate LinkAt(t: Table, user: nat, cur: Option<Id>, ids: seq<Id>, i: nat)
    requires i < |ids|
  {
    && ids[i] in t && t[ids[i]].user == user && !t[ids[i]].trashed
    && t[ids[i]].parent == (if i == 0 then cur else Some(ids[i - 1]))
    && (i < |ids| - 1 ==> t[ids[i]].kind == Folder)
  }

  lemma {:induction false} HangsLinks(t: Table, user: nat, cur: Option<Id>, ids: seq<Id>)
    ensures Hangs(t, user, cur, ids) <==> forall i :: 0 <= i < |ids| ==> LinkAt(t, user, cur, ids, i)
    decreases |ids|
  {
    if ids != [] {
      var rest := ids[1..];
      HangsLinks(t, user, Some(ids[0]), rest);
      forall i | 0 <= i < |rest|
        ensures LinkAt(t, user, Some(ids[0]), rest, i) <==> LinkAt(t, user, cur, ids, i + 1)
      {
      }
      if forall i :: 0 <= i < |ids| ==> LinkAt(t, user, cur, ids, i) {
        assert LinkAt(t, user, cur, ids, 0);
        forall i | 0 <= i < |rest|
          ensures LinkAt(t, user, Some(ids[0]), rest, i)
        {
          assert LinkAt(t, user, cur, ids, i + 1);
        }
      }
      if Hangs(t, user, cur, ids) {
        forall i | 0 <= i < |ids|
          ensures LinkAt(t, user, cur, ids, i)
        {
          if i > 0 {
            assert LinkAt(t, user, Some(ids[0]), rest, i - 1);
          }
        }
      }
    }
  }

  /** A chain climbs to each of its entries. */
  lemma {:induction false} ChainClimbs(t: Table, user: nat, cur: Option<Id>, ids: seq<Id>, j: nat, k: nat)
    requires Hangs(t, user, cur, ids) && k <= j < |ids|
    ensures ids[j] in t && Up(t, ids[j], k) == Some(ids[j - k])
    decreases k
  {
    HangsLinks(t, user, cur, ids);
    assert LinkAt(t, user, cur, ids, j);
    if k > 0 {
      ChainClimbs(t, user, cur, ids, j - 1, k - 1);
    }
  }

  /** In a table without cycles the last entry of a chain occurs in it once. */
  lemma LastIsNew(t: Table, user: nat, cur: Option<Id>, ids: seq<Id>, i: nat)
    requires Acyclic(t) && Hangs(t, user, cur, ids) && i < |ids| - 1
    ensures ids[i] != ids[|ids| - 1]
  {
    var j := |ids| - 1;
    ChainClimbs(t, user, cur, ids, j, j - i);
    assert !OnCycle(t, ids[j]);
  }

  /** An accepted rename of the last entry of a live chain: it resolves under its new name, and under the old one
      there is nothing in its folder. */
  lemma RenameMovesThePath(t: Table, user: nat, ids: seq<Id>, name: string, parent: Option<Id>, target: Option<Id>)
    requires Forest.Inv(t) && Hangs(t, user, None, ids) && ids != []
    requires forall i :: 0 <= i < |ids| ==> ids[i] in t
    requires var e := ids[|ids| - 1]; Forest.Step(t, user, Forest.Rename(e, name)).1.Ok? && name != t[e].name
    ensures var e, front := ids[|ids| - 1], ids[..|ids| - 1];
      var t' := Forest.Step(t, user, Forest.Rename(e, name)).0;
      && (Resolves(t', user, None, Names(t, front) + [name], parent, target) <==>
            target == Some(e) && parent == t[e].parent)
      && (Resolves(t', user, None, Names(t, ids), parent, target) <==>
            target == None && parent == t[e].parent)
  {
    hide Resolves, Hangs, Forest.Step, Forest.UniqueKeys, Acyclic, ParentsExist, OwnersAgree, LinkAt, NoneNamed;
    var e, front := ids[|ids| - 1], ids[..|ids| - 1];
    var t' := Forest.Step(t, user, Forest.Rename(e, name)).0;
    Forest.RenamesTheItem(t, user, e, name);
    Forest.StepKeepsInv(t, user, Forest.Rename(e, name));
    ChainAfterRename(t, t', user, ids);
    assert Names(t', ids) == Names(t, front) + [name];
    assert Names(t, ids) == Names(t', front) + ([t[e].name] + []);
    DownTheChain(t', user, None, ids, parent, target);
    OldNameIsFree(t, t', user, e);
    DownThenMissing(t', user, None, front, t[e].name, [], parent, target);
  }

  /** A change of the last entry's name leaves the chain as it was. */
  lemma ChainAfterRename(t: Table, t': Table, user: nat, ids: seq<Id>)
    requires Acyclic(t) && Hangs(t, user, None, ids) && ids != [] && (forall i :: 0 <= i < |ids| ==> ids[i] in t)
    requires var e := ids[|ids| - 1];
      && t'.Keys == t.Keys && (forall x :: x in t && x != e ==> t'[x] == t[x])
      && t'[e] == t[e].(name := t'[e].name)
    ensures var e, front := ids[|ids| - 1], ids[..|ids| - 1];
      && Hangs(t', user, None, ids) && Hangs(t', user, None, front) && t[e].user == user && !t[e].trashed
      && (forall i :: 0 <= i < |front| ==> t'[front[i]] == t[front[i]] && t[front[i]].kind == Folder)
      && t[e].parent == Deepest(None, front)
  {
    hide Hangs, Acyclic, LinkAt;
    var e, front, n := ids[|ids| - 1], ids[..|ids| - 1], |ids| - 1;
    HangsLinks(t, user, None, ids);
    HangsLinks(t', user, None, ids);
    HangsLinks(t', user, None, front);
    forall i | 0 <= i < n
      ensures t'[front[i]] == t[front[i]] && t[front[i]].kind == Folder
      ensures LinkAt(t', user, None, ids, i) && LinkAt(t', user, None, front, i)
    {
      LastIsNew(t, user, None, ids, i);
      LinkKept(t, t', user, ids, i);
    }
    LinkKept(t, t', user, ids, n);
  }

  lemma LinkKept(t: Table, t': Table, user: nat, ids: seq<Id>, i: nat)
    requires i < |ids| && LinkAt(t, user, None, ids, i) && t'.Keys == t.Keys
    requires if i < |ids| - 1 then t'[ids[i]] == t[ids[i]] else t'[ids[i]] == t[ids[i]].(name := t'[ids[i]].name)
    ensures LinkAt(t', user, None, ids, i) && t[ids[i]].user == user && !t[ids[i]].trashed
    ensures t[ids[i]].parent == Deepest(None, ids[..i])
    ensures i < |ids| - 1 ==> LinkAt(t', user, None, ids[..|ids| - 1], i) && t[ids[i]].kind == Folder
  {
  }

  /** Keys being unique, nothing else had the old name. */
  lemma OldNameIsFree(t: Table, t': Table, user: nat, e: Id)
    requires Forest.UniqueKeys(t) && e in t && t[e].user == user && !t[e].trashed
    requires t'.Keys == t.Keys && (forall x :: x in t && x != e ==> t'[x] == t[x]) && t'[e].name != t[e].name
    ensures NoneNamed(t', user, t[e].parent, t[e].name, false)
  {
    forall y | y in t' && t'[y].user == user && t'[y].parent == t[e].parent && t'[y].name == t[e].name
      ensures t'[y].trashed
    {
      assert y != e && t'[y] == t[y] && !Forest.SameKey(t[y], t[e]);
    }
  }

  /** Walking down undoes walking up: for a live entry whose ancestors are all live folders, with names that are
      non-empty and free of slashes, the joined names of its breadcrumb resolve to that entry and its parent,
      whichever matching rows the queries pick. */
  lemma WalkDownUndoesWalkUp(t: Table, user: nat, e: Id, ids: seq<Id>, parent: Option<Id>, target: Option<Id>)
    requires Forest.Inv(t) && Forest.Owned(t, user, e)
    requires IsPath(Mine(t, user), Some(e), ids) && LiveFolders(t, ids)
    requires AllNonEmpty(Names(t, ids)) && AllFree(Names(t, ids), IsSlash)
    ensures Resolves(t, user, None, Segments(Join(Names(t, ids), '/')), parent, target) <==>
      parent == t[e].parent && target == Some(e)
  {
    var names := Names(t, ids);
    TrimJoin(names, '/', IsSlash);
    FieldsJoin(names, '/', IsSlash);
    PathHangs(t, user, Some(e), ids, []);
    assert ids + [] == ids;
    DownTheChain(t, user, None, ids, parent, target);
  }

  /** The path below the root that a breadcrumb spells. */
  function PathText(path: seq<Crumb>): string {
    if path == [] then "" else Join(seq(|path| - 1, i requires 0 <= i < |path| - 1 => path[i + 1].name), '/')
  }

  /** Every crumb below the root names a live entry, a folder unless it is the last, by a name fit for a path. */
  ghost predicate LiveCrumbs(t: Table, path: seq<Crumb>) {
    forall i :: 0 < i < |path| ==>
      && path[i].name != "" && Free(path[i].name, IsSlash)
      && path[i].id.Some? && path[i].id.value in t && !t[path[i].id.value].trashed
      && (i < |path| - 1 ==> t[path[i].id.value].kind == Folder)
  }

  /** So what build_breadcrumb returns for an entry, joined into a path, leads resolve_path back to it. */
  lemma BreadcrumbResolves(t: Table, user: nat, e: Id, path: seq<Crumb>, parent: Option<Id>, target: Option<Id>)
    requires Forest.Inv(t) && Forest.Owned(t, user, e)
    requires IsBreadcrumb(t, user, Some(e), path) && LiveCrumbs(t, path)
    ensures Resolves(t, user, None, Segments(PathText(path)), parent, target) <==>
      parent == t[e].parent && target == Some(e)
  {
    hide Resolves, IsPath, Forest.Inv, Segments;
    var ids :| IsBreadcrumbOf(t, user, Some(e), ids, path);
    forall i | 0 <= i < |ids|
      ensures path[i + 1] == Crumb(Some(ids[i]), t[ids[i]].name)
    {
    }
    assert PathText(path) == Join(Names(t, ids), '/') by {
      assert seq(|path| - 1, i requires 0 <= i < |path| - 1 => path[i + 1].name) == Names(t, ids);
    }
    WalkDownUndoesWalkUp(t, user, e, ids, parent, target);
  }

  /** In a table that satisfies the invariant the breadcrumb of every folder exists, starts at an entry
      without a parent and goes from parent to child. */
  lemma BreadcrumbFromTheRoot(t: Table, user: nat, e: Id) returns (ids: seq<Id>)
    requires Forest.Inv(t) && Forest.Owned(t, user, e)
    ensures Grounded(Mine(t, user), e) && IsPath(Mine(t, user), Some(e), ids)
    ensures |ids| > 0 && ids[|ids| - 1] == e && (forall i :: 0 <= i < |ids| ==> ids[i] in t)
    ensures t[ids[0]].parent == None
    ensures forall i :: 0 < i < |ids| ==> t[ids[i]].parent == Some(ids[i - 1])
  {
    var mine := Mine(t, user);
    MineIsGrounded(t, user, e);
    var n: nat :| Up(mine, e, n) == None;
    ids := PathExists(mine, e, n);
    PathLinks(t, user, e, ids);
  }

  lemma MineIsGrounded(t: Table, user: nat, e: Id)
    requires Acyclic(t)
    ensures Grounded(Mine(t, user), e)
  {
    var gone := set x | x in t && t[x].user != user;
    assert Mine(t, user) == t - gone;
    FewerRowsAcyclic(t, gone);
    AcyclicIffGrounded(t - gone);
    if e !in t - gone {
      assert Up(t - gone, e, 0) == None;
    }
  }

  lemma {:induction false} PathExists(t: Table, e: Id, n: nat) returns (ids: seq<Id>)
    requires Up(t, e, n) == None
    ensures IsPath(t, Some(e), ids)
    decreases n
  {
    ids := [];
    if e in t {
      match t[e].parent
      case None =>
        ids := [e];
      case Some(p) =>
        ids := PathExists(t, p, n - 1);
        ids := ids + [e];
    }
  }

  lemma {:induction false} PathLinks(t: Table, user: nat, e: Id, ids: seq<Id>)
    requires ParentsExist(t) && OwnersAgree(t) && e in Mine(t, user) && IsPath(Mine(t, user), Some(e), ids)
    ensures |ids| > 0 && ids[|ids| - 1] == e && (forall i :: 0 <= i < |ids| ==> ids[i] in t)
    ensures t[ids[0]].parent == None
    ensures forall i :: 0 < i < |ids| ==> t[ids[i]].parent == Some(ids[i - 1])
    decreases |ids|
  {
    var front := ids[..|ids| - 1];
    if front != [] {
      PathLinks(t, user, t[e].parent.value, front);
    }
  }
}
