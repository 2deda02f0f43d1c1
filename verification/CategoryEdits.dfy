/**
  The operations that change the category table (core/categories.go), held to what they mean, and
  the forest they keep over every run. Slugs, metadata and audit rows are not part of this model.
*/
module CategoryEdits {
  import opened Basics
  import opened CategoryForest

  datatype Error = Validation | NotFound | Conflict
  datatype Result<T> = Ok(value: T) | Refused(why: Error)

  /** A field that is None is left alone; parent is Some(None) for a move to the root. */
  datatype Patch = Patch(parent: Option<Option<int>>, title: Option<string>, position: Option<int>)

  /** filed says which category each product is in. */
  datatype Shop = Shop(table: Table, filed: map<int, int>, nextId: int)

  predicate HasParent(t: Table, id: int, parent: Option<int>) { id in t && t[id].parent == parent }

  function Children(t: Table, parent: Option<int>): set<int> { set id | id in t && HasParent(t, id, parent) }

  // ------------------------------------------------------------------ what each call decides

  function CheckCreate(t: Table, parent: Option<int>, title: string): Result<()> {
    if title == "" then Refused(Validation)
    else if parent.None? then Ok(())
    else if parent.value !in t then Refused(NotFound)
    else if Depth(t, parent.value) + 1 >= MAX_CATEGORY_DEPTH then Refused(Validation)
    else Ok(())
  }

  function Created(s: Shop, parent: Option<int>, title: string, position: int): Shop {
    Shop(s.table[s.nextId := Category(parent, title, position)], s.filed, s.nextId + 1)
  }

  function CheckReparent(t: Table, id: int, parent: Option<int>): Result<()> {
    if parent.None? then Ok(())
    else if parent.value == id then Refused(Validation)
    else if parent.value !in t then Refused(NotFound)
    else if !MayMove(t, id, parent.value) then Refused(Validation)
    else Ok(())
  }

  function Patched(c: Category, p: Patch): Category {
    Category(if p.parent.Some? then p.parent.value else c.parent,
             if p.title.Some? then p.title.value else c.title,
             if p.position.Some? then p.position.value else c.position)
  }

  function Updated(s: Shop, id: int, p: Patch): Result<Shop> {
    if p.parent.Some? && CheckReparent(s.table, id, p.parent.value).Refused?
    then Refused(CheckReparent(s.table, id, p.parent.value).why)
    else if p.title == Some("") then Refused(Validation)
    else if id !in s.table then Refused(NotFound)
    else Ok(s.(table := s.table[id := Patched(s.table[id], p)]))
  }

  function Deleted(s: Shop, id: int): Result<Shop> {
    if Children(s.table, Some(id)) != {} then Refused(Conflict)
    else if exists product :: product in s.filed && s.filed[product] == id then Refused(Conflict)
    else if id !in s.table then Refused(NotFound)
    else Ok(s.(table := map x | x in s.table && x != id :: s.table[x]))
  }

  /** coalesce(max(position), -1) + 1 over the siblings. */
  ghost predicate IsNextPosition(t: Table, parent: Option<int>, n: int) {
    && (forall x :: x in Children(t, parent) ==> t[x].position < n)
    && if Children(t, parent) == {} then n == 0 else exists x :: x in Children(t, parent) && t[x].position + 1 == n
  }

  /** Exactly that parent's children: every one, each once, and nothing else. */
  ghost predicate NamesChildren(t: Table, parent: Option<int>, ids: seq<int>) {
    NoRepeats(ids) && forall x :: x in ids <==> x in Children(t, parent)
  }

  /** Where the i-th of the list goes; the first of two passes keeps below zero. */
  function Place(i: int, below: bool): int { if below then -(i + 1) else i }

  /** The first n ids stand where their pass puts them; everything else is as it was. */
  ghost predicate Placed(t: Table, u: Table, ids: seq<int>, n: nat, below: bool) {
    && u.Keys == t.Keys
    && forall x :: x in t ==> var i := IndexOf(ids, x);
         u[x] == if i < n && i < |ids| then t[x].(position := Place(i, below)) else t[x]
  }

  ghost predicate Reordered(t: Table, u: Table, ids: seq<int>) { Placed(t, u, ids, |ids|, false) }

  // ------------------------------------------------------------------ the table itself

  class Categories {
    var table: Table
    var filed: map<int, int>
    var nextId: int

    constructor ()
      ensures S() == Shop(map[], map[], 1)
    {
      table, filed, nextId := map[], map[], 1;
    }

    function S(): Shop reads this { Shop(table, filed, nextId) }

    method NextPosition(parent: Option<int>) returns (n: int)
      ensures IsNextPosition(table, parent, n)
    {
      n := 0;
      var found := false;
      var left := table.Keys;
      while left != {}
        invariant left <= table.Keys
        invariant forall x :: x in table && x !in left && HasParent(table, x, parent) ==> found && table[x].position < n
        invariant if found then exists x :: x in table && HasParent(table, x, parent) && table[x].position + 1 == n else n == 0
        decreases left
      {
        NonEmpty(left);
        var x :| x in left;
        left := left - {x};
        if HasParent(table, x, parent) && (!found || table[x].position >= n) {
          found, n := true, table[x].position + 1;
        }
      }
      if found {
        var x :| x in table && HasParent(table, x, parent) && table[x].position + 1 == n;
        assert x in Children(table, parent);
      }
    }

    /** A position that is not given puts the category behind all its siblings. */
    method Create(parent: Option<int>, title: string, position: Option<int>) returns (r: Result<int>)
      modifies this
      ensures CheckCreate(old(table), parent, title).Refused? ==>
        r == Refused(CheckCreate(old(table), parent, title).why) && S() == old(S())
      ensures CheckCreate(old(table), parent, title).Ok? ==>
        r == Ok(old(nextId)) && old(nextId) in table
        && S() == Created(old(S()), parent, title, table[old(nextId)].position)
      ensures r.Ok? && position.Some? ==> table[old(nextId)].position == position.value
      ensures r.Ok? && position.None? ==> IsNextPosition(old(table), parent, table[old(nextId)].position)
    {
      if title == "" {
        return Refused(Validation);
      }
      if parent.Some? {
        if parent.value !in table {
          return Refused(NotFound);
        }
        if Depth(table, parent.value) + 1 >= MAX_CATEGORY_DEPTH {
          return Refused(Validation);
        }
      }
      var at: int;
      if position.Some? {
        at := position.value;
      } else {
        at := NextPosition(parent);
      }
      var id := nextId;
      table := table[id := Category(parent, title, at)];
      nextId := nextId + 1;
      return Ok(id);
    }

    method Update(id: int, p: Patch) returns (refused: Option<Error>)
      modifies this`table
      ensures match Updated(old(S()), id, p)
        case Ok(s) => refused == None && S() == s
        case Refused(why) => refused == Some(why) && S() == old(S())
    {
      if p.parent.Some? {
        var check := CheckReparent(table, id, p.parent.value);
        if check.Refused? {
          return Some(check.why);
        }
      }
      if p.title == Some("") {
        return Some(Validation);
      }
      if id !in table {
        return Some(NotFound);
      }
      var c := table[id];
      if p.parent.Some? { c := c.(parent := p.parent.value); }
      if p.title.Some? { c := c.(title := p.title.value); }
      if p.position.Some? { c := c.(position := p.position.value); }
      table := table[id := c];
      return None;
    }

    method Delete(id: int) returns (refused: Option<Error>)
      modifies this`table
      ensures match Deleted(old(S()), id)
        case Ok(s) => refused == None && S() == s
        case Refused(why) => refused == Some(why) && S() == old(S())
    {
      if Children(table, Some(id)) != {} {
        return Some(Conflict);
      }
      if exists product :: product in filed && filed[product] == id {
        return Some(Conflict);
      }
      if id !in table {
        return Some(NotFound);
      }
      table := map x | x in table && x != id :: table[x];
      return None;
    }

    /** One pass of renumbering, in the order given. */
    method Renumber(ids: seq<int>, below: bool)
      requires NoRepeats(ids) && forall i :: 0 <= i < |ids| ==> ids[i] in table
      modifies this`table
      ensures Placed(old(table), table, ids, |ids|, below)
    {
      hide IndexOf;
      ghost var before := table;
      for i := 0 to |ids|
        invariant Placed(before, table, ids, i, below)
      {
        table := table[ids[i] := table[ids[i]].(position := Place(i, below))];
      }
    }

    /** Two passes: all positions go below zero first, so no two ever share one on the way. */
    method Reorder(parent: Option<int>, ids: seq<int>) returns (refused: Option<Error>)
      modifies this`table
      ensures refused.None? <==> NamesChildren(old(table), parent, ids)
      ensures refused.None? ==> Reordered(old(table), table, ids)
      ensures refused.Some? ==> refused == Some(Validation) && table == old(table)
    {
      var existing := Children(table, parent);
      var ok := NamesAll(existing, ids);
      if !ok {
        return Some(Validation);
      }
      forall i | 0 <= i < |ids| ensures ids[i] in table {
        var x := ids[i];
        assert x in ids;
        assert x in existing;
      }
      ghost var before := table;
      Renumber(ids, true);
      ghost var between := table;
      Renumber(ids, false);
      return None;
    }
  }

  /** The list names every one of these, each once, and nothing else. */
  method NamesAll(existing: set<int>, ids: seq<int>) returns (ok: bool)
    ensures ok <==> NoRepeats(ids) && forall x :: x in ids <==> x in existing
  {
    if |ids| != |existing| {
      CountsAgree(existing, ids);
      return false;
    }
    var seen: set<int> := {};
    for i := 0 to |ids|
      invariant seen == set j | 0 <= j < i :: ids[j]
      invariant forall j, k :: 0 <= j < k < i ==> ids[j] != ids[k]
      invariant forall j :: 0 <= j < i ==> ids[j] in existing
    {
      var x := ids[i];
      assert x in ids;
      if x in seen || x !in existing {
        assert x in seen ==> exists j :: 0 <= j < i && ids[j] == ids[i];
        return false;
      }
      seen := seen + {ids[i]};
    }
    AllNamed(ids, existing);
    return true;
  }

  lemma {:induction false} SizeOfDistinct(ids: seq<int>)
    requires NoRepeats(ids)
    ensures |set x | x in ids| == |ids|
  {
    if ids != [] {
      var m := ids[..|ids| - 1];
      SizeOfDistinct(m);
      assert (set x | x in ids) == (set x | x in m) + {ids[|ids| - 1]};
      assert ids[|ids| - 1] !in m;
    } else {
      assert (set x | x in ids) == {};
    }
  }

  lemma CountsAgree(existing: set<int>, ids: seq<int>)
    ensures NoRepeats(ids) && (forall x :: x in ids <==> x in existing) ==> |ids| == |existing|
  {
    if NoRepeats(ids) && forall x :: x in ids <==> x in existing {
      SizeOfDistinct(ids);
      assert (set x | x in ids) == existing;
    }
  }

  lemma AllNamed(ids: seq<int>, existing: set<int>)
    requires NoRepeats(ids) && |ids| == |existing| && forall i :: 0 <= i < |ids| ==> ids[i] in existing
    ensures forall x :: x in ids <==> x in existing
  {
    SizeOfDistinct(ids);
    var named := set x | x in ids;
    SubsetOfSameSize(named, existing);
  }

  lemma SubsetOfSameSize(a: set<int>, b: set<int>)
    requires a <= b && |a| == |b|
    ensures a == b
  {
    assert b == a + (b - a);
    assert |b| == |a| + |b - a|;
  }

  // ------------------------------------------------------------------ the forest, over every run

  datatype Edit =
    | Add(parent: Option<int>, title: string, position: int)
    | Change(id: int, patch: Patch)
    | Remove(id: int)
    | Sort(parent: Option<int>, ids: seq<int>)
    | FileProduct(product: int, category: int)

  /** One committed edit; a refused one leaves the shop as it was and is no step. */
  ghost predicate Step(s: Shop, e: Edit, u: Shop) {
    match e
    case Add(parent, title, position) => CheckCreate(s.table, parent, title).Ok? && u == Created(s, parent, title, position)
    case Change(id, patch) => Updated(s, id, patch) == Ok(u)
    case Remove(id) => Deleted(s, id) == Ok(u)
    case Sort(parent, ids) =>
      NamesChildren(s.table, parent, ids) && Reordered(s.table, u.table, ids) && u == s.(table := u.table)
    case FileProduct(product, category) => category in s.table && u == s.(filed := s.filed[product := category])
  }

  ghost predicate Sound(s: Shop) {
    && Forest(s.table) && (forall id :: id in s.table ==> id < s.nextId)
    && forall product :: product in s.filed ==> s.filed[product] in s.table
  }

  lemma {:induction false} SameClimb(t: Table, u: Table, x: int, k: nat)
    requires ParentsExist(t) && x in t && t.Keys <= u.Keys && forall y :: y in t ==> u[y].parent == t[y].parent
    ensures Nth(u, x, k) == Nth(t, x, k)
    decreases k
  {
    if k > 0 && t[x].parent.Some? {
      SameClimb(t, u, t[x].parent.value, k - 1);
    }
  }

  /** A new leaf hangs one step under its parent, so the climb from it is one step longer. */
  lemma CreateKeepsForest(t: Table, u: Table, id: int, parent: Option<int>)
    requires Forest(t) && id !in t && u.Keys == t.Keys + {id} && u[id].parent == parent
    requires forall y :: y in t ==> u[y].parent == t[y].parent
    requires parent.None? || (parent.value in t && Depth(t, parent.value) + 1 < MAX_CATEGORY_DEPTH)
    ensures Forest(u)
  {
    forall x | x in u ensures Nth(u, x, MAX_CATEGORY_DEPTH).None? {
      if x in t {
        SameClimb(t, u, x, MAX_CATEGORY_DEPTH);
      } else if parent.Some? {
        AncestorsAreComplete(t, parent.value);
        SameClimb(t, u, parent.value, MAX_CATEGORY_DEPTH - 1);
        NthEnds(t, parent.value, Depth(t, parent.value) + 1, MAX_CATEGORY_DEPTH - 1);
      }
    }
  }

  lemma {:induction false} FewerClimbs(t: Table, u: Table, id: int, x: int, k: nat)
    requires u.Keys == t.Keys && id in t && u[id].parent.None?
    requires forall y :: y in t && y != id ==> u[y].parent == t[y].parent
    ensures Nth(t, x, k).None? ==> Nth(u, x, k).None?
    decreases k
  {
    if k > 0 && x in t && x != id && t[x].parent.Some? {
      FewerClimbs(t, u, id, t[x].parent.value, k - 1);
    }
  }

  lemma UpdateKeepsForest(s: Shop, id: int, p: Patch)
    requires Sound(s) && Updated(s, id, p).Ok?
    ensures Forest(Updated(s, id, p).value.table)
  {
    var t, u := s.table, Updated(s, id, p).value.table;
    if p.parent.None? {
      forall x | x in u ensures Nth(u, x, MAX_CATEGORY_DEPTH).None? {
        SameClimb(t, u, x, MAX_CATEGORY_DEPTH);
      }
    } else if p.parent.value.None? {
      forall x | x in u ensures Nth(u, x, MAX_CATEGORY_DEPTH).None? {
        FewerClimbs(t, u, id, x, MAX_CATEGORY_DEPTH);
      }
    } else {
      AllowedMoveKeepsForest(t, u, id, p.parent.value.value);
    }
  }

  lemma {:induction false} LeafIsOnNoOtherClimb(t: Table, u: Table, id: int, x: int, k: nat)
    requires Children(t, Some(id)) == {} && x != id
    requires u.Keys == t.Keys - {id} && forall y :: y in u ==> u[y].parent == t[y].parent
    ensures Nth(u, x, k) == Nth(t, x, k)
    decreases k
  {
    if k > 0 && x in t && t[x].parent.Some? {
      assert t[x].parent == Some(id) ==> x in Children(t, Some(id));
      LeafIsOnNoOtherClimb(t, u, id, t[x].parent.value, k - 1);
    }
  }

  lemma DeleteKeepsForest(s: Shop, id: int)
    requires Sound(s) && Deleted(s, id).Ok?
    ensures Forest(Deleted(s, id).value.table)
  {
    var t, u := s.table, Deleted(s, id).value.table;
    forall x | x in u ensures Nth(u, x, MAX_CATEGORY_DEPTH).None? {
      LeafIsOnNoOtherClimb(t, u, id, x, MAX_CATEGORY_DEPTH);
    }
    forall x | x in u && u[x].parent.Some? ensures u[x].parent.value in u {
      assert t[x].parent == Some(id) ==> x in Children(t, Some(id));
    }
  }

  lemma StepKeepsSound(s: Shop, e: Edit, u: Shop)
    requires Sound(s) && Step(s, e, u)
    ensures Sound(u)
  {
    hide MayMove;
    hide Depth;
    hide IndexOf;
    match e
    case Add(parent, _, _) => CreateKeepsForest(s.table, u.table, s.nextId, parent);
    case Change(id, patch) => UpdateKeepsForest(s, id, patch);
    case Remove(id) => DeleteKeepsForest(s, id);
    case Sort(_, ids) =>
      forall x | x in u.table ensures Nth(u.table, x, MAX_CATEGORY_DEPTH).None? {
        SameClimb(s.table, u.table, x, MAX_CATEGORY_DEPTH);
      }
    case FileProduct(_, _) =>
  }

  /** Whatever sequence of edits a store makes, its categories stay a forest eight levels deep. */
  lemma {:induction false} EveryRunKeepsTheForest(shops: seq<Shop>, edits: seq<Edit>, n: nat)
    requires |shops| == |edits| + 1 && shops[0] == Shop(map[], map[], 1) && n < |shops|
    requires forall i :: 0 <= i < |edits| ==> Step(shops[i], edits[i], shops[i + 1])
    ensures Sound(shops[n])
    decreases n
  {
    if n > 0 {
      EveryRunKeepsTheForest(shops, edits, n - 1);
      assert Step(shops[n - 1], edits[n - 1], shops[n - 1 + 1]);
      hide Sound;
      hide Step;
      StepKeepsSound(shops[n - 1], edits[n - 1], shops[n]);
    }
  }

  // ------------------------------------------------------------------ the order of siblings

  /** ORDER BY position, id. */
  predicate Before(t: Table, x: int, y: int)
    requires x in t && y in t
  {
    t[x].position < t[y].position || (t[x].position == t[y].position && x < y)
  }

  /** The children of one parent as a listing shows them. */
  ghost predicate Lists(t: Table, parent: Option<int>, ids: seq<int>) {
    && (forall x :: x in ids <==> x in Children(t, parent))
    && forall i, j :: 0 <= i < j < |ids| ==> ids[i] in t && ids[j] in t && Before(t, ids[i], ids[j])
  }

  /** After Reorder the children are listed in exactly the order asked for. */
  lemma ReorderListsAsAsked(t: Table, u: Table, parent: Option<int>, ids: seq<int>)
    requires NamesChildren(t, parent, ids) && Reordered(t, u, ids)
    ensures Lists(u, parent, ids)
  {
    forall i | 0 <= i < |ids| ensures ids[i] in t && u[ids[i]].position == i {
      var x := ids[i];
      assert x in ids;
      assert x in Children(t, parent);
      assert IndexOf(ids, x) == i;
    }
    hide IndexOf;
    hide Children;
    hide Reordered;
  }

  /** And the children of every other parent keep the order they had. */
  lemma ReorderMovesNoOthers(t: Table, u: Table, parent: Option<int>, ids: seq<int>, other: Option<int>, list: seq<int>)
    requires NamesChildren(t, parent, ids) && Reordered(t, u, ids)
    requires other != parent && Lists(t, other, list)
    ensures Lists(u, other, list)
  {
    forall x | x in list ensures x in t && u[x] == t[x] {
      assert x in Children(t, other);
      assert x !in Children(t, parent);
      assert x !in ids;
    }
    hide IndexOf;
    hide Children;
    hide Reordered;
    hide NamesChildren;
  }

  /** A category created with no position of its own is listed last, and nobody else is disturbed. */
  lemma CreatedIsLast(s: Shop, parent: Option<int>, title: string, position: int, list: seq<int>)
    requires s.nextId !in s.table && IsNextPosition(s.table, parent, position) && Lists(s.table, parent, list)
    ensures Lists(Created(s, parent, title, position).table, parent, list + [s.nextId])
  {
    var t, u := s.table, Created(s, parent, title, position).table;
    assert Children(u, parent) == Children(t, parent) + {s.nextId};
    forall x | x in list ensures x in t && x != s.nextId && u[x] == t[x] && t[x].position < position {
      assert x in Children(t, parent);
    }
  }
}
