/**
  What each edit of a category does to the tree, said on its rows (core/categories.go): exactly when it is
  refused, and the row and the tree it leaves when it is not.
*/
module CategoryOutcomes {
  import opened Basics
  import opened CategoryForest
  import opened CategoryEdits

  /** Eight levels, no more: every parent is there, and no category has eight others above it. */
  lemma ForestIsEightLevels(t: Table)
    ensures Forest(t) <==>
      (forall id :: id in t && t[id].parent.Some? ==> t[id].parent.value in t) && forall id :: id in t ==> Nth(t, id, 8).None?
  {
  }

  /** A new leaf under p takes the tree past its eight levels exactly when the depth check says so. */
  lemma NewLeafFitsExactly(t: Table, u: Table, id: int, p: int)
    requires Forest(t) && id !in t && p in t && u.Keys == t.Keys + {id} && u[id].parent == Some(p)
    requires forall y :: y in t ==> u[y].parent == t[y].parent
    ensures Forest(u) <==> Depth(t, p) + 1 < MAX_CATEGORY_DEPTH
  {
    if Depth(t, p) + 1 < MAX_CATEGORY_DEPTH {
      CreateKeepsForest(t, u, id, Some(p));
    } else {
      LastAncestor(t, p);
      SameClimb(t, u, p, MAX_CATEGORY_DEPTH - 1);
      if Nth(t, p, MAX_CATEGORY_DEPTH - 1).None? {
        NthEnds(t, p, MAX_CATEGORY_DEPTH - 1, Depth(t, p));
      }
      assert Nth(u, id, MAX_CATEGORY_DEPTH) == Nth(u, p, MAX_CATEGORY_DEPTH - 1);
    }
  }

  /**
    Creating a category: it needs a title and a parent that is there, and is otherwise refused exactly when
    the tree would no longer be one of at most eight levels.
  */
  lemma CreateIsExact(s: Shop, parent: Option<int>, title: string, position: int)
    requires Sound(s)
    ensures var made := Created(s, parent, title, position);
      && made.table == s.table[s.nextId := Category(parent, title, position)]
      && made.filed == s.filed && made.nextId == s.nextId + 1
      && CheckCreate(s.table, parent, title) ==
           if title == "" then Refused(Validation)
           else if parent.Some? && parent.value !in s.table then Refused(NotFound)
           else if Forest(made.table) then Ok(()) else Refused(Validation)
  {
    var u := Created(s, parent, title, position).table;
    if parent.None? {
      CreateKeepsForest(s.table, u, s.nextId, parent);
    } else if parent.value in s.table {
      NewLeafFitsExactly(s.table, u, s.nextId, parent.value);
    }
    hide Forest;
    hide Depth;
  }

  /** The row as the patch leaves it: each field it names, and every other as it was. */
  function RowAfter(c: Category, p: Patch): Category {
    match p
    case Patch(None, None, None) => c
    case Patch(Some(parent), None, None) => Category(parent, c.title, c.position)
    case Patch(None, Some(title), None) => Category(c.parent, title, c.position)
    case Patch(None, None, Some(position)) => Category(c.parent, c.title, position)
    case Patch(Some(parent), Some(title), None) => Category(parent, title, c.position)
    case Patch(Some(parent), None, Some(position)) => Category(parent, c.title, position)
    case Patch(None, Some(title), Some(position)) => Category(c.parent, title, position)
    case Patch(Some(parent), Some(title), Some(position)) => Category(parent, title, position)
  }

  /** Where a move would put a category: under itself, under nothing that is there, or somewhere in the tree. */
  lemma MoveIsCheckedExactly(t: Table, id: int, parent: Option<int>)
    requires Forest(t) && id in t
    ensures CheckReparent(t, id, parent) ==
      if parent.None? then Ok(())
      else if parent.value == id then Refused(Validation)
      else if parent.value !in t then Refused(NotFound)
      else if Forest(t[id := t[id].(parent := parent)]) then Ok(())
      else Refused(Validation)
  {
    if parent.Some? && parent.value in t {
      MoveKeepsForestExactly(t, t[id := t[id].(parent := parent)], id, parent.value);
    }
    hide Forest;
    hide MayMove;
  }

  /**
    Updating a category: a move is refused exactly when it would leave no tree of at most eight levels, an
    empty title always; and what is accepted writes the fields it names on that one row.
  */
  lemma UpdateIsExact(s: Shop, id: int, p: Patch)
    requires Sound(s) && id in s.table
    ensures var t := s.table;
      var badMove := p.parent.Some? && p.parent.value.Some?
        && (p.parent.value.value == id || p.parent.value.value !in t || !Forest(t[id := t[id].(parent := p.parent.value)]));
      && (Updated(s, id, p).Ok? <==> !badMove && p.title != Some(""))
      && (Updated(s, id, p).Ok? ==> Updated(s, id, p).value == Shop(t[id := RowAfter(t[id], p)], s.filed, s.nextId))
      && (Updated(s, id, p) == Refused(NotFound) <==>
            p.parent.Some? && p.parent.value.Some? && p.parent.value.value != id && p.parent.value.value !in t)
      && Updated(s, id, p) != Refused(Conflict)
  {
    if p.parent.Some? {
      MoveIsCheckedExactly(s.table, id, p.parent.value);
    }
    hide Forest;
    hide CheckReparent;
  }

  /** A category that is not there cannot be updated, whatever the patch. */
  lemma UpdateNeedsTheRow(s: Shop, id: int, p: Patch)
    requires id !in s.table
    ensures Updated(s, id, p).Refused?
    ensures p.parent.None? && p.title != Some("") ==> Updated(s, id, p) == Refused(NotFound)
  {
    hide CheckReparent;
  }

  /** Something hangs under it, or is filed in it. */
  ghost predicate InUse(s: Shop, id: int) {
    (exists c :: c in s.table && s.table[c].parent == Some(id)) || exists x :: x in s.filed && s.filed[x] == id
  }

  lemma ChildrenMeans(t: Table, id: int)
    ensures Children(t, Some(id)) != {} <==> exists c :: c in t && t[c].parent == Some(id)
  {
    if c :| c in t && t[c].parent == Some(id) {
      assert c in Children(t, Some(id));
    } else {
      assert forall c :: c !in Children(t, Some(id));
    }
  }

  /** Deleting a category: refused while anything hangs under it or is filed in it; else that one row goes. */
  lemma DeleteIsExact(s: Shop, id: int)
    ensures InUse(s, id) <==> Deleted(s, id) == Refused(Conflict)
    ensures !InUse(s, id) && id !in s.table <==> Deleted(s, id) == Refused(NotFound)
    ensures !InUse(s, id) && id in s.table <==> Deleted(s, id).Ok?
    ensures Deleted(s, id).Ok? ==> Deleted(s, id).value == Shop(s.table - {id}, s.filed, s.nextId)
  {
    ChildrenMeans(s.table, id);
    assert (map x | x in s.table && x != id :: s.table[x]) == s.table - {id};
    hide Children;
  }
}
