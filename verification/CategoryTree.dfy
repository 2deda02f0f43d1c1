/**
  buildCategoryTree and the walk behind List (core/categories.go): one object a category, linked
  into a tree by appending to Children in place, and unlinked again as the walk passes each node.
*/
module CategoryTree {
  import opened Basics
  import opened CategoryForest
  import opened CategoryListing

  class Node {
    const id: int
    const row: Category
    var children: seq<Node>

    constructor (id: int, row: Category)
      ensures this.id == id && this.row == row && children == []
    {
      this.id, this.row, children := id, row, [];
    }
  }

  function Ids(nodes: seq<Node>): seq<int> { seq(|nodes|, i requires 0 <= i < |nodes| => nodes[i].id) }

  /** byID: a later row would win, but no two rows have one id. */
  function TableOf(flat: seq<Node>): Table {
    if flat == [] then map[] else TableOf(flat[..|flat| - 1])[flat[|flat| - 1].id := flat[|flat| - 1].row]
  }

  ghost predicate DistinctIds(flat: seq<Node>) { forall i, j :: 0 <= i < j < |flat| ==> flat[i].id != flat[j].id }

  lemma {:induction false} TableHasRows(flat: seq<Node>)
    requires DistinctIds(flat)
    ensures forall i :: 0 <= i < |flat| ==> flat[i].id in TableOf(flat) && TableOf(flat)[flat[i].id] == flat[i].row
    ensures forall x :: x in TableOf(flat) ==> x in Ids(flat)
  {
    if flat != [] {
      var m := flat[..|flat| - 1];
      TableHasRows(m);
      forall i | 0 <= i < |flat|
        ensures flat[i].id in TableOf(flat) && TableOf(flat)[flat[i].id] == flat[i].row
      {
        if i < |m| {
          assert m[i] == flat[i];
        }
      }
      assert Ids(flat) == Ids(m) + [flat[|flat| - 1].id];
    }
  }

  lemma TableRows(flat: seq<Node>)
    requires DistinctIds(flat)
    ensures Rows(TableOf(flat), Ids(flat))
  {
    TableHasRows(flat);
    assert forall i :: 0 <= i < |flat| ==> Ids(flat)[i] == flat[i].id;
  }

  method Append(parent: Node, c: Node)
    modifies parent
    ensures parent.children == old(parent.children) + [c] && Ids(parent.children) == Ids(old(parent.children)) + [c.id]
  {
    parent.children := parent.children + [c];
  }

  /** After n rows each node holds, in order, those of them that are its children. */
  ghost predicate Linked(t: Table, flat: seq<Node>, n: nat)
    requires n <= |flat|
    reads flat
  {
    forall j :: 0 <= j < |flat| ==> HoldsKids(t, flat, flat[j], n)
  }

  ghost predicate HoldsKids(t: Table, flat: seq<Node>, node: Node, n: nat)
    requires n <= |flat|
    reads node
  {
    Ids(node.children) == Kids(t, Ids(flat), node.id, n) && forall c :: c in node.children ==> c in flat
  }

  /** Clears every node and says where each id stands. */
  method ClearAndIndex(flat: seq<Node>) returns (byID: map<int, nat>)
    requires DistinctIds(flat)
    modifies flat
    ensures forall j :: 0 <= j < |flat| ==> flat[j].children == []
    ensures Indexes(byID, flat, TableOf(flat))
  {
    TableHasRows(flat);
    byID := map[];
    for i := 0 to |flat|
      invariant forall j :: 0 <= j < i ==> flat[j].children == [] && flat[j].id in byID
      invariant forall x :: x in byID ==> byID[x] < |flat| && flat[byID[x]].id == x
    {
      flat[i].children := [];
      byID := byID[flat[i].id := i];
    }
  }

  /** Row i goes to the end of its parent's children. */
  method LinkOne(ghost t: Table, flat: seq<Node>, i: nat, k: nat)
    requires DistinctIds(flat) && i < |flat| && k < |flat|
    requires IsKid(t, flat[i].id, flat[k].id) && Linked(t, flat, i)
    modifies flat[k]
    ensures Linked(t, flat, i + 1)
  {
    hide Kids;
    assert HoldsKids(t, flat, flat[k], i);
    ghost var kids := seq(|flat|, j requires 0 <= j < |flat| reads flat => flat[j].children);
    assert forall j :: 0 <= j < |flat| ==> HoldsKids(t, flat, flat[j], i);
    Append(flat[k], flat[i]);
    forall j | 0 <= j < |flat| ensures HoldsKids(t, flat, flat[j], i + 1) {
      KidsNext(t, Ids(flat), flat[j].id, i);
      if j == k {
        assert flat[j].children == kids[k] + [flat[i]];
      } else {
        assert flat[j].children == kids[j];
      }
    }
  }

  lemma KidsNext(t: Table, all: seq<int>, p: int, i: nat)
    requires i < |all|
    ensures Kids(t, all, p, i + 1) == Kids(t, all, p, i) + if IsKid(t, all[i], p) then [all[i]] else []
  {
  }

  lemma RootLinksNobody(t: Table, flat: seq<Node>, i: nat)
    requires i < |flat| && flat[i].id in t && IsRoot(t, flat[i].id) && Linked(t, flat, i)
    ensures Linked(t, flat, i + 1)
  {
    hide Kids;
    forall j | 0 <= j < |flat| ensures HoldsKids(t, flat, flat[j], i + 1) {
      assert HoldsKids(t, flat, flat[j], i);
      KidsNext(t, Ids(flat), flat[j].id, i);
    }
  }

  lemma StartsUnlinked(t: Table, flat: seq<Node>)
    requires forall j :: 0 <= j < |flat| ==> flat[j].children == []
    ensures Linked(t, flat, 0)
  {
  }

  lemma RootsNext(t: Table, all: seq<int>, i: nat)
    requires i < |all|
    ensures Roots(t, all, i + 1) == Roots(t, all, i) + if IsRoot(t, all[i]) then [all[i]] else []
  {
  }

  /** Where each id stands in flat, for exactly the ids of the table. */
  ghost predicate Indexes(byID: map<int, nat>, flat: seq<Node>, t: Table) {
    && (forall x :: x in byID ==> byID[x] < |flat| && flat[byID[x]].id == x)
    && forall x :: x in byID <==> x in t
  }

  /** One row: under its parent if there is one, and otherwise among the roots. */
  method PlaceRow(ghost t: Table, flat: seq<Node>, byID: map<int, nat>, i: nat) returns (root: bool)
    requires DistinctIds(flat) && Indexes(byID, flat, t) && i < |flat|
    requires flat[i].id in t && t[flat[i].id] == flat[i].row && Linked(t, flat, i)
    modifies flat
    ensures root == IsRoot(t, flat[i].id) && Linked(t, flat, i + 1)
  {
    var c := flat[i];
    if c.row.parent.Some? && c.row.parent.value in byID {
      var p := c.row.parent.value;
      assert p in t && byID[p] < |flat| && flat[byID[p]].id == p;
      LinkOne(t, flat, i, byID[p]);
      root := false;
    } else {
      if c.row.parent.Some? {
        var p := c.row.parent.value;
        assert p !in byID;
        assert p !in t;
      }
      RootLinksNobody(t, flat, i);
      root := true;
    }
  }

  method BuildCategoryTree(flat: seq<Node>) returns (roots: seq<Node>)
    requires DistinctIds(flat)
    modifies flat
    ensures Ids(roots) == Roots(TableOf(flat), Ids(flat), |flat|) && forall n :: n in roots ==> n in flat
    ensures Linked(TableOf(flat), flat, |flat|)
  {
    ghost var t, all := TableOf(flat), Ids(flat);
    TableHasRows(flat);
    var byID := ClearAndIndex(flat);
    StartsUnlinked(t, flat);
    roots := [];
    assert Ids(roots) == Roots(t, all, 0);
    hide *;
    for i := 0 to |flat|
      invariant Ids(roots) == Roots(t, all, i) && forall n :: n in roots ==> n in flat
      invariant Linked(t, flat, i)
    {
      var isRoot := PlaceRow(t, flat, byID, i);
      RootsNext(t, all, i);
      IdsAppend(roots, flat[i]);
      if isRoot {
        roots := roots + [flat[i]];
      }
      IdAt(flat, i);
    }
  }

  lemma IdsAppend(nodes: seq<Node>, n: Node)
    ensures Ids(nodes + [n]) == Ids(nodes) + [n.id]
  {
  }

  lemma IdAt(nodes: seq<Node>, i: nat)
    requires i < |nodes|
    ensures |Ids(nodes)| == |nodes| && Ids(nodes)[i] == nodes[i].id
  {
  }

  // ------------------------------------------------------------------ the walk

  function BlocksOf(t: Table, all: seq<int>, ids: seq<int>, left: nat): seq<int> {
    if left == 0 then [] else Blocks(t, all, ids, left - 1)
  }

  /** was is what every node held before the walk: all its children, in order. */
  ghost predicate FullyLinked(t: Table, flat: seq<Node>, was: seq<seq<Node>>) {
    && |was| == |flat|
    && forall j :: 0 <= j < |flat| ==>
         Ids(was[j]) == AllKids(t, Ids(flat), flat[j].id) && forall c :: c in was[j] ==> c in flat
  }

  /** Exactly the nodes already passed have given up their children. */
  ghost predicate Cleared(flat: seq<Node>, was: seq<seq<Node>>, done: seq<int>)
    requires |was| == |flat|
    reads flat
  {
    forall j :: 0 <= j < |flat| ==> flat[j].children == if flat[j].id in done then [] else was[j]
  }

  lemma PrefixOnce(a: seq<int>, b: seq<int>)
    requires NoRepeats(a + b)
    ensures NoRepeats(a) && forall x :: x in b ==> x !in a
  {
    var s := a + b;
    assert forall i :: 0 <= i < |a| ==> a[i] == s[i];
    assert forall i :: 0 <= i < |b| ==> b[i] == s[|a| + i];
  }

  /** Where the walk stands between two of its siblings. */
  lemma BlocksStep(t: Table, all: seq<int>, ids: seq<int>, i: nat, left: nat, done: seq<int>)
    requires i < |ids| && left > 0 && NoRepeats(done + BlocksOf(t, all, ids, left))
    ensures var before := done + BlocksOf(t, all, ids[..i], left);
      var kids := BlocksOf(t, all, AllKids(t, all, ids[i]), left - 1);
      && ids[i] !in before && NoRepeats((before + [ids[i]]) + kids)
      && done + BlocksOf(t, all, ids[..i + 1], left) == (before + [ids[i]]) + kids
  {
    hide *;
    BlocksOfIs(t, all, ids, left);
    BlocksOfIs(t, all, ids[..i], left);
    BlocksOfIs(t, all, ids[..i + 1], left);
    var a, b := BlocksAt(t, all, ids, left - 1, i);
    LastBlock(t, all, ids[..i], ids[i], left - 1);
    assert ids[..i + 1] == ids[..i] + [ids[i]];
    var kids := BlocksOf(t, all, AllKids(t, all, ids[i]), left - 1);
    BlockIs(t, all, ids[i], left - 1);
    Cut(done, a, ids[i], kids, b);
    assert done + (a + ([ids[i]] + kids)) == ((done + a) + [ids[i]]) + kids;
  }

  lemma BlocksOfIs(t: Table, all: seq<int>, ids: seq<int>, left: nat)
    requires left > 0
    ensures BlocksOf(t, all, ids, left) == Blocks(t, all, ids, left - 1)
  {
  }

  lemma BlockIs(t: Table, all: seq<int>, id: int, fuel: nat)
    ensures Block(t, all, id, fuel) == [id] + BlocksOf(t, all, AllKids(t, all, id), fuel)
  {
  }

  lemma Cut(done: seq<int>, a: seq<int>, x: int, kids: seq<int>, b: seq<int>)
    requires NoRepeats(done + (a + ([x] + kids) + b))
    ensures x !in done + a && NoRepeats(((done + a) + [x]) + kids)
  {
    var front := ((done + a) + [x]) + kids;
    assert done + (a + ([x] + kids) + b) == front + b;
    PrefixOnce(front, b);
    PrefixOnce((done + a) + [x], kids);
    PrefixOnce(done + a, [x]);
  }

  lemma {:induction false} LastBlock(t: Table, all: seq<int>, ids: seq<int>, id: int, fuel: nat)
    ensures Blocks(t, all, ids + [id], fuel) == Blocks(t, all, ids, fuel) + Block(t, all, id, fuel)
    decreases |ids|
  {
    if ids == [] {
      assert Blocks(t, all, [id][1..], fuel) == [];
    } else {
      assert (ids + [id])[1..] == ids[1..] + [id];
      LastBlock(t, all, ids[1..], id, fuel);
    }
  }

  method ClearNode(flat: seq<Node>, n: Node, ghost was: seq<seq<Node>>, ghost done: seq<int>) returns (children: seq<Node>)
    requires DistinctIds(flat) && n in flat && |was| == |flat| && Cleared(flat, was, done) && n.id !in done
    modifies n
    ensures |was| == |flat| && exists j :: 0 <= j < |flat| && flat[j] == n && children == was[j]
    ensures Cleared(flat, was, done + [n.id])
  {
    children := n.children;
    n.children := [];
    ghost var j :| 0 <= j < |flat| && flat[j] == n;
    assert children == was[j];
  }

  method Walk(nodes: seq<Node>, out: seq<Node>, flat: seq<Node>, ghost t: Table, ghost was: seq<seq<Node>>, ghost left: nat)
    returns (res: seq<Node>)
    requires DistinctIds(flat) && Forest(t) && Rows(t, Ids(flat)) && |was| == |flat| && FullyLinked(t, flat, was)
    requires (forall n :: n in nodes ==> n in flat) && (forall n :: n in out ==> n in flat)
    requires if left == 0 then nodes == [] else Fit(t, Ids(nodes), left - 1)
    requires NoRepeats(Ids(out) + BlocksOf(t, Ids(flat), Ids(nodes), left)) && Cleared(flat, was, Ids(out))
    modifies flat
    ensures Ids(res) == Ids(out) + BlocksOf(t, Ids(flat), Ids(nodes), left)
    ensures Cleared(flat, was, Ids(res)) && forall n :: n in res ==> n in flat
    decreases left, 0
  {
    ghost var all, ids := Ids(flat), Ids(nodes);
    res := out;
    hide *;
    NoBlocks(t, all, left);
    Lengths(nodes);
    assert ids[..0] == [];
    NoMore(Ids(out));
    for i := 0 to |nodes|
      invariant left > 0 || nodes == []
      invariant Ids(res) == Ids(out) + BlocksOf(t, all, ids[..i], left)
      invariant Cleared(flat, was, Ids(res)) && forall n :: n in res ==> n in flat
    {
      IdAt(nodes, i);
      FitAt(t, ids, left - 1, i);
      BlocksStep(t, all, ids, i, left, Ids(out));
      res := Visit(nodes[i], res, flat, t, was, left - 1);
    }
    assert ids[..|ids|] == ids;
  }

  lemma NoMore(s: seq<int>)
    ensures s + [] == s
  {
  }

  lemma Lengths(nodes: seq<Node>)
    ensures |Ids(nodes)| == |nodes|
  {
  }

  lemma FitAt(t: Table, ids: seq<int>, fuel: nat, i: nat)
    requires Fit(t, ids, fuel) && i < |ids|
    ensures ids[i] in t && Depth(t, ids[i]) + fuel == MAX_CATEGORY_DEPTH - 1
  {
  }

  lemma NoBlocks(t: Table, all: seq<int>, left: nat)
    ensures BlocksOf(t, all, [], left) == []
  {
  }

  lemma WasItsKids(t: Table, flat: seq<Node>, was: seq<seq<Node>>, j: nat)
    requires FullyLinked(t, flat, was) && j < |flat|
    ensures Ids(was[j]) == AllKids(t, Ids(flat), flat[j].id) && forall c :: c in was[j] ==> c in flat
  {
  }

  lemma NoIds(nodes: seq<Node>)
    ensures Ids(nodes) == [] <==> nodes == []
  {
    assert |Ids(nodes)| == |nodes|;
  }

  /** One node: it gives up its children, is put out, and then they are walked. */
  method Visit(n: Node, out: seq<Node>, flat: seq<Node>, ghost t: Table, ghost was: seq<seq<Node>>, ghost left: nat)
    returns (res: seq<Node>)
    requires DistinctIds(flat) && Forest(t) && Rows(t, Ids(flat)) && |was| == |flat| && FullyLinked(t, flat, was)
    requires n in flat && (forall m :: m in out ==> m in flat)
    requires n.id in t && Depth(t, n.id) + left == MAX_CATEGORY_DEPTH - 1
    requires n.id !in Ids(out) && NoRepeats((Ids(out) + [n.id]) + BlocksOf(t, Ids(flat), AllKids(t, Ids(flat), n.id), left))
    requires Cleared(flat, was, Ids(out))
    modifies flat
    ensures Ids(res) == (Ids(out) + [n.id]) + BlocksOf(t, Ids(flat), AllKids(t, Ids(flat), n.id), left)
    ensures Cleared(flat, was, Ids(res)) && forall m :: m in res ==> m in flat
    decreases left, 1
  {
    hide *;
    var children := ClearNode(flat, n, was, Ids(out));
    IdsAppend(out, n);
    KidsFit(t, Ids(flat), n.id, left);
    ghost var j: nat :| j < |flat| && flat[j] == n && children == was[j];
    WasItsKids(t, flat, was, j);
    NoIds(children);
    res := Walk(children, out + [n], flat, t, was, left);
  }

  /** List: read, link, walk. What comes out is the depth-first listing, and no node holds children. */
  method List(flat: seq<Node>) returns (out: seq<Node>)
    requires DistinctIds(flat) && Forest(TableOf(flat))
    modifies flat
    ensures Ids(out) == Listing(TableOf(flat), Ids(flat))
    ensures forall n :: n in flat ==> n.children == []
    ensures forall n :: n in out ==> n in flat
  {
    ghost var t, all := TableOf(flat), Ids(flat);
    TableRows(flat);
    RootsFit(t, all);
    Lengths(flat);
    hide *;
    var roots := BuildCategoryTree(flat);
    BlocksOnce(t, all, Ids(roots), MAX_CATEGORY_DEPTH - 1);
    ghost var was := Snapshot(t, flat);
    StartOfWalk(t, all, Ids(roots));
    out := Walk(roots, [], flat, t, was, MAX_CATEGORY_DEPTH);
    ListingIsAPermutation(t, all);
    AllCleared(t, flat, was, Ids(out));
  }

  lemma StartOfWalk(t: Table, all: seq<int>, roots: seq<int>)
    requires roots == Roots(t, all, |all|) && NoRepeats(Blocks(t, all, roots, MAX_CATEGORY_DEPTH - 1))
    ensures Ids([]) == []
    ensures BlocksOf(t, all, roots, MAX_CATEGORY_DEPTH) == Listing(t, all)
    ensures [] + Listing(t, all) == Listing(t, all) && NoRepeats([] + Listing(t, all))
  {
    assert [] + Listing(t, all) == Listing(t, all);
  }

  /** What every node holds once the tree is built. */
  ghost method Snapshot(t: Table, flat: seq<Node>) returns (was: seq<seq<Node>>)
    requires Linked(t, flat, |flat|)
    ensures |was| == |flat| && FullyLinked(t, flat, was) && Cleared(flat, was, [])
  {
    was := seq(|flat|, j requires 0 <= j < |flat| reads flat => flat[j].children);
    forall j | 0 <= j < |flat|
      ensures Ids(was[j]) == AllKids(t, Ids(flat), flat[j].id) && forall c :: c in was[j] ==> c in flat
    {
      assert HoldsKids(t, flat, flat[j], |flat|);
    }
  }

  lemma AllCleared(t: Table, flat: seq<Node>, was: seq<seq<Node>>, done: seq<int>)
    requires |was| == |flat| && Cleared(flat, was, done) && Rows(t, Ids(flat)) && forall x :: x in done <==> x in t
    ensures forall n :: n in flat ==> n.children == []
  {
    forall n | n in flat ensures n.children == [] {
      var j :| 0 <= j < |flat| && flat[j] == n;
      IdAt(flat, j);
      assert Ids(flat)[j] in Ids(flat);
    }
  }
}
