/**
  Products in collections (core/collections.go): one table, ordered along two axes. A row says
  where a collection stands in a product's own list, and where the product stands inside that
  collection; each axis is written by its own operation, and must not disturb the other.
*/
module CollectionOrder {
  import opened Basics

  datatype Link = Link(product: int, collection: int)
  datatype Place = Place(position: nat, memberPosition: nat)
  type Links = map<Link, Place>

  /** OfProduct is a product's list of collections, OfCollection a collection's list of products. */
  datatype Axis = OfProduct | OfCollection {
    function Other(): Axis { if OfProduct? then OfCollection else OfProduct }

    function Owner(l: Link): int { if OfProduct? then l.product else l.collection }

    function Member(l: Link): int { if OfProduct? then l.collection else l.product }

    function LinkOf(owner: int, member: int): Link { if OfProduct? then Link(owner, member) else Link(member, owner) }

    function Rank(p: Place): nat { if OfProduct? then p.position else p.memberPosition }

    function PlaceOf(rank: nat, otherRank: nat): Place {
      if OfProduct? then Place(rank, otherRank) else Place(otherRank, rank)
    }
  }

  // ------------------------------------------------------------------ dedupe

  /** The first n ids, each kept only where it is new. */
  function Deduped(ids: seq<int>, n: nat): seq<int>
    requires n <= |ids|
    decreases n
  {
    if n == 0 then [] else
    var before := Deduped(ids, n - 1);
    if ids[n - 1] in before then before else before + [ids[n - 1]]
  }

  function DedupedAll(ids: seq<int>): seq<int> { Deduped(ids, |ids|) }

  method DedupeIDs(ids: seq<int>) returns (out: seq<int>)
    ensures out == DedupedAll(ids)
  {
    out := [];
    var seen: set<int> := {};
    for i := 0 to |ids|
      invariant out == Deduped(ids, i)
      invariant seen == set x | x in out
    {
      if ids[i] !in seen {
        seen := seen + {ids[i]};
        out := out + [ids[i]];
      }
    }
  }

  /** Nothing is lost, nothing repeats, and the order is that of each id's first appearance. */
  ghost predicate FirstsOf(ids: seq<int>, n: nat, out: seq<int>)
    requires n <= |ids|
  {
    && (forall x :: x in ids[..n] <==> x in out)
    && (forall k :: 0 <= k < |out| ==> IndexOf(ids, out[k]) < n)
    && forall j, k :: 0 <= j < k < |out| ==> IndexOf(ids, out[j]) < IndexOf(ids, out[k])
  }

  lemma FirstsOfNext(ids: seq<int>, n: nat, out: seq<int>)
    requires n < |ids| && FirstsOf(ids, n, out)
    ensures FirstsOf(ids, n + 1, if ids[n] in out then out else out + [ids[n]])
  {
    hide IndexOf;
    assert ids[..n + 1] == ids[..n] + [ids[n]];
    if ids[n] !in out {
      assert forall i :: 0 <= i < n ==> ids[..n][i] != ids[n];
    }
  }

  lemma {:induction false} DedupeKeepsFirsts(ids: seq<int>, n: nat)
    requires n <= |ids|
    ensures FirstsOf(ids, n, Deduped(ids, n)) && NoRepeats(Deduped(ids, n))
    decreases n
  {
    if n > 0 {
      hide FirstsOf;
      hide NoRepeats;
      DedupeKeepsFirsts(ids, n - 1);
      FirstsOfNext(ids, n - 1, Deduped(ids, n - 1));
    }
  }

  // ------------------------------------------------------------------ one write

  /** coalesce(max(rank) + 1, 0) over one owner's rows. */
  ghost predicate IsNext(axis: Axis, links: Links, owner: int, n: nat) {
    && (forall l :: l in links && axis.Owner(l) == owner ==> axis.Rank(links[l]) < n)
    && (n == 0 || exists l :: l in links && axis.Owner(l) == owner && axis.Rank(links[l]) + 1 == n)
  }

  method ComputeNext(axis: Axis, links: Links, owner: int) returns (n: nat)
    ensures IsNext(axis, links, owner, n)
  {
    n := 0;
    var left := links.Keys;
    while left != {}
      invariant left <= links.Keys
      invariant forall l :: l in links && l !in left && axis.Owner(l) == owner ==> axis.Rank(links[l]) < n
      invariant n == 0 || exists l :: l in links && axis.Owner(l) == owner && axis.Rank(links[l]) + 1 == n
      decreases left
    {
      var l :| l in left;
      left := left - {l};
      if axis.Owner(l) == owner && axis.Rank(links[l]) >= n {
        n := axis.Rank(links[l]) + 1;
      }
    }
  }

  /** The rows the DELETE leaves: everybody else's, and those of the owner's that are asked for again. */
  function Kept(axis: Axis, links: Links, owner: int, ids: seq<int>): Links {
    map l | l in links && (axis.Owner(l) != owner || axis.Member(l) in ids) :: links[l]
  }

  /**
    One row once the first n rows of the INSERT are written. The subquery reads the table as the
    DELETE left it: the INSERT is one statement, and does not see its own rows.
  */
  ghost predicate RowAfter(axis: Axis, kept: Links, owner: int, ids: seq<int>, n: nat, after: Links, l: Link) {
    var ord := IndexOf(ids, axis.Member(l));
    var named := axis.Owner(l) == owner && ord < n;
    && (l in after <==> l in kept || named)
    && (l in after ==> axis.Rank(after[l]) == if named then ord else axis.Rank(kept[l]))
    && (l in kept ==> axis.Other().Rank(after[l]) == axis.Other().Rank(kept[l]))
    && (l in after && l !in kept ==> IsNext(axis.Other(), kept, axis.Member(l), axis.Other().Rank(after[l])))
  }

  ghost predicate Upserted(axis: Axis, kept: Links, owner: int, ids: seq<int>, n: nat, after: Links) {
    forall l :: RowAfter(axis, kept, owner, ids, n, after, l)
  }

  ghost predicate Replaced(axis: Axis, links: Links, owner: int, ids: seq<int>, after: Links) {
    Upserted(axis, Kept(axis, links, owner, ids), owner, ids, |ids|, after)
  }

  lemma UpsertOne(axis: Axis, kept: Links, owner: int, ids: seq<int>, n: nat, before: Links, rank: nat, after: Links)
    requires NoRepeats(ids) && n < |ids| && Upserted(axis, kept, owner, ids, n, before)
    requires var l := axis.LinkOf(owner, ids[n]);
      && after == before[l := axis.PlaceOf(n, rank)]
      && if l in kept then rank == axis.Other().Rank(kept[l]) else IsNext(axis.Other(), kept, ids[n], rank)
    ensures Upserted(axis, kept, owner, ids, n + 1, after)
  {
    hide IsNext;
    assert IndexOf(ids, ids[n]) == n;
    var done := n + 1;
    forall l: Link ensures RowAfter(axis, kept, owner, ids, done, after, l) {
      assert RowAfter(axis, kept, owner, ids, n, before, l);
    }
  }

  method Replace(axis: Axis, links: Links, owner: int, ids: seq<int>) returns (after: Links)
    requires NoRepeats(ids)
    ensures Replaced(axis, links, owner, ids, after)
  {
    var kept := Kept(axis, links, owner, ids);
    after := kept;
    for i := 0 to |ids|
      invariant Upserted(axis, kept, owner, ids, i, after)
    {
      var l := axis.LinkOf(owner, ids[i]);
      var rank: nat;
      if l in kept {
        rank := axis.Other().Rank(kept[l]);
      } else {
        rank := ComputeNext(axis.Other(), kept, ids[i]);
      }
      UpsertOne(axis, kept, owner, ids, i, after, rank, after[l := axis.PlaceOf(i, rank)]);
      after := after[l := axis.PlaceOf(i, rank)];
    }
  }

  // ------------------------------------------------------------------ what it means

  /** No owner's list holds two rows at one place, so the listing has no ties. */
  ghost predicate Distinct(axis: Axis, links: Links) {
    forall l, m :: l in links && m in links && l != m && axis.Owner(l) == axis.Owner(m) ==>
      axis.Rank(links[l]) != axis.Rank(links[m])
  }

  /** ORDER BY rank: exactly the owner's members, in rising order of place. */
  ghost predicate Lists(axis: Axis, links: Links, owner: int, list: seq<int>) {
    && (forall l :: l in links && axis.Owner(l) == owner ==> axis.Member(l) in list)
    && (forall x :: x in list ==> axis.LinkOf(owner, x) in links)
    && forall i, j :: 0 <= i < j < |list| ==>
         axis.Rank(links[axis.LinkOf(owner, list[i])]) < axis.Rank(links[axis.LinkOf(owner, list[j])])
  }

  /** One row of a finished call, said without the machinery of the statement. */
  lemma RowOf(axis: Axis, links: Links, owner: int, ids: seq<int>, after: Links, l: Link)
    requires Replaced(axis, links, owner, ids, after)
    ensures axis.Owner(l) == owner ==> (l in after <==> axis.Member(l) in ids)
    ensures l in after && axis.Owner(l) == owner ==> axis.Rank(after[l]) == IndexOf(ids, axis.Member(l))
    ensures axis.Owner(l) != owner ==> (l in after <==> l in links) && (l in links ==> after[l] == links[l])
    ensures l in after && l in links ==> axis.Other().Rank(after[l]) == axis.Other().Rank(links[l])
    ensures l in after && l !in links ==>
      IsNext(axis.Other(), Kept(axis, links, owner, ids), axis.Member(l), axis.Other().Rank(after[l]))
  {
    hide IsNext;
    assert RowAfter(axis, Kept(axis, links, owner, ids), owner, ids, |ids|, after, l);
  }

  /** The written axis: the owner's list is what was asked for, in that order. */
  lemma OwnListIsWhatWasAsked(axis: Axis, links: Links, owner: int, ids: seq<int>, after: Links)
    requires NoRepeats(ids) && Replaced(axis, links, owner, ids, after)
    ensures Lists(axis, after, owner, ids)
  {
    hide Replaced;
    forall l | l in after && axis.Owner(l) == owner ensures axis.Member(l) in ids {
      RowOf(axis, links, owner, ids, after, l);
    }
    forall k | 0 <= k < |ids|
      ensures var l := axis.LinkOf(owner, ids[k]); l in after && axis.Rank(after[l]) == k
    {
      RowOf(axis, links, owner, ids, after, axis.LinkOf(owner, ids[k]));
      assert IndexOf(ids, ids[k]) == k;
    }
  }

  /** Every other owner's list on the written axis is untouched. */
  lemma OtherOwnersAreUntouched(axis: Axis, links: Links, owner: int, ids: seq<int>, after: Links, o: int, list: seq<int>)
    requires Replaced(axis, links, owner, ids, after) && o != owner && Lists(axis, links, o, list)
    ensures Lists(axis, after, o, list)
  {
    hide Replaced;
    forall l | axis.Owner(l) == o
      ensures (l in after <==> l in links) && (l in links ==> after[l] == links[l])
    {
      RowOf(axis, links, owner, ids, after, l);
    }
  }

  function Without(list: seq<int>, x: int): seq<int> {
    var k := IndexOf(list, x);
    if k < |list| then list[..k] + list[k + 1..] else list
  }

  /** Where the call leaves the list of a member m, on the axis it does not write. */
  function MemberList(list: seq<int>, owner: int, asked: bool): seq<int> {
    if !asked then Without(list, owner) else if owner in list then list else list + [owner]
  }

  /** Apart from the row of x, the rows of o are the same in both tables. */
  ghost predicate SameBut(axis: Axis, links: Links, after: Links, o: int, x: int) {
    forall l :: axis.Owner(l) == o && axis.Member(l) != x ==>
      (l in after <==> l in links) && (l in links ==> after[l] == links[l])
  }

  /** Position i of the shortened list holds position Skip(i) of the full one. */
  function Skip(k: nat, i: int): int { if i < k then i else i + 1 }

  lemma WithoutAt(list: seq<int>, x: int)
    ensures var out, k := Without(list, x), IndexOf(list, x);
      && |out| == (if k < |list| then |list| - 1 else |list|)
      && forall i :: 0 <= i < |out| ==> out[i] == list[Skip(k, i)]
  {
    var out, k := Without(list, x), IndexOf(list, x);
    hide IndexOf;
    if k < |list| {
      var front, back := list[..k], list[k + 1..];
      assert out == front + back;
      hide Without;
      forall i | 0 <= i < |out| ensures out[i] == list[Skip(k, i)] {
        assert out[i] == if i < k then front[i] else back[i - k];
      }
    }
  }

  lemma WithoutMeans(list: seq<int>, x: int)
    requires NoRepeats(list)
    ensures var out := Without(list, x);
      && (forall y :: y in out <==> y in list && y != x)
      && forall i :: 0 <= i < |out| ==> 0 <= Skip(IndexOf(list, x), i) < |list| && out[i] == list[Skip(IndexOf(list, x), i)]
  {
    WithoutAt(list, x);
    var k, out := IndexOf(list, x), Without(list, x);
    hide Without;
    hide IndexOf;
    forall y | y in list && y != x ensures y in out {
      var i :| 0 <= i < |list| && list[i] == y;
      var j := if i < k then i else i - 1;
      assert Skip(k, j) == i;
      assert out[j] == y;
    }
    forall i | 0 <= i < |out| ensures out[i] in list && out[i] != x {
      assert Skip(k, i) != k;
    }
  }

  lemma DroppedFromList(axis: Axis, links: Links, after: Links, o: int, list: seq<int>, x: int)
    requires SameBut(axis, links, after, o, x) && axis.LinkOf(o, x) !in after && Lists(axis, links, o, list)
    ensures Lists(axis, after, o, Without(list, x))
  {
    hide Without;
    hide IndexOf;
    var out := Without(list, x);
    WithoutMeans(list, x);
    forall y | y in out
      ensures var l := axis.LinkOf(o, y); l in links && l in after && after[l] == links[l]
    {
    }
  }

  lemma SameList(axis: Axis, links: Links, after: Links, o: int, list: seq<int>, x: int)
    requires SameBut(axis, links, after, o, x) && Lists(axis, links, o, list)
    requires var l := axis.LinkOf(o, x); l in links && l in after && axis.Rank(after[l]) == axis.Rank(links[l])
    ensures Lists(axis, after, o, list)
  {
    forall y | y in list
      ensures var l := axis.LinkOf(o, y); l in links && l in after && axis.Rank(after[l]) == axis.Rank(links[l])
    {
    }
  }

  /** A new membership stands behind every row that was there. */
  lemma LastOf(axis: Axis, links: Links, owner: int, ids: seq<int>, after: Links, m: int)
    requires Replaced(axis, links, owner, ids, after) && m in ids && axis.LinkOf(owner, m) !in links
    ensures var own := axis.LinkOf(owner, m);
      && own in after
      && forall l :: l in links && axis.Member(l) == m ==> axis.Other().Rank(links[l]) < axis.Other().Rank(after[own])
  {
    hide Replaced;
    RowOf(axis, links, owner, ids, after, axis.LinkOf(owner, m));
    forall l | l in links && axis.Member(l) == m ensures l in Kept(axis, links, owner, ids) {
    }
  }

  /**
    The other axis: a list loses the owner if it was dropped, gains it at the very end if it is
    new, and is otherwise exactly the list it was.
  */
  lemma OtherAxisIsUndisturbed(axis: Axis, links: Links, owner: int, ids: seq<int>, after: Links, m: int, list: seq<int>)
    requires Replaced(axis, links, owner, ids, after) && Lists(axis.Other(), links, m, list)
    ensures Lists(axis.Other(), after, m, MemberList(list, owner, m in ids))
  {
    hide Replaced;
    hide IsNext;
    forall l | axis.Member(l) == m && axis.Owner(l) != owner
      ensures (l in after <==> l in links) && (l in links ==> after[l] == links[l])
    {
      RowOf(axis, links, owner, ids, after, l);
    }
    var own := axis.LinkOf(owner, m);
    RowOf(axis, links, owner, ids, after, own);
    assert own in links <==> owner in list;
    if m !in ids {
      DroppedFromList(axis.Other(), links, after, m, list, owner);
    } else if owner in list {
      SameList(axis.Other(), links, after, m, list, owner);
    } else {
      LastOf(axis, links, owner, ids, after, m);
    }
  }

  /** Both axes stay free of ties. */
  lemma ReplaceKeepsPlacesDistinct(axis: Axis, links: Links, owner: int, ids: seq<int>, after: Links)
    requires NoRepeats(ids) && Replaced(axis, links, owner, ids, after)
    requires Distinct(axis, links) && Distinct(axis.Other(), links)
    ensures Distinct(axis, after) && Distinct(axis.Other(), after)
  {
    hide Replaced;
    forall l, m | l in after && m in after && l != m && axis.Owner(l) == axis.Owner(m)
      ensures axis.Rank(after[l]) != axis.Rank(after[m])
    {
      RowOf(axis, links, owner, ids, after, l);
      RowOf(axis, links, owner, ids, after, m);
    }
    forall l, m | l in after && m in after && l != m && axis.Member(l) == axis.Member(m)
      ensures axis.Other().Rank(after[l]) != axis.Other().Rank(after[m])
    {
      RowOf(axis, links, owner, ids, after, l);
      RowOf(axis, links, owner, ids, after, m);
    }
  }

  lemma {:induction false} SamePrefix(axis: Axis, links: Links, o: int, a: seq<int>, b: seq<int>, n: nat)
    requires Lists(axis, links, o, a) && Lists(axis, links, o, b) && n <= |a| && n <= |b|
    ensures forall i :: 0 <= i < n ==> a[i] == b[i]
  {
    if n > 0 {
      SamePrefix(axis, links, o, a, b, n - 1);
      NoneBefore(axis, links, o, a, b, n - 1);
      NoneBefore(axis, links, o, b, a, n - 1);
    }
  }

  /** Where two listings agree up to n, the next row of the first is not ahead of the second's. */
  lemma NoneBefore(axis: Axis, links: Links, o: int, a: seq<int>, b: seq<int>, n: nat)
    requires Lists(axis, links, o, a) && Lists(axis, links, o, b) && n < |a|
    requires n <= |b| && forall i :: 0 <= i < n ==> a[i] == b[i]
    ensures n < |b|
    ensures axis.Rank(links[axis.LinkOf(o, b[n])]) <= axis.Rank(links[axis.LinkOf(o, a[n])])
    ensures axis.Rank(links[axis.LinkOf(o, b[n])]) == axis.Rank(links[axis.LinkOf(o, a[n])]) ==> a[n] == b[n]
  {
    assert axis.Member(axis.LinkOf(o, a[n])) in b;
    var j :| 0 <= j < |b| && b[j] == a[n];
    assert forall i :: 0 <= i < n ==> a[i] != a[n];
  }

  /** A table has at most one listing for an owner: ORDER BY leaves nothing open. */
  lemma ListingIsUnique(axis: Axis, links: Links, o: int, a: seq<int>, b: seq<int>)
    requires Lists(axis, links, o, a) && Lists(axis, links, o, b)
    ensures a == b
  {
    SamePrefix(axis, links, o, a, b, if |a| < |b| then |a| else |b|);
    if |a| < |b| {
      NoneBefore(axis, links, o, b, a, |a|);
    } else if |b| < |a| {
      NoneBefore(axis, links, o, a, b, |b|);
    }
  }

  // ------------------------------------------------------------------ runs

  /** Set is one committed call on either axis; Removed is the cascade from a deleted owner. */
  datatype Change = Set(axis: Axis, owner: int, ids: seq<int>) | Removed(axis: Axis, owner: int)

  ghost predicate Next(before: Links, change: Change, after: Links) {
    match change
    case Set(axis, owner, ids) => Replaced(axis, before, owner, DedupedAll(ids), after)
    case Removed(axis, owner) => after == map l | l in before && axis.Owner(l) != owner :: before[l]
  }

  ghost predicate Run(tables: seq<Links>, changes: seq<Change>) {
    && |tables| == |changes| + 1 && tables[0] == map[]
    && forall i :: 0 <= i < |changes| ==> Next(tables[i], changes[i], tables[i + 1])
  }

  ghost predicate HasList(axis: Axis, links: Links, o: int) {
    exists list :: Lists(axis, links, o, list)
  }

  /** Both orderings are orderings: no ties, and every owner has its list, on either axis. */
  ghost predicate Ordered(links: Links) {
    && (forall axis: Axis :: Distinct(axis, links))
    && forall axis: Axis, o: int :: HasList(axis, links, o)
  }

  lemma SetKeepsLists(axis: Axis, links: Links, owner: int, ids: seq<int>, after: Links)
    requires NoRepeats(ids) && Replaced(axis, links, owner, ids, after) && Ordered(links)
    ensures Ordered(after)
  {
    hide Replaced;
    hide Lists;
    hide Distinct;
    ReplaceKeepsPlacesDistinct(axis, links, owner, ids, after);
    forall x: Axis, o: int ensures HasList(x, after, o) {
      if x == axis && o == owner {
        OwnListIsWhatWasAsked(axis, links, owner, ids, after);
      } else {
        assert HasList(x, links, o);
        var list :| Lists(x, links, o, list);
        if x == axis {
          OtherOwnersAreUntouched(axis, links, owner, ids, after, o, list);
        } else {
          OtherAxisIsUndisturbed(axis, links, owner, ids, after, o, list);
        }
      }
    }
    forall x: Axis ensures Distinct(x, after) {
      assert x == axis || x == axis.Other();
    }
  }

  lemma RemovalKeepsLists(axis: Axis, links: Links, owner: int, after: Links)
    requires Ordered(links) && Next(links, Removed(axis, owner), after)
    ensures Ordered(after)
  {
    forall x: Axis ensures Distinct(x, after) {
      assert Distinct(x, links);
    }
    forall x: Axis, o: int ensures HasList(x, after, o) {
      assert HasList(x, links, o);
      var list :| Lists(x, links, o, list);
      if x == axis {
        assert Lists(axis, after, o, if o == owner then [] else list);
      } else {
        DroppedFromList(x, links, after, o, list, owner);
      }
    }
  }

  /** Over every run of both operations and of deletions, both orderings stay orderings. */
  lemma {:induction false} EveryRunStaysOrdered(tables: seq<Links>, changes: seq<Change>, n: nat)
    requires Run(tables, changes) && n < |tables|
    ensures Ordered(tables[n])
    decreases n
  {
    if n == 0 {
      forall x: Axis, o: int ensures HasList(x, tables[0], o) {
        assert Lists(x, tables[0], o, []);
      }
    } else {
      EveryRunStaysOrdered(tables, changes, n - 1);
      var before, change, after := tables[n - 1], changes[n - 1], tables[n];
      assert Next(before, change, tables[n - 1 + 1]);
      hide Run;
      hide Ordered;
      match change
      case Set(axis, owner, ids) =>
        DedupeKeepsFirsts(ids, |ids|);
        hide Replaced;
        SetKeepsLists(axis, before, owner, DedupedAll(ids), after);
      case Removed(axis, owner) =>
        RemovalKeepsLists(axis, before, owner, after);
    }
  }

  // ------------------------------------------------------------------ calls at once

  /**
    One row once a call commits while others run. Its DELETE took the rows `gone`, its INSERT worked new
    places out from the table as it read it then, `seen`, and `links` is what everybody who committed
    before it leaves. No lock holds the owner's rows together, so a row of the owner's that was committed
    after the DELETE read the table stays, whether the request names it or not.
  */
  ghost predicate LateRow(axis: Axis, gone: set<Link>, seen: Links, links: Links, owner: int, ids: seq<int>, after: Links, l: Link) {
    var named := axis.Owner(l) == owner && axis.Member(l) in ids;
    var kept := l in links && l !in gone;
    && (l in after <==> kept || named)
    && (l in after ==> axis.Rank(after[l]) == if named then IndexOf(ids, axis.Member(l)) else axis.Rank(links[l]))
    && (kept ==> axis.Other().Rank(after[l]) == axis.Other().Rank(links[l]))
    && (l in after && !kept ==> IsNext(axis.Other(), seen, axis.Member(l), axis.Other().Rank(after[l])))
  }

  /** A DELETE takes only the owner's rows that are not asked for again, and only those it saw. */
  ghost predicate ReplacedLate(axis: Axis, gone: set<Link>, seen: Links, links: Links, owner: int, ids: seq<int>, after: Links) {
    && (forall l :: l in gone ==> axis.Owner(l) == owner && axis.Member(l) !in ids)
    && forall l :: LateRow(axis, gone, seen, links, owner, ids, after, l)
  }

  /** Every row of the owner's that is not asked for again. */
  ghost predicate SweptAll(axis: Axis, gone: set<Link>, links: Links, owner: int, ids: seq<int>) {
    forall l :: l in gone <==> l in links && axis.Owner(l) == owner && axis.Member(l) !in ids
  }

  /** A row the request does not name that the DELETE did not see. */
  predicate Overlooked(axis: Axis, gone: set<Link>, links: Links, owner: int, ids: seq<int>, l: Link) {
    l in links && l !in gone && axis.Owner(l) == owner && axis.Member(l) !in ids
  }

  /** One of those stands where the request now puts another. */
  ghost predicate StrayTies(axis: Axis, gone: set<Link>, links: Links, owner: int, ids: seq<int>) {
    exists l :: Overlooked(axis, gone, links, owner, ids, l) && axis.Rank(links[l]) < |ids|
  }

  /** The place worked out for the new row of m is one that another owner's row has by now. */
  ghost predicate PlaceIsTaken(axis: Axis, seen: Links, links: Links, owner: int, ids: seq<int>, m: int) {
    && m in ids && axis.LinkOf(owner, m) !in links
    && exists l :: l in links && axis.Member(l) == m && IsNext(axis.Other(), seen, m, axis.Other().Rank(links[l]))
  }

  lemma LateRowOf(axis: Axis, gone: set<Link>, seen: Links, links: Links, owner: int, ids: seq<int>, after: Links, l: Link)
    requires ReplacedLate(axis, gone, seen, links, owner, ids, after)
    ensures LateRow(axis, gone, seen, links, owner, ids, after, l)
    ensures l in gone ==> axis.Owner(l) == owner && axis.Member(l) !in ids
  {
  }

  /** With nothing committed in between, a call is the serial one, and meets neither hazard. */
  lemma AloneIsSerial(axis: Axis, gone: set<Link>, links: Links, owner: int, ids: seq<int>, after: Links)
    requires ReplacedLate(axis, gone, links, links, owner, ids, after) && SweptAll(axis, gone, links, owner, ids)
    ensures Replaced(axis, links, owner, ids, after)
    ensures !StrayTies(axis, gone, links, owner, ids) && forall m :: !PlaceIsTaken(axis, links, links, owner, ids, m)
  {
    hide ReplacedLate;
    var kept := Kept(axis, links, owner, ids);
    forall l: Link ensures RowAfter(axis, kept, owner, ids, |ids|, after, l) {
      LateRowOf(axis, gone, links, links, owner, ids, after, l);
      if axis.Member(l) in ids && l in after {
        SameNext(axis, links, owner, ids, axis.Member(l), axis.Other().Rank(after[l]));
      }
      hide IsNext;
    }
  }

  /** The rows the DELETE takes are in none of the lists the request adds to. */
  lemma SameNext(axis: Axis, links: Links, owner: int, ids: seq<int>, m: int, n: nat)
    requires m in ids
    ensures IsNext(axis.Other(), links, m, n) <==> IsNext(axis.Other(), Kept(axis, links, owner, ids), m, n)
  {
    var kept := Kept(axis, links, owner, ids);
    assert forall l :: axis.Member(l) == m ==> (l in kept <==> l in links) && (l in links ==> kept[l] == links[l]);
  }

  lemma OneNext(axis: Axis, links: Links, owner: int, a: nat, b: nat)
    requires IsNext(axis, links, owner, a) && IsNext(axis, links, owner, b)
    ensures a == b
  {
  }

  lemma StrayMakesATie(axis: Axis, gone: set<Link>, seen: Links, links: Links, owner: int, ids: seq<int>, after: Links)
    requires NoRepeats(ids) && ReplacedLate(axis, gone, seen, links, owner, ids, after)
    requires StrayTies(axis, gone, links, owner, ids)
    ensures !Distinct(axis, after)
  {
    hide IsNext;
    hide ReplacedLate;
    var l :| Overlooked(axis, gone, links, owner, ids, l) && axis.Rank(links[l]) < |ids|;
    var k := axis.LinkOf(owner, ids[axis.Rank(links[l])]);
    LateRowOf(axis, gone, seen, links, owner, ids, after, l);
    LateRowOf(axis, gone, seen, links, owner, ids, after, k);
    assert IndexOf(ids, axis.Member(k)) == axis.Rank(links[l]);
    assert l in after && k in after && l != k && axis.Rank(after[l]) == axis.Rank(after[k]);
  }

  lemma NoStrayNoTie(axis: Axis, gone: set<Link>, seen: Links, links: Links, owner: int, ids: seq<int>, after: Links)
    requires ReplacedLate(axis, gone, seen, links, owner, ids, after) && Distinct(axis, links)
    requires !StrayTies(axis, gone, links, owner, ids)
    ensures Distinct(axis, after)
  {
    hide IsNext;
    hide ReplacedLate;
    forall l, k | l in after && k in after && l != k && axis.Owner(l) == axis.Owner(k)
      ensures axis.Rank(after[l]) != axis.Rank(after[k])
    {
      LateRowOf(axis, gone, seen, links, owner, ids, after, l);
      LateRowOf(axis, gone, seen, links, owner, ids, after, k);
      assert !(Overlooked(axis, gone, links, owner, ids, l) && axis.Rank(links[l]) < |ids|);
      assert !(Overlooked(axis, gone, links, owner, ids, k) && axis.Rank(links[k]) < |ids|);
    }
  }

  lemma TakenPlaceTies(axis: Axis, gone: set<Link>, seen: Links, links: Links, owner: int, ids: seq<int>, after: Links, m: int)
    requires ReplacedLate(axis, gone, seen, links, owner, ids, after) && PlaceIsTaken(axis, seen, links, owner, ids, m)
    ensures !Distinct(axis.Other(), after)
  {
    hide IsNext;
    hide ReplacedLate;
    var l :| l in links && axis.Member(l) == m && IsNext(axis.Other(), seen, m, axis.Other().Rank(links[l]));
    var own := axis.LinkOf(owner, m);
    LateRowOf(axis, gone, seen, links, owner, ids, after, l);
    LateRowOf(axis, gone, seen, links, owner, ids, after, own);
    OneNext(axis.Other(), seen, m, axis.Other().Rank(after[own]), axis.Other().Rank(links[l]));
    assert l in after && axis.Other().Rank(after[l]) == axis.Other().Rank(after[own]);
  }

  lemma NoTakenPlaceNoTie(axis: Axis, gone: set<Link>, seen: Links, links: Links, owner: int, ids: seq<int>, after: Links)
    requires ReplacedLate(axis, gone, seen, links, owner, ids, after) && Distinct(axis.Other(), links)
    requires forall m :: !PlaceIsTaken(axis, seen, links, owner, ids, m)
    ensures Distinct(axis.Other(), after)
  {
    hide IsNext;
    hide ReplacedLate;
    forall l, k | l in after && k in after && l != k && axis.Member(l) == axis.Member(k)
      ensures axis.Other().Rank(after[l]) != axis.Other().Rank(after[k])
    {
      LateRowOf(axis, gone, seen, links, owner, ids, after, l);
      LateRowOf(axis, gone, seen, links, owner, ids, after, k);
      assert !PlaceIsTaken(axis, seen, links, owner, ids, axis.Member(l));
    }
  }

  /**
    When a call that runs beside others leaves a tie. On the axis it writes: if and only if a row its
    DELETE did not see, and it does not name, stands at one of the places it gives out. On the other: if
    and only if a place it worked out for a new row was taken before it committed.
  */
  lemma LateCallTiesExactly(axis: Axis, gone: set<Link>, seen: Links, links: Links, owner: int, ids: seq<int>, after: Links)
    requires NoRepeats(ids) && ReplacedLate(axis, gone, seen, links, owner, ids, after)
    requires Distinct(axis, links) && Distinct(axis.Other(), links)
    ensures Distinct(axis, after) <==> !StrayTies(axis, gone, links, owner, ids)
    ensures Distinct(axis.Other(), after) <==> forall m :: !PlaceIsTaken(axis, seen, links, owner, ids, m)
  {
    hide LateRow;
    hide ReplacedLate;
    hide Distinct;
    if StrayTies(axis, gone, links, owner, ids) {
      StrayMakesATie(axis, gone, seen, links, owner, ids, after);
    } else {
      NoStrayNoTie(axis, gone, seen, links, owner, ids, after);
    }
    if m :| PlaceIsTaken(axis, seen, links, owner, ids, m) {
      TakenPlaceTies(axis, gone, seen, links, owner, ids, after, m);
    } else {
      NoTakenPlaceNoTie(axis, gone, seen, links, owner, ids, after);
    }
  }

  /** And its list is what was asked for if and only if its DELETE overlooked nothing. */
  lemma LateListIsWhatWasAskedExactly(axis: Axis, gone: set<Link>, seen: Links, links: Links, owner: int, ids: seq<int>, after: Links)
    requires NoRepeats(ids) && ReplacedLate(axis, gone, seen, links, owner, ids, after)
    ensures Lists(axis, after, owner, ids) <==> forall l :: !Overlooked(axis, gone, links, owner, ids, l)
  {
    hide IsNext;
    hide ReplacedLate;
    forall k | 0 <= k < |ids|
      ensures var l := axis.LinkOf(owner, ids[k]); l in after && axis.Rank(after[l]) == k
    {
      LateRowOf(axis, gone, seen, links, owner, ids, after, axis.LinkOf(owner, ids[k]));
      assert IndexOf(ids, ids[k]) == k;
    }
    forall l | axis.Owner(l) == owner
      ensures l in after && axis.Member(l) !in ids <==> Overlooked(axis, gone, links, owner, ids, l)
    {
      LateRowOf(axis, gone, seen, links, owner, ids, after, l);
    }
    hide LateRow;
    hide IndexOf;
    if l :| Overlooked(axis, gone, links, owner, ids, l) {
      assert l in after && axis.Owner(l) == owner && axis.Member(l) !in ids;
    } else {
      assert forall l :: l in after && axis.Owner(l) == owner ==> axis.Member(l) in ids;
    }
  }

  /** Two products put into one empty collection at once: both calls read it empty, both take place 0 in it. */
  lemma TwoCallsAtOnceCanTie()
    ensures var first := map[Link(1, 9) := Place(0, 0)];
      var both := first[Link(2, 9) := Place(0, 0)];
      && ReplacedLate(OfProduct, {}, map[], map[], 1, [9], first)
      && ReplacedLate(OfProduct, {}, map[], first, 2, [9], both)
      && Distinct(OfCollection, first) && !Distinct(OfCollection, both)
  {
    assert IndexOf([9], 9) == 0;
    var both := map[Link(1, 9) := Place(0, 0)][Link(2, 9) := Place(0, 0)];
    assert Link(1, 9) in both && Link(2, 9) in both;
  }

  /**
    Two calls for one product that has no collections, one asking for 9 and one for 8: each DELETE finds
    nothing, and the product is in both, at one place - though no place either worked out was taken. A
    call for the product and one for the collection 8 leave the very same table.
  */
  lemma OneProductsCallsAtOnceCanTie()
    ensures var first := map[Link(1, 9) := Place(0, 0)];
      var both := first[Link(1, 8) := Place(0, 0)];
      && ReplacedLate(OfProduct, {}, map[], map[], 1, [9], first)
      && ReplacedLate(OfProduct, {}, map[], first, 1, [8], both)
      && (forall m :: !PlaceIsTaken(OfProduct, map[], first, 1, [8], m))
      && ReplacedLate(OfCollection, {}, map[], first, 8, [1], both)
      && Distinct(OfProduct, first) && !Distinct(OfProduct, both)
  {
    assert IndexOf([9], 9) == 0 && IndexOf([8], 8) == 0 && IndexOf([1], 1) == 0;
    var both := map[Link(1, 9) := Place(0, 0)][Link(1, 8) := Place(0, 0)];
    assert Link(1, 9) in both && Link(1, 8) in both;
  }

  // ------------------------------------------------------------------ runs of calls at once

  /** A call as it commits, with what its two statements read, or the cascade from a deleted owner. */
  datatype Commit =
    | Call(axis: Axis, owner: int, ids: seq<int>, gone: set<Link>, seen: Links)
    | Cascade(axis: Axis, owner: int)

  ghost predicate CommitsTo(before: Links, c: Commit, after: Links) {
    match c
    case Call(axis, owner, ids, gone, seen) => ReplacedLate(axis, gone, seen, before, owner, DedupedAll(ids), after)
    case Cascade(axis, owner) => Next(before, Removed(axis, owner), after)
  }

  /** Neither hazard is met. */
  ghost predicate Clean(before: Links, c: Commit) {
    match c
    case Call(axis, owner, ids, gone, seen) =>
      && !StrayTies(axis, gone, before, owner, DedupedAll(ids))
      && forall m :: !PlaceIsTaken(axis, seen, before, owner, DedupedAll(ids), m)
    case Cascade(_, _) => true
  }

  ghost predicate Untied(links: Links) { Distinct(OfProduct, links) && Distinct(OfCollection, links) }

  lemma CommitTiesExactly(before: Links, c: Commit, after: Links)
    requires Untied(before) && CommitsTo(before, c, after)
    ensures Untied(after) <==> Clean(before, c)
  {
    match c
    case Call(axis, owner, ids, gone, seen) =>
      DedupeKeepsFirsts(ids, |ids|);
      hide ReplacedLate;
      hide Distinct;
      hide StrayTies;
      hide PlaceIsTaken;
      LateCallTiesExactly(axis, gone, seen, before, owner, DedupedAll(ids), after);
    case Cascade(axis, owner) =>
  }

  /**
    However calls interleave, and whatever each of their statements read: the tables a run passes through
    are free of ties up to some point if and only if every commit up to there was clean. And where there
    are no ties, every owner has its one list on either axis.
  */
  lemma {:induction false} RunsOfCallsTieExactly(tables: seq<Links>, commits: seq<Commit>, n: nat)
    requires |tables| == |commits| + 1 && tables[0] == map[] && n < |tables|
    requires forall i :: 0 <= i < |commits| ==> CommitsTo(tables[i], commits[i], tables[i + 1])
    ensures (forall i :: 0 <= i <= n ==> Untied(tables[i])) <==> (forall i :: 0 <= i < n ==> Clean(tables[i], commits[i]))
    ensures (forall i :: 0 <= i <= n ==> Untied(tables[i])) <==> (forall i :: 0 <= i <= n ==> Ordered(tables[i]))
    decreases n
  {
    forall i | 0 <= i <= n ensures Untied(tables[i]) <==> Ordered(tables[i]) {
      UntiedIsOrdered(tables[i]);
    }
    hide Ordered;
    hide Clean;
    hide CommitsTo;
    if n > 0 {
      hide Untied;
      RunsOfCallsTieExactly(tables, commits, n - 1);
      assert CommitsTo(tables[n - 1], commits[n - 1], tables[n - 1 + 1]);
      if Untied(tables[n - 1]) {
        CommitTiesExactly(tables[n - 1], commits[n - 1], tables[n]);
      }
    }
  }

  lemma UntiedIsOrdered(links: Links)
    ensures Untied(links) <==> Ordered(links)
  {
    if Untied(links) {
      forall axis: Axis ensures Distinct(axis, links) {
        assert axis == OfProduct || axis == OfCollection;
      }
      forall axis: Axis, o: int ensures HasList(axis, links, o) {
        UntiedHasList(axis, links, o);
      }
    }
    hide Distinct;
    hide HasList;
  }

  ghost predicate IsLast(axis: Axis, links: Links, o: int, l: Link) {
    && l in links && axis.Owner(l) == o
    && forall k :: k in links && axis.Owner(k) == o ==> axis.Rank(links[k]) <= axis.Rank(links[l])
  }

  lemma {:induction false} SomeLast(axis: Axis, links: Links, o: int)
    ensures (exists l :: IsLast(axis, links, o, l)) || forall l :: l in links ==> axis.Owner(l) != o
    decreases |links|
  {
    if x :| x in links && axis.Owner(x) == o {
      var rest := links - {x};
      SomeLast(axis, rest, o);
      if l :| IsLast(axis, rest, o, l) {
        assert IsLast(axis, links, o, l) || IsLast(axis, links, o, x);
      } else {
        assert IsLast(axis, links, o, x);
      }
    }
  }

  lemma LastGoesLast(axis: Axis, links: Links, o: int, l: Link, list: seq<int>)
    requires Distinct(axis, links) && IsLast(axis, links, o, l) && Lists(axis, links - {l}, o, list)
    ensures Lists(axis, links, o, list + [axis.Member(l)])
  {
    var rest, all := links - {l}, list + [axis.Member(l)];
    forall x | x in list ensures axis.LinkOf(o, x) in rest && axis.Rank(links[axis.LinkOf(o, x)]) < axis.Rank(links[l]) {
      assert axis.LinkOf(o, x) in rest;
    }
    forall k | k in links && axis.Owner(k) == o ensures axis.Member(k) in all {
      assert k == l || k in rest;
    }
    assert axis.LinkOf(o, axis.Member(l)) == l;
    hide IsLast;
    hide Distinct;
  }

  /** Places that differ put an owner's rows in one order. */
  lemma {:induction false} UntiedHasList(axis: Axis, links: Links, o: int)
    requires Distinct(axis, links)
    ensures HasList(axis, links, o)
    decreases |links|
  {
    SomeLast(axis, links, o);
    if l :| IsLast(axis, links, o, l) {
      var rest := links - {l};
      assert l in links && Distinct(axis, rest);
      hide Distinct;
      hide IsLast;
      hide Lists;
      UntiedHasList(axis, rest, o);
      var list :| Lists(axis, rest, o, list);
      LastGoesLast(axis, links, o, l, list);
    } else {
      assert Lists(axis, links, o, []);
    }
  }

  // ------------------------------------------------------------------ the table itself

  datatype Outcome = Done | NoSuchProduct(id: int) | NoSuchCollection(id: int)

  /** requireCollections and requireProducts: the first asked id that is not there. */
  method FirstUnknown(known: set<int>, ids: seq<int>) returns (k: nat)
    ensures k <= |ids| && (forall i :: 0 <= i < k ==> ids[i] in known) && (k < |ids| ==> ids[k] !in known)
  {
    k := 0;
    while k < |ids| && ids[k] in known
      invariant k <= |ids| && forall i :: 0 <= i < k ==> ids[i] in known
    {
      k := k + 1;
    }
  }

  /** x is the first id of the request that is not known. */
  ghost predicate FirstMissing(known: set<int>, asked: seq<int>, x: int) {
    x in asked && x !in known && forall i :: 0 <= i < IndexOf(asked, x) ==> asked[i] in known
  }

  lemma FirstOfTheDeduped(known: set<int>, asked: seq<int>, ids: seq<int>, k: nat)
    requires FirstsOf(asked, |asked|, ids) && k < |ids| && ids[k] !in known
    requires forall i :: 0 <= i < k ==> ids[i] in known
    ensures FirstMissing(known, asked, ids[k])
  {
    var f := IndexOf(asked, ids[k]);
    assert asked[..|asked|] == asked;
    forall i | 0 <= i < f ensures asked[i] in known {
      assert asked[..|asked|][i] in ids;
      var j :| 0 <= j < |ids| && ids[j] == asked[i];
    }
  }

  class Curation {
    var products: set<int>
    var collections: set<int>
    var links: Links

    /** The foreign keys. */
    ghost predicate Valid() reads this {
      forall l :: l in links ==> l.product in products && l.collection in collections
    }

    constructor ()
      ensures Valid() && links == map[] && products == {} && collections == {}
    {
      products, collections, links := {}, {}, map[];
    }

    method SetProductCollections(product: int, collectionIDs: seq<int>) returns (r: Outcome)
      requires Valid()
      modifies this`links
      ensures Valid()
      ensures r.Done? <==> product in products && forall c :: c in collectionIDs ==> c in collections
      ensures r.Done? ==> Next(old(links), Set(OfProduct, product, collectionIDs), links)
      ensures !r.Done? ==> links == old(links)
      ensures product !in products ==> r == NoSuchProduct(product)
      ensures r.NoSuchCollection? ==> FirstMissing(collections, collectionIDs, r.id)
    {
      var ids := DedupeIDs(collectionIDs);
      DedupeKeepsFirsts(collectionIDs, |collectionIDs|);
      assert collectionIDs[..|collectionIDs|] == collectionIDs;
      if product !in products {
        return NoSuchProduct(product);
      }
      var k := FirstUnknown(collections, ids);
      if k < |ids| {
        FirstOfTheDeduped(collections, collectionIDs, ids, k);
        return NoSuchCollection(ids[k]);
      }
      ghost var before := links;
      links := Replace(OfProduct, links, product, ids);
      ForeignKeys(OfProduct, before, product, ids, links, products, collections);
      return Done;
    }

    method SetCollectionProducts(collection: int, productIDs: seq<int>) returns (r: Outcome)
      requires Valid()
      modifies this`links
      ensures Valid()
      ensures r.Done? <==> collection in collections && forall p :: p in productIDs ==> p in products
      ensures r.Done? ==> Next(old(links), Set(OfCollection, collection, productIDs), links)
      ensures !r.Done? ==> links == old(links)
      ensures collection !in collections ==> r == NoSuchCollection(collection)
      ensures r.NoSuchProduct? ==> FirstMissing(products, productIDs, r.id)
    {
      var ids := DedupeIDs(productIDs);
      DedupeKeepsFirsts(productIDs, |productIDs|);
      assert productIDs[..|productIDs|] == productIDs;
      if collection !in collections {
        return NoSuchCollection(collection);
      }
      var k := FirstUnknown(products, ids);
      if k < |ids| {
        FirstOfTheDeduped(products, productIDs, ids, k);
        return NoSuchProduct(ids[k]);
      }
      ghost var before := links;
      links := Replace(OfCollection, links, collection, ids);
      ForeignKeys(OfCollection, before, collection, ids, links, products, collections);
      return Done;
    }
  }

  lemma ForeignKeys(axis: Axis, links: Links, owner: int, ids: seq<int>, after: Links, products: set<int>, collections: set<int>)
    requires Replaced(axis, links, owner, ids, after)
    requires forall l :: l in links ==> l.product in products && l.collection in collections
    requires owner in (if axis.OfProduct? then products else collections)
    requires forall x :: x in ids ==> x in (if axis.OfProduct? then collections else products)
    ensures forall l :: l in after ==> l.product in products && l.collection in collections
  {
    hide Replaced;
    forall l | l in after ensures l.product in products && l.collection in collections {
      RowOf(axis, links, owner, ids, after, l);
    }
  }
}
