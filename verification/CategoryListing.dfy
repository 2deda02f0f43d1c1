/**
  The flat listing of the category tree (core/categories.go): rows read in (position, id) order are
  linked into a tree in place, then walked depth first, each node giving up its children as it is
  passed. What comes out is the table again, in the order an indented list needs.
*/
module CategoryListing {
  import opened Basics
  import opened CategoryForest

  // ------------------------------------------------------------------ the order, as a function

  /** A row whose parent is missing is shown as a root rather than dropped. */
  predicate IsRoot(t: Table, x: int) { x in t && (t[x].parent.None? || t[x].parent.value !in t) }

  predicate IsKid(t: Table, x: int, p: int) { x in t && p in t && t[x].parent == Some(p) }

  /** Those of the first n rows that are roots, in the order of the rows. */
  function Roots(t: Table, all: seq<int>, n: nat): seq<int>
    requires n <= |all|
    decreases n
  {
    if n == 0 then [] else Roots(t, all, n - 1) + if IsRoot(t, all[n - 1]) then [all[n - 1]] else []
  }

  function Kids(t: Table, all: seq<int>, p: int, n: nat): seq<int>
    requires n <= |all|
    decreases n
  {
    if n == 0 then [] else Kids(t, all, p, n - 1) + if IsKid(t, all[n - 1], p) then [all[n - 1]] else []
  }

  function AllKids(t: Table, all: seq<int>, p: int): seq<int> { Kids(t, all, p, |all|) }

  /** A category, then everything under it, to depth fuel. */
  function Block(t: Table, all: seq<int>, id: int, fuel: nat): seq<int>
    decreases fuel, 0
  {
    [id] + if fuel == 0 then [] else Blocks(t, all, AllKids(t, all, id), fuel - 1)
  }

  function Blocks(t: Table, all: seq<int>, ids: seq<int>, fuel: nat): seq<int>
    decreases fuel, |ids|
  {
    if ids == [] then [] else Block(t, all, ids[0], fuel) + Blocks(t, all, ids[1..], fuel)
  }

  /** Depth first over the whole table. */
  function Listing(t: Table, all: seq<int>): seq<int> {
    Blocks(t, all, Roots(t, all, |all|), MAX_CATEGORY_DEPTH - 1)
  }

  /** all is the table read in some fixed order. */
  ghost predicate Rows(t: Table, all: seq<int>) {
    NoRepeats(all) && forall x :: x in all <==> x in t
  }

  // ------------------------------------------------------------------ depth

  lemma OneTop(t: Table, x: int, d: nat, e: nat)
    requires Nth(t, x, d).Some? && Nth(t, x, d + 1).None? && Nth(t, x, e).Some? && Nth(t, x, e + 1).None?
    ensures d == e
  {
    if d < e {
      NthEnds(t, x, d + 1, e);
    } else if e < d {
      NthEnds(t, x, e + 1, d);
    }
  }

  lemma DepthIsTop(t: Table, x: int)
    requires Forest(t) && x in t
    ensures Nth(t, x, Depth(t, x)).Some? && Nth(t, x, Depth(t, x) + 1).None?
  {
    AncestorsAreComplete(t, x);
    LastAncestor(t, x);
  }

  lemma {:induction false} ClimbStaysInTable(t: Table, x: int, a: int, k: nat)
    requires Nth(t, x, k) == Some(a)
    ensures a in t && x in t
    decreases k
  {
    if k > 0 {
      ClimbStaysInTable(t, t[x].parent.value, a, k - 1);
    }
  }

  /** Climbing k steps takes exactly k levels off. */
  lemma DepthAdds(t: Table, x: int, a: int, k: nat)
    requires Forest(t) && Nth(t, x, k) == Some(a)
    ensures a in t && x in t && Depth(t, x) == Depth(t, a) + k
  {
    hide Forest;
    hide Depth;
    hide Nth;
    ClimbStaysInTable(t, x, a, k);
    DepthIsTop(t, x);
    DepthIsTop(t, a);
    NthSplits(t, x, k, Depth(t, a));
    NthSplits(t, x, k, Depth(t, a) + 1);
    OneTop(t, x, Depth(t, x), k + Depth(t, a));
  }

  lemma KidIsDeeper(t: Table, x: int, p: int)
    requires Forest(t) && IsKid(t, x, p)
    ensures Depth(t, x) == Depth(t, p) + 1 && IsAbove(t, p, x)
  {
    assert Nth(t, p, 0) == Some(p);
    assert Nth(t, x, 1) == Some(p);
    DepthAdds(t, x, p, 1);
  }

  lemma {:induction false} KidsMeans(t: Table, all: seq<int>, p: int, n: nat)
    requires n <= |all| && NoRepeats(all)
    ensures var kids := Kids(t, all, p, n);
      && (forall x :: x in kids <==> IsKid(t, x, p) && x in all[..n]) && NoRepeats(kids)
    decreases n
  {
    hide IsKid;
    if n > 0 {
      KidsMeans(t, all, p, n - 1);
      var before := all[..n - 1];
      assert all[..n] == before + [all[n - 1]];
      assert forall i :: 0 <= i < |before| ==> before[i] == all[i];
    }
  }

  lemma {:induction false} RootsMeans(t: Table, all: seq<int>, n: nat)
    requires n <= |all| && NoRepeats(all)
    ensures var roots := Roots(t, all, n);
      && (forall x :: x in roots <==> IsRoot(t, x) && x in all[..n]) && NoRepeats(roots)
    decreases n
  {
    hide IsRoot;
    if n > 0 {
      RootsMeans(t, all, n - 1);
      var before := all[..n - 1];
      assert all[..n] == before + [all[n - 1]];
      assert forall i :: 0 <= i < |before| ==> before[i] == all[i];
    }
  }

  lemma AllKidsMeans(t: Table, all: seq<int>, p: int)
    requires Rows(t, all)
    ensures NoRepeats(AllKids(t, all, p)) && forall x :: x in AllKids(t, all, p) <==> IsKid(t, x, p)
  {
    KidsMeans(t, all, p, |all|);
    assert all[..|all|] == all;
  }

  // ------------------------------------------------------------------ what a block holds

  /** The ids stand at one depth, and fuel is exactly what is left below them. */
  ghost predicate Fit(t: Table, ids: seq<int>, fuel: nat) {
    NoRepeats(ids) && forall i :: 0 <= i < |ids| ==> ids[i] in t && Depth(t, ids[i]) + fuel == MAX_CATEGORY_DEPTH - 1
  }

  lemma KidsFit(t: Table, all: seq<int>, id: int, fuel: nat)
    requires Forest(t) && Rows(t, all) && id in t && Depth(t, id) + fuel == MAX_CATEGORY_DEPTH - 1
    ensures fuel == 0 ==> AllKids(t, all, id) == []
    ensures fuel > 0 ==> Fit(t, AllKids(t, all, id), fuel - 1)
  {
    AllKidsMeans(t, all, id);
    var kids := AllKids(t, all, id);
    if fuel == 0 && kids != [] {
      var c := kids[0];
      assert c in kids;
      KidIsDeeper(t, c, id);
      AncestorsAreComplete(t, c);
    }
    forall i | 0 <= i < |kids| ensures kids[i] in t && Depth(t, kids[i]) == Depth(t, id) + 1 {
      assert kids[i] in kids;
      KidIsDeeper(t, kids[i], id);
    }
  }

  /** Being under id is being id, or being under one of its children. */
  lemma UnderIsUnderAKid(t: Table, id: int, x: int)
    requires id in t
    ensures IsAbove(t, id, x) <==> x == id || exists c :: IsKid(t, c, id) && IsAbove(t, c, x)
  {
    assert Nth(t, id, 0) == Some(id);
    if IsAbove(t, id, x) && x != id {
      var k: nat :| Nth(t, x, k) == Some(id);
      NthSplits(t, x, k - 1, 1);
      var c := Nth(t, x, k - 1).value;
      assert Nth(t, c, 1) == Some(id);
      assert IsKid(t, c, id) && IsAbove(t, c, x);
    }
    if c :| IsKid(t, c, id) && IsAbove(t, c, x) {
      var k: nat :| Nth(t, x, k) == Some(c);
      NthSplits(t, x, k, 1);
      assert Nth(t, c, 1) == Some(id);
    }
  }

  ghost predicate UnderSome(t: Table, ids: seq<int>, x: int) { exists i :: 0 <= i < |ids| && IsAbove(t, ids[i], x) }

  /** A node is under id just when it is under one of id's children, listed, or is id. */
  lemma UnderTheKids(t: Table, all: seq<int>, id: int, x: int)
    requires Rows(t, all) && id in t
    ensures IsAbove(t, id, x) <==> x == id || UnderSome(t, AllKids(t, all, id), x)
  {
    UnderIsUnderAKid(t, id, x);
    AllKidsMeans(t, all, id);
    var kids := AllKids(t, all, id);
    hide IsAbove;
    hide AllKids;
    hide IsKid;
    hide Rows;
    if c :| IsKid(t, c, id) && IsAbove(t, c, x) {
      assert c in kids;
      var i :| 0 <= i < |kids| && kids[i] == c;
      assert IsAbove(t, kids[i], x);
    }
    if UnderSome(t, kids, x) {
      var i :| 0 <= i < |kids| && IsAbove(t, kids[i], x);
      assert kids[i] in kids;
    }
  }

  lemma {:induction false} InBlock(t: Table, all: seq<int>, id: int, fuel: nat, x: int)
    requires Forest(t) && Rows(t, all) && id in t && Depth(t, id) + fuel == MAX_CATEGORY_DEPTH - 1
    ensures x in Block(t, all, id, fuel) <==> IsAbove(t, id, x)
    decreases fuel, 0
  {
    hide IsAbove;
    hide Forest;
    hide Depth;
    hide AllKids;
    hide Rows;
    hide Fit;
    hide Blocks;
    UnderTheKids(t, all, id, x);
    KidsFit(t, all, id, fuel);
    if fuel > 0 {
      InBlocks(t, all, AllKids(t, all, id), fuel - 1, x);
    } else {
      assert !UnderSome(t, [], x);
    }
  }

  lemma {:induction false} InBlocks(t: Table, all: seq<int>, ids: seq<int>, fuel: nat, x: int)
    requires Forest(t) && Rows(t, all) && Fit(t, ids, fuel)
    ensures x in Blocks(t, all, ids, fuel) <==> UnderSome(t, ids, x)
    decreases fuel, |ids|
  {
    if ids != [] {
      InBlock(t, all, ids[0], fuel, x);
      InBlocks(t, all, ids[1..], fuel, x);
      assert UnderSome(t, ids, x) <==> IsAbove(t, ids[0], x) || UnderSome(t, ids[1..], x) by {
        hide IsAbove;
        if UnderSome(t, ids[1..], x) {
          var i :| 0 <= i < |ids[1..]| && IsAbove(t, ids[1..][i], x);
          assert IsAbove(t, ids[i + 1], x);
        }
        if UnderSome(t, ids, x) && !IsAbove(t, ids[0], x) {
          var i :| 0 <= i < |ids| && IsAbove(t, ids[i], x);
          assert IsAbove(t, ids[1..][i - 1], x);
        }
      }
    }
  }

  // ------------------------------------------------------------------ once each

  /** Two categories at one depth have nothing under both of them. */
  lemma SameDepthApart(t: Table, a: int, b: int, x: int)
    requires Forest(t) && IsAbove(t, a, x) && IsAbove(t, b, x) && Depth(t, a) == Depth(t, b)
    ensures a == b
  {
    var j: nat :| Nth(t, x, j) == Some(a);
    var k: nat :| Nth(t, x, k) == Some(b);
    DepthAdds(t, x, a, j);
    DepthAdds(t, x, b, k);
  }

  lemma Apart(a: seq<int>, b: seq<int>)
    requires NoRepeats(a) && NoRepeats(b) && forall x :: x in a ==> x !in b
    ensures NoRepeats(a + b)
  {
    var s := a + b;
    forall i, j | 0 <= i < j < |s| ensures s[i] != s[j] {
      if i < |a| <= j {
        assert a[i] in a && b[j - |a|] in b;
      }
    }
  }

  lemma {:induction false} BlockOnce(t: Table, all: seq<int>, id: int, fuel: nat)
    requires Forest(t) && Rows(t, all) && id in t && Depth(t, id) + fuel == MAX_CATEGORY_DEPTH - 1
    ensures NoRepeats(Block(t, all, id, fuel))
    decreases fuel, 0
  {
    hide IsAbove;
    hide Forest;
    hide Depth;
    hide AllKids;
    hide Rows;
    hide Fit;
    hide Blocks;
    KidsFit(t, all, id, fuel);
    if fuel > 0 {
      var kids := AllKids(t, all, id);
      BlocksOnce(t, all, kids, fuel - 1);
      InBlocks(t, all, kids, fuel - 1, id);
      NotUnderItsKids(t, all, id);
      Apart([id], Blocks(t, all, kids, fuel - 1));
    }
  }

  lemma NotUnderItsKids(t: Table, all: seq<int>, id: int)
    requires Forest(t) && Rows(t, all) && id in t
    ensures !UnderSome(t, AllKids(t, all, id), id)
  {
    AllKidsMeans(t, all, id);
    var kids := AllKids(t, all, id);
    if UnderSome(t, kids, id) {
      var i :| 0 <= i < |kids| && IsAbove(t, kids[i], id);
      assert kids[i] in kids;
      KidIsDeeper(t, kids[i], id);
      var k: nat :| Nth(t, id, k) == Some(kids[i]);
      DepthAdds(t, id, kids[i], k);
    }
  }

  lemma {:induction false} BlocksOnce(t: Table, all: seq<int>, ids: seq<int>, fuel: nat)
    requires Forest(t) && Rows(t, all) && Fit(t, ids, fuel)
    ensures NoRepeats(Blocks(t, all, ids, fuel))
    decreases fuel, |ids|
  {
    if ids != [] {
      var first, rest := Block(t, all, ids[0], fuel), Blocks(t, all, ids[1..], fuel);
      BlockOnce(t, all, ids[0], fuel);
      BlocksOnce(t, all, ids[1..], fuel);
      forall x | x in first ensures x !in rest {
        InBlock(t, all, ids[0], fuel, x);
        InBlocks(t, all, ids[1..], fuel, x);
        if UnderSome(t, ids[1..], x) {
          var i :| 0 <= i < |ids[1..]| && IsAbove(t, ids[1..][i], x);
          SameDepthApart(t, ids[0], ids[1..][i], x);
        }
      }
      Apart(first, rest);
    }
  }

  // ------------------------------------------------------------------ where each block stands

  lemma {:induction false} BlocksAt(t: Table, all: seq<int>, ids: seq<int>, fuel: nat, i: nat)
    returns (a: seq<int>, b: seq<int>)
    requires i < |ids|
    ensures Blocks(t, all, ids, fuel) == a + Block(t, all, ids[i], fuel) + b
    ensures a == Blocks(t, all, ids[..i], fuel)
    decreases i
  {
    if i == 0 {
      a, b := [], Blocks(t, all, ids[1..], fuel);
    } else {
      var a1, b1 := BlocksAt(t, all, ids[1..], fuel, i - 1);
      a, b := Block(t, all, ids[0], fuel) + a1, b1;
      assert ids[..i][1..] == ids[1..][..i - 1];
    }
  }

  /** The subtree of x stands whole inside any block list that holds x. */
  lemma {:induction false} SubtreeAt(t: Table, all: seq<int>, ids: seq<int>, fuel: nat, x: int)
    returns (a: seq<int>, b: seq<int>, left: nat)
    requires Forest(t) && Rows(t, all) && Fit(t, ids, fuel) && UnderSome(t, ids, x)
    ensures x in t && Depth(t, x) + left == MAX_CATEGORY_DEPTH - 1
    ensures Blocks(t, all, ids, fuel) == a + Block(t, all, x, left) + b
    decreases fuel
  {
    hide IsAbove;
    hide Forest;
    hide Depth;
    hide AllKids;
    hide Rows;
    hide Blocks;
    a, b, left := [], [], 0;
    var i :| 0 <= i < |ids| && IsAbove(t, ids[i], x);
    var id := ids[i];
    var a0, b0 := BlocksAt(t, all, ids, fuel, i);
    if x == id {
      a, b, left := a0, b0, fuel;
    } else {
      UnderTheKids(t, all, id, x);
      KidsFit(t, all, id, fuel);
      var kids := AllKids(t, all, id);
      hide Fit;
      if fuel > 0 {
        var a1, b1;
        a1, b1, left := SubtreeAt(t, all, kids, fuel - 1, x);
        a, b := a0 + [id] + a1, b1 + b0;
        hide UnderSome;
        Regroup(a0, id, a1, Block(t, all, x, left), b1, b0);
        assert Block(t, all, id, fuel) == [id] + Blocks(t, all, kids, fuel - 1);
      }
    }
  }

  lemma Regroup(a0: seq<int>, id: int, a1: seq<int>, m: seq<int>, b1: seq<int>, b0: seq<int>)
    ensures a0 + ([id] + (a1 + m + b1)) + b0 == (a0 + [id] + a1) + m + (b1 + b0)
  {
  }

  /** Every row has one place, even one whose parent is missing: among the roots, or else under its parent. */
  lemma NoRowIsDropped(t: Table, all: seq<int>, x: int)
    requires Rows(t, all) && x in t
    ensures x in Roots(t, all, |all|) <==> forall p :: p in t ==> x !in AllKids(t, all, p)
    ensures forall p :: p in t ==> (x in AllKids(t, all, p) <==> t[x].parent == Some(p))
  {
    RootsMeans(t, all, |all|);
    assert all[..|all|] == all;
    forall p | p in t ensures x in AllKids(t, all, p) <==> t[x].parent == Some(p) {
      AllKidsMeans(t, all, p);
    }
    assert x in Roots(t, all, |all|) <==> IsRoot(t, x);
    hide AllKids;
    hide Roots;
    if !IsRoot(t, x) {
      assert x in AllKids(t, all, t[x].parent.value);
    }
  }

  // ------------------------------------------------------------------ the whole listing

  lemma RootsAreTop(t: Table, x: int)
    requires IsRoot(t, x)
    ensures Depth(t, x) == 0
  {
  }

  lemma RootsFit(t: Table, all: seq<int>)
    requires Forest(t) && Rows(t, all)
    ensures Fit(t, Roots(t, all, |all|), MAX_CATEGORY_DEPTH - 1)
    ensures forall x :: x in Roots(t, all, |all|) <==> IsRoot(t, x)
  {
    hide Depth;
    hide Forest;
    RootsMeans(t, all, |all|);
    assert all[..|all|] == all;
    var roots := Roots(t, all, |all|);
    forall i | 0 <= i < |roots| ensures roots[i] in t && Depth(t, roots[i]) == 0 {
      assert roots[i] in roots;
      RootsAreTop(t, roots[i]);
    }
  }

  /** Everything is under some root. */
  lemma {:induction false} UnderARoot(t: Table, all: seq<int>, x: int, d: nat)
    requires Forest(t) && Rows(t, all) && x in t && Depth(t, x) == d
    ensures UnderSome(t, Roots(t, all, |all|), x)
    decreases d
  {
    RootsFit(t, all);
    var roots := Roots(t, all, |all|);
    assert Nth(t, x, 0) == Some(x);
    if IsRoot(t, x) {
      var i :| 0 <= i < |roots| && roots[i] == x;
      assert IsAbove(t, roots[i], x);
    } else {
      var p := t[x].parent.value;
      KidIsDeeper(t, x, p);
      UnderARoot(t, all, p, d - 1);
      var i :| 0 <= i < |roots| && IsAbove(t, roots[i], p);
      AboveTwice(t, roots[i], p, x);
    }
  }

  lemma AboveTwice(t: Table, a: int, b: int, x: int)
    requires IsAbove(t, a, b) && IsAbove(t, b, x)
    ensures IsAbove(t, a, x)
  {
    var j: nat :| Nth(t, b, j) == Some(a);
    var k: nat :| Nth(t, x, k) == Some(b);
    NthSplits(t, x, k, j);
  }

  /** Nothing is lost and nothing repeats: the listing is the table, in another order. */
  lemma ListingIsAPermutation(t: Table, all: seq<int>)
    requires Forest(t) && Rows(t, all)
    ensures NoRepeats(Listing(t, all)) && forall x :: x in Listing(t, all) <==> x in t
    ensures multiset(Listing(t, all)) == multiset(all)
  {
    RootsFit(t, all);
    var roots := Roots(t, all, |all|);
    BlocksOnce(t, all, roots, MAX_CATEGORY_DEPTH - 1);
    forall x ensures x in Listing(t, all) <==> x in t {
      InBlocks(t, all, roots, MAX_CATEGORY_DEPTH - 1, x);
      assert x !in t ==> !UnderSome(t, roots, x);
      if x in t {
        UnderARoot(t, all, x, Depth(t, x));
      }
    }
    hide Listing;
    hide Forest;
    SameOnce(Listing(t, all), all);
  }

  lemma SameOnce(a: seq<int>, b: seq<int>)
    requires NoRepeats(a) && NoRepeats(b) && forall x :: x in a <==> x in b
    ensures multiset(a) == multiset(b)
  {
    forall x ensures multiset(a)[x] == multiset(b)[x] {
      OnceCount(a, x);
      OnceCount(b, x);
    }
  }

  lemma {:induction false} OnceCount(s: seq<int>, x: int)
    requires NoRepeats(s)
    ensures multiset(s)[x] == if x in s then 1 else 0
  {
    if s != [] {
      var m := s[..|s| - 1];
      OnceCount(m, x);
      assert s == m + [s[|s| - 1]];
      assert forall i :: 0 <= i < |m| ==> m[i] == s[i];
    }
  }

  /**
    Every subtree is one unbroken block that begins with its own root: the rows from lo up to hi are
    p and everything under it, and no other row is. So a parent always comes before its children.
  */
  lemma SubtreesAreBlocks(t: Table, all: seq<int>, p: int) returns (lo: nat, hi: nat)
    requires Forest(t) && Rows(t, all) && p in t
    ensures lo < hi <= |Listing(t, all)| && Listing(t, all)[lo] == p
    ensures forall i :: 0 <= i < |Listing(t, all)| ==> (lo <= i < hi <==> IsAbove(t, p, Listing(t, all)[i]))
  {
    RootsFit(t, all);
    UnderARoot(t, all, p, Depth(t, p));
    var out := Listing(t, all);
    var a, b, left := SubtreeAt(t, all, Roots(t, all, |all|), MAX_CATEGORY_DEPTH - 1, p);
    ListingIsAPermutation(t, all);
    var block := Block(t, all, p, left);
    lo, hi := |a|, |a| + |block|;
    assert out == a + block + b;
    assert block[0] == p;
    forall x ensures x in block <==> IsAbove(t, p, x) {
      InBlock(t, all, p, left, x);
    }
    hide *;
    Interval(out, a, block, b);
  }

  lemma Interval(out: seq<int>, a: seq<int>, m: seq<int>, b: seq<int>)
    requires out == a + m + b && NoRepeats(out)
    ensures forall i :: 0 <= i < |out| ==> (|a| <= i < |a| + |m| <==> out[i] in m)
  {
    forall i | 0 <= i < |out| ensures |a| <= i < |a| + |m| <==> out[i] in m {
      if out[i] in m {
        var k :| 0 <= k < |m| && m[k] == out[i];
        assert out[|a| + k] == out[i];
      } else {
        assert forall k :: 0 <= k < |m| ==> out[|a| + k] == m[k];
      }
    }
  }

  lemma PlacedOnce(s: seq<int>, i: nat)
    requires NoRepeats(s) && i < |s|
    ensures IndexOf(s, s[i]) == i
  {
  }

  lemma ParentComesFirst(t: Table, all: seq<int>, x: int, p: int)
    requires Forest(t) && Rows(t, all) && IsKid(t, x, p)
    ensures IndexOf(Listing(t, all), p) < IndexOf(Listing(t, all), x) < |Listing(t, all)|
  {
    assert x in t && p in t;
    hide Forest;
    hide Rows;
    hide Listing;
    var out := Listing(t, all);
    var lo, hi := SubtreesAreBlocks(t, all, p);
    KidIsDeeper(t, x, p);
    ListingIsAPermutation(t, all);
    assert x in out && x != p;
    var at := IndexOf(out, x);
    assert out[at] == x;
    hide *;
    PlacedOnce(out, lo);
  }

  // ------------------------------------------------------------------ siblings keep their order

  ghost predicate InOrder(all: seq<int>, some: seq<int>) {
    forall i, j :: 0 <= i < j < |some| ==> IndexOf(all, some[i]) < IndexOf(all, some[j])
  }

  lemma {:induction false} KidsInOrder(t: Table, all: seq<int>, p: int, n: nat)
    requires n <= |all| && NoRepeats(all)
    ensures InOrder(all, Kids(t, all, p, n)) && forall i :: 0 <= i < |Kids(t, all, p, n)| ==> IndexOf(all, Kids(t, all, p, n)[i]) < n
    decreases n
  {
    hide IsKid;
    if n > 0 {
      KidsInOrder(t, all, p, n - 1);
      assert IndexOf(all, all[n - 1]) == n - 1;
    }
  }

  lemma {:induction false} RootsInOrder(t: Table, all: seq<int>, n: nat)
    requires n <= |all| && NoRepeats(all)
    ensures InOrder(all, Roots(t, all, n)) && forall i :: 0 <= i < |Roots(t, all, n)| ==> IndexOf(all, Roots(t, all, n)[i]) < n
    decreases n
  {
    hide IsRoot;
    if n > 0 {
      RootsInOrder(t, all, n - 1);
      assert IndexOf(all, all[n - 1]) == n - 1;
    }
  }

  /** In a list of blocks, an earlier head comes before a later one. */
  lemma HeadsInOrder(t: Table, all: seq<int>, ids: seq<int>, fuel: nat, i: nat, j: nat) returns (u: nat, v: nat)
    requires i < j < |ids|
    ensures u < v < |Blocks(t, all, ids, fuel)|
    ensures Blocks(t, all, ids, fuel)[u] == ids[i] && Blocks(t, all, ids, fuel)[v] == ids[j]
  {
    var a, b := BlocksAt(t, all, ids, fuel, j);
    var a1, b1 := BlocksAt(t, all, ids[..j], fuel, i);
    u, v := |a1|, |a|;
    assert Block(t, all, ids[i], fuel)[0] == ids[i] && Block(t, all, ids[j], fuel)[0] == ids[j];
    hide Blocks;
    hide Block;
    assert a[u] == ids[i];
  }

  /** x is read before y, and both are roots, or children of one parent. */
  predicate Siblings(t: Table, x: int, y: int) {
    (IsRoot(t, x) && IsRoot(t, y)) || exists p :: p in t && IsKid(t, x, p) && IsKid(t, y, p)
  }

  /** Siblings come out in the (position, id) order they were read in. */
  lemma SiblingsKeepOrder(t: Table, all: seq<int>, x: int, y: int)
    requires Forest(t) && Rows(t, all) && Siblings(t, x, y) && IndexOf(all, x) < IndexOf(all, y)
    ensures IndexOf(Listing(t, all), x) < IndexOf(Listing(t, all), y)
  {
    var out := Listing(t, all);
    var u, v: nat;
    if IsRoot(t, x) && IsRoot(t, y) {
      u, v := RootsPlaced(t, all, x, y);
    } else {
      var p :| p in t && IsKid(t, x, p) && IsKid(t, y, p);
      u, v := KidsPlaced(t, all, x, y, p);
    }
    ListingIsAPermutation(t, all);
    hide *;
    PlacedOnce(out, u);
    PlacedOnce(out, v);
  }

  lemma RootsPlaced(t: Table, all: seq<int>, x: int, y: int) returns (u: nat, v: nat)
    requires Forest(t) && Rows(t, all) && IsRoot(t, x) && IsRoot(t, y) && IndexOf(all, x) < IndexOf(all, y)
    ensures u < v < |Listing(t, all)| && Listing(t, all)[u] == x && Listing(t, all)[v] == y
  {
    RootsFit(t, all);
    RootsInOrder(t, all, |all|);
    var roots := Roots(t, all, |all|);
    hide Forest;
    var i :| 0 <= i < |roots| && roots[i] == x;
    var j :| 0 <= j < |roots| && roots[j] == y;
    u, v := HeadsInOrder(t, all, roots, MAX_CATEGORY_DEPTH - 1, i, j);
  }

  /** The children of p, each with its own subtree, follow p without a break. */
  lemma KidsFollow(t: Table, all: seq<int>, p: int) returns (a: seq<int>, b: seq<int>, left: nat)
    requires Forest(t) && Rows(t, all) && p in t && AllKids(t, all, p) != []
    ensures left > 0 && Listing(t, all) == a + ([p] + Blocks(t, all, AllKids(t, all, p), left - 1)) + b
  {
    hide Forest;
    hide Rows;
    hide AllKids;
    hide Depth;
    hide Fit;
    hide UnderSome;
    RootsFit(t, all);
    UnderARoot(t, all, p, Depth(t, p));
    a, b, left := SubtreeAt(t, all, Roots(t, all, |all|), MAX_CATEGORY_DEPTH - 1, p);
    KidsFit(t, all, p, left);
    hide Blocks;
  }

  lemma Shifted(out: seq<int>, a: seq<int>, p: int, m: seq<int>, b: seq<int>, u: nat)
    requires out == a + ([p] + m) + b && u < |m|
    ensures |a| + 1 + u < |out| && out[|a| + 1 + u] == m[u]
  {
  }

  lemma KidsPlaced(t: Table, all: seq<int>, x: int, y: int, p: int) returns (u: nat, v: nat)
    requires Forest(t) && Rows(t, all) && p in t && IsKid(t, x, p) && IsKid(t, y, p) && IndexOf(all, x) < IndexOf(all, y)
    ensures u < v < |Listing(t, all)| && Listing(t, all)[u] == x && Listing(t, all)[v] == y
  {
    hide Forest;
    hide IsKid;
    hide Block;
    hide Blocks;
    hide Listing;
    AllKidsMeans(t, all, p);
    KidsInOrder(t, all, p, |all|);
    var kids := AllKids(t, all, p);
    var i :| 0 <= i < |kids| && kids[i] == x;
    var j :| 0 <= j < |kids| && kids[j] == y;
    assert i < j;
    hide InOrder;
    hide AllKids;
    hide Rows;
    var a, b, left := KidsFollow(t, all, p);
    var u1, v1 := HeadsInOrder(t, all, kids, left - 1, i, j);
    hide *;
    Shifted(Listing(t, all), a, p, Blocks(t, all, kids, left - 1), b, u1);
    Shifted(Listing(t, all), a, p, Blocks(t, all, kids, left - 1), b, v1);
    u, v := |a| + 1 + u1, |a| + 1 + v1;
  }
}
