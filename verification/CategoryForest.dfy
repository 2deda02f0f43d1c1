/**
  The category tree (core/categories.go): a table of parent links that Create, Update, Reorder and
  Delete keep a forest at most eight levels deep, and the bounded recursive walks that rely on it -
  up for a discount's match and a category's path, down for a listing's filter and a search.
*/
module CategoryForest {
  import opened Basics

  datatype Category = Category(parent: Option<int>, title: string, position: int)
  type Table = map<int, Category>

  const MAX_CATEGORY_DEPTH: nat := 8

  // ------------------------------------------------------------------ climbing

  /** Where k steps up from id arrive. */
  function Nth(t: Table, id: int, k: nat): Option<int>
    decreases k
  {
    if id !in t then None
    else if k == 0 then Some(id)
    else if t[id].parent.None? then None
    else Nth(t, t[id].parent.value, k - 1)
  }

  lemma {:induction false} NthSplits(t: Table, id: int, a: nat, b: nat)
    ensures Nth(t, id, a + b) == if Nth(t, id, a).Some? then Nth(t, Nth(t, id, a).value, b) else None
    decreases a
  {
    if a > 0 && id in t && t[id].parent.Some? {
      NthSplits(t, t[id].parent.value, a - 1, b);
    }
  }

  lemma NthEnds(t: Table, id: int, a: nat, b: nat)
    requires a <= b && Nth(t, id, a).None?
    ensures Nth(t, id, b).None?
  {
    NthSplits(t, id, a, b - a);
  }

  // ------------------------------------------------------------------ the forest

  /** Every parent exists, and nothing can be climbed from for eight steps. */
  ghost predicate Forest(t: Table) {
    && (forall id :: id in t && t[id].parent.Some? ==> t[id].parent.value in t)
    && forall id :: id in t ==> Nth(t, id, MAX_CATEGORY_DEPTH).None?
  }

  /** Being above, with no bound: what ancestry really means. */
  ghost predicate IsAbove(t: Table, a: int, d: int) { exists k: nat :: Nth(t, d, k) == Some(a) }

  /** No category is a strict ancestor of itself. */
  lemma ForestHasNoCycle(t: Table, id: int, k: nat)
    requires Forest(t) && k > 0
    ensures Nth(t, id, k) != Some(id)
  {
    if Nth(t, id, k) == Some(id) {
      Rounds(t, id, k, MAX_CATEGORY_DEPTH);
      Multiple(k, MAX_CATEGORY_DEPTH);
      if id in t {
        NthEnds(t, id, MAX_CATEGORY_DEPTH, MAX_CATEGORY_DEPTH * k);
      }
    }
  }

  lemma Multiple(k: nat, n: nat)
    requires k > 0
    ensures n * k >= n
  {
  }

  lemma {:induction false} Rounds(t: Table, id: int, k: nat, n: nat)
    requires Nth(t, id, k) == Some(id)
    ensures Nth(t, id, n * k) == Some(id)
    decreases n
  {
    if n == 0 {
      assert 0 * k == 0;
    } else {
      Rounds(t, id, k, n - 1);
      assert n * k == (n - 1) * k + k;
      NthSplits(t, id, (n - 1) * k, k);
    }
  }

  /** In a forest eight steps are enough: the bound cuts nothing off. */
  lemma BoundIsEnough(t: Table, a: int, d: int, k: nat)
    requires Forest(t) && Nth(t, d, k) == Some(a)
    ensures k < MAX_CATEGORY_DEPTH
  {
    if k >= MAX_CATEGORY_DEPTH {
      NthEnds(t, d, MAX_CATEGORY_DEPTH, k);
    }
  }

  // ------------------------------------------------------------------ the walks

  /** ancestorIDs: the ids above, nearest first, at most fuel of them. */
  function AncestorIDs(t: Table, id: int, fuel: nat): seq<int>
    requires id in t
    decreases fuel
  {
    if fuel == 0 || t[id].parent.None? || t[id].parent.value !in t then []
    else [t[id].parent.value] + AncestorIDs(t, t[id].parent.value, fuel - 1)
  }

  /** depthOf: how many levels sit above; a root is 0. */
  function Depth(t: Table, id: int): nat { if id in t then |AncestorIDs(t, id, MAX_CATEGORY_DEPTH)| else 0 }

  /** One level of a downward walk: the rows whose parent is on the level above. */
  function Level(t: Table, a: int, k: nat): set<int>
    decreases k
  {
    if k == 0 then if a in t then {a} else {}
    else set c | c in t && t[c].parent.Some? && t[c].parent.value in Level(t, a, k - 1)
  }

  /** categoryFilter: a category and everything under it, walked downwards to depth fuel. */
  function Down(t: Table, a: int, fuel: nat): set<int>
    decreases fuel
  {
    if fuel == 0 then Level(t, a, 0) else Down(t, a, fuel - 1) + Level(t, a, fuel)
  }

  /** subtreeHeight: the deepest level, as far as fuel looks, that holds anything. */
  function Height(t: Table, a: int, fuel: nat): nat
    decreases fuel
  {
    if fuel == 0 then 0
    else if Level(t, a, fuel) != {} then fuel
    else Height(t, a, fuel - 1)
  }

  lemma {:induction false} LevelIsClimb(t: Table, a: int, c: int, k: nat)
    ensures c in Level(t, a, k) <==> Nth(t, c, k) == Some(a)
    decreases k
  {
    if k > 0 && c in t && t[c].parent.Some? {
      LevelIsClimb(t, a, t[c].parent.value, k - 1);
    }
  }

  lemma {:induction false} DownIsClimb(t: Table, a: int, c: int, fuel: nat)
    ensures c in Down(t, a, fuel) <==> exists k: nat :: k <= fuel && Nth(t, c, k) == Some(a)
    decreases fuel
  {
    LevelIsClimb(t, a, c, fuel);
    if fuel > 0 {
      DownIsClimb(t, a, c, fuel - 1);
    }
  }

  lemma {:induction false} HeightCovers(t: Table, a: int, c: int, k: nat, fuel: nat)
    requires k <= fuel && Nth(t, c, k) == Some(a)
    ensures k <= Height(t, a, fuel) <= fuel
    decreases fuel
  {
    LevelIsClimb(t, a, c, k);
    if fuel > 0 && Level(t, a, fuel) == {} {
      HeightCovers(t, a, c, k, fuel - 1);
    }
  }

  lemma {:induction false} AncestorsAreClimbs(t: Table, id: int, fuel: nat)
    requires id in t
    ensures var up := AncestorIDs(t, id, fuel);
      && |up| <= fuel
      && (forall i :: 0 <= i < |up| ==> Nth(t, id, i + 1) == Some(up[i]))
      && (if |up| < fuel then Nth(t, id, |up| + 1).None? else Nth(t, id, fuel).Some?)
    decreases fuel
  {
    if fuel > 0 && t[id].parent.Some? {
      var p := t[id].parent.value;
      if p in t {
        AncestorsAreClimbs(t, p, fuel - 1);
        var up := AncestorIDs(t, p, fuel - 1);
        forall i | 0 <= i < |up| + 1 ensures Nth(t, id, i + 1) == Some(AncestorIDs(t, id, fuel)[i]) {
          if i > 0 {
            assert Nth(t, p, i - 1 + 1) == Some(up[i - 1]);
          }
        }
      }
    }
  }

  /** In a forest the walk up reaches the root, however it is bounded by eight. */
  lemma AncestorsAreComplete(t: Table, id: int)
    requires Forest(t) && id in t
    ensures var up := AncestorIDs(t, id, MAX_CATEGORY_DEPTH);
      && |up| < MAX_CATEGORY_DEPTH
      && Nth(t, id, |up| + 1).None?
      && forall a :: a in up <==> a != id && IsAbove(t, a, id)
  {
    var up := AncestorIDs(t, id, MAX_CATEGORY_DEPTH);
    AncestorsAreClimbs(t, id, MAX_CATEGORY_DEPTH);
    forall a | a in up ensures a != id && IsAbove(t, a, id) {
      var i :| 0 <= i < |up| && up[i] == a;
      assert Nth(t, id, i + 1) == Some(a);
      ForestHasNoCycle(t, id, i + 1);
    }
    forall a | a != id && IsAbove(t, a, id) ensures a in up {
      var k: nat :| Nth(t, id, k) == Some(a);
      assert k > 0;
      if k > |up| {
        NthEnds(t, id, |up| + 1, k);
      } else {
        assert Nth(t, id, k - 1 + 1) == Some(up[k - 1]);
      }
    }
  }

  // ------------------------------------------------------------------ matching

  /** matchedProducts for a category rule: the product's own category or one above it is a target. */
  predicate MatchedUp(t: Table, category: int, targets: set<int>) {
    category in t && exists a :: a in targets && (a == category || a in AncestorIDs(t, category, MAX_CATEGORY_DEPTH))
  }

  /** The same products, by walking down from each target as a listing does. */
  predicate ListedDown(t: Table, category: int, targets: set<int>) {
    exists a :: a in targets && category in Down(t, a, MAX_CATEGORY_DEPTH)
  }

  lemma DownIsAncestry(t: Table, a: int, c: int)
    requires Forest(t)
    ensures c in Down(t, a, MAX_CATEGORY_DEPTH) <==> IsAbove(t, a, c)
  {
    DownIsClimb(t, a, c, MAX_CATEGORY_DEPTH);
    if IsAbove(t, a, c) {
      var k: nat :| Nth(t, c, k) == Some(a);
      BoundIsEnough(t, a, c, k);
    }
  }

  lemma UpIsAncestry(t: Table, a: int, c: int)
    requires Forest(t)
    ensures c in t && (a == c || a in AncestorIDs(t, c, MAX_CATEGORY_DEPTH)) <==> IsAbove(t, a, c)
  {
    if c in t {
      AncestorsAreComplete(t, c);
      assert Nth(t, c, 0) == Some(c);
    }
  }

  /**
    A discount on categories reaches exactly the products a listing of those categories shows, and
    that is true ancestry, with nothing lost to either walk's bound.
  */
  lemma MatchIsListingIsAncestry(t: Table, category: int, targets: set<int>)
    requires Forest(t)
    ensures MatchedUp(t, category, targets) <==> ListedDown(t, category, targets)
    ensures MatchedUp(t, category, targets) <==> exists a :: a in targets && IsAbove(t, a, category)
  {
    forall a
      ensures category in Down(t, a, MAX_CATEGORY_DEPTH) <==> IsAbove(t, a, category)
      ensures category in t && (a == category || a in AncestorIDs(t, category, MAX_CATEGORY_DEPTH)) <==> IsAbove(t, a, category)
    {
      DownIsAncestry(t, a, category);
      UpIsAncestry(t, a, category);
    }
    hide Down;
    hide AncestorIDs;
    hide IsAbove;
    hide Forest;
  }

  // ------------------------------------------------------------------ paths

  const SEPARATOR: string := " / "

  /** One step of categoryPaths' climb, from a row whose parent column is parent. */
  function PathUp(t: Table, parent: Option<int>, path: string, depth: nat, fuel: nat): (string, nat)
    decreases fuel
  {
    if fuel == 0 || parent.None? || parent.value !in t then (path, depth)
    else PathUp(t, t[parent.value].parent, t[parent.value].title + SEPARATOR + path, depth + 1, fuel - 1)
  }

  /** categoryPaths: the row that got furthest. */
  function CategoryPath(t: Table, id: int): (string, nat)
    requires id in t
  {
    PathUp(t, t[id].parent, t[id].title, 0, MAX_CATEGORY_DEPTH)
  }

  /** A row of Search's downward walk from the roots. */
  ghost predicate SearchRow(t: Table, id: int, path: string, depth: nat)
    decreases depth
  {
    id in t &&
    if depth == 0 then t[id].parent.None? && path == t[id].title
    else
      && depth <= MAX_CATEGORY_DEPTH && t[id].parent.Some?
      && exists above: string :: SearchRow(t, t[id].parent.value, above, depth - 1) && path == above + SEPARATOR + t[id].title
  }

  function Titles(t: Table, ids: seq<int>): seq<string>
    requires forall i :: 0 <= i < |ids| ==> ids[i] in t
  {
    seq(|ids|, i requires 0 <= i < |ids| => t[ids[i]].title)
  }

  /** strings.Join(titles, " / "). */
  function Join(titles: seq<string>): string {
    if titles == [] then ""
    else if |titles| == 1 then titles[0]
    else Join(titles[..|titles| - 1]) + SEPARATOR + titles[|titles| - 1]
  }

  /** The chain from the root to id, as Ancestors returns it. */
  function Chain(t: Table, id: int, fuel: nat): seq<int>
    requires id in t
    decreases fuel
  {
    if fuel == 0 || t[id].parent.None? || t[id].parent.value !in t then [id]
    else Chain(t, t[id].parent.value, fuel - 1) + [id]
  }

  lemma {:induction false} ChainIsInTable(t: Table, id: int, fuel: nat)
    requires id in t
    ensures var c := Chain(t, id, fuel); c != [] && c[|c| - 1] == id && forall i :: 0 <= i < |c| ==> c[i] in t
    decreases fuel
  {
    if fuel > 0 && t[id].parent.Some? && t[id].parent.value in t {
      ChainIsInTable(t, t[id].parent.value, fuel - 1);
    }
  }

  /** FullName of the last of Ancestors' chain. */
  function AncestorsName(t: Table, id: int, fuel: nat): string
    requires id in t
  {
    ChainIsInTable(t, id, fuel);
    Join(Titles(t, Chain(t, id, fuel)))
  }

  /** Joining the chain adds one title and one separator for each level. */
  lemma AncestorsNameStep(t: Table, id: int, fuel: nat)
    requires id in t && fuel > 0 && t[id].parent.Some? && t[id].parent.value in t
    ensures AncestorsName(t, id, fuel) == AncestorsName(t, t[id].parent.value, fuel - 1) + SEPARATOR + t[id].title
  {
    var p := t[id].parent.value;
    ChainIsInTable(t, p, fuel - 1);
    ChainIsInTable(t, id, fuel);
    var titles := Titles(t, Chain(t, id, fuel));
    assert titles[..|titles| - 1] == Titles(t, Chain(t, p, fuel - 1));
  }

  /** Climbing with a path in hand puts the parent's whole path in front of it. */
  lemma {:induction false} PathUpIsName(t: Table, id: int, fuel: nat, path: string, depth: nat)
    requires id in t
    ensures PathUp(t, Some(id), path, depth, fuel + 1) ==
      (AncestorsName(t, id, fuel) + SEPARATOR + path, depth + |Chain(t, id, fuel)|)
    decreases fuel
  {
    var title := t[id].title;
    var longer := title + SEPARATOR + path;
    assert PathUp(t, Some(id), path, depth, fuel + 1) == PathUp(t, t[id].parent, longer, depth + 1, fuel);
    if fuel > 0 && t[id].parent.Some? && t[id].parent.value in t {
      var p := t[id].parent.value;
      PathUpIsName(t, p, fuel - 1, longer, depth + 1);
      AncestorsNameStep(t, id, fuel);
      var above := AncestorsName(t, p, fuel - 1);
      assert above + SEPARATOR + longer == above + SEPARATOR + title + SEPARATOR + path;
    } else {
      assert Chain(t, id, fuel) == [id];
      assert Titles(t, [id]) == [title];
    }
  }

  ghost predicate ParentsExist(t: Table) { forall id :: id in t && t[id].parent.Some? ==> t[id].parent.value in t }

  lemma {:induction false} SearchRowIsName(t: Table, id: int, path: string, depth: nat, fuel: nat)
    requires SearchRow(t, id, path, depth) && depth <= fuel
    ensures path == AncestorsName(t, id, fuel) && depth == |Chain(t, id, fuel)| - 1
    decreases depth
  {
    if depth == 0 {
      assert Chain(t, id, fuel) == [id];
      assert Titles(t, [id]) == [t[id].title];
    } else {
      var p := t[id].parent.value;
      var above :| SearchRow(t, p, above, depth - 1) && path == above + SEPARATOR + t[id].title;
      SearchRowIsName(t, p, above, depth - 1, fuel - 1);
      AncestorsNameStep(t, id, fuel);
    }
  }

  lemma {:induction false} NameIsSearchRow(t: Table, id: int, fuel: nat)
    requires ParentsExist(t) && id in t && Nth(t, id, fuel + 1).None? && fuel <= MAX_CATEGORY_DEPTH
    ensures |Chain(t, id, fuel)| - 1 <= fuel
    ensures SearchRow(t, id, AncestorsName(t, id, fuel), |Chain(t, id, fuel)| - 1)
    decreases fuel
  {
    if t[id].parent.None? {
      assert Chain(t, id, fuel) == [id];
      assert Titles(t, [id]) == [t[id].title];
    } else {
      var p := t[id].parent.value;
      assert Nth(t, p, 0) == Some(p);
      assert Nth(t, id, fuel + 1) == Nth(t, p, fuel);
      hide AncestorsName;
      NameIsSearchRow(t, p, fuel - 1);
      AncestorsNameStep(t, id, fuel);
      ChainIsInTable(t, p, fuel - 1);
    }
  }

  /**
    A category has one path, whichever way it is read: climbing from it with categoryPaths, walking
    down to it in a search - which finds it exactly once - or joining what Ancestors returns.
  */
  lemma OnePath(t: Table, id: int)
    requires Forest(t) && id in t
    ensures var name, depth := AncestorsName(t, id, MAX_CATEGORY_DEPTH), |Chain(t, id, MAX_CATEGORY_DEPTH)| - 1;
      && CategoryPath(t, id) == (name, depth)
      && forall path: string, d: nat :: SearchRow(t, id, path, d) <==> path == name && d == depth
  {
    NthEnds(t, id, MAX_CATEGORY_DEPTH, MAX_CATEGORY_DEPTH + 1);
    NameIsSearchRow(t, id, MAX_CATEGORY_DEPTH);
    forall path: string, d: nat | SearchRow(t, id, path, d)
      ensures path == AncestorsName(t, id, MAX_CATEGORY_DEPTH) && d == |Chain(t, id, MAX_CATEGORY_DEPTH)| - 1
    {
      SearchRowIsName(t, id, path, d, MAX_CATEGORY_DEPTH);
    }
    CategoryPathIsName(t, id);
  }

  lemma CategoryPathIsName(t: Table, id: int)
    requires ParentsExist(t) && id in t
    ensures CategoryPath(t, id) == (AncestorsName(t, id, MAX_CATEGORY_DEPTH), |Chain(t, id, MAX_CATEGORY_DEPTH)| - 1)
  {
    if t[id].parent.None? {
      assert Chain(t, id, MAX_CATEGORY_DEPTH) == [id];
      assert Titles(t, [id]) == [t[id].title];
    } else {
      PathUpIsName(t, t[id].parent.value, MAX_CATEGORY_DEPTH - 1, t[id].title, 0);
      AncestorsNameStep(t, id, MAX_CATEGORY_DEPTH);
    }
  }

  /** A chain that has reached the root does not grow with more fuel. */
  lemma {:induction false} ChainStable(t: Table, id: int, f: nat, g: nat)
    requires ParentsExist(t) && id in t && Nth(t, id, f + 1).None? && f <= g
    ensures Chain(t, id, g) == Chain(t, id, f)
    decreases f
  {
    if t[id].parent.Some? {
      var p := t[id].parent.value;
      assert Nth(t, p, 0) == Some(p);
      assert Nth(t, id, f + 1) == Nth(t, p, f);
      ChainStable(t, p, f - 1, g - 1);
    }
  }

  /** Every category on the chain has, as its own chain, the part of it down to there. */
  lemma {:induction false} ChainPrefix(t: Table, id: int, f: nat, i: nat)
    requires ParentsExist(t) && id in t && Nth(t, id, f + 1).None? && i < |Chain(t, id, f)|
    ensures Chain(t, id, f)[i] in t && Chain(t, Chain(t, id, f)[i], f) == Chain(t, id, f)[..i + 1]
    decreases f
  {
    ChainIsInTable(t, id, f);
    var c := Chain(t, id, f);
    if i == |c| - 1 {
      assert c[..i + 1] == c;
    } else {
      var p := t[id].parent.value;
      assert Nth(t, p, 0) == Some(p);
      assert Nth(t, id, f + 1) == Nth(t, p, f);
      ChainPrefix(t, p, f - 1, i);
      var x := c[i];
      ChainStable(t, p, f - 1, f);
      assert c[..i + 1] == Chain(t, p, f - 1)[..i + 1];
      ChainReaches(t, p, f - 1, i);
      ChainStable(t, x, f - 1, f);
    }
  }

  /** Nothing on a chain is deeper than its last category. */
  lemma {:induction false} ChainReaches(t: Table, id: int, f: nat, i: nat)
    requires ParentsExist(t) && id in t && Nth(t, id, f + 1).None? && i < |Chain(t, id, f)|
    ensures Chain(t, id, f)[i] in t && Nth(t, Chain(t, id, f)[i], f + 1).None?
    decreases f
  {
    ChainIsInTable(t, id, f);
    if i < |Chain(t, id, f)| - 1 {
      var p := t[id].parent.value;
      assert Nth(t, p, 0) == Some(p);
      assert Nth(t, id, f + 1) == Nth(t, p, f);
      ChainReaches(t, p, f - 1, i);
      NthEnds(t, Chain(t, p, f - 1)[i], f, f + 1);
    }
  }

  /** Each title in turn is joined to all those before it. */
  method JoinPrefixes(titles: seq<string>) returns (names: seq<string>)
    ensures |names| == |titles| && forall i :: 0 <= i < |names| ==> names[i] == Join(titles[..i + 1])
  {
    names := [];
    var soFar: seq<string> := [];
    for i := 0 to |titles|
      invariant soFar == titles[..i] && |names| == i
      invariant forall j :: 0 <= j < i ==> names[j] == Join(titles[..j + 1])
    {
      soFar := soFar + [titles[i]];
      names := names + [Join(soFar)];
    }
  }

  /**
    Ancestors: the chain from the root, each category with the name and depth its own path gives
    it. An unknown id is an empty chain.
  */
  method Ancestors(t: Table, id: int) returns (chain: seq<int>, names: seq<string>)
    requires Forest(t)
    ensures chain == if id in t then Chain(t, id, MAX_CATEGORY_DEPTH) else []
    ensures |names| == |chain|
    ensures forall i :: 0 <= i < |chain| ==> chain[i] in t && CategoryPath(t, chain[i]) == (names[i], i)
  {
    if id !in t {
      return [], [];
    }
    chain := Chain(t, id, MAX_CATEGORY_DEPTH);
    ChainIsInTable(t, id, MAX_CATEGORY_DEPTH);
    var titles := Titles(t, chain);
    assert |titles| == |chain|;
    hide *;
    names := JoinPrefixes(titles);
    forall i | 0 <= i < |chain| ensures CategoryPath(t, chain[i]) == (names[i], i) {
      NamedAsItself(t, id, i);
      TitlesOfPrefix(t, chain, i + 1);
    }
  }

  lemma TitlesOfPrefix(t: Table, ids: seq<int>, n: nat)
    requires n <= |ids| && forall j :: 0 <= j < |ids| ==> ids[j] in t
    ensures |Titles(t, ids)| == |ids| && Titles(t, ids)[..n] == Titles(t, ids[..n])
  {
  }

  lemma NamedAsItself(t: Table, id: int, i: nat)
    requires Forest(t) && id in t && i < |Chain(t, id, MAX_CATEGORY_DEPTH)|
    ensures var chain := Chain(t, id, MAX_CATEGORY_DEPTH);
      && chain[i] in t && (forall j :: 0 <= j < |chain| ==> chain[j] in t)
      && CategoryPath(t, chain[i]) == (Join(Titles(t, chain[..i + 1])), i)
  {
    NthEnds(t, id, MAX_CATEGORY_DEPTH, MAX_CATEGORY_DEPTH + 1);
    ChainIsInTable(t, id, MAX_CATEGORY_DEPTH);
    ChainPrefix(t, id, MAX_CATEGORY_DEPTH, i);
    CategoryPathIsName(t, Chain(t, id, MAX_CATEGORY_DEPTH)[i]);
    hide CategoryPath;
    hide Join;
  }

  // ------------------------------------------------------------------ what keeps the forest

  /** The same table, but for where id hangs. */
  ghost predicate Moved(t: Table, u: Table, id: int, p: int) {
    && id in t && u.Keys == t.Keys && u[id].parent == Some(p)
    && forall y :: y in t && y != id ==> u[y].parent == t[y].parent
  }

  lemma {:induction false} ClimbElsewhere(t: Table, u: Table, id: int, p: int, x: int, k: nat)
    requires Moved(t, u, id, p) && forall j: nat :: Nth(t, x, j) != Some(id)
    ensures Nth(u, x, k) == Nth(t, x, k)
    decreases k
  {
    if x in t {
      assert Nth(t, x, 0) == Some(x);
      if k > 0 && t[x].parent.Some? {
        var q := t[x].parent.value;
        forall j: nat ensures Nth(t, q, j) != Some(id) {
          assert Nth(t, x, j + 1) == Nth(t, q, j);
        }
        ClimbElsewhere(t, u, id, p, q, k - 1);
      }
    }
  }

  /** From x, h steps under id, the climb goes on from id's new parent. */
  lemma {:induction false} ClimbThrough(t: Table, u: Table, id: int, p: int, x: int, h: nat, m: nat)
    requires Moved(t, u, id, p) && Nth(t, x, h) == Some(id) && forall j: nat :: j < h ==> Nth(t, x, j) != Some(id)
    ensures Nth(u, x, h + 1 + m) == Nth(u, p, m)
    decreases h
  {
    if h > 0 {
      assert Nth(t, x, 0) == Some(x);
      var q := t[x].parent.value;
      forall j: nat | j < h - 1 ensures Nth(t, q, j) != Some(id) {
        assert Nth(t, x, j + 1) == Nth(t, q, j);
      }
      ClimbThrough(t, u, id, p, q, h - 1, m);
    }
  }

  /** The first time a climb from x meets id. */
  lemma {:induction false} FirstMeeting(t: Table, id: int, x: int, k: nat) returns (h: nat)
    requires Nth(t, x, k) == Some(id)
    ensures h <= k && Nth(t, x, h) == Some(id) && forall j: nat :: j < h ==> Nth(t, x, j) != Some(id)
    decreases k
  {
    if j: nat :| j < k && Nth(t, x, j) == Some(id) {
      h := FirstMeeting(t, id, x, j);
    } else {
      h := k;
    }
  }

  lemma MovedUnder(t: Table, u: Table, id: int, p: int, x: int, k: nat)
    requires Forest(t) && Moved(t, u, id, p) && p in t && !IsAbove(t, id, p) && Nth(t, x, k) == Some(id)
    requires var up := AncestorIDs(t, p, MAX_CATEGORY_DEPTH);
      |up| + 1 + Height(t, id, MAX_CATEGORY_DEPTH) < MAX_CATEGORY_DEPTH && Nth(t, p, |up| + 1).None?
    ensures Nth(u, x, MAX_CATEGORY_DEPTH).None?
  {
    var h := FirstMeeting(t, id, x, k);
    BoundIsEnough(t, id, x, h);
    HeightCovers(t, id, x, h, MAX_CATEGORY_DEPTH);
    hide Forest;
    var m := MAX_CATEGORY_DEPTH - h - 1;
    ClimbThrough(t, u, id, p, x, h, m);
    assert Nth(u, x, h + 1 + m) == Nth(u, p, m);
    assert h + 1 + m == MAX_CATEGORY_DEPTH;
    ClimbElsewhere(t, u, id, p, p, m);
    NthEnds(t, p, |AncestorIDs(t, p, MAX_CATEGORY_DEPTH)| + 1, m);
  }

  /** checkReparent lets the move through. */
  predicate MayMove(t: Table, id: int, p: int)
    requires p in t
  {
    && p != id && id !in AncestorIDs(t, p, MAX_CATEGORY_DEPTH)
    && |AncestorIDs(t, p, MAX_CATEGORY_DEPTH)| + 1 + Height(t, id, MAX_CATEGORY_DEPTH) < MAX_CATEGORY_DEPTH
  }

  lemma AllowedMoveKeepsForest(t: Table, u: Table, id: int, p: int)
    requires Forest(t) && p in t && Moved(t, u, id, p) && MayMove(t, id, p)
    ensures Forest(u)
  {
    AncestorsAreComplete(t, p);
    assert !IsAbove(t, id, p);
    forall x | x in u ensures Nth(u, x, MAX_CATEGORY_DEPTH).None? {
      assert Nth(t, x, MAX_CATEGORY_DEPTH).None?;
      if k: nat :| Nth(t, x, k) == Some(id) {
        hide *;
        MovedUnder(t, u, id, p, x, k);
      } else {
        hide Forest;
        ClimbElsewhere(t, u, id, p, x, MAX_CATEGORY_DEPTH);
      }
    }
    assert forall y :: y in u && u[y].parent.Some? ==> u[y].parent.value in u;
    hide Nth;
  }

  lemma {:induction false} HeightIsReached(t: Table, a: int, fuel: nat) returns (x: int)
    requires a in t
    ensures Nth(t, x, Height(t, a, fuel)) == Some(a)
    decreases fuel
  {
    if fuel == 0 {
      x := a;
    } else if Level(t, a, fuel) == {} {
      x := HeightIsReached(t, a, fuel - 1);
    } else {
      x := Member(Level(t, a, fuel));
      LevelIsClimb(t, a, x, fuel);
    }
  }

  ghost function Member(s: set<int>): (x: int)
    requires s != {}
    ensures x in s
  {
    NonEmpty(s);
    var x :| x in s;
    x
  }

  lemma LoopBreaksForest(t: Table, u: Table, id: int, p: int, k: nat)
    requires Moved(t, u, id, p) && p in t && Nth(t, p, k) == Some(id)
    ensures !Forest(u)
  {
    var h := FirstMeeting(t, id, p, k);
    ClimbThrough(t, u, id, p, p, h, 0);
    assert Nth(u, p, h + 1 + 0) == Some(p);
    if Forest(u) {
      ForestHasNoCycle(u, p, h + 1);
    }
  }

  /** A category as far under id as any, met by the climb only there. */
  lemma DeepestUnder(t: Table, id: int) returns (x: int)
    requires Forest(t) && id in t
    ensures var h := Height(t, id, MAX_CATEGORY_DEPTH);
      Nth(t, x, h) == Some(id) && forall j: nat :: j < h ==> Nth(t, x, j) != Some(id)
  {
    var height := Height(t, id, MAX_CATEGORY_DEPTH);
    x := HeightIsReached(t, id, MAX_CATEGORY_DEPTH);
    var h := FirstMeeting(t, id, x, height);
    if h < height {
      NthSplits(t, x, h, height - h);
      ForestHasNoCycle(t, id, height - h);
    }
  }

  lemma LastAncestor(t: Table, p: int)
    requires p in t
    ensures Nth(t, p, |AncestorIDs(t, p, MAX_CATEGORY_DEPTH)|).Some?
  {
    var depth := |AncestorIDs(t, p, MAX_CATEGORY_DEPTH)|;
    AncestorsAreClimbs(t, p, MAX_CATEGORY_DEPTH);
    assert Nth(t, p, 0) == Some(p);
    if depth > 0 {
      assert Nth(t, p, depth - 1 + 1) == Some(AncestorIDs(t, p, MAX_CATEGORY_DEPTH)[depth - 1]);
    }
  }

  lemma DepthBreaksForest(t: Table, u: Table, id: int, p: int)
    requires Forest(t) && Moved(t, u, id, p) && p in t && !IsAbove(t, id, p)
    requires |AncestorIDs(t, p, MAX_CATEGORY_DEPTH)| + 1 + Height(t, id, MAX_CATEGORY_DEPTH) >= MAX_CATEGORY_DEPTH
    ensures !Forest(u)
  {
    var depth, height := |AncestorIDs(t, p, MAX_CATEGORY_DEPTH)|, Height(t, id, MAX_CATEGORY_DEPTH);
    LastAncestor(t, p);
    assert forall j: nat :: Nth(t, p, j) != Some(id);
    assert id in t;
    hide *;
    var x := DeepestUnder(t, id);
    ClimbThrough(t, u, id, p, x, height, depth);
    ClimbElsewhere(t, u, id, p, p, depth);
    TooDeep(u, x, height + 1 + depth);
  }

  lemma TooDeep(t: Table, x: int, k: nat)
    requires Nth(t, x, k).Some? && k >= MAX_CATEGORY_DEPTH
    ensures !Forest(t)
  {
    if Nth(t, x, MAX_CATEGORY_DEPTH).None? {
      NthEnds(t, x, MAX_CATEGORY_DEPTH, k);
    }
  }

  /**
    checkReparent is exactly the right test: a move keeps the forest if and only if it is let
    through. Nothing it allows makes a cycle or nests too deep, and it refuses nothing it need not.
  */
  lemma MoveKeepsForestExactly(t: Table, u: Table, id: int, p: int)
    requires Forest(t) && p in t && Moved(t, u, id, p)
    ensures Forest(u) <==> MayMove(t, id, p)
  {
    if MayMove(t, id, p) {
      AllowedMoveKeepsForest(t, u, id, p);
    } else {
      AncestorsAreComplete(t, p);
      assert Nth(t, p, 0) == Some(p);
      if IsAbove(t, id, p) {
        var k: nat :| Nth(t, p, k) == Some(id);
        LoopBreaksForest(t, u, id, p, k);
      } else {
        DepthBreaksForest(t, u, id, p);
      }
    }
  }
}
