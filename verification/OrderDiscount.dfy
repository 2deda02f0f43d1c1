/**
  A discount on an order whose lines are edited (core/discounts.go, recomputeOrderDiscount, and the
  totals EditLines writes in core/orders.go). The rule is read as it is now; the snapshot on the
  order moves with the amount.
*/
module OrderDiscount {
  import opened Basics
  import opened CategoryForest
  import opened Discounts

  /** The row beside an order: the kind it was sold under and what came off. */
  datatype Snapshot = Snapshot(kind: Kind, amount: int)
  datatype Refusal = NoLongerApplies | BelowItsMinimum
  datatype Result = Ok(amount: int) | No(why: Refusal)

  function Min(a: int, b: int): int { if a < b then a else b }

  predicate Scoped(rule: Option<Discount>) { rule.Some? && rule.value.scope != WholeOrder }

  predicate BelowMinimumNow(rule: Option<Discount>, subtotal: int) {
    rule.Some? && rule.value.minSubtotal.Some? && subtotal < rule.value.minSubtotal.value
  }

  /** A rule that is None has been deleted; a snapshot that is None was never there. */
  function Recomputed(cat: Catalog, snap: Option<Snapshot>, rule: Option<Discount>, lines: seq<Line>, current: int): Result {
    var subtotal := Total(lines);
    if snap.None? then Ok(Min(current, subtotal))
    else if Scoped(rule) then
      var base := CoveredTotal(cat, rule.value, lines);
      if base == 0 then No(NoLongerApplies)
      else if BelowMinimumNow(rule, subtotal) then No(BelowItsMinimum)
      else if snap.value.kind == Percentage then Ok(Min(PercentOf(base, rule.value.valueBP), subtotal))
      else Ok(Min(Min(current, base), subtotal))
    else if snap.value.kind != Percentage then Ok(Min(current, subtotal))
    else if rule.None? then Ok(Min(current, subtotal))
    else if BelowMinimumNow(rule, subtotal) then No(BelowItsMinimum)
    else Ok(Min(PercentOf(subtotal, rule.value.valueBP), subtotal))
  }

  /** The part of the basket the discount may still come off. */
  function Cap(cat: Catalog, rule: Option<Discount>, lines: seq<Line>): int {
    if Scoped(rule) then CoveredTotal(cat, rule.value, lines) else Total(lines)
  }

  /** A live percentage is taken again; anything else is an amount that stands as far as it can. */
  predicate TakenAgain(snap: Option<Snapshot>, rule: Option<Discount>) {
    snap.Some? && snap.value.kind == Percentage && rule.Some?
  }

  predicate RuleOk(rule: Option<Discount>) { rule.Some? ==> 0 <= rule.value.valueBP <= 10000 }

  /** Whatever is edited, the discount stays between nothing and the part of the order it covers. */
  lemma RecomputedWithin(cat: Catalog, snap: Option<Snapshot>, rule: Option<Discount>, lines: seq<Line>, current: int)
    requires Priced(lines) && RuleOk(rule) && current >= 0 && Recomputed(cat, snap, rule, lines, current).Ok?
    ensures var amount := Recomputed(cat, snap, rule, lines, current).amount;
      && 0 <= amount <= Total(lines)
      && (snap.Some? ==> amount <= Cap(cat, rule, lines))
      && (!TakenAgain(snap, rule) ==> amount <= current)
  {
    if rule.Some? {
      CoveredWithinTotal(cat, rule.value, lines);
      PercentWithin(CoveredTotal(cat, rule.value, lines), rule.value.valueBP);
    }
    TotalNotNegative(lines);
    if rule.Some? {
      PercentWithin(Total(lines), rule.value.valueBP);
    }
    hide PercentOf;
    hide Total;
    hide CoveredTotal;
  }

  /** Exactly which edits are refused: an order-wide fixed amount is never held to the minimum. */
  lemma RefusedExactly(cat: Catalog, snap: Option<Snapshot>, rule: Option<Discount>, lines: seq<Line>, current: int)
    ensures Recomputed(cat, snap, rule, lines, current).No? <==>
      && snap.Some? && rule.Some?
      && (|| (Scoped(rule) && CoveredTotal(cat, rule.value, lines) == 0)
          || (BelowMinimumNow(rule, Total(lines)) && (Scoped(rule) || snap.value.kind == Percentage)))
  {
  }

  /** Editing nothing changes nothing: judged again on the same basket, the amount checkout took stands. */
  lemma SameBasketSameDiscount(env: Env, d: Discount, req: Request)
    requires Judge(env, d, req).Eligible? && ValueFits(d) && Priced(req.lines)
    ensures var amount := Amount(d, Judge(env, d, req).base);
      Recomputed(env.catalog, Some(Snapshot(d.kind, amount)), Some(d), req.lines, amount) == Ok(amount)
  {
    hide Judge;
    hide PercentOf;
    hide Total;
    hide CoveredTotal;
    JudgedBasket(env, d, req);
    CoveredWithinTotal(env.catalog, d, req.lines);
    if d.kind == Percentage {
      PercentWithin(CoveredTotal(env.catalog, d, req.lines), d.valueBP);
    }
    if d.scope == WholeOrder {
      WholeOrderCoversAll(env.catalog, d, req.lines);
    }
  }

  lemma JudgedBasket(env: Env, d: Discount, req: Request)
    requires Judge(env, d, req).Eligible?
    ensures var base := Judge(env, d, req).base;
      && base == CoveredTotal(env.catalog, d, req.lines)
      && (d.scope == WholeOrder ==> base == Total(req.lines))
      && (d.scope != WholeOrder ==> base != 0)
      && !BelowMinimumNow(Some(d), Total(req.lines))
  {
    if d.scope == WholeOrder {
      WholeOrderCoversAll(env.catalog, d, req.lines);
    }
    hide CoveredTotal;
    hide Total;
    hide Mask;
    hide Trim;
    hide Fold;
  }

  // ------------------------------------------------------------------ many edits

  /** The discount after the first n attempted baskets; a refused edit leaves it as it was. */
  function AfterEdits(cat: Catalog, snap: Option<Snapshot>, rule: Option<Discount>, start: int, baskets: seq<seq<Line>>, n: nat): int
    requires n <= |baskets|
    decreases n
  {
    if n == 0 then start else
    var before := AfterEdits(cat, snap, rule, start, baskets, n - 1);
    match Recomputed(cat, snap, rule, baskets[n - 1], before)
    case Ok(amount) => amount
    case No(_) => before
  }

  /** Whether an edit is accepted depends on the basket, never on the amount already off. */
  predicate Accepted(cat: Catalog, snap: Option<Snapshot>, rule: Option<Discount>, lines: seq<Line>) {
    Recomputed(cat, snap, rule, lines, 0).Ok?
  }

  /** A live percentage is a function of the basket it ends on: no earlier edit can be felt. */
  lemma PercentageForgetsThePast(cat: Catalog, snap: Option<Snapshot>, rule: Option<Discount>,
                                 start: int, baskets: seq<seq<Line>>, n: nat)
    requires TakenAgain(snap, rule) && 0 < n <= |baskets| && RuleOk(rule)
    requires Accepted(cat, snap, rule, baskets[n - 1]) && Priced(baskets[n - 1])
    ensures AfterEdits(cat, snap, rule, start, baskets, n) == PercentOf(Cap(cat, rule, baskets[n - 1]), rule.value.valueBP)
  {
    var lines := baskets[n - 1];
    CoveredWithinTotal(cat, rule.value, lines);
    TotalNotNegative(lines);
    PercentWithin(Cap(cat, rule, lines), rule.value.valueBP);
    hide PercentOf;
    hide Total;
    hide CoveredTotal;
  }

  ghost predicate FitsEvery(cat: Catalog, snap: Option<Snapshot>, rule: Option<Discount>, baskets: seq<seq<Line>>, n: nat, amount: int)
    requires n <= |baskets|
  {
    forall i :: 0 <= i < n && Accepted(cat, snap, rule, baskets[i]) ==> amount <= Cap(cat, rule, baskets[i])
  }

  ghost predicate Attained(cat: Catalog, snap: Option<Snapshot>, rule: Option<Discount>, start: int,
                           baskets: seq<seq<Line>>, n: nat, amount: int)
    requires n <= |baskets|
  {
    amount == start
    || exists i :: 0 <= i < n && Accepted(cat, snap, rule, baskets[i]) && amount == Cap(cat, rule, baskets[i])
  }

  /**
    A fixed amount only ratchets down: after any edits it is the least of what was first taken off
    and what each basket on the way could bear. Putting the lines back does not bring it back.
  */
  lemma {:induction false} FixedIsTheLeastEverCovered(cat: Catalog, snap: Option<Snapshot>, rule: Option<Discount>,
                                                      start: int, baskets: seq<seq<Line>>, n: nat)
    requires !TakenAgain(snap, rule) && snap.Some? && n <= |baskets|
    requires forall i :: 0 <= i < n ==> Priced(baskets[i])
    ensures var amount := AfterEdits(cat, snap, rule, start, baskets, n);
      && amount <= start
      && FitsEvery(cat, snap, rule, baskets, n, amount)
      && Attained(cat, snap, rule, start, baskets, n, amount)
    decreases n
  {
    if n > 0 {
      FixedIsTheLeastEverCovered(cat, snap, rule, start, baskets, n - 1);
      var lines := baskets[n - 1];
      var before := AfterEdits(cat, snap, rule, start, baskets, n - 1);
      if rule.Some? {
        CoveredWithinTotal(cat, rule.value, lines);
      }
      assert Accepted(cat, snap, rule, lines) ==>
        AfterEdits(cat, snap, rule, start, baskets, n) == Min(before, Cap(cat, rule, lines));
      hide Recomputed;
      hide Cap;
      hide Accepted;
    }
  }

  // ------------------------------------------------------------------ the order, in place

  /** eligibleSubtotalForOrder: a line whose product is gone matches nothing. */
  method EligibleSubtotal(cat: Catalog, d: Discount, lines: seq<Line>) returns (base: int)
    requires d.scope != WholeOrder
    ensures base == CoveredTotal(cat, d, lines)
  {
    base := 0;
    for i := 0 to |lines|
      invariant base == CoveredTotal(cat, d, lines[..i])
    {
      assert lines[..i + 1][..i] == lines[..i];
      if lines[i].product != 0 && Reaches(cat, d, lines[i].product) {
        base := base + lines[i].total;
      }
    }
    assert lines[..|lines|] == lines;
  }

  /** An order's line as it is stored; product is 0 once the product is gone. */
  datatype Stored = Stored(id: int, product: int, total: int)

  function AsLines(stored: seq<Stored>): seq<Line> {
    seq(|stored|, i requires 0 <= i < |stored| => Line(stored[i].product, stored[i].total))
  }

  /** orderDiscountMask: which of the lines a caller holds the discount came off; None means all. */
  method OrderDiscountMask(cat: Catalog, snap: Option<Snapshot>, rule: Option<Discount>, stored: seq<Stored>, lineIDs: seq<int>)
    returns (mask: Option<seq<bool>>)
    requires forall i, j :: 0 <= i < j < |stored| ==> stored[i].id != stored[j].id
    ensures mask.None? <==> snap.None? || !Scoped(rule)
    ensures mask.Some? ==> |mask.value| == |lineIDs|
    ensures mask.Some? ==> forall k :: 0 <= k < |lineIDs| ==> (mask.value[k] <==>
      exists i :: 0 <= i < |stored| && stored[i].id == lineIDs[k] && Covers(cat, rule.value, Line(stored[i].product, stored[i].total)))
  {
    if snap.None? || rule.None? || rule.value.scope == WholeOrder {
      return None;
    }
    var productByLine: map<int, int> := map[];
    for i := 0 to |stored|
      invariant forall j :: 0 <= j < i ==> stored[j].id in productByLine && productByLine[stored[j].id] == stored[j].product
      invariant forall x :: x in productByLine ==> exists j :: 0 <= j < i && stored[j].id == x
    {
      productByLine := productByLine[stored[i].id := stored[i].product];
    }
    var bits := [];
    for k := 0 to |lineIDs|
      invariant |bits| == k
      invariant forall m :: 0 <= m < k ==> (bits[m] <==>
        exists i :: 0 <= i < |stored| && stored[i].id == lineIDs[m] && Covers(cat, rule.value, Line(stored[i].product, stored[i].total)))
    {
      var product := if lineIDs[k] in productByLine then productByLine[lineIDs[k]] else 0;
      var bit := product != 0 && Reaches(cat, rule.value, product);
      if lineIDs[k] in productByLine {
        var j :| 0 <= j < |stored| && stored[j].id == lineIDs[k];
        assert bit <==> Covers(cat, rule.value, Line(stored[j].product, stored[j].total));
      }
      bits := bits + [bit];
    }
    mask := Some(bits);
  }

  /** The lines a refund spreads the discount over are the lines it was last taken off. */
  lemma MaskIsWhatIsDiscounted(cat: Catalog, rule: Option<Discount>, stored: seq<Stored>)
    requires Scoped(rule)
    ensures MaskedTotal(AsLines(stored), Mask(cat, rule.value, AsLines(stored))) == Cap(cat, rule, AsLines(stored))
  {
    BaseIsMaskedTotal(cat, rule.value, AsLines(stored));
  }

  datatype EditOutcome = Edited | GiftCardOrder | NoLines | DiscountRefused(why: Refusal) | BelowZero

  class Order {
    var lines: seq<Line>
    var subtotal: int
    var shipping: int
    var discount: int
    var tax: int
    var taxInclusive: bool
    var paymentFee: int
    var giftCard: int
    var total: int
    var snapshot: Option<Snapshot>

    /** What a committed order always satisfies; the discount and its snapshot row say one thing. */
    ghost predicate Consistent() reads this {
      && Priced(lines) && subtotal == Total(lines) && 0 <= discount <= subtotal
      && shipping >= 0 && tax >= 0 && paymentFee >= 0 && giftCard >= 0
      && (snapshot.Some? ==> snapshot.value.amount == discount)
    }

    /** The equation the order was created with. */
    predicate Adds() reads this {
      total + giftCard == subtotal + shipping - discount + paymentFee + (if taxInclusive then 0 else tax)
    }

    method RecomputeDiscount(cat: Catalog, rule: Option<Discount>, after: seq<Line>, current: int) returns (r: Result)
      requires snapshot.Some? ==> snapshot.value.amount == current
      modifies this`snapshot
      ensures r == Recomputed(cat, old(snapshot), rule, after, current)
      ensures r.Ok? && old(snapshot).Some? ==> snapshot == Some(old(snapshot).value.(amount := r.amount))
      ensures r.No? || old(snapshot).None? ==> snapshot == old(snapshot)
    {
      var sub := Total(after);
      if snapshot.None? {
        return Ok(if current > sub then sub else current);
      }
      var kind := snapshot.value.kind;
      var amount := current;
      if rule.Some? && rule.value.scope != WholeOrder {
        var base := EligibleSubtotal(cat, rule.value, after);
        if base == 0 {
          return No(NoLongerApplies);
        }
        if rule.value.minSubtotal.Some? && sub < rule.value.minSubtotal.value {
          return No(BelowItsMinimum);
        }
        if kind == Percentage {
          amount := PercentOf(base, rule.value.valueBP);
        } else if amount > base {
          amount := base;
        }
      } else if kind != Percentage {
      } else if rule.None? {
        if current > sub {
          amount := sub;
        }
      } else {
        if rule.value.minSubtotal.Some? && sub < rule.value.minSubtotal.value {
          return No(BelowItsMinimum);
        }
        amount := PercentOf(sub, rule.value.valueBP);
      }
      if amount > sub {
        amount := sub;
      }
      if amount != current {
        snapshot := Some(snapshot.value.(amount := amount));
      }
      return Ok(amount);
    }

    /** EditLines, from the point where the lines after the edit are known. */
    method EditLines(cat: Catalog, rule: Option<Discount>, after: seq<Line>) returns (r: EditOutcome)
      requires Consistent() && Priced(after) && RuleOk(rule)
      modifies this
      ensures Consistent() && r != BelowZero
      ensures !r.Edited? ==> unchanged(this)
      ensures r.Edited? <==> after != [] && old(giftCard) == 0 && Recomputed(cat, old(snapshot), rule, after, old(discount)).Ok?
      ensures r.Edited? ==> lines == after && discount == Recomputed(cat, old(snapshot), rule, after, old(discount)).amount
      ensures r.Edited? ==> shipping == old(shipping) && paymentFee == old(paymentFee) && giftCard == 0
      ensures r.Edited? ==> tax == old(tax) && taxInclusive == old(taxInclusive)
      ensures r.Edited? ==> total == subtotal + shipping - discount + paymentFee
      ensures r.Edited? ==> (total + giftCard == subtotal + shipping - discount + paymentFee + (if taxInclusive then 0 else tax)
        <==> taxInclusive || tax == 0)
      ensures r.Edited? ==> (Adds() <==> taxInclusive || tax == 0)
    {
      if after == [] {
        return NoLines;
      }
      if giftCard > 0 {
        return GiftCardOrder;
      }
      var was := snapshot;
      var again := RecomputeDiscount(cat, rule, after, discount);
      if again.No? {
        return DiscountRefused(again.why);
      }
      RecomputedWithin(cat, was, rule, after, discount);
      var sum := Total(after) + shipping - again.amount + paymentFee;
      if sum < 0 {
        return BelowZero;
      }
      lines, subtotal, total, discount := after, Total(after), sum, again.amount;
      return Edited;
    }
  }

  /**
    An order of 100 sold with tax of 18 on top adds up when it is placed, at 118. Edited down to 50 it
    is charged 50: the tax is still on the order, and not in its total.
  */
  method EditDropsTheTax() returns (before: bool, outcome: EditOutcome, total: int, tax: int, after: bool)
    ensures before && outcome == Edited && total == 50 && tax == 18 && !after
  {
    var o := new Order;
    o.lines, o.subtotal, o.shipping, o.discount := [Line(7, 100)], 100, 0, 0;
    o.tax, o.taxInclusive, o.paymentFee, o.giftCard, o.total, o.snapshot := 18, false, 0, 0, 118, None;
    var less := [Line(7, 50)];
    assert o.lines[..0] == [] && less[..0] == [];
    assert Total(o.lines) == 100 && Total(less) == 50;
    before := o.Adds();
    outcome := o.EditLines(Catalog(map[], map[], {}), None, less);
    total, tax, after := o.total, o.tax, o.Adds();
  }
}
