/**
  What the figures of one checkout promise (core/checkout.go): they add up, a typed code takes off
  what the cart's preview showed, and with none typed the best automatic rule is taken.
*/
module CheckoutMoney {
  import opened Basics
  import opened CategoryForest
  import opened Discounts
  import opened Checkout

  // ------------------------------------------------------------------ one order

  ghost predicate FiguresAddUp(f: Figures) {
    && f.total + f.gift == f.subtotal + f.shipping - f.discount + f.fee + (if f.inclusive then 0 else f.tax)
    && f.total >= 0 && f.gift >= 0 && f.shipping >= 0 && f.tax >= 0
    && 0 <= f.discount <= f.subtotal
  }

  /** What an accepted rule takes off is within the basket. */
  lemma TakenWithin(rules: seq<Discount>, env: Env, req: Request, code: string)
    requires Priced(req.lines) && Apply(rules, env, req, code).Applied?
    ensures 0 <= Apply(rules, env, req, code).taken.amount <= Total(req.lines)
  {
    var d := rules[Apply(rules, env, req, code).taken.row];
    AmountWithin(env.catalog, d, req.lines);
    JudgedBase(env, d, req);
    hide Judge;
    hide Amount;
  }

  lemma FiguresWithAddUp(db: Db, t: Terms, cart: Cart, priced: seq<Line>, quoted: int, outcome: Outcome)
    requires TermsOk(t) && quoted >= 0 && Total(priced) >= 0
    requires outcome.Applied? ==> 0 <= outcome.taken.amount <= Total(priced)
    requires FiguresWith(db, t, cart, priced, quoted, outcome).Yes?
    ensures FiguresAddUp(FiguresWith(db, t, cart, priced, quoted, outcome).value)
  {
    hide Total;
    hide Trim;
    forall due: int | GiftShare(db, cart.gift, due).Yes?
      ensures var share := GiftShare(db, cart.gift, due).value; 0 <= share && (share > 0 ==> share <= due)
    {
      GiftWithinCard(db, cart.gift, due);
    }
    hide GiftShare;
  }

  lemma DeliveryNotNegative(t: Terms, physical: bool, subtotal: int, rate: Option<int>)
    requires TermsOk(t) && Delivery(t, physical, subtotal, rate).Yes?
    ensures Delivery(t, physical, subtotal, rate).value >= 0
  {
  }

  lemma LinesPriced(db: Db, lines: seq<CartLine>)
    requires DbOk(db) && forall i :: 0 <= i < |lines| ==> lines[i].variant in db.variants && lines[i].quantity > 0
    ensures Priced(Lines(db.variants, lines))
  {
    hide TableOk;
  }

  lemma FiguresOfAddUp(db: Db, t: Terms, at: Attempt, cart: Cart, lines: seq<CartLine>)
    requires DbOk(db) && TermsOk(t)
    requires forall i :: 0 <= i < |lines| ==> lines[i].variant in db.variants && lines[i].quantity > 0
    requires FiguresOf(db, t, at, cart, lines).Yes?
    ensures FiguresAddUp(FiguresOf(db, t, at, cart, lines).value)
  {
    var priced := Lines(db.variants, lines);
    LinesPriced(db, lines);
    TotalNotNegative(priced);
    hide DbOk;
    hide TermsOk;
    hide Lines;
    hide Total;
    hide SomePhysical;
    hide Priced;
    hide FiguresWith;
    hide FiguresAddUp;
    var physical := SomePhysical(db.variants, lines);
    var delivery := Delivery(t, physical, Total(priced), at.rate);
    DeliveryNotNegative(t, physical, Total(priced), at.rate);
    var outcome := RuleTried(db, t, at, cart.code, priced, delivery.value);
    if outcome.Applied? {
      var req := Request(at.email, priced, at.cod);
      TakenWithin(db.rules, EnvOf(db, t), req, CodeTried(db, t, cart.code, req, delivery.value));
    }
    hide Delivery;
    hide Apply;
    hide CodeTried;
    FiguresWithAddUp(db, t, cart, priced, delivery.value, outcome);
  }

  /**
    Every order that is placed adds up: what is charged and what the gift card paid come to the
    goods and the delivery less the discount, plus the method's fee, plus the tax only where prices
    exclude it; and nothing in it is negative.
  */
  lemma PlacedOrdersAddUp(db: Db, t: Terms, at: Attempt)
    requires DbOk(db) && TermsOk(t) && Compute(db, t, at).Yes?
    ensures FiguresAddUp(Compute(db, t, at).value.0)
  {
    var cart := db.carts[at.request.body.cart];
    SortedLinesOk(db, cart.lines);
    hide WalkUpTo;
    FiguresOfAddUp(db, t, at, cart, ByVariant(cart.lines));
    hide FiguresOf;
    hide DbOk;
  }

  /** The card pays no more than it holds, and no more than was due. */
  lemma GiftWithinCard(db: Db, gift: string, due: int)
    requires GiftShare(db, gift, due).Yes?
    ensures var share := GiftShare(db, gift, due).value;
      && 0 <= share && (share > 0 ==> gift in db.cards && share <= db.cards[gift].balance && share <= due)
      && (due > 0 && gift != "" ==> share == due || share == db.cards[gift].balance)
  {
  }

  // ------------------------------------------------------------------ the preview

  function OneLine(variants: map<int, Variant>, l: CartLine): Line
    requires l.variant in variants
  {
    var v := variants[l.variant];
    Line(v.product, l.snapshot * l.quantity)
  }

  function Seen(variants: map<int, Variant>, lines: seq<CartLine>): seq<Line>
    requires forall i :: 0 <= i < |lines| ==> lines[i].variant in variants
  {
    seq(|lines|, i requires 0 <= i < |lines| => OneLine(variants, lines[i]))
  }

  lemma SeenConcat(variants: map<int, Variant>, a: seq<CartLine>, b: seq<CartLine>)
    requires forall i :: 0 <= i < |a + b| ==> (a + b)[i].variant in variants
    ensures (forall i :: 0 <= i < |a| ==> a[i].variant in variants) && forall i :: 0 <= i < |b| ==> b[i].variant in variants
    ensures Seen(variants, a + b) == Seen(variants, a) + Seen(variants, b)
  {
    assert forall i :: 0 <= i < |a| ==> (a + b)[i] == a[i];
    assert forall i :: 0 <= i < |b| ==> (a + b)[|a| + i] == b[i];
    hide OneLine;
  }

  /** Taking x out of a basket, wherever it stands, takes out what it is seen as. */
  lemma SeenWithout(variants: map<int, Variant>, b1: seq<CartLine>, x: CartLine, b2: seq<CartLine>)
    requires forall i :: 0 <= i < |b1 + ([x] + b2)| ==> (b1 + ([x] + b2))[i].variant in variants
    ensures x.variant in variants && forall i :: 0 <= i < |b1 + b2| ==> (b1 + b2)[i].variant in variants
    ensures multiset(Seen(variants, b1 + ([x] + b2))) ==
      multiset(Seen(variants, b1 + b2)) + multiset{OneLine(variants, x)}
  {
    SeenConcat(variants, b1, [x] + b2);
    SeenConcat(variants, [x], b2);
    assert [x][0].variant in variants;
    forall i | 0 <= i < |b1 + b2| ensures (b1 + b2)[i].variant in variants {
      assert (b1 + b2)[i] == if i < |b1| then b1[i] else b2[i - |b1|];
    }
    SeenConcat(variants, b1, b2);
    hide OneLine;
    hide Seen;
  }

  lemma {:induction false} SeenKeepsTheBasket(variants: map<int, Variant>, a: seq<CartLine>, b: seq<CartLine>)
    requires multiset(a) == multiset(b)
    requires forall i :: 0 <= i < |a| ==> a[i].variant in variants
    requires forall i :: 0 <= i < |b| ==> b[i].variant in variants
    ensures multiset(Seen(variants, a)) == multiset(Seen(variants, b))
    decreases |a|
  {
    if a == [] {
      assert |multiset(b)| == 0;
      assert b == [];
    } else {
      hide OneLine;
      hide Seen;
      var x := a[0];
      assert x in multiset(a);
      var a1, a2 := SplitAt(a, x);
      var b1, b2 := SplitAt(b, x);
      SeenWithout(variants, a1, x, a2);
      SeenWithout(variants, b1, x, b2);
      TakenOut(a1, x, a2);
      TakenOut(b1, x, b2);
      SeenKeepsTheBasket(variants, a1 + a2, b1 + b2);
    }
  }

  /** Where no line moved, the cart at its own prices and the sorted lines at today's are one basket. */
  lemma CartViewIsTheBasket(db: Db, lines: seq<CartLine>)
    requires forall i :: 0 <= i < |lines| ==> lines[i].variant in db.variants
    requires forall i :: 0 <= i < |ByVariant(lines)| ==> ByVariant(lines)[i].variant in db.variants
    requires forall i :: 0 <= i < |ByVariant(lines)| ==> db.variants[ByVariant(lines)[i].variant].price == ByVariant(lines)[i].snapshot
    ensures multiset(CartView(db.variants, lines)) == multiset(Lines(db.variants, ByVariant(lines)))
  {
    ByVariantKeeps(lines);
    var sorted := ByVariant(lines);
    SeenKeepsTheBasket(db.variants, lines, sorted);
    assert CartView(db.variants, lines) == Seen(db.variants, lines);
    assert Lines(db.variants, sorted) == Seen(db.variants, sorted);
  }

  /**
    The cart's preview of a typed code and the order's discount are one figure: whenever an order
    is placed with it, the preview in the same state shows the same rule and the same amount.
  */
  lemma PreviewIsTheDiscount(db: Db, t: Terms, at: Attempt)
    requires DbOk(db) && Compute(db, t, at).Yes? && Trim(db.carts[at.request.body.cart].code) != ""
    ensures var f := Compute(db, t, at).value.0; var cart := db.carts[at.request.body.cart];
      && (forall i :: 0 <= i < |cart.lines| ==> cart.lines[i].variant in db.variants)
      && var shown := Preview(db.rules, EnvOf(db, t), at.email, CartView(db.variants, cart.lines), cart.code);
         shown.Applied? && f.taken.Some? && SameTaken(shown.taken, f.taken.value) && f.discount == shown.taken.amount
  {
    var cart := db.carts[at.request.body.cart];
    var lines := ByVariant(cart.lines);
    SortedLinesOk(db, cart.lines);
    WalkChecksPrices(db, lines, |lines|);
    CartViewIsTheBasket(db, cart.lines);
    var req := Request(at.email, Lines(db.variants, lines), at.cod);
    PreviewIsWhatCheckoutTakes(db.rules, EnvOf(db, t), req, CartView(db.variants, cart.lines), cart.code);
    hide FiguresOf;
    hide WalkUpTo;
    hide Apply;
    hide Preview;
    hide Lines;
    hide CartView;
    hide Trim;
    hide TableOk;
  }

  // ------------------------------------------------------------------ an automatic discount

  /** What an order pays for goods and delivery, from the answer its figures were worked out with. */
  lemma FiguresShowTheRule(db: Db, t: Terms, cart: Cart, priced: seq<Line>, quoted: int, outcome: Outcome)
    requires FiguresWith(db, t, cart, priced, quoted, outcome).Yes?
    ensures var f := FiguresWith(db, t, cart, priced, quoted, outcome).value;
      && !outcome.Denied? && f.taken == TakenOf(outcome)
      && f.subtotal + f.shipping - f.discount == Total(priced) + (if f.taken.Some? && f.taken.value.shipsFree then 0 else quoted)
           - if f.taken.Some? then f.taken.value.amount else 0
  {
    hide Total;
    hide GiftShare;
    hide Trim;
  }

  /** The automatic rule's answer: none when none saves, and else the one that leaves least to pay. */
  lemma BestRuleIsTried(db: Db, t: Terms, at: Attempt, code: string, priced: seq<Line>, quoted: int)
    requires TableOk(db.rules) && Trim(code) == ""
    ensures var outcome, req, env := RuleTried(db, t, at, code, priced, quoted), Request(at.email, priced, at.cod), EnvOf(db, t);
      match TakenOf(outcome)
      case None => NoneSaves(db.rules, env, req, quoted)
      case Some(taken) =>
        && taken.row < |db.rules| && Candidate(env, db.rules[taken.row], req)
        && LeavesLeast(db.rules, env, req, quoted, taken.row)
        && taken.shipsFree == ShipsFree(db.rules[taken.row])
        && taken.amount == Amount(db.rules[taken.row], Judge(env, db.rules[taken.row], req).base)
  {
    var req, env := Request(at.email, priced, at.cod), EnvOf(db, t);
    BestPaysLeast(db.rules, env, req, quoted);
    var row := BestOf(db.rules, env, req, quoted, |db.rules|).0;
    if row.Some? {
      ChosenCodeIsAccepted(db.rules, db.rules, env, req, quoted);
    } else {
      assert Trim("") == "";
    }
    hide Judge;
    hide BestOf;
    hide NoneSaves;
    hide LeavesLeast;
    hide TableOk;
    hide Trim;
    hide Lookup;
    hide Amount;
  }

  /**
    With no code typed, the order carries the automatic rule that leaves the least to pay for goods
    and delivery, the oldest of equals, and none only when none saves anything.
  */
  lemma AutomaticDiscountIsTheBest(db: Db, t: Terms, at: Attempt, cart: Cart, lines: seq<CartLine>)
    requires DbOk(db) && forall i :: 0 <= i < |lines| ==> lines[i].variant in db.variants
    requires FiguresOf(db, t, at, cart, lines).Yes? && Trim(cart.code) == ""
    ensures var f := FiguresOf(db, t, at, cart, lines).value;
      var priced := Lines(db.variants, lines);
      var quoted := Delivery(t, SomePhysical(db.variants, lines), Total(priced), at.rate);
      var req, env := Request(at.email, priced, at.cod), EnvOf(db, t);
      && quoted.Yes?
      && match f.taken
         case None => NoneSaves(db.rules, env, req, quoted.value)
         case Some(taken) =>
           && taken.row < |db.rules| && Candidate(env, db.rules[taken.row], req)
           && LeavesLeast(db.rules, env, req, quoted.value, taken.row)
           && f.subtotal + f.shipping - f.discount == PaysWith(env, db.rules[taken.row], req, quoted.value)
  {
    var priced := Lines(db.variants, lines);
    var quoted := Delivery(t, SomePhysical(db.variants, lines), Total(priced), at.rate);
    assert TableOk(db.rules);
    BestRuleIsTried(db, t, at, cart.code, priced, quoted.value);
    FiguresShowTheRule(db, t, cart, priced, quoted.value, RuleTried(db, t, at, cart.code, priced, quoted.value));
    hide RuleTried;
    hide FiguresWith;
    hide Judge;
    hide Lines;
    hide Total;
    hide SomePhysical;
    hide Delivery;
    hide NoneSaves;
    hide LeavesLeast;
    hide DbOk;
    hide Trim;
    hide Amount;
  }
}
