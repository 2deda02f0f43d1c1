/**
  What a checkout leaves behind and what it charges, said on the store's own rows (core/checkout.go,
  core/inventory.go, core/giftcards.go): the shelves an order takes from, each of its figures, every
  refusal, and the rows a commit writes.
*/
module CheckoutOutcomes {
  import opened Basics
  import opened CategoryForest
  import opened Discounts
  import opened DiscountOutcomes
  import opened Checkout
  import opened CheckoutMoney
  import opened CheckoutRuns
  import P = CheckoutProtocol

  // ------------------------------------------------------------------ shelves

  /** A shelf can give up these units: it is there, and holds that many unless nobody counts or minds. */
  predicate CanGive(stock: Stock, id: int, v: Variant, loc: int, qty: int) {
    && (id, loc) in stock
    && (v.tracked && !v.oversell ==> stock[(id, loc)].reserved + qty <= stock[(id, loc)].onHand)
  }

  predicate FirstThatCan(locs: seq<Location>, stock: Stock, id: int, v: Variant, qty: int, i: int) {
    && 0 <= i < |locs| && locs[i].active && CanGive(stock, id, v, locs[i].id, qty)
    && forall j :: 0 <= j < i && locs[j].active ==> !CanGive(stock, id, v, locs[j].id, qty)
  }

  /** Units come from the first open location that can give them, and only failing that from the default one. */
  lemma {:induction false} TakenFromTheFirstThatCan(locs: seq<Location>, fallback: Option<int>, stock: Stock, id: int, v: Variant, qty: int)
    ensures var r := PickLocation(locs, fallback, stock, id, v, qty);
      || (r == fallback && forall i :: 0 <= i < |locs| && locs[i].active ==> !CanGive(stock, id, v, locs[i].id, qty))
      || exists i :: FirstThatCan(locs, stock, id, v, qty, i) && r == Some(locs[i].id)
  {
    if locs != [] && !(locs[0].active && HasUnits(stock, id, v, locs[0].id, qty)) {
      TakenFromTheFirstThatCan(locs[1..], fallback, stock, id, v, qty);
      var r := PickLocation(locs[1..], fallback, stock, id, v, qty);
      assert forall j :: 1 <= j < |locs| ==> locs[j] == locs[1..][j - 1];
      if i :| FirstThatCan(locs[1..], stock, id, v, qty, i) && r == Some(locs[1..][i].id) {
        assert FirstThatCan(locs, stock, id, v, qty, i + 1);
      }
    } else if locs != [] {
      assert FirstThatCan(locs, stock, id, v, qty, 0);
    }
  }

  /** A line is reserved on the shelf picked for it if that can give the units, and moves no other shelf. */
  lemma ReservedExactly(db: Db, stock: Stock, l: CartLine)
    requires l.variant in db.variants
    ensures var v := db.variants[l.variant];
      var at := PickLocation(db.locations, db.fallback, stock, l.variant, v, l.quantity);
      var k := (l.variant, if at.Some? then at.value else 0);
      if at.None? || !CanGive(stock, l.variant, v, at.value, l.quantity) then Reserve(db, stock, l) == None
      else Reserve(db, stock, l) == Some(stock[k := Shelf(stock[k].onHand, stock[k].reserved + if v.tracked then l.quantity else 0)])
  {
    hide PickLocation;
  }

  /** What a conflict says of a line. */
  ghost predicate Explains(db: Db, c: Conflict, l: CartLine) {
    && l.variant in db.variants
    && match c
       case Inactive(variant) => variant == l.variant && !db.variants[l.variant].active
       case PriceChanged(variant, price) =>
         variant == l.variant && db.variants[l.variant].active && price == db.variants[l.variant].price != l.snapshot
       case Insufficient(variant) =>
         variant == l.variant && db.variants[l.variant].active && db.variants[l.variant].price == l.snapshot
  }

  ghost predicate IsExplained(db: Db, c: Conflict, lines: seq<CartLine>, n: nat)
    requires n <= |lines|
  {
    exists i :: 0 <= i < n && Explains(db, c, lines[i])
  }

  /**
    The conflicts a cart is refused over: every line that is off sale or has a new price is among them, and
    each of them is about a line, for the reason it gives.
  */
  lemma {:induction false} ConflictsExactly(db: Db, lines: seq<CartLine>, n: nat)
    requires n <= |lines| && forall i :: 0 <= i < |lines| ==> lines[i].variant in db.variants
    ensures var conflicts := WalkUpTo(db, lines, n).1;
      && (forall k :: 0 <= k < |conflicts| ==> IsExplained(db, conflicts[k], lines, n))
      && forall i :: 0 <= i < n ==>
           var v := db.variants[lines[i].variant];
           && (!v.active ==> Inactive(lines[i].variant) in conflicts)
           && (v.active && v.price != lines[i].snapshot ==> PriceChanged(lines[i].variant, v.price) in conflicts)
    decreases n
  {
    if n > 0 {
      hide Reserve;
      ConflictsExactly(db, lines, n - 1);
      var before, conflicts := WalkUpTo(db, lines, n - 1).1, WalkUpTo(db, lines, n).1;
      assert before <= conflicts && |conflicts| <= |before| + 1;
      forall k | 0 <= k < |conflicts| ensures IsExplained(db, conflicts[k], lines, n) {
        if k < |before| {
          assert IsExplained(db, before[k], lines, n - 1);
        } else {
          assert Explains(db, conflicts[k], lines[n - 1]);
        }
      }
    }
  }

  // ------------------------------------------------------------------ an order takes what was in the cart

  /** The units of a variant these lines ask for. */
  function Wanted(lines: seq<CartLine>, variant: int): int {
    if lines == [] then 0 else (if lines[0].variant == variant then lines[0].quantity else 0) + Wanted(lines[1..], variant)
  }

  lemma {:induction false} WantedConcat(a: seq<CartLine>, b: seq<CartLine>, variant: int)
    ensures Wanted(a + b, variant) == Wanted(a, variant) + Wanted(b, variant)
  {
    if a == [] {
      assert a + b == b;
    } else {
      assert (a + b)[1..] == a[1..] + b;
      WantedConcat(a[1..], b, variant);
    }
  }

  lemma {:induction false} AskedIsWanted(lines: seq<CartLine>, n: nat, variant: int)
    requires n <= |lines|
    ensures Asked(lines, n, variant) == Wanted(lines[..n], variant)
  {
    if n > 0 {
      AskedIsWanted(lines, n - 1, variant);
      assert lines[..n] == lines[..n - 1] + [lines[n - 1]];
      WantedConcat(lines[..n - 1], [lines[n - 1]], variant);
    }
  }

  lemma {:induction false} WantedInserted(l: CartLine, lines: seq<CartLine>, variant: int)
    ensures Wanted(InsertByVariant(l, lines), variant) == Wanted(lines, variant) + if l.variant == variant then l.quantity else 0
  {
    if lines != [] && l.variant > lines[0].variant {
      WantedInserted(l, lines[1..], variant);
    }
  }

  lemma {:induction false} WantedSorted(lines: seq<CartLine>, variant: int)
    ensures Wanted(ByVariant(lines), variant) == Wanted(lines, variant)
  {
    if lines != [] {
      WantedSorted(lines[1..], variant);
      WantedInserted(lines[0], ByVariant(lines[1..]), variant);
    }
  }

  /** The stock a computed order leaves is the walk's. */
  lemma ComputedStock(db: Db, t: Terms, at: Attempt)
    requires DbOk(db) && Compute(db, t, at).Yes?
    ensures var c := at.request.body.cart;
      && c in db.carts && !db.carts[c].converted
      && (forall i :: 0 <= i < |ByVariant(db.carts[c].lines)| ==> LineOk(db, ByVariant(db.carts[c].lines)[i]))
      && var lines := ByVariant(db.carts[c].lines);
         && Compute(db, t, at).value.1 == WalkUpTo(db, lines, |lines|).0
         && WalkUpTo(db, lines, |lines|).1 == []
  {
    SortedLinesOk(db, db.carts[at.request.body.cart].lines);
    hide FiguresOf;
    hide ByVariant;
    hide WalkUpTo;
    hide DbOk;
  }

  /**
    A placed order holds its units: of every variant that is counted, the units reserved over all its shelves
    have risen by exactly what the cart asked for, and of any other not at all; and no shelf it took from has
    more reserved than is on it.
  */
  lemma AnOrderTakesWhatWasAsked(before: Db, t: Terms, at: Attempt, after: Db, variant: int, locs: seq<int>)
    requires DbOk(before) && Placing(before, t, at, after) && variant in before.variants
    requires forall i, j :: 0 <= i < j < |locs| ==> locs[i] != locs[j]
    requires forall k :: k in before.stock && k.0 == variant ==> k.1 in locs
    ensures at.request.body.cart in before.carts
    ensures ReservedOn(after.stock, variant, locs) - ReservedOn(before.stock, variant, locs) ==
      if before.variants[variant].tracked then Wanted(before.carts[at.request.body.cart].lines, variant) else 0
    ensures NoOversell(before, after.stock)
  {
    ComputedStock(before, t, at);
    var cart := before.carts[at.request.body.cart];
    var lines := ByVariant(cart.lines);
    var (f, stock) := Compute(before, t, at).value;
    assert after == Commit(before, at, f, stock);
    assert after.stock == stock;
    hide DbOk;
    hide Compute;
    hide Commit;
    WalkReservesWhatIsAsked(before, lines, |lines|, variant, locs);
    WalkNeverOversells(before, lines, |lines|);
    AskedIsWanted(lines, |lines|, variant);
    assert lines[..|lines|] == lines;
    WantedSorted(cart.lines, variant);
    hide ByVariant;
    hide WalkUpTo;
    hide NoOversell;
  }

  /** And so over every run: a committed checkout takes that from the shelves as it finds them. */
  lemma EveryCommitTakesWhatWasAsked(dbs: seq<Db>, events: seq<Event>, n: nat, variant: int, locs: seq<int>)
    requires Run(dbs, events) && n < |events| && events[n].Committed? && variant in dbs[n].variants
    requires forall i, j :: 0 <= i < j < |locs| ==> locs[i] != locs[j]
    requires forall k :: k in dbs[n].stock && k.0 == variant ==> k.1 in locs
    ensures var before, after, c := dbs[n], dbs[n + 1], events[n].at.request.body.cart;
      && c in before.carts
      && ReservedOn(after.stock, variant, locs) - ReservedOn(before.stock, variant, locs) ==
           (if before.variants[variant].tracked then Wanted(before.carts[c].lines, variant) else 0)
      && NoOversell(before, after.stock)
  {
    EveryRunKeepsBooks(dbs, events, n);
    AnOrderTakesWhatWasAsked(dbs[n], events[n].t, events[n].at, dbs[n + 1], variant, locs);
    hide *;
  }

  // ------------------------------------------------------------------ the figures, one by one

  /** What the goods in a cart cost now. */
  function Worth(variants: map<int, Variant>, lines: seq<CartLine>): int
    requires forall i :: 0 <= i < |lines| ==> lines[i].variant in variants
  {
    if lines == [] then 0 else
    variants[lines[0].variant].price * lines[0].quantity + Worth(variants, lines[1..])
  }

  lemma TotalOfOneMore(lines: seq<Line>, l: Line)
    ensures Total([l] + lines) == l.total + Total(lines)
    decreases |lines|
  {
    if lines == [] {
      assert [l] + lines == [l] && [l][..0] == [];
    } else {
      assert ([l] + lines)[..|lines|] == [l] + lines[..|lines| - 1];
      TotalOfOneMore(lines[..|lines| - 1], l);
    }
  }

  lemma {:induction false} TotalIsWorth(variants: map<int, Variant>, lines: seq<CartLine>)
    requires forall i :: 0 <= i < |lines| ==> lines[i].variant in variants
    ensures Total(Lines(variants, lines)) == Worth(variants, lines)
  {
    if lines != [] {
      TotalIsWorth(variants, lines[1..]);
      var v := variants[lines[0].variant];
      assert Lines(variants, lines) == [Line(v.product, v.price * lines[0].quantity)] + Lines(variants, lines[1..]);
      TotalOfOneMore(Lines(variants, lines[1..]), Line(v.product, v.price * lines[0].quantity));
    }
  }

  lemma {:induction false} WorthInserted(variants: map<int, Variant>, l: CartLine, lines: seq<CartLine>)
    requires l.variant in variants && forall i :: 0 <= i < |lines| ==> lines[i].variant in variants
    ensures forall i :: 0 <= i < |InsertByVariant(l, lines)| ==> InsertByVariant(l, lines)[i].variant in variants
    ensures Worth(variants, InsertByVariant(l, lines)) == variants[l.variant].price * l.quantity + Worth(variants, lines)
  {
    if lines != [] && l.variant > lines[0].variant {
      WorthInserted(variants, l, lines[1..]);
    }
  }

  lemma {:induction false} WorthSorted(variants: map<int, Variant>, lines: seq<CartLine>)
    requires forall i :: 0 <= i < |lines| ==> lines[i].variant in variants
    ensures forall i :: 0 <= i < |ByVariant(lines)| ==> ByVariant(lines)[i].variant in variants
    ensures Worth(variants, ByVariant(lines)) == Worth(variants, lines)
  {
    if lines != [] {
      WorthSorted(variants, lines[1..]);
      WorthInserted(variants, lines[0], ByVariant(lines[1..]));
    }
  }

  /** Something in the cart has to be sent. */
  ghost predicate NeedsSending(db: Db, cart: Cart) {
    exists i :: 0 <= i < |cart.lines| && cart.lines[i].variant in db.variants && db.variants[cart.lines[i].variant].physical
  }

  lemma SendingSorted(db: Db, cart: Cart)
    requires forall i :: 0 <= i < |cart.lines| ==> cart.lines[i].variant in db.variants
    requires forall i :: 0 <= i < |ByVariant(cart.lines)| ==> ByVariant(cart.lines)[i].variant in db.variants
    ensures SomePhysical(db.variants, ByVariant(cart.lines)) <==> NeedsSending(db, cart)
  {
    var sorted := ByVariant(cart.lines);
    ByVariantKeeps(cart.lines);
    if SomePhysical(db.variants, sorted) {
      var i :| 0 <= i < |sorted| && db.variants[sorted[i].variant].physical;
      assert sorted[i] in multiset(sorted);
      assert sorted[i] in cart.lines;
    }
    if NeedsSending(db, cart) {
      var i :| 0 <= i < |cart.lines| && db.variants[cart.lines[i].variant].physical;
      assert cart.lines[i] in multiset(cart.lines);
      assert cart.lines[i] in sorted;
    }
    hide ByVariant;
  }

  /** What a gift card pays of what is due: nothing if there is no card or nothing due, else as much as it holds. */
  lemma GiftShareExactly(db: Db, gift: string, due: int)
    ensures var spendable := gift in db.cards && db.cards[gift].usable && db.cards[gift].balance > 0;
      GiftShare(db, gift, due) ==
        if gift == "" || due <= 0 then Yes(0) else if !spendable then Not(CardRefused)
        else Yes(if due <= db.cards[gift].balance then due else db.cards[gift].balance)
  {
  }

  /**
    The figures that follow from these lines and this delivery: the delivery as quoted, or none where the rule
    taken is for free delivery or includes it; the rule's own amount off; the tax on those lines and that
    discount; the method's fee; and the gift card's share of what all that leaves.
  */
  ghost predicate FiguresAre(db: Db, t: Terms, cart: Cart, priced: seq<Line>, quoted: int, f: Figures) {
    && f.inclusive == t.inclusive && f.fee == t.fee && (f.autoApplied <==> Trim(cart.code) == "")
    && GiftShare(db, cart.gift, f.subtotal + f.shipping - f.discount + t.fee + if t.inclusive then 0 else f.tax) == Yes(f.gift)
    && match f.taken
       case None => f.shipping == quoted && f.discount == 0 && f.tax == t.tax(priced, None, 0)
       case Some(taken) =>
         && taken.row < |db.rules|
         && var d := db.rules[taken.row];
            && f.shipping == (if d.kind == FreeShipping || d.includesFreeShipping then 0 else quoted)
            && f.discount == Amount(d, CoveredTotal(db.catalog, d, priced))
            && f.tax == t.tax(priced, Mask(db.catalog, d, priced), f.discount)
  }

  /** Each figure of an order that can be placed, from the goods at today's prices and the delivery quoted for them. */
  lemma FiguresExactly(db: Db, t: Terms, at: Attempt)
    requires DbOk(db) && Compute(db, t, at).Yes?
    ensures at.request.body.cart in db.carts
    ensures var f, cart := Compute(db, t, at).value.0, db.carts[at.request.body.cart];
      && (forall i :: 0 <= i < |cart.lines| ==> cart.lines[i].variant in db.variants)
      && (forall i :: 0 <= i < |ByVariant(cart.lines)| ==> ByVariant(cart.lines)[i].variant in db.variants)
      && var priced := Lines(db.variants, ByVariant(cart.lines));
         var quoted := Delivery(t, NeedsSending(db, cart), f.subtotal, at.rate);
         && f.subtotal == Worth(db.variants, cart.lines)
         && quoted.Yes?
         && FiguresAre(db, t, cart, priced, quoted.value, f)
  {
    ComputedStock(db, t, at);
    var cart := db.carts[at.request.body.cart];
    var lines := ByVariant(cart.lines);
    assert forall i :: 0 <= i < |cart.lines| ==> LineOk(db, cart.lines[i]);
    WorthSorted(db.variants, cart.lines);
    TotalIsWorth(db.variants, lines);
    SendingSorted(db, cart);
    var f := Compute(db, t, at).value.0;
    ComputedFigures(db, t, at);
    hide DbOk;
    hide Compute;
    hide ByVariant;
    hide WalkUpTo;
    hide Worth;
    hide NeedsSending;
    hide SomePhysical;
    hide Total;
    var priced := Lines(db.variants, lines);
    hide Lines;
    var quoted := Delivery(t, NeedsSending(db, cart), Total(priced), at.rate);
    hide Delivery;
    FiguresFromTheAnswer(db, t, at, cart, priced, quoted.value);
    hide FiguresWith;
    hide RuleTried;
    hide FiguresAre;
  }

  lemma ComputedFigures(db: Db, t: Terms, at: Attempt)
    requires DbOk(db) && Compute(db, t, at).Yes?
    ensures at.request.body.cart in db.carts
    ensures var cart := db.carts[at.request.body.cart];
      && (forall i :: 0 <= i < |ByVariant(cart.lines)| ==> ByVariant(cart.lines)[i].variant in db.variants)
      && FiguresOf(db, t, at, cart, ByVariant(cart.lines)) == Yes(Compute(db, t, at).value.0)
  {
    SortedLinesOk(db, db.carts[at.request.body.cart].lines);
    hide FiguresOf;
    hide ByVariant;
    hide WalkUpTo;
    hide DbOk;
  }

  lemma FiguresFromTheAnswer(db: Db, t: Terms, at: Attempt, cart: Cart, priced: seq<Line>, quoted: int)
    requires FiguresWith(db, t, cart, priced, quoted, RuleTried(db, t, at, cart.code, priced, quoted)).Yes?
    ensures var f := FiguresWith(db, t, cart, priced, quoted, RuleTried(db, t, at, cart.code, priced, quoted)).value;
      f.subtotal == Total(priced) && FiguresAre(db, t, cart, priced, quoted, f)
  {
    var req := Request(at.email, priced, at.cod);
    AppliedFields(db.rules, EnvOf(db, t), req, CodeTried(db, t, cart.code, req, quoted));
    hide Total;
    hide Trim;
    hide GiftShare;
    hide Apply;
    hide CodeTried;
    hide Amount;
    hide CoveredTotal;
    hide Mask;
  }

  lemma AppliedFields(rows: seq<Discount>, env: Env, req: Request, code: string)
    ensures var r := Apply(rows, env, req, code);
      r.Applied? ==>
        && r.taken.row < |rows|
        && var d := rows[r.taken.row];
           && r.taken.mask == Mask(env.catalog, d, req.lines) && r.taken.amount == Amount(d, CoveredTotal(env.catalog, d, req.lines))
           && r.taken.shipsFree == (d.kind == FreeShipping || d.includesFreeShipping)
  {
    var i := Lookup(rows, Trim(code));
    if i < |rows| {
      JudgedWith(env, rows[i], req);
    }
    hide Judge;
    hide Trim;
    hide Amount;
    hide Lookup;
  }

  /** A code that was typed is the code tried, whatever would apply by itself. */
  lemma TypedCodeWins(db: Db, t: Terms, at: Attempt, cart: Cart, priced: seq<Line>, quoted: int, i: nat)
    requires TableOk(db.rules) && i < |db.rules| && db.rules[i].code.Some?
    requires Trim(cart.code) != "" && SameText(Trim(cart.code), db.rules[i].code.value)
    ensures match Judge(EnvOf(db, t), db.rules[i], Request(at.email, priced, at.cod))
      case Refused(why) => FiguresWith(db, t, cart, priced, quoted, RuleTried(db, t, at, cart.code, priced, quoted)) == Not(DiscountDenied(why))
      case Eligible(_, _) =>
        RuleTried(db, t, at, cart.code, priced, quoted).Applied? && RuleTried(db, t, at, cart.code, priced, quoted).taken.row == i
  {
    AcceptedExactly(db.rules, EnvOf(db, t), Request(at.email, priced, at.cod), cart.code, i);
    hide Judge;
    hide Apply;
    hide BestCode;
    hide Trim;
    hide SameText;
    hide TableOk;
    hide Total;
  }

  /** With delivery to pay for and an automatic rule that makes it free, no order goes without a rule, or pays more than for its goods. */
  lemma FreeDeliveryIsTaken(db: Db, t: Terms, at: Attempt, cart: Cart, lines: seq<CartLine>, j: nat)
    requires DbOk(db) && (forall i :: 0 <= i < |lines| ==> lines[i].variant in db.variants && lines[i].quantity > 0)
    requires FiguresOf(db, t, at, cart, lines).Yes? && Trim(cart.code) == "" && j < |db.rules|
    requires var priced := Lines(db.variants, lines);
      && Candidate(EnvOf(db, t), db.rules[j], Request(at.email, priced, at.cod)) && db.rules[j].kind == FreeShipping
      && Delivery(t, SomePhysical(db.variants, lines), Total(priced), at.rate).Yes?
      && Delivery(t, SomePhysical(db.variants, lines), Total(priced), at.rate).value > 0
    ensures var f := FiguresOf(db, t, at, cart, lines).value;
      f.taken.Some? && f.subtotal + f.shipping - f.discount <= f.subtotal
  {
    var priced := Lines(db.variants, lines);
    var quoted := Delivery(t, SomePhysical(db.variants, lines), Total(priced), at.rate).value;
    LinesPriced(db, lines);
    assert TableOk(db.rules);
    AutomaticDiscountIsTheBest(db, t, at, cart, lines);
    FreeDeliverySavesTheDelivery(EnvOf(db, t), db.rules[j], Request(at.email, priced, at.cod), quoted);
    FiguresShowTheRule(db, t, cart, priced, quoted, RuleTried(db, t, at, cart.code, priced, quoted));
    FiguresFromTheAnswer(db, t, at, cart, priced, quoted);
    hide DbOk;
    hide TableOk;
    hide Judge;
    hide Auto;
    hide Lines;
    hide Total;
    hide SomePhysical;
    hide Delivery;
    hide RuleTried;
    hide FiguresWith;
    hide Amount;
    hide Trim;
  }

  // ------------------------------------------------------------------ refusals

  ghost predicate AboutALine(db: Db, conflict: Conflict, lines: seq<CartLine>) {
    exists i :: 0 <= i < |lines| && Explains(db, conflict, lines[i])
  }

  /** A line that is off sale, or has a new price, is refused and said to be so. */
  ghost predicate SaysIfMoved<T>(db: Db, l: CartLine, r: Either<T>) {
    && l.variant in db.variants
    && var v := db.variants[l.variant];
       && (!v.active ==> r.Not? && r.why.LinesMoved? && Inactive(l.variant) in r.why.conflicts)
       && (v.active && v.price != l.snapshot ==> r.Not? && r.why.LinesMoved? && PriceChanged(l.variant, v.price) in r.why.conflicts)
  }

  /** The conflicts found in sorted order are those of the lines as they stand in the cart. */
  lemma ConflictsInAnyOrder(db: Db, lines: seq<CartLine>, asked: seq<CartLine>)
    requires multiset(lines) == multiset(asked) && forall i :: 0 <= i < |lines| ==> lines[i].variant in db.variants
    ensures var conflicts := WalkUpTo(db, lines, |lines|).1;
      && (forall k :: 0 <= k < |conflicts| ==> AboutALine(db, conflicts[k], asked))
      && forall i :: 0 <= i < |asked| ==> SaysIfMoved(db, asked[i], if conflicts != [] then Not(LinesMoved(conflicts)) else Yes(0))
  {
    ConflictsExactly(db, lines, |lines|);
    hide WalkUpTo;
    hide Explains;
    var conflicts := WalkUpTo(db, lines, |lines|).1;
    forall i | 0 <= i < |asked| ensures SaysIfMoved(db, asked[i], if conflicts != [] then Not(LinesMoved(conflicts)) else Yes(0)) {
      assert asked[i] in multiset(asked);
      assert asked[i] in lines;
    }
    forall k | 0 <= k < |conflicts| ensures AboutALine(db, conflicts[k], asked) {
      assert IsExplained(db, conflicts[k], lines, |lines|);
      var i :| 0 <= i < |lines| && Explains(db, conflicts[k], lines[i]);
      assert lines[i] in multiset(lines);
      assert lines[i] in asked;
    }
  }

  lemma ConflictsOfTheCart(db: Db, asked: seq<CartLine>)
    requires forall i :: 0 <= i < |asked| ==> LineOk(db, asked[i])
    ensures var lines := ByVariant(asked);
      && (forall i :: 0 <= i < |lines| ==> LineOk(db, lines[i]))
      && var conflicts := WalkUpTo(db, lines, |lines|).1;
         && (forall k :: 0 <= k < |conflicts| ==> AboutALine(db, conflicts[k], asked))
         && forall i :: 0 <= i < |asked| ==> SaysIfMoved(db, asked[i], if conflicts != [] then Not(LinesMoved(conflicts)) else Yes(0))
  {
    SortedLinesOk(db, asked);
    ByVariantKeeps(asked);
    ConflictsInAnyOrder(db, ByVariant(asked), asked);
    hide *;
  }

  /** A cart is refused before anything is worked out exactly when it is not there, is an order already, is empty or has moved. */
  lemma RefusedCarts(db: Db, t: Terms, at: Attempt)
    requires DbOk(db)
    ensures var r, c := Compute(db, t, at), at.request.body.cart;
      && (c !in db.carts <==> r == Not(CartNotFound))
      && (c in db.carts && db.carts[c].converted <==> r == Not(CartCheckedOut))
      && (c in db.carts && !db.carts[c].converted && db.carts[c].lines == [] <==> r == Not(CartEmpty))
      && (r.Not? && r.why.LinesMoved? ==> c in db.carts && r.why.conflicts != [])
      && (r.Not? && r.why.LinesMoved? ==> forall k :: 0 <= k < |r.why.conflicts| ==> AboutALine(db, r.why.conflicts[k], db.carts[c].lines))
      && (c in db.carts && !db.carts[c].converted ==> forall i :: 0 <= i < |db.carts[c].lines| ==>
            SaysIfMoved(db, db.carts[c].lines[i], r))
  {
    var c := at.request.body.cart;
    if c in db.carts && !db.carts[c].converted {
      ConflictsOfTheCart(db, db.carts[c].lines);
      FiguresRefuse(db, t, at, db.carts[c], ByVariant(db.carts[c].lines));
      hide FiguresOf;
      hide WalkUpTo;
      hide ByVariant;
      hide AboutALine;
      hide LineOk;
      hide DbOk;
    }
  }

  lemma FiguresRefuse(db: Db, t: Terms, at: Attempt, cart: Cart, lines: seq<CartLine>)
    requires forall i :: 0 <= i < |lines| ==> lines[i].variant in db.variants
    ensures FiguresOf(db, t, at, cart, lines).Not? ==>
      var why := FiguresOf(db, t, at, cart, lines).why;
      why.NoDelivery? || why.RateGone? || why.DiscountDenied? || why.CardRefused?
  {
    hide RuleTried;
    hide Lines;
    hide Total;
    hide SomePhysical;
    hide Trim;
  }

  /** How a checkout with good figures ends, check by check. */
  lemma EndsExactly(db: Db, t: Terms, at: Attempt)
    requires DbOk(db) && Compute(db, t, at).Yes?
    ensures var f := Compute(db, t, at).value.0;
      var quotedOther := at.quotedTotal.Some? && at.quotedTotal.value != f.total;
      var taken := at.request.key.Some? && at.request.key.value in db.keys;
      var r := Answer(db, t, at, false);
      && Answer(db, t, at, true) == Quoted(f)
      && (quotedOther <==> r == Declined(TotalChanged(f.total)))
      && (!quotedOther && !t.guardsPass <==> r == Declined(GuardRefused))
      && (!quotedOther && t.guardsPass && taken <==> r == Declined(KeyTaken))
      && (!quotedOther && t.guardsPass && !taken <==> r == Placed(|db.orders|, f))
  {
    hide Compute;
    hide DbOk;
  }

  // ------------------------------------------------------------------ the rows a commit writes

  /**
    The rows an order writes: itself, with the rule's id; its cart converted and no other cart touched; one
    use more on the rule it took, on record under its address; its key, if it has one.
  */
  lemma CommittedRows(before: Db, t: Terms, at: Attempt, after: Db)
    requires DbOk(before) && Placing(before, t, at, after)
    ensures at.request.body.cart in before.carts
    ensures var f, c, n := Compute(before, t, at).value.0, at.request.body.cart, |before.orders|;
      var cart := before.carts[c];
      && (f.taken.Some? ==> f.taken.value.row < |before.rules|)
      && after.carts == before.carts[c := Cart(true, cart.lines, cart.code, cart.gift)]
      && |after.orders| == n + 1 && after.orders[..n] == before.orders
      && after.orders[n].row == P.OrderRow(c, at.request.key, at.request.body)
      && after.orders[n].email == at.email && after.orders[n].gift == cart.gift && after.orders[n].figures == f
      && after.variants == before.variants && after.locations == before.locations && after.fallback == before.fallback
      && after.catalog == before.catalog && after.nextRule == before.nextRule
      && (at.request.key.None? ==> after.keys == before.keys)
      && (at.request.key.Some? ==> after.keys == before.keys[at.request.key.value := P.KeyRow(at.request.body, n, None)])
      && match f.taken
         case None => after.orders[n].rule == None && after.rules == before.rules && after.usedBy == before.usedBy
         case Some(taken) =>
           var d := before.rules[taken.row];
           && after.orders[n].rule == Some(d.id) && after.usedBy == before.usedBy + {(d.id, Fold(at.email))}
           && after.rules == before.rules[taken.row := d.(usedCount := d.usedCount + 1)]
  {
    hide Compute;
    hide DbOk;
    hide Fold;
  }

  /** The gift card's row and its ledger: what the order took from it comes off its balance and is written down once. */
  lemma CardDebited(before: Db, t: Terms, at: Attempt, after: Db)
    requires DbOk(before) && Placing(before, t, at, after)
    ensures at.request.body.cart in before.carts
    ensures var paid, g := Compute(before, t, at).value.0.gift, before.carts[at.request.body.cart].gift;
      && paid >= 0
      && (paid == 0 ==> after.cards == before.cards && after.uses == before.uses)
      && (paid > 0 ==> g in before.cards && before.cards[g].usable && paid <= before.cards[g].balance)
      && (paid > 0 ==> after.uses == before.uses + [Use(g, |before.orders|, -paid)])
      && (paid > 0 ==> var card := before.cards[g];
            after.cards == before.cards[g := GiftCard(card.initial, card.balance - paid, card.usable, card.boughtOn)])
  {
    FiguresExactly(before, t, at);
    hide Compute;
    hide DbOk;
    hide Fold;
    hide ByVariant;
    hide Worth;
    hide NeedsSending;
    hide Delivery;
    hide Amount;
    hide CoveredTotal;
    hide Mask;
    hide Trim;
    hide Lines;
  }

  /** Once is once: whoever used a once-per-address rule is refused it afterwards, however they spell the address. */
  lemma OnceIsOnce(before: Db, t: Terms, at: Attempt, after: Db, later: Terms, again: Request, i: nat)
    requires DbOk(before) && Placing(before, t, at, after)
    requires var f := Compute(before, t, at).value.0; f.taken.Some? && f.taken.value.row == i
    requires i < |before.rules| && i < |after.rules| && after.rules[i].oncePerEmail
    requires Trim(again.email) != "" && SameText(again.email, at.email)
    ensures Judge(EnvOf(after, later), after.rules[i], again).Refused?
  {
    CommittedRows(before, t, at, after);
    FoldedIsSameText(again.email, at.email);
    EligibleExactly(EnvOf(after, later), after.rules[i], again);
    hide Compute;
    hide DbOk;
    hide Judge;
    hide Fold;
    hide Trim;
    hide SameText;
    hide Placing;
    hide CoveredTotal;
    hide Total;
  }

  // ------------------------------------------------------------------ after a refusal over prices

  /** After a conflict the cart shows today's price on every line whose variant is still there, and nothing else has moved. */
  lemma RefreshedExactly(db: Db, c: int)
    ensures var after := Refreshed(db, c);
      && after.(carts := db.carts) == db && after.carts.Keys == db.carts.Keys
      && (forall x :: x in db.carts && x != c ==> after.carts[x] == db.carts[x])
      && (c in db.carts ==>
            var was, now := db.carts[c], after.carts[c];
            && now.(lines := was.lines) == was && |now.lines| == |was.lines|
            && forall i :: 0 <= i < |was.lines| ==>
                 now.lines[i] == CartLine(was.lines[i].variant, was.lines[i].quantity,
                   if was.lines[i].variant in db.variants then db.variants[was.lines[i].variant].price else was.lines[i].snapshot))
  {
  }
}
