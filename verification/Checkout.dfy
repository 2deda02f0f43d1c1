/**
  The transaction that turns a cart into an order, and the quote that stops inside it
  (core/checkout.go, createOrderFromCart; the shelves of core/inventory.go; the gift card of
  core/giftcards.go). Tax, delivery rates, the payment method's fee and the modules' guards are
  parameters: the figures are proved for whatever they answer.
*/
module Checkout {
  import opened Basics
  import opened CategoryForest
  import opened Discounts
  import P = CheckoutProtocol

  datatype Variant = Variant(product: int, price: int, active: bool, tracked: bool, oversell: bool, physical: bool)
  datatype Shelf = Shelf(onHand: int, reserved: int)
  datatype Location = Location(id: int, active: bool)
  type Stock = map<(int, int), Shelf>

  datatype CartLine = CartLine(variant: int, quantity: int, snapshot: int)
  datatype Cart = Cart(converted: bool, lines: seq<CartLine>, code: string, gift: string)
  /** boughtOn is the order a card was sold on, if it was sold on one. */
  datatype GiftCard = GiftCard(initial: int, balance: int, usable: bool, boughtOn: Option<nat>)
  datatype Use = Use(card: string, order: nat, amount: int)
  datatype Rate = Rate(id: int, price: int)

  datatype Figures = Figures(
    subtotal: int, shipping: int, discount: int, tax: int, inclusive: bool, fee: int, gift: int, total: int,
    taken: Option<Taken>, autoApplied: bool)

  /** The figures are those it was placed with; rule is the id in the discount row beside it. */
  datatype Order = Order(row: P.OrderRow, email: string, gift: string, rule: Option<int>, figures: Figures)

  /**
    locations in the order reservations try them; fallback is the default one; every change to a
    gift card's balance is a row of uses; rules' ids are handed out below nextRule.
  */
  datatype Db = Db(
    carts: map<int, Cart>, variants: map<int, Variant>, locations: seq<Location>, fallback: Option<int>, stock: Stock,
    rules: seq<Discount>, nextRule: int, catalog: Catalog, usedBy: set<(int, string)>,
    cards: map<string, GiftCard>, uses: seq<Use>, orders: seq<Order>, keys: map<P.Key, P.KeyRow>)

  datatype Attempt = Attempt(request: P.Request, email: string, rate: Option<int>, quotedTotal: Option<int>, cod: bool)

  /** What the rest of the store answers: delivery by subtotal, and tax by lines, mask and discount. */
  datatype Terms = Terms(
    rated: bool, rates: int -> seq<Rate>, flat: int, inclusive: bool,
    tax: (seq<Line>, Option<seq<bool>>, int) -> int, fee: int, guardsPass: bool, now: int)

  ghost predicate TermsOk(t: Terms) {
    && t.flat >= 0 && t.fee >= 0
    && (forall n, i :: 0 <= i < |t.rates(n)| ==> t.rates(n)[i].price >= 0)
    && forall l, m, d :: t.tax(l, m, d) >= 0
  }

  datatype Conflict = Inactive(variant: int) | PriceChanged(variant: int, price: int) | Insufficient(variant: int)
  datatype Refusal =
    | CartNotFound | CartCheckedOut | CartEmpty | LinesMoved(conflicts: seq<Conflict>) | NoDelivery | RateGone
    | DiscountDenied(why: Reason) | CardRefused | TotalChanged(total: int) | GuardRefused | KeyTaken | KeyReused

  ghost predicate DbOk(db: Db) {
    && TableOk(db.rules)
    && (forall i :: 0 <= i < |db.rules| ==> db.rules[i].id < db.nextRule)
    && (forall c :: c in db.carts ==> forall i :: 0 <= i < |db.carts[c].lines| ==> LineOk(db, db.carts[c].lines[i]))
    && forall v :: v in db.variants ==> db.variants[v].price >= 0
  }

  predicate LineOk(db: Db, l: CartLine) { l.variant in db.variants && l.quantity > 0 }

  // ------------------------------------------------------------------ lines and shelves

  function InsertByVariant(l: CartLine, lines: seq<CartLine>): seq<CartLine> {
    if lines == [] then [l]
    else if l.variant <= lines[0].variant then [l] + lines
    else [lines[0]] + InsertByVariant(l, lines[1..])
  }

  /** Reservations are taken in variant order, so two checkouts cannot hold each other's rows. */
  function ByVariant(lines: seq<CartLine>): seq<CartLine> {
    if lines == [] then [] else InsertByVariant(lines[0], ByVariant(lines[1..]))
  }

  lemma {:induction false} InsertKeeps(l: CartLine, lines: seq<CartLine>)
    ensures multiset(InsertByVariant(l, lines)) == multiset(lines) + multiset{l}
  {
    if lines != [] && l.variant > lines[0].variant {
      InsertKeeps(l, lines[1..]);
      assert lines == [lines[0]] + lines[1..];
    }
  }

  lemma {:induction false} ByVariantKeeps(lines: seq<CartLine>)
    ensures multiset(ByVariant(lines)) == multiset(lines)
  {
    if lines != [] {
      ByVariantKeeps(lines[1..]);
      InsertKeeps(lines[0], ByVariant(lines[1..]));
      assert lines == [lines[0]] + lines[1..];
    }
  }

  ghost predicate InVariantOrder(lines: seq<CartLine>) {
    forall i, j :: 0 <= i < j < |lines| ==> lines[i].variant <= lines[j].variant
  }

  lemma {:induction false} InsertKeepsOrder(l: CartLine, lines: seq<CartLine>)
    requires InVariantOrder(lines)
    ensures InVariantOrder(InsertByVariant(l, lines))
  {
    if lines != [] && l.variant > lines[0].variant {
      InsertKeepsOrder(l, lines[1..]);
      InsertKeeps(l, lines[1..]);
      var rest := InsertByVariant(l, lines[1..]);
      forall j | 0 <= j < |rest| ensures lines[0].variant <= rest[j].variant {
        assert rest[j] in multiset(rest);
        assert rest[j] == l || rest[j] in lines[1..];
      }
    }
  }

  lemma {:induction false} ByVariantOrders(lines: seq<CartLine>)
    ensures InVariantOrder(ByVariant(lines))
  {
    if lines != [] {
      ByVariantOrders(lines[1..]);
      InsertKeepsOrder(lines[0], ByVariant(lines[1..]));
    }
  }

  /**
    Two carts never reserve two variants in opposite orders: where one comes to v before w, the other does not
    come to w before v. So no two checkouts can each wait for a row the other holds.
  */
  lemma NoOppositeOrders(a: seq<CartLine>, b: seq<CartLine>, i: nat, j: nat, k: nat, l: nat)
    requires i < j < |ByVariant(a)| && k < l < |ByVariant(b)| && ByVariant(a)[i].variant == ByVariant(b)[l].variant
    requires ByVariant(a)[j].variant == ByVariant(b)[k].variant
    ensures ByVariant(a)[i].variant == ByVariant(a)[j].variant
  {
    ByVariantOrders(a);
    ByVariantOrders(b);
    hide ByVariant;
  }

  predicate HasUnits(stock: Stock, id: int, v: Variant, loc: int, qty: int) {
    (id, loc) in stock && (!v.tracked || v.oversell || stock[(id, loc)].onHand - stock[(id, loc)].reserved >= qty)
  }

  /** pickLocation: the first active location that can cover it, and otherwise the default one. */
  function PickLocation(locs: seq<Location>, fallback: Option<int>, stock: Stock, id: int, v: Variant, qty: int): Option<int> {
    if locs == [] then fallback
    else if locs[0].active && HasUnits(stock, id, v, locs[0].id, qty) then Some(locs[0].id)
    else PickLocation(locs[1..], fallback, stock, id, v, qty)
  }

  /** reserveStock, where pickLocation said. */
  function Reserve(db: Db, stock: Stock, l: CartLine): Option<Stock>
    requires l.variant in db.variants
  {
    var v := db.variants[l.variant];
    var at := PickLocation(db.locations, db.fallback, stock, l.variant, v, l.quantity);
    if at.None? || !HasUnits(stock, l.variant, v, at.value, l.quantity) then None else
    var shelf := stock[(l.variant, at.value)];
    Some(stock[(l.variant, at.value) := shelf.(reserved := shelf.reserved + if v.tracked then l.quantity else 0)])
  }

  /** The first n lines, in variant order: what they reserve, and what is wrong with them. */
  function WalkUpTo(db: Db, lines: seq<CartLine>, n: nat): (Stock, seq<Conflict>)
    requires n <= |lines| && forall i :: 0 <= i < |lines| ==> lines[i].variant in db.variants
    decreases n
  {
    if n == 0 then (db.stock, []) else
    var (stock, conflicts) := WalkUpTo(db, lines, n - 1);
    var l := lines[n - 1];
    var v := db.variants[l.variant];
    if !v.active then (stock, conflicts + [Inactive(l.variant)])
    else if v.price != l.snapshot then (stock, conflicts + [PriceChanged(l.variant, v.price)])
    else match Reserve(db, stock, l)
      case None => (stock, conflicts + [Insufficient(l.variant)])
      case Some(after) => (after, conflicts)
  }

  /** What each line is worth at the price it is sold at now. */
  function Lines(variants: map<int, Variant>, lines: seq<CartLine>): seq<Line>
    requires forall i :: 0 <= i < |lines| ==> lines[i].variant in variants
  {
    seq(|lines|, i requires 0 <= i < |lines| =>
      var v := variants[lines[i].variant]; Line(v.product, v.price * lines[i].quantity))
  }

  /** cartDiscountLines: the basket as the shopper sees it, at the prices it was filled at. */
  function CartView(variants: map<int, Variant>, lines: seq<CartLine>): seq<Line>
    requires forall i :: 0 <= i < |lines| ==> lines[i].variant in variants
  {
    seq(|lines|, i requires 0 <= i < |lines| =>
      Line(variants[lines[i].variant].product, lines[i].snapshot * lines[i].quantity))
  }

  /** What variants are counted and must not be sold past what is there. */
  predicate Counted(db: Db, variant: int) {
    variant in db.variants && db.variants[variant].tracked && !db.variants[variant].oversell
  }

  /** A shelf some reservation touched holds no more reserved than is on it; the others are as they were. */
  ghost predicate NoOversell(db: Db, stock: Stock) {
    && stock.Keys == db.stock.Keys
    && (forall k :: k in stock ==> stock[k].onHand == db.stock[k].onHand)
    && forall k :: k in stock && Counted(db, k.0) ==> stock[k] == db.stock[k] || stock[k].reserved <= stock[k].onHand
  }

  /**
    Reserving never takes more of a counted variant than its shelf holds. A shelf that was already
    over-reserved, which the table allows, is left as it was and voids nothing for the others.
  */
  lemma {:induction false} WalkNeverOversells(db: Db, lines: seq<CartLine>, n: nat)
    requires n <= |lines| && forall i :: 0 <= i < |lines| ==> lines[i].variant in db.variants
    ensures NoOversell(db, WalkUpTo(db, lines, n).0)
    decreases n
  {
    if n > 0 {
      WalkNeverOversells(db, lines, n - 1);
      hide PickLocation;
    }
  }

  /** With no conflict, every line was active and at the price its variant has now. */
  lemma {:induction false} WalkChecksPrices(db: Db, lines: seq<CartLine>, n: nat)
    requires n <= |lines| && forall i :: 0 <= i < |lines| ==> lines[i].variant in db.variants
    requires WalkUpTo(db, lines, n).1 == []
    ensures forall i :: 0 <= i < n ==>
      db.variants[lines[i].variant].active && db.variants[lines[i].variant].price == lines[i].snapshot
    decreases n
  {
    if n > 0 {
      hide Reserve;
      WalkChecksPrices(db, lines, n - 1);
    }
  }

  /** The units of a variant reserved over these locations. */
  function ReservedOn(stock: Stock, variant: int, locs: seq<int>): int {
    if locs == [] then 0 else
    (if (variant, locs[0]) in stock then stock[(variant, locs[0])].reserved else 0) + ReservedOn(stock, variant, locs[1..])
  }

  /** The units of a variant the first n lines ask for. */
  function Asked(lines: seq<CartLine>, n: nat, variant: int): int
    requires n <= |lines|
  {
    if n == 0 then 0 else Asked(lines, n - 1, variant) + if lines[n - 1].variant == variant then lines[n - 1].quantity else 0
  }

  lemma {:induction false} OneShelfRises(stock: Stock, k: (int, int), more: int, variant: int, locs: seq<int>)
    requires k in stock && forall i, j :: 0 <= i < j < |locs| ==> locs[i] != locs[j]
    ensures var after := stock[k := stock[k].(reserved := stock[k].reserved + more)];
      ReservedOn(after, variant, locs) == ReservedOn(stock, variant, locs) + if k.0 == variant && k.1 in locs then more else 0
  {
    if locs != [] {
      OneShelfRises(stock, k, more, variant, locs[1..]);
      assert k.1 in locs <==> k.1 == locs[0] || k.1 in locs[1..];
      assert locs[0] !in locs[1..];
    }
  }

  /**
    With no conflict, the units reserved of every variant, over all its shelves, rise by exactly what
    the cart asks for, however many lines and shelves it takes; an uncounted variant's do not move.
  */
  lemma {:induction false} WalkReservesWhatIsAsked(db: Db, lines: seq<CartLine>, n: nat, variant: int, locs: seq<int>)
    requires n <= |lines| && forall i :: 0 <= i < |lines| ==> lines[i].variant in db.variants
    requires WalkUpTo(db, lines, n).1 == [] && variant in db.variants
    requires forall i, j :: 0 <= i < j < |locs| ==> locs[i] != locs[j]
    requires forall k :: k in db.stock && k.0 == variant ==> k.1 in locs
    ensures ReservedOn(WalkUpTo(db, lines, n).0, variant, locs) - ReservedOn(db.stock, variant, locs) ==
      if db.variants[variant].tracked then Asked(lines, n, variant) else 0
    decreases n
  {
    if n > 0 {
      WalkReservesWhatIsAsked(db, lines, n - 1, variant, locs);
      WalkNeverOversells(db, lines, n - 1);
      var stock, l := WalkUpTo(db, lines, n - 1).0, lines[n - 1];
      var v := db.variants[l.variant];
      var at := PickLocation(db.locations, db.fallback, stock, l.variant, v, l.quantity);
      assert Reserve(db, stock, l).Some?;
      OneShelfRises(stock, (l.variant, at.value), if v.tracked then l.quantity else 0, variant, locs);
      hide PickLocation;
      hide ReservedOn;
    }
  }

  // ------------------------------------------------------------------ the figures

  predicate SomePhysical(variants: map<int, Variant>, lines: seq<CartLine>)
    requires forall i :: 0 <= i < |lines| ==> lines[i].variant in variants
  {
    exists i :: 0 <= i < |lines| && variants[lines[i].variant].physical
  }

  function FindRate(rates: seq<Rate>, id: int): (i: nat)
    ensures i <= |rates| && (i < |rates| ==> rates[i].id == id) && forall j :: 0 <= j < i ==> rates[j].id != id
  {
    if rates == [] || rates[0].id == id then 0 else 1 + FindRate(rates[1..], id)
  }

  datatype Either<T> = Yes(value: T) | Not(why: Refusal)

  function Delivery(t: Terms, physical: bool, subtotal: int, rate: Option<int>): Either<int> {
    if !physical then Yes(0)
    else if !t.rated then Yes(t.flat)
    else
      var rates := t.rates(subtotal);
      if rates == [] then Not(NoDelivery)
      else if rate.None? then Yes(rates[0].price)
      else
        var i := FindRate(rates, rate.value);
        if i == |rates| then Not(RateGone) else Yes(rates[i].price)
  }

  /** The delivery a shopper is charged: the option they chose, or the first the store lists. */
  lemma DeliveryIsTheChosenRate(t: Terms, physical: bool, subtotal: int, rate: Option<int>)
    ensures var r, rates := Delivery(t, physical, subtotal, rate), t.rates(subtotal);
      var asked := physical && t.rated;
      && (r == Not(NoDelivery) <==> asked && rates == [])
      && (r == Not(RateGone) <==> asked && rates != [] && rate.Some? && forall i :: 0 <= i < |rates| ==> rates[i].id != rate.value)
      && (r.Yes? && !asked ==> r.value == if physical then t.flat else 0)
      && (r.Yes? && asked && rate.None? ==> rates != [] && r.value == rates[0].price)
      && (r.Yes? && asked && rate.Some? ==> exists i :: FirstWith(rates, rate.value, i) && r.value == rates[i].price)
  {
    if rate.Some? {
      var rates := t.rates(subtotal);
      var i := FindRate(rates, rate.value);
      assert i < |rates| ==> FirstWith(rates, rate.value, i);
    }
  }

  predicate FirstWith(rates: seq<Rate>, id: int, i: int) {
    0 <= i < |rates| && rates[i].id == id && forall j :: 0 <= j < i ==> rates[j].id != id
  }

  function EnvOf(db: Db, t: Terms): Env { Env(db.catalog, t.now, db.usedBy) }

  function BestCode(rules: seq<Discount>, env: Env, req: Request, shipping: int): string {
    var row := BestOf(rules, env, req, shipping, |rules|).0;
    if row.Some? && row.value < |rules| && rules[row.value].code.Some? then rules[row.value].code.value else ""
  }

  /** The code that is tried: the one typed, or the automatic rule that saves the most. */
  function CodeTried(db: Db, t: Terms, typed: string, req: Request, shipping: int): string {
    if Trim(typed) == "" then BestCode(db.rules, EnvOf(db, t), req, shipping) else typed
  }

  function TakenOf(o: Outcome): Option<Taken> { if o.Applied? then Some(o.taken) else None }

  /** chargeTx: nothing for nothing due; a card that cannot be spent refuses the checkout. */
  function GiftShare(db: Db, gift: string, due: int): Either<int> {
    if gift == "" || due <= 0 then Yes(0)
    else if gift !in db.cards || !db.cards[gift].usable || db.cards[gift].balance <= 0 then Not(CardRefused)
    else Yes(if db.cards[gift].balance < due then db.cards[gift].balance else due)
  }

  /** What the discount rules answer to these lines; nothing after this looks at the address. */
  function RuleTried(db: Db, t: Terms, at: Attempt, code: string, priced: seq<Line>, quoted: int): Outcome {
    var req := Request(at.email, priced, at.cod);
    Apply(db.rules, EnvOf(db, t), req, CodeTried(db, t, code, req, quoted))
  }

  /** The figures, once delivery and discount are known. */
  function FiguresWith(db: Db, t: Terms, cart: Cart, priced: seq<Line>, quoted: int, outcome: Outcome): Either<Figures> {
    if outcome.Denied? then Not(DiscountDenied(outcome.why)) else
    var taken := TakenOf(outcome);
    var subtotal := Total(priced);
    var discount := if taken.Some? then taken.value.amount else 0;
    var shipping := if taken.Some? && taken.value.shipsFree then 0 else quoted;
    var tax := t.tax(priced, if taken.Some? then taken.value.mask else None, discount);
    var due := subtotal + shipping - discount + t.fee + if t.inclusive then 0 else tax;
    match GiftShare(db, cart.gift, due)
    case Not(why) => Not(why)
    case Yes(gift) =>
      Yes(Figures(subtotal, shipping, discount, tax, t.inclusive, t.fee, gift, due - gift, taken, Trim(cart.code) == ""))
  }

  /** Every figure, from the lines the order would be written with. */
  function FiguresOf(db: Db, t: Terms, at: Attempt, cart: Cart, lines: seq<CartLine>): Either<Figures>
    requires forall i :: 0 <= i < |lines| ==> lines[i].variant in db.variants
  {
    var priced := Lines(db.variants, lines);
    match Delivery(t, SomePhysical(db.variants, lines), Total(priced), at.rate)
    case Not(why) => Not(why)
    case Yes(quoted) => FiguresWith(db, t, cart, priced, quoted, RuleTried(db, t, at, cart.code, priced, quoted))
  }

  /** Phase A up to the point where a quote stops: the figures and the shelves behind them. */
  function Compute(db: Db, t: Terms, at: Attempt): Either<(Figures, Stock)>
    requires DbOk(db)
  {
    var c := at.request.body.cart;
    if c !in db.carts then Not(CartNotFound)
    else if db.carts[c].converted then Not(CartCheckedOut)
    else if db.carts[c].lines == [] then Not(CartEmpty)
    else
      var lines := ByVariant(db.carts[c].lines);
      SortedLinesOk(db, db.carts[c].lines);
      var (stock, conflicts) := WalkUpTo(db, lines, |lines|);
      if conflicts != [] then Not(LinesMoved(conflicts)) else
      match FiguresOf(db, t, at, db.carts[c], lines)
      case Not(why) => Not(why)
      case Yes(f) => Yes((f, stock))
  }

  lemma SortedLinesOk(db: Db, lines: seq<CartLine>)
    requires forall i :: 0 <= i < |lines| ==> LineOk(db, lines[i])
    ensures forall i :: 0 <= i < |ByVariant(lines)| ==> LineOk(db, ByVariant(lines)[i])
  {
    ByVariantKeeps(lines);
    var sorted := ByVariant(lines);
    forall i | 0 <= i < |sorted| ensures LineOk(db, sorted[i]) {
      assert sorted[i] in multiset(sorted);
      assert sorted[i] in lines;
    }
  }

  // ------------------------------------------------------------------ what committing does

  /** Everything one order writes, in one transaction. */
  function Commit(db: Db, at: Attempt, f: Figures, stock: Stock): Db
    requires at.request.body.cart in db.carts
    requires f.taken.Some? ==> f.taken.value.row < |db.rules|
  {
    var c := at.request.body.cart;
    var gift := db.carts[c].gift;
    var rule := if f.taken.Some? then Some(db.rules[f.taken.value.row].id) else None;
    var spent := f.gift > 0 && gift in db.cards;
    Db(db.carts[c := db.carts[c].(converted := true)], db.variants, db.locations, db.fallback, stock,
       if f.taken.Some? then Claimed(db.rules, f.taken.value.row) else db.rules,
       db.nextRule, db.catalog,
       if rule.Some? then db.usedBy + {(rule.value, Fold(at.email))} else db.usedBy,
       if spent then db.cards[gift := db.cards[gift].(balance := db.cards[gift].balance - f.gift)] else db.cards,
       if spent then db.uses + [Use(gift, |db.orders|, -f.gift)] else db.uses,
       db.orders + [Order(P.OrderRow(c, at.request.key, at.request.body), at.email, gift, rule, f)],
       if at.request.key.None? then db.keys
       else db.keys[at.request.key.value := P.KeyRow(at.request.body, |db.orders|, None)])
  }

  /** The part of the store the checkout protocol is about. */
  function DeskOf(db: Db): P.Desk {
    P.Desk(set c | c in db.carts && !db.carts[c].converted,
           seq(|db.orders|, i requires 0 <= i < |db.orders| => db.orders[i].row), db.keys)
  }

  datatype Result =
    | Placed(order: nat, figures: Figures)
    | Quoted(figures: Figures)
    | Resumed(order: nat)
    | Declined(why: Refusal)

  /** How phase A ends once its figures are known: quoted, refused, or committed. */
  function Ending(db: Db, t: Terms, at: Attempt, quoting: bool, f: Figures): Result {
    if quoting then Quoted(f)
    else if at.quotedTotal.Some? && at.quotedTotal.value != f.total then Declined(TotalChanged(f.total))
    else if !t.guardsPass then Declined(GuardRefused)
    else if at.request.key.Some? && at.request.key.value in db.keys then Declined(KeyTaken)
    else Placed(|db.orders|, f)
  }

  function Answer(db: Db, t: Terms, at: Attempt, quoting: bool): Result
    requires DbOk(db)
  {
    match Compute(db, t, at)
    case Not(why) => Declined(why)
    case Yes(done) => Ending(db, t, at, quoting, done.0)
  }

  /** The request as Checkout reads it: the address trimmed before anything else. */
  function Trimmed(at: Attempt): Attempt { at.(email := Trim(at.email)) }

  /** Checkout: an order under this key is resumed, another body under it refused, and else one is created. */
  function CheckoutAnswer(db: Db, t: Terms, at: Attempt): Result
    requires DbOk(db)
  {
    match P.Replay(DeskOf(db), at.request)
    case Failed => Declined(KeyReused)
    case Replayed(order) => Resumed(order)
    case Paying(order) => Resumed(order)
    case _ => Answer(db, t, Trimmed(at), false)
  }

  /**
    A retry never places a second order: under the key of an order it is handed that order if it
    asks for the same thing, and refused if it does not, whatever the store looks like by then.
  */
  lemma RetryResumesItsOrder(db: Db, t: Terms, at: Attempt, i: nat)
    requires DbOk(db) && P.OneEach(DeskOf(db)) && P.KeysPoint(DeskOf(db))
    requires i < |db.orders| && at.request.key.Some? && db.orders[i].row.key == at.request.key
    ensures CheckoutAnswer(db, t, at) == if db.orders[i].row.body == at.request.body then Resumed(i) else Declined(KeyReused)
  {
    hide DbOk;
    hide Answer;
    assert DeskOf(db).orders[i] == db.orders[i].row;
  }

  lemma TakenIsARule(db: Db, t: Terms, at: Attempt)
    requires DbOk(db) && Compute(db, t, at).Yes?
    ensures at.request.body.cart in db.carts && !db.carts[at.request.body.cart].converted
    ensures var f := Compute(db, t, at).value.0; f.taken.Some? ==> f.taken.value.row < |db.rules|
  {
    hide Apply;
    hide CodeTried;
    hide DbOk;
    hide WalkUpTo;
    var cart := db.carts[at.request.body.cart];
    assert forall i :: 0 <= i < |cart.lines| ==> LineOk(db, cart.lines[i]) by { assert DbOkCarts(db) by { CartsOk(db); } }
    SortedLinesOk(db, cart.lines);
    FiguresRow(db, t, at, cart, ByVariant(cart.lines));
  }

  ghost predicate DbOkCarts(db: Db) {
    forall c :: c in db.carts ==> forall i :: 0 <= i < |db.carts[c].lines| ==> LineOk(db, db.carts[c].lines[i])
  }

  lemma CartsOk(db: Db)
    requires DbOk(db)
    ensures DbOkCarts(db)
  {
  }

  lemma FiguresRow(db: Db, t: Terms, at: Attempt, cart: Cart, lines: seq<CartLine>)
    requires forall i :: 0 <= i < |lines| ==> lines[i].variant in db.variants
    requires FiguresOf(db, t, at, cart, lines).Yes?
    ensures var f := FiguresOf(db, t, at, cart, lines).value; f.taken.Some? ==> f.taken.value.row < |db.rules|
  {
    hide CodeTried;
    hide Judge;
    hide Total;
    hide Lines;
    hide SomePhysical;
    hide Trim;
  }

  // ------------------------------------------------------------------ after a conflict

  function RefreshLine(variants: map<int, Variant>, l: CartLine): CartLine {
    if l.variant in variants then l.(snapshot := variants[l.variant].price) else l
  }

  function RefreshLines(variants: map<int, Variant>, lines: seq<CartLine>): seq<CartLine> {
    seq(|lines|, i requires 0 <= i < |lines| => RefreshLine(variants, lines[i]))
  }

  /** refreshCartPrices: after the rollback, the cart shows what its lines cost now. */
  function Refreshed(db: Db, c: int): Db {
    if c !in db.carts then db else
    var cart := db.carts[c];
    db.(carts := db.carts[c := cart.(lines := RefreshLines(db.variants, cart.lines))])
  }

  lemma {:induction false} FreshPricesNeverMove(db: Db, lines: seq<CartLine>, n: nat)
    requires n <= |lines| && forall i :: 0 <= i < |lines| ==> lines[i].variant in db.variants
    requires forall i :: 0 <= i < |lines| ==> lines[i].snapshot == db.variants[lines[i].variant].price
    ensures forall k :: 0 <= k < |WalkUpTo(db, lines, n).1| ==> !WalkUpTo(db, lines, n).1[k].PriceChanged?
    decreases n
  {
    if n > 0 {
      FreshPricesNeverMove(db, lines, n - 1);
      hide Reserve;
    }
  }

  lemma RefreshKeepsOk(db: Db, c: int)
    requires DbOk(db)
    ensures DbOk(Refreshed(db, c))
  {
    hide TableOk;
    if c in db.carts {
      forall i | 0 <= i < |db.carts[c].lines| ensures LineOk(db, RefreshLines(db.variants, db.carts[c].lines)[i]) {
        assert LineOk(db, db.carts[c].lines[i]);
      }
    }
  }

  /** Every line shows what its variant costs now. */
  ghost predicate AllFresh(db: Db, lines: seq<CartLine>) {
    forall i :: 0 <= i < |lines| ==> LineOk(db, lines[i]) && lines[i].snapshot == db.variants[lines[i].variant].price
  }

  lemma SortedLinesAreFresh(db: Db, lines: seq<CartLine>)
    requires AllFresh(db, lines)
    ensures AllFresh(db, ByVariant(lines))
  {
    SortedLinesOk(db, lines);
    var sorted := ByVariant(lines);
    ByVariantKeeps(lines);
    forall i | 0 <= i < |sorted| ensures LineOk(db, sorted[i]) && sorted[i].snapshot == db.variants[sorted[i].variant].price {
      assert sorted[i] in multiset(sorted);
      assert sorted[i] in lines;
    }
  }

  /** A shopper refused over prices sees the new ones, and the next try is not refused over them. */
  lemma RetryIsNotRepriced(db: Db, t: Terms, at: Attempt)
    requires DbOk(db)
    ensures var after := Refreshed(db, at.request.body.cart);
      DbOk(after)
      && (Compute(after, t, at).Not? && Compute(after, t, at).why.LinesMoved? ==>
            forall k :: 0 <= k < |Compute(after, t, at).why.conflicts| ==> !Compute(after, t, at).why.conflicts[k].PriceChanged?)
  {
    var c := at.request.body.cart;
    var after := Refreshed(db, c);
    RefreshKeepsOk(db, c);
    if c in db.carts {
      RefreshedLinesAreFresh(db, c);
      SortedLinesAreFresh(after, after.carts[c].lines);
      var lines := ByVariant(after.carts[c].lines);
      hide Refreshed;
      hide ByVariant;
      hide DbOk;
      FreshPricesNeverMove(after, lines, |lines|);
      NoMoveFromFigures(after, t, at, after.carts[c], lines);
      hide FiguresOf;
      hide WalkUpTo;
    }
  }

  lemma RefreshedLinesAreFresh(db: Db, c: int)
    requires DbOk(db) && c in db.carts
    ensures c in Refreshed(db, c).carts && AllFresh(Refreshed(db, c), Refreshed(db, c).carts[c].lines)
  {
    hide TableOk;
    forall i | 0 <= i < |db.carts[c].lines| ensures LineOk(db, db.carts[c].lines[i]) {
    }
  }

  lemma NoMoveFromFigures(db: Db, t: Terms, at: Attempt, cart: Cart, lines: seq<CartLine>)
    requires forall i :: 0 <= i < |lines| ==> lines[i].variant in db.variants
    ensures FiguresOf(db, t, at, cart, lines).Not? ==> !FiguresOf(db, t, at, cart, lines).why.LinesMoved?
  {
    hide RuleTried;
    hide Lines;
    hide Total;
    hide SomePhysical;
    hide Trim;
  }

  // ------------------------------------------------------------------ a cancelled order's gift card

  /** What one card's rows for one order come to. */
  function Net(uses: seq<Use>, card: string, order: nat): int {
    if uses == [] then 0 else
    var u := uses[|uses| - 1];
    Net(uses[..|uses| - 1], card, order) + if u.card == card && u.order == order then u.amount else 0
  }

  /** GROUP BY card HAVING sum(amount) < 0: the cards an order still has money of, each once. */
  ghost predicate Owed(uses: seq<Use>, order: nat, cards: seq<string>) {
    && (forall i, j :: 0 <= i < j < |cards| ==> cards[i] != cards[j])
    && forall g :: g in cards <==> Net(uses, g, order) < 0
  }

  function BackRows(uses: seq<Use>, order: nat, cards: seq<string>): seq<Use> {
    seq(|cards|, i requires 0 <= i < |cards| => Use(cards[i], order, -Net(uses, cards[i], order)))
  }

  function Credited(uses: seq<Use>, order: nat, cards: seq<string>, g: string, card: GiftCard): GiftCard {
    card.(balance := card.balance - if g in cards then Net(uses, g, order) else 0)
  }

  /** The money back on its cards, each with its row, and the cards the order bought switched off. */
  function CardAfter(uses: seq<Use>, order: nat, cards: seq<string>, g: string, card: GiftCard): GiftCard {
    Credited(uses, order, cards, g, card).(usable := card.usable && card.boughtOn != Some(order))
  }

  function Restored(db: Db, order: nat, cards: seq<string>): Db {
    db.(cards := map g | g in db.cards :: CardAfter(db.uses, order, cards, g, db.cards[g]),
        uses := db.uses + BackRows(db.uses, order, cards))
  }

  lemma {:induction false} OnlyRowsOwe(uses: seq<Use>, card: string, order: nat)
    ensures Net(uses, card, order) != 0 ==> exists i :: 0 <= i < |uses| && uses[i].card == card && uses[i].order == order
  {
    if uses != [] {
      OnlyRowsOwe(uses[..|uses| - 1], card, order);
    }
  }

  // ------------------------------------------------------------------ the store, in place

  class Store {
    var db: Db

    /** The loop that reserves each line and collects what is wrong with the cart. */
    method ReserveLines(lines: seq<CartLine>) returns (conflicts: seq<Conflict>)
      requires forall i :: 0 <= i < |lines| ==> lines[i].variant in db.variants
      modifies this
      ensures db == old(db).(stock := WalkUpTo(old(db), lines, |lines|).0)
      ensures conflicts == WalkUpTo(old(db), lines, |lines|).1
    {
      conflicts := [];
      for i := 0 to |lines|
        invariant db == old(db).(stock := WalkUpTo(old(db), lines, i).0)
        invariant conflicts == WalkUpTo(old(db), lines, i).1
      {
        var l := lines[i];
        var v := db.variants[l.variant];
        if !v.active {
          conflicts := conflicts + [Inactive(l.variant)];
          continue;
        }
        if v.price != l.snapshot {
          conflicts := conflicts + [PriceChanged(l.variant, v.price)];
          continue;
        }
        var after := Reserve(db, db.stock, l);
        assert after == Reserve(old(db), db.stock, l);
        if after.None? {
          conflicts := conflicts + [Insufficient(l.variant)];
          continue;
        }
        db := db.(stock := after.value);
      }
    }

    method ChooseDelivery(t: Terms, physical: bool, subtotal: int, rate: Option<int>) returns (r: Either<int>)
      ensures r == Delivery(t, physical, subtotal, rate)
    {
      if !physical {
        return Yes(0);
      }
      if !t.rated {
        return Yes(t.flat);
      }
      var rates := t.rates(subtotal);
      if |rates| == 0 {
        return Not(NoDelivery);
      }
      var chosen := 0;
      if rate.Some? {
        while chosen < |rates| && rates[chosen].id != rate.value
          invariant 0 <= chosen <= |rates| && forall j :: 0 <= j < chosen ==> rates[j].id != rate.value
        {
          chosen := chosen + 1;
        }
        if chosen == |rates| {
          return Not(RateGone);
        }
      }
      return Yes(rates[chosen].price);
    }

    /** Delivery, discount, tax and gift card, in that order. */
    method WorkOut(t: Terms, at: Attempt, cart: Cart, lines: seq<CartLine>) returns (r: Either<Figures>)
      requires forall i :: 0 <= i < |lines| ==> lines[i].variant in db.variants
      ensures r == FiguresOf(db, t, at, cart, lines)
    {
      hide Apply;
      hide Delivery;
      hide BestOf;
      hide Lines;
      hide Total;
      hide SomePhysical;
      hide Trim;
      var priced := Lines(db.variants, lines);
      var subtotal := Total(priced);
      var delivery := ChooseDelivery(t, SomePhysical(db.variants, lines), subtotal, at.rate);
      if delivery.Not? {
        return Not(delivery.why);
      }
      var env, req := EnvOf(db, t), Request(at.email, priced, at.cod);
      var code := cart.code;
      if Trim(cart.code) == "" {
        var row;
        code, row := BestAutoCode(db.rules, env, req, delivery.value);
      }
      var outcome := Apply(db.rules, env, req, code);
      if outcome.Denied? {
        return Not(DiscountDenied(outcome.why));
      }
      var discount, shipping, mask := 0, delivery.value, None;
      if outcome.Applied? {
        discount, mask := outcome.taken.amount, outcome.taken.mask;
        if outcome.taken.shipsFree {
          shipping := 0;
        }
      }
      var tax := t.tax(priced, mask, discount);
      var total := subtotal + shipping - discount + t.fee;
      if !t.inclusive {
        total := total + tax;
      }
      var gift := GiftShare(db, cart.gift, total);
      if gift.Not? {
        return Not(gift.why);
      }
      return Yes(Figures(subtotal, shipping, discount, tax, t.inclusive, t.fee, gift.value, total - gift.value,
                         TakenOf(outcome), Trim(cart.code) == ""));
    }

    method RefreshCartPrices(c: int)
      modifies this
      ensures db == Refreshed(old(db), c)
    {
      if c in db.carts {
        var was, variants := db.carts[c].lines, db.variants;
        var lines := [];
        for i := 0 to |was|
          invariant |lines| == i && forall j :: 0 <= j < i ==> lines[j] == RefreshLine(variants, was[j])
        {
          var l := was[i];
          if l.variant in variants && l.snapshot != variants[l.variant].price {
            l := l.(snapshot := variants[l.variant].price);
          }
          lines := lines + [l];
        }
        assert lines == RefreshLines(variants, was);
        db := db.(carts := db.carts[c := db.carts[c].(lines := lines)]);
      }
    }

    /** createOrderFromCart: one transaction; a quote, a refusal and a conflict all roll back. */
    method CreateOrder(t: Terms, at: Attempt, quoting: bool) returns (r: Result)
      requires DbOk(db)
      modifies this
      ensures r == Answer(old(db), t, at, quoting)
      ensures !r.Placed? && !(r.Declined? && r.why.LinesMoved?) ==> db == old(db)
      ensures r.Declined? && r.why.LinesMoved? ==> db == Refreshed(old(db), at.request.body.cart)
      ensures r.Placed? ==> Placing(old(db), t, at, db)
    {
      hide WalkUpTo;
      hide FiguresOf;
      hide Refreshed;
      hide ByVariant;
      hide TableOk;
      var saved := db;
      var c := at.request.body.cart;
      if c !in db.carts {
        return Declined(CartNotFound);
      }
      if db.carts[c].converted {
        return Declined(CartCheckedOut);
      }
      if db.carts[c].lines == [] {
        return Declined(CartEmpty);
      }
      var lines := ByVariant(db.carts[c].lines);
      SortedLinesOk(db, db.carts[c].lines);
      var conflicts := ReserveLines(lines);
      if conflicts != [] {
        db := saved;
        RefreshCartPrices(c);
        return Declined(LinesMoved(conflicts));
      }
      var figures := WorkOut(t, at, db.carts[c], lines);
      StockDoesNotMatter(saved, db.stock, t, at, db.carts[c], lines);
      if figures.Not? {
        NoMoveFromFigures(saved, t, at, saved.carts[c], lines);
        db := saved;
        return Declined(figures.why);
      }
      var f := figures.value;
      r := Ending(db, t, at, quoting, f);
      if !r.Placed? {
        db := saved;
        return;
      }
      TakenIsARule(saved, t, at);
      db := Commit(saved, at, f, db.stock);
    }

    /** Checkout up to the point where payment starts. */
    method Checkout(t: Terms, at: Attempt) returns (r: Result)
      requires DbOk(db)
      modifies this
      ensures r == CheckoutAnswer(old(db), t, at) && r != Declined(KeyTaken)
      ensures !r.Placed? && !(r.Declined? && r.why.LinesMoved?) ==> db == old(db)
      ensures r.Declined? && r.why.LinesMoved? ==> db == Refreshed(old(db), at.request.body.cart)
      ensures r.Placed? ==> Placing(old(db), t, Trimmed(at), db)
    {
      var key := at.request.key;
      if key.Some? && key.value in db.keys {
        var row := db.keys[key.value];
        if row.body != at.request.body {
          return Declined(KeyReused);
        }
        return Resumed(if row.response.Some? then row.response.value else row.order);
      }
      NeverTakenAlone(db, t, Trimmed(at));
      r := CreateOrder(t, Trimmed(at), false);
    }

    method Quote(t: Terms, at: Attempt) returns (r: Result)
      requires DbOk(db)
      modifies this
      ensures r == Answer(old(db), t, at, true) && !r.Placed?
      ensures !(r.Declined? && r.why.LinesMoved?) ==> db == old(db)
      ensures r.Declined? && r.why.LinesMoved? ==> db == Refreshed(old(db), at.request.body.cart)
    {
      r := CreateOrder(t, at, true);
    }

    /** What each card has on the order, where it is still out. */
    method CardsOwed(order: nat) returns (back: seq<string>)
      ensures Owed(db.uses, order, back)
    {
      hide Net;
      back := [];
      for i := 0 to |db.uses|
        invariant forall j, k :: 0 <= j < k < |back| ==> back[j] != back[k]
        invariant forall g :: g in back ==> Net(db.uses, g, order) < 0
        invariant forall j :: 0 <= j < i && Net(db.uses, db.uses[j].card, order) < 0 ==> db.uses[j].card in back
      {
        var g := db.uses[i].card;
        if g !in back && Net(db.uses, g, order) < 0 {
          back := back + [g];
        }
      }
      forall g | Net(db.uses, g, order) < 0 ensures g in back {
        OnlyRowsOwe(db.uses, g, order);
      }
    }

    /** restoreTx: gives back what cards paid, records it, and switches off the cards the order bought. */
    method GiveBackGiftCards(order: nat) returns (back: seq<string>)
      requires forall i :: 0 <= i < |db.uses| ==> db.uses[i].card in db.cards
      modifies this
      ensures Owed(old(db).uses, order, back) && db == Restored(old(db), order, back)
    {
      back := CardsOwed(order);
      OwedCardsExist(db, order, back);
      hide Net;
      hide Owed;
      hide BackRows;
      hide CreditedAll;
      hide Restored;
      var cards, uses := CreditEach(db.cards, db.uses, order, back);
      SwitchedOffIsRestored(db, order, back);
      db := db.(cards := SwitchedOff(cards, order), uses := uses);
    }
  }

  type Cards = map<string, GiftCard>

  function CreditedAll(cards: Cards, rows: seq<Use>, order: nat, back: seq<string>): Cards {
    map g | g in cards :: Credited(rows, order, back, g, cards[g])
  }

  function SwitchedOff(cards: Cards, order: nat): Cards {
    map g | g in cards :: cards[g].(usable := cards[g].usable && cards[g].boughtOn != Some(order))
  }

  lemma SwitchedOffIsRestored(db: Db, order: nat, back: seq<string>)
    ensures Restored(db, order, back) ==
      db.(cards := SwitchedOff(CreditedAll(db.cards, db.uses, order, back), order), uses := db.uses + BackRows(db.uses, order, back))
  {
    hide Net;
    hide BackRows;
  }

  /** The loop over the rows of the query: a balance raised and a row written for each. */
  method CreditEach(was: Cards, rows: seq<Use>, order: nat, back: seq<string>) returns (cards: Cards, uses: seq<Use>)
    requires forall g :: g in back ==> g in was
    requires forall i, j :: 0 <= i < j < |back| ==> back[i] != back[j]
    ensures cards == CreditedAll(was, rows, order, back) && uses == rows + BackRows(rows, order, back)
  {
    hide Net;
    hide BackRows;
    cards, uses := was, rows;
    NothingCredited(was, rows, order);
    assert back[..0] == [] && back[..|back|] == back;
    for n := 0 to |back|
      invariant uses == rows + BackRows(rows, order, back[..n])
      invariant cards == CreditedAll(was, rows, order, back[..n])
    {
      var g := back[n];
      var owed := -Net(rows, g, order);
      NextRow(rows, order, back, n);
      NextCredited(was, rows, order, back, n);
      cards, uses := cards[g := cards[g].(balance := cards[g].balance + owed)], uses + [Use(g, order, owed)];
    }
  }

  lemma NothingCredited(was: Cards, rows: seq<Use>, order: nat)
    ensures CreditedAll(was, rows, order, []) == was && BackRows(rows, order, []) == []
  {
    hide Net;
  }

  lemma NextRow(uses: seq<Use>, order: nat, back: seq<string>, n: nat)
    requires n < |back|
    ensures BackRows(uses, order, back[..n + 1]) == BackRows(uses, order, back[..n]) + [Use(back[n], order, -Net(uses, back[n], order))]
  {
    hide Net;
    assert back[..n + 1] == back[..n] + [back[n]];
  }

  lemma OwedCardsExist(db: Db, order: nat, cards: seq<string>)
    requires Owed(db.uses, order, cards) && forall i :: 0 <= i < |db.uses| ==> db.uses[i].card in db.cards
    ensures forall g :: g in cards ==> g in db.cards
    ensures forall i, j :: 0 <= i < j < |cards| ==> cards[i] != cards[j]
  {
    forall g | g in cards ensures g in db.cards {
      OnlyRowsOwe(db.uses, g, order);
    }
  }

  lemma NextCredited(was: Cards, rows: seq<Use>, order: nat, back: seq<string>, n: nat)
    requires n < |back| && back[n] in was && forall i, j :: 0 <= i < j < |back| ==> back[i] != back[j]
    ensures var cards, g := CreditedAll(was, rows, order, back[..n]), back[n];
      CreditedAll(was, rows, order, back[..n + 1]) == cards[g := cards[g].(balance := cards[g].balance - Net(rows, g, order))]
  {
    hide Net;
    assert back[..n + 1] == back[..n] + [back[n]];
    assert back[n] !in back[..n];
  }

  /** With nobody else's transaction between looking a key up and writing it, it is not taken. */
  lemma NeverTakenAlone(db: Db, t: Terms, at: Attempt)
    requires DbOk(db) && (at.request.key.Some? ==> at.request.key.value !in db.keys)
    ensures Answer(db, t, at, false) != Declined(KeyTaken)
  {
    hide WalkUpTo;
    hide DbOk;
    hide RuleTried;
    hide Lines;
    hide Total;
    hide SomePhysical;
    hide Trim;
  }

  /** The store after an order was placed: the figures computed on the old one, committed whole. */
  ghost predicate Placing(before: Db, t: Terms, at: Attempt, after: Db)
    requires DbOk(before)
  {
    && Compute(before, t, at).Yes?
    && var (f, stock) := Compute(before, t, at).value;
       && at.request.body.cart in before.carts
       && (f.taken.Some? ==> f.taken.value.row < |before.rules|)
       && after == Commit(before, at, f, stock)
  }

  /** The figures are worked out after the reservations, and do not look at them. */
  lemma StockDoesNotMatter(db: Db, stock: Stock, t: Terms, at: Attempt, cart: Cart, lines: seq<CartLine>)
    requires forall i :: 0 <= i < |lines| ==> lines[i].variant in db.variants
    ensures FiguresOf(db.(stock := stock), t, at, cart, lines) == FiguresOf(db, t, at, cart, lines)
  {
    hide Apply;
    hide BestCode;
    hide Total;
    hide Delivery;
    hide Lines;
    hide SomePhysical;
    hide Trim;
  }
}
