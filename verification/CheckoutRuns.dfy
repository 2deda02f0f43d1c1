/**
  Runs of checkouts and of everything else a store does in between (core/checkout.go,
  core/giftcards.go, core/discounts.go): rules are added, edited and deleted, gift cards issued and
  spent, orders cancelled and their cards paid back. Whatever the order of it, the rules' counts of
  uses, the cards' balances and the idempotency rows agree with the orders that were placed.
*/
module CheckoutRuns {
  import opened Basics
  import opened CategoryForest
  import opened Discounts
  import opened Checkout
  import opened CheckoutMoney
  import opened QuoteMatch
  import P = CheckoutProtocol

  // ------------------------------------------------------------------ the ledger of gift cards

  /** Every change there ever was to one card's balance, added up. */
  function NetOf(uses: seq<Use>, card: string): int {
    if uses == [] then 0 else
    var u := uses[|uses| - 1];
    NetOf(uses[..|uses| - 1], card) + if u.card == card then u.amount else 0
  }

  lemma {:induction false} NetAppend(a: seq<Use>, b: seq<Use>, card: string, order: nat)
    ensures Net(a + b, card, order) == Net(a, card, order) + Net(b, card, order)
    ensures NetOf(a + b, card) == NetOf(a, card) + NetOf(b, card)
  {
    if b == [] {
      assert a + b == a;
    } else {
      var m := b[..|b| - 1];
      assert (a + b)[..|a + b| - 1] == a + m;
      NetAppend(a, m, card, order);
    }
  }

  /** Paying back writes each card's own row once, for the order that is cancelled. */
  lemma {:induction false} BackRowsNet(uses: seq<Use>, order: nat, back: seq<string>, n: nat, card: string, other: nat)
    requires n <= |back| && forall i, j :: 0 <= i < j < |back| ==> back[i] != back[j]
    ensures var paid := if card in back[..n] then -Net(uses, card, order) else 0;
      && NetOf(BackRows(uses, order, back[..n]), card) == paid
      && Net(BackRows(uses, order, back[..n]), card, other) == if other == order then paid else 0
  {
    if n > 0 {
      BackRowsNet(uses, order, back, n - 1, card, other);
      var rows := BackRows(uses, order, back[..n]);
      assert rows[..|rows| - 1] == BackRows(uses, order, back[..n - 1]);
      assert back[..n] == back[..n - 1] + [back[n - 1]];
      assert back[n - 1] !in back[..n - 1];
    }
  }

  /** What a card has on the first n orders. */
  function NetUpTo(uses: seq<Use>, card: string, n: nat): int {
    if n == 0 then 0 else NetUpTo(uses, card, n - 1) + Net(uses, card, n - 1)
  }

  lemma {:induction false} OneMoreRow(uses: seq<Use>, card: string, n: nat)
    requires uses != []
    ensures var u := uses[|uses| - 1];
      NetUpTo(uses, card, n) == NetUpTo(uses[..|uses| - 1], card, n) + if u.card == card && u.order < n then u.amount else 0
  {
    if n > 0 {
      OneMoreRow(uses, card, n - 1);
    }
  }

  lemma {:induction false} NoRowsNoNet(card: string, n: nat)
    ensures NetUpTo([], card, n) == 0
  {
    if n > 0 {
      NoRowsNoNet(card, n - 1);
    }
  }

  /** The ledger of a card, read order by order, is the whole of it. */
  lemma {:induction false} LedgerSplitsByOrder(uses: seq<Use>, card: string, n: nat)
    requires forall i :: 0 <= i < |uses| ==> uses[i].order < n
    ensures NetOf(uses, card) == NetUpTo(uses, card, n)
  {
    if uses == [] {
      NoRowsNoNet(card, n);
    } else {
      LedgerSplitsByOrder(uses[..|uses| - 1], card, n);
      OneMoreRow(uses, card, n);
    }
  }

  lemma {:induction false} NeverInCredit(uses: seq<Use>, card: string, n: nat)
    requires forall o: nat :: o < n ==> Net(uses, card, o) <= 0
    ensures NetUpTo(uses, card, n) <= 0
  {
    if n > 0 {
      NeverInCredit(uses, card, n - 1);
    }
  }

  // ------------------------------------------------------------------ the books

  /** How many orders were placed with a rule. */
  function UsesOf(orders: seq<Order>, id: int): nat {
    if orders == [] then 0 else
    UsesOf(orders[..|orders| - 1], id) + if orders[|orders| - 1].rule == Some(id) then 1 else 0
  }

  lemma {:induction false} NoOrderNoUse(orders: seq<Order>, id: int)
    requires forall i :: 0 <= i < |orders| ==> orders[i].rule != Some(id)
    ensures UsesOf(orders, id) == 0
  {
    if orders != [] {
      NoOrderNoUse(orders[..|orders| - 1], id);
    }
  }

  /** A rule has been used by exactly the orders that carry its id, and no id is handed out twice. */
  ghost predicate UsesAgree(db: Db) {
    && (forall i :: 0 <= i < |db.rules| ==> db.rules[i].usedCount == UsesOf(db.orders, db.rules[i].id))
    && forall i :: 0 <= i < |db.orders| && db.orders[i].rule.Some? ==> db.orders[i].rule.value < db.nextRule
  }

  /** Every row of the ledger is about a card and an order that exist. */
  ghost predicate LedgerPoints(db: Db) {
    forall i :: 0 <= i < |db.uses| ==> db.uses[i].card in db.cards && db.uses[i].order < |db.orders|
  }

  /** An order's gift card money is out whole or back whole, and only ever on the card it was paid with. */
  ghost predicate OutWholeOrBack(db: Db) {
    forall g: string, o: nat :: o < |db.orders| ==>
      Net(db.uses, g, o) == 0 || (g == db.orders[o].gift && Net(db.uses, g, o) == -db.orders[o].figures.gift)
  }

  /** A card holds what it was issued with and what its ledger says, never less than nothing. */
  ghost predicate BalancesAgree(db: Db) {
    forall g :: g in db.cards ==> 0 <= db.cards[g].balance == db.cards[g].initial + NetOf(db.uses, g)
  }

  ghost predicate SumsAgree(db: Db) { forall i :: 0 <= i < |db.orders| ==> FiguresAddUp(db.orders[i].figures) }

  ghost predicate KeysAgree(db: Db) { P.OneEach(DeskOf(db)) && P.KeysPoint(DeskOf(db)) }

  ghost predicate Books(db: Db) {
    && UsesAgree(db) && LedgerPoints(db) && OutWholeOrBack(db) && BalancesAgree(db) && SumsAgree(db) && KeysAgree(db)
    && RecordsTrimmed(db.usedBy)
  }

  // ------------------------------------------------------------------ steps

  /**
    A checkout that commits; an order's cancellation, with what it pays back; the answer finishPayment
    stores; and everything else a store does.
  */
  datatype Event =
    | Committed(t: Terms, at: Attempt)
    | Cancelled(order: nat, cards: seq<string>)
    | AnswerStored(request: P.Request, order: nat)
    | StoreChanged

  /** A rule keeps its count whatever is edited on it, and a new one has a new id and no uses. */
  ghost predicate RuleFrom(before: Db, d: Discount) {
    || (d.id >= before.nextRule && d.usedCount == 0)
    || exists i :: 0 <= i < |before.rules| && before.rules[i].id == d.id && before.rules[i].usedCount == d.usedCount
  }

  /** Cards are switched on and off and issued, never deleted, and their money moves only by the ledger. */
  ghost predicate CardsFrom(before: Db, after: Db) {
    && before.cards.Keys <= after.cards.Keys
    && forall g :: g in after.cards ==>
         if g in before.cards then
           after.cards[g].initial == before.cards[g].initial && after.cards[g].balance == before.cards[g].balance
         else after.cards[g].balance == after.cards[g].initial > 0
  }

  /** No cart of an order comes back to life. */
  ghost predicate CartsFrom(before: Db, after: Db) {
    forall c :: c in after.carts && !after.carts[c].converted ==>
      forall i :: 0 <= i < |before.orders| ==> before.orders[i].row.cart != c
  }

  ghost predicate Step(before: Db, e: Event, after: Db)
    requires DbOk(before)
  {
    match e
    case Committed(t, at) =>
      TermsOk(t) && Trim(at.email) == at.email && Answer(before, t, at, false).Placed? && Placing(before, t, at, after)
    case Cancelled(order, cards) =>
      && order < |before.orders| && Owed(before.uses, order, cards)
      && after.usedBy <= before.usedBy
      && after == Restored(before, order, cards).(stock := after.stock, usedBy := after.usedBy)
    case AnswerStored(request, order) =>
      && P.Owns(DeskOf(before), request, order)
      && after == before.(keys := P.Stored(DeskOf(before), request, order).keys)
    case StoreChanged =>
      && DbOk(after) && RecordsTrimmed(after.usedBy)
      && after.orders == before.orders && after.keys == before.keys && after.uses == before.uses
      && after.nextRule >= before.nextRule && (forall i :: 0 <= i < |after.rules| ==> RuleFrom(before, after.rules[i]))
      && CardsFrom(before, after) && CartsFrom(before, after)
  }

  // ------------------------------------------------------------------ a commit

  /** What Compute takes off a card is no more than is on it. */
  lemma PlacedGiftWithinCard(db: Db, t: Terms, at: Attempt)
    requires DbOk(db) && Compute(db, t, at).Yes?
    ensures at.request.body.cart in db.carts
    ensures var f, gift := Compute(db, t, at).value.0, db.carts[at.request.body.cart].gift;
      f.gift >= 0 && (f.gift > 0 ==> gift in db.cards && f.gift <= db.cards[gift].balance)
  {
    var cart := db.carts[at.request.body.cart];
    forall due: int | GiftShare(db, cart.gift, due).Yes?
      ensures var share := GiftShare(db, cart.gift, due).value;
        0 <= share && (share > 0 ==> cart.gift in db.cards && share <= db.cards[cart.gift].balance)
    {
      GiftWithinCard(db, cart.gift, due);
    }
    hide GiftShare;
    hide WalkUpTo;
    hide DbOk;
    hide RuleTried;
    hide Total;
    hide Lines;
    hide SomePhysical;
    hide Delivery;
    hide Trim;
    hide ByVariant;
  }

  lemma CommitKeepsUses(db: Db, t: Terms, at: Attempt, after: Db)
    requires DbOk(db) && Placing(db, t, at, after) && UsesAgree(db)
    ensures UsesAgree(after)
  {
    var (f, stock) := Compute(db, t, at).value;
    assert TableOk(db.rules) && forall i :: 0 <= i < |db.rules| ==> db.rules[i].id < db.nextRule;
    hide Compute;
    hide DbOk;
    assert after == Commit(db, at, f, stock);
    assert after.orders[..|after.orders| - 1] == db.orders;
    forall i | 0 <= i < |after.rules| ensures after.rules[i].usedCount == UsesOf(after.orders, after.rules[i].id) {
      assert UsesOf(after.orders, after.rules[i].id) ==
        UsesOf(db.orders, after.rules[i].id) + if after.orders[|after.orders| - 1].rule == Some(after.rules[i].id) then 1 else 0;
    }
  }

  /** One more order, with what it takes off its gift card and the ledger's row for it. */
  ghost predicate Spends(db: Db, after: Db, gift: string, amount: int) {
    && |after.orders| == |db.orders| + 1 && after.orders[..|db.orders|] == db.orders
    && after.orders[|db.orders|].gift == gift && after.orders[|db.orders|].figures.gift == amount >= 0
    && if amount == 0 then after.uses == db.uses && after.cards == db.cards else
       && gift in db.cards && amount <= db.cards[gift].balance
       && after.uses == db.uses + [Use(gift, |db.orders|, -amount)]
       && after.cards == db.cards[gift := db.cards[gift].(balance := db.cards[gift].balance - amount)]
  }

  lemma CommitSpends(db: Db, t: Terms, at: Attempt, after: Db)
    requires DbOk(db) && Placing(db, t, at, after)
    ensures after.orders != []
    ensures var last := after.orders[|after.orders| - 1]; Spends(db, after, last.gift, last.figures.gift)
  {
    PlacedGiftWithinCard(db, t, at);
    hide Compute;
    hide DbOk;
  }

  lemma SpentLedger(db: Db, after: Db, gift: string, amount: int, g: string, o: nat)
    requires Spends(db, after, gift, amount)
    ensures Net(after.uses, g, o) == Net(db.uses, g, o) - if g == gift && o == |db.orders| then amount else 0
    ensures NetOf(after.uses, g) == NetOf(db.uses, g) - if g == gift then amount else 0
  {
    if amount > 0 {
      assert after.uses[..|after.uses| - 1] == db.uses;
    }
  }

  lemma SpendingKeepsLedger(db: Db, after: Db, gift: string, amount: int)
    requires Spends(db, after, gift, amount) && LedgerPoints(db) && OutWholeOrBack(db) && BalancesAgree(db)
    ensures LedgerPoints(after) && OutWholeOrBack(after) && BalancesAgree(after)
  {
    hide Net;
    hide NetOf;
    var n := |db.orders|;
    forall g: string, o: nat | o < |after.orders|
      ensures Net(after.uses, g, o) == 0 || (g == after.orders[o].gift && Net(after.uses, g, o) == -after.orders[o].figures.gift)
    {
      SpentLedger(db, after, gift, amount, g, o);
      OnlyRowsOwe(db.uses, g, n);
      assert o < n ==> after.orders[o] == db.orders[o];
    }
    forall g | g in after.cards ensures 0 <= after.cards[g].balance == after.cards[g].initial + NetOf(after.uses, g) {
      SpentLedger(db, after, gift, amount, g, n);
    }
  }

  lemma CommitKeepsLedger(db: Db, t: Terms, at: Attempt, after: Db)
    requires DbOk(db) && Placing(db, t, at, after)
    requires LedgerPoints(db) && OutWholeOrBack(db) && BalancesAgree(db)
    ensures LedgerPoints(after) && OutWholeOrBack(after) && BalancesAgree(after)
  {
    CommitSpends(db, t, at, after);
    hide *;
    var last := after.orders[|after.orders| - 1];
    SpendingKeepsLedger(db, after, last.gift, last.figures.gift);
  }

  lemma ClaimKeepsTable(rows: seq<Discount>, row: nat, next: int)
    requires row < |rows| && TableOk(rows) && forall i :: 0 <= i < |rows| ==> rows[i].id < next
    ensures TableOk(Claimed(rows, row)) && forall i :: 0 <= i < |rows| ==> Claimed(rows, row)[i].id < next
  {
    hide Fold;
    hide Trim;
    forall j | 0 <= j < |rows| ensures CodeTrimmed(Claimed(rows, row)[j]) {
      assert CodeTrimmed(rows[j]);
    }
  }

  lemma CommitKeepsDbOk(db: Db, t: Terms, at: Attempt, after: Db)
    requires DbOk(db) && Placing(db, t, at, after)
    ensures DbOk(after)
  {
    var (f, stock) := Compute(db, t, at).value;
    if f.taken.Some? {
      ClaimKeepsTable(db.rules, f.taken.value.row, db.nextRule);
    }
    hide Compute;
    hide TableOk;
    hide Claimed;
    assert after == Commit(db, at, f, stock);
    forall c | c in after.carts ensures forall i :: 0 <= i < |after.carts[c].lines| ==> LineOk(after, after.carts[c].lines[i]) {
      assert forall i :: 0 <= i < |db.carts[c].lines| ==> LineOk(db, db.carts[c].lines[i]);
    }
    assert |after.rules| == |db.rules| by { if f.taken.Some? { ClaimKeepsLength(db.rules, f.taken.value.row); } }
  }

  lemma ClaimKeepsLength(rows: seq<Discount>, row: nat)
    requires row < |rows|
    ensures |Claimed(rows, row)| == |rows|
  {
  }

  lemma CommitKeepsSums(db: Db, t: Terms, at: Attempt, after: Db)
    requires DbOk(db) && TermsOk(t) && Placing(db, t, at, after) && SumsAgree(db)
    ensures SumsAgree(after)
  {
    PlacedOrdersAddUp(db, t, at);
    hide Compute;
    hide DbOk;
    hide FiguresAddUp;
  }

  /** A commit is the protocol's one step: the order, the conversion and the key row together. */
  lemma CommitIsTheProtocolsStep(db: Db, t: Terms, at: Attempt, after: Db)
    requires DbOk(db) && Answer(db, t, at, false).Placed? && Placing(db, t, at, after)
    ensures P.MayCreate(DeskOf(db), at.request)
    ensures DeskOf(after) == P.Created(DeskOf(db), at.request)
  {
    TakenIsARule(db, t, at);
    hide Compute;
    hide DbOk;
    var before, later := DeskOf(db), DeskOf(after);
    assert later.live == before.live - {at.request.body.cart};
    assert later.orders == before.orders + [P.OrderRow(at.request.body.cart, at.request.key, at.request.body)];
  }

  lemma CommitKeepsKeys(db: Db, t: Terms, at: Attempt, after: Db)
    requires DbOk(db) && Answer(db, t, at, false).Placed? && Placing(db, t, at, after) && KeysAgree(db)
    ensures KeysAgree(after)
  {
    CommitIsTheProtocolsStep(db, t, at, after);
    P.CreateKeeps(DeskOf(db), at.request);
    hide Answer;
    hide Placing;
    hide DbOk;
    hide DeskOf;
    hide P.OneEach;
    hide P.KeysPoint;
  }

  lemma CommitKeepsRecords(db: Db, t: Terms, at: Attempt, after: Db)
    requires DbOk(db) && Placing(db, t, at, after) && Trim(at.email) == at.email && RecordsTrimmed(db.usedBy)
    ensures RecordsTrimmed(after.usedBy)
  {
    TrimIsClean(at.email);
    FoldKeepsEnds(at.email);
    hide Compute;
    hide DbOk;
    hide Trim;
    hide Fold;
    hide StartsClean;
    hide EndsClean;
  }

  // ------------------------------------------------------------------ a cancellation

  /** What an order owes its card back, card by card: nothing, or the whole of what it was paid with. */
  lemma OwedIsTheWhole(db: Db, order: nat, cards: seq<string>, g: string)
    requires OutWholeOrBack(db) && order < |db.orders| && Owed(db.uses, order, cards)
    requires FiguresAddUp(db.orders[order].figures)
    ensures if g in cards then g == db.orders[order].gift && Net(db.uses, g, order) == -db.orders[order].figures.gift < 0
            else Net(db.uses, g, order) == 0
  {
    hide Net;
  }

  /** The ledger once an order is paid back: that order's rows come to nothing, and no other's move. */
  lemma PaidBackLedger(db: Db, order: nat, cards: seq<string>, g: string, o: nat)
    requires Owed(db.uses, order, cards)
    ensures var after := Restored(db, order, cards).uses;
      && Net(after, g, o) == Net(db.uses, g, o) - (if o == order && g in cards then Net(db.uses, g, order) else 0)
      && NetOf(after, g) == NetOf(db.uses, g) - if g in cards then Net(db.uses, g, order) else 0
  {
    NetAppend(db.uses, BackRows(db.uses, order, cards), g, o);
    BackRowsNet(db.uses, order, cards, |cards|, g, o);
    assert cards[..|cards|] == cards;
    hide Net;
    hide NetOf;
    hide BackRows;
  }

  lemma CancelKeepsLedger(db: Db, order: nat, cards: seq<string>)
    requires LedgerPoints(db) && OutWholeOrBack(db) && BalancesAgree(db) && SumsAgree(db)
    requires order < |db.orders| && Owed(db.uses, order, cards)
    ensures var after := Restored(db, order, cards); LedgerPoints(after) && OutWholeOrBack(after) && BalancesAgree(after)
  {
    var after := Restored(db, order, cards);
    OwedCardsExist(db, order, cards);
    hide Net;
    hide NetOf;
    forall g: string, o: nat | o < |after.orders|
      ensures Net(after.uses, g, o) == 0 || (g == after.orders[o].gift && Net(after.uses, g, o) == -after.orders[o].figures.gift)
    {
      PaidBackLedger(db, order, cards, g, o);
      OwedIsTheWhole(db, order, cards, g);
    }
    forall g | g in after.cards ensures 0 <= after.cards[g].balance == after.cards[g].initial + NetOf(after.uses, g) {
      PaidBackLedger(db, order, cards, g, order);
      OwedIsTheWhole(db, order, cards, g);
    }
    hide Owed;
    hide OutWholeOrBack;
    hide BalancesAgree;
  }

  lemma FirstAndSecond(cards: seq<string>)
    requires forall i, j :: 0 <= i < j < |cards| ==> cards[i] != cards[j]
    ensures cards == [] || exists g :: g in cards
    ensures |cards| <= 1 || exists g, h :: g in cards && h in cards && g != h
    ensures |cards| == 1 ==> forall g :: g in cards ==> cards == [g]
  {
    if cards != [] {
      assert cards[0] in cards;
    }
    if |cards| > 1 {
      assert cards[0] in cards && cards[1] in cards;
    }
  }

  /**
    Cancelling pays a gift card back exactly what the order took, the first time, whoever else has
    used the card meanwhile; cancelling again pays nothing, and no other card is touched.
  */
  lemma CancelPaysBackOnce(db: Db, order: nat, cards: seq<string>, again: seq<string>)
    requires Books(db) && order < |db.orders| && Owed(db.uses, order, cards)
    requires Owed(Restored(db, order, cards).uses, order, again)
    ensures again == []
    ensures cards == [] || cards == [db.orders[order].gift]
    ensures forall g :: g in db.cards ==>
      Restored(db, order, cards).cards[g].balance - db.cards[g].balance == if g in cards then db.orders[order].figures.gift else 0
  {
    assert FiguresAddUp(db.orders[order].figures);
    forall g: string
      ensures g in cards ==> g == db.orders[order].gift && Net(db.uses, g, order) == -db.orders[order].figures.gift
      ensures g !in cards ==> Net(db.uses, g, order) == 0
      ensures g !in again
    {
      OwedIsTheWhole(db, order, cards, g);
      PaidBackLedger(db, order, cards, g, order);
    }
    FirstAndSecond(again);
    FirstAndSecond(cards);
    hide Net;
    hide Owed;
    hide Books;
  }

  // ------------------------------------------------------------------ the rest of the store

  lemma ChangeKeepsUses(db: Db, after: Db)
    requires DbOk(db) && UsesAgree(db) && Step(db, StoreChanged, after)
    ensures UsesAgree(after)
  {
    hide DbOk;
    hide CardsFrom;
    hide CartsFrom;
    forall i | 0 <= i < |after.rules| ensures after.rules[i].usedCount == UsesOf(after.orders, after.rules[i].id) {
      assert RuleFrom(db, after.rules[i]);
      if after.rules[i].id >= db.nextRule {
        NoOrderNoUse(db.orders, after.rules[i].id);
      }
    }
  }

  lemma ChangeKeepsBalances(db: Db, after: Db)
    requires DbOk(db) && LedgerPoints(db) && BalancesAgree(db) && Step(db, StoreChanged, after)
    ensures LedgerPoints(after) && BalancesAgree(after)
  {
    hide DbOk;
    hide RuleFrom;
    hide CartsFrom;
    forall g | g in after.cards && g !in db.cards ensures NetOf(db.uses, g) == 0 {
      NoRowsOfIt(db.uses, g);
    }
  }

  lemma {:induction false} NoRowsOfIt(uses: seq<Use>, card: string)
    requires forall i :: 0 <= i < |uses| ==> uses[i].card != card
    ensures NetOf(uses, card) == 0
  {
    if uses != [] {
      NoRowsOfIt(uses[..|uses| - 1], card);
    }
  }

  lemma ChangeKeepsKeys(db: Db, after: Db)
    requires KeysAgree(db) && after.orders == db.orders && after.keys == db.keys && CartsFrom(db, after)
    ensures KeysAgree(after)
  {
    var desk, later := DeskOf(db), DeskOf(after);
    assert later.orders == desk.orders;
    forall i | 0 <= i < |later.orders| ensures later.orders[i].cart !in later.live {
      assert later.orders[i] == db.orders[i].row;
    }
  }

  lemma ChangeKeepsBooks(db: Db, after: Db)
    requires DbOk(db) && Books(db) && Step(db, StoreChanged, after)
    ensures Books(after)
  {
    ChangeKeepsUses(db, after);
    ChangeKeepsBalances(db, after);
    ChangeKeepsKeys(db, after);
    hide DbOk;
    hide Net;
    hide NetOf;
    hide FiguresAddUp;
    hide RecordsTrimmed;
    hide UsesAgree;
    hide BalancesAgree;
    hide KeysAgree;
    hide LedgerPoints;
  }

  lemma AnswerKeepsKeys(db: Db, request: P.Request, order: nat, after: Db)
    requires KeysAgree(db) && P.Owns(DeskOf(db), request, order)
    requires after == db.(keys := P.Stored(DeskOf(db), request, order).keys)
    ensures KeysAgree(after)
  {
    P.StoreKeeps(DeskOf(db), request, order);
    assert DeskOf(after) == P.Stored(DeskOf(db), request, order);
    hide P.OneEach;
    hide P.KeysPoint;
  }

  /** A store that differs only where the books do not look. */
  lemma KeysAloneKeepBooks(db: Db, keys: map<P.Key, P.KeyRow>)
    requires DbOk(db) && Books(db) && KeysAgree(db.(keys := keys))
    ensures DbOk(db.(keys := keys)) && Books(db.(keys := keys))
  {
    hide KeysAgree;
    hide Net;
    hide NetOf;
    hide UsesOf;
    hide FiguresAddUp;
    hide RecordsTrimmed;
    hide TableOk;
  }

  lemma AnswerKeepsBooks(db: Db, request: P.Request, order: nat, after: Db)
    requires DbOk(db) && Books(db) && Step(db, AnswerStored(request, order), after)
    ensures DbOk(after) && Books(after)
  {
    AnswerKeepsKeys(db, request, order, after);
    KeysAloneKeepBooks(db, after.keys);
    hide DbOk;
    hide Books;
    hide KeysAgree;
    hide DeskOf;
    hide P.Stored;
    hide P.Owns;
  }

  lemma CancelKeepsBooks(db: Db, order: nat, cards: seq<string>, after: Db)
    requires DbOk(db) && Books(db) && Step(db, Cancelled(order, cards), after)
    ensures DbOk(after) && Books(after)
  {
    CancelKeepsLedger(db, order, cards);
    assert DeskOf(after) == DeskOf(db);
    hide Owed;
    hide P.OneEach;
    hide P.KeysPoint;
    hide Net;
    hide NetOf;
    hide FiguresAddUp;
    hide TableOk;
    hide CardAfter;
    hide BackRows;
  }

  lemma CommitKeepsBooks(db: Db, t: Terms, at: Attempt, after: Db)
    requires DbOk(db) && Books(db) && Step(db, Committed(t, at), after)
    ensures DbOk(after) && Books(after)
  {
    CommitKeepsDbOk(db, t, at, after);
    CommitKeepsUses(db, t, at, after);
    CommitKeepsLedger(db, t, at, after);
    CommitKeepsSums(db, t, at, after);
    CommitKeepsKeys(db, t, at, after);
    CommitKeepsRecords(db, t, at, after);
    hide Answer;
    hide Placing;
    hide DbOk;
    hide TermsOk;
    hide UsesAgree;
    hide LedgerPoints;
    hide OutWholeOrBack;
    hide BalancesAgree;
    hide SumsAgree;
    hide KeysAgree;
    hide RecordsTrimmed;
    hide Trim;
  }

  /** What a committed order owes is what it just took, to the one card it took it from. */
  lemma PaidBackAtOnce(db: Db, after: Db, gift: string, amount: int, cards: seq<string>, g: string)
    requires Spends(db, after, gift, amount) && LedgerPoints(db) && OutWholeOrBack(after)
    requires FiguresAddUp(after.orders[|db.orders|].figures) && Owed(after.uses, |db.orders|, cards) && g in db.cards
    ensures g in after.cards && Restored(after, |db.orders|, cards).cards[g].balance == db.cards[g].balance
  {
    SpentLedger(db, after, gift, amount, g, |db.orders|);
    OnlyRowsOwe(db.uses, g, |db.orders|);
    OwedIsTheWhole(after, |db.orders|, cards, g);
    hide Net;
    hide NetOf;
    hide Owed;
    hide OutWholeOrBack;
    hide FiguresAddUp;
    hide BackRows;
  }

  /** Buying and cancelling leaves every gift card as it was. */
  lemma BuyAndCancelIsFree(db: Db, t: Terms, at: Attempt, after: Db, cards: seq<string>)
    requires DbOk(db) && Books(db) && Step(db, Committed(t, at), after) && Owed(after.uses, |db.orders|, cards)
    ensures forall g :: g in db.cards ==> g in after.cards && Restored(after, |db.orders|, cards).cards[g].balance == db.cards[g].balance
  {
    CommitKeepsBooks(db, t, at, after);
    CommitSpends(db, t, at, after);
    hide DbOk;
    hide Net;
    hide Answer;
    hide Placing;
    hide Restored;
    hide Owed;
    hide OutWholeOrBack;
    hide BalancesAgree;
    hide KeysAgree;
    hide UsesAgree;
    hide LedgerPoints;
    hide RecordsTrimmed;
    var last := after.orders[|after.orders| - 1];
    assert FiguresAddUp(after.orders[|db.orders|].figures);
    hide FiguresAddUp;
    forall g | g in db.cards
      ensures g in after.cards && Restored(after, |db.orders|, cards).cards[g].balance == db.cards[g].balance
    {
      PaidBackAtOnce(db, after, last.gift, last.figures.gift, cards, g);
    }
  }

  lemma StepKeepsBooks(db: Db, e: Event, after: Db)
    requires DbOk(db) && Books(db) && Step(db, e, after)
    ensures DbOk(after) && Books(after)
  {
    match e {
      case Committed(t, at) => CommitKeepsBooks(db, t, at, after);
      case Cancelled(order, cards) => CancelKeepsBooks(db, order, cards, after);
      case AnswerStored(request, order) => AnswerKeepsBooks(db, request, order, after);
      case StoreChanged => ChangeKeepsBooks(db, after);
    }
    hide Answer;
    hide Placing;
    hide DbOk;
    hide TermsOk;
    hide Books;
    hide Owed;
    hide Trim;
  }

  // ------------------------------------------------------------------ runs

  /** A store on its first day: a catalog perhaps, and nothing sold, promised or issued. */
  ghost predicate FirstDay(db: Db) {
    DbOk(db) && db.orders == [] && db.keys == map[] && db.rules == [] && db.cards == map[] && db.uses == [] && db.usedBy == {}
  }

  /** Each state comes from the one before by a step; that the one before is well formed is proved, not supposed. */
  ghost predicate Run(dbs: seq<Db>, events: seq<Event>) {
    && |dbs| == |events| + 1 && FirstDay(dbs[0])
    && forall i :: 0 <= i < |events| && DbOk(dbs[i]) ==> Step(dbs[i], events[i], dbs[i + 1])
  }

  /**
    Over every run of checkouts, cancellations, answers stored and whatever else the store does: each
    rule's count of uses is the number of orders that carry it; each gift card holds what it was
    issued with less what its ledger says is out, which is whole orders' shares and never more than
    it holds; every order adds up as it was placed; and no key and no cart has two orders.
  */
  lemma {:induction false} EveryRunKeepsBooks(dbs: seq<Db>, events: seq<Event>, n: nat)
    requires Run(dbs, events) && n < |dbs|
    ensures DbOk(dbs[n]) && Books(dbs[n])
    decreases n
  {
    hide Books;
    hide Step;
    hide DbOk;
    if n == 0 {
      FirstDayBooks(dbs[0]);
    } else {
      EveryRunKeepsBooks(dbs, events, n - 1);
      assert Step(dbs[n - 1], events[n - 1], dbs[n - 1 + 1]);
      StepKeepsBooks(dbs[n - 1], events[n - 1], dbs[n]);
    }
  }

  lemma FirstDayBooks(db: Db)
    requires FirstDay(db)
    ensures DbOk(db) && Books(db)
  {
  }

  /** A gift card never holds more than it was issued with: the table's own constraint cannot fire. */
  lemma CardsStayWithinIssue(db: Db, g: string)
    requires Books(db) && g in db.cards
    ensures 0 <= db.cards[g].balance <= db.cards[g].initial
  {
    LedgerSplitsByOrder(db.uses, g, |db.orders|);
    forall o: nat | o < |db.orders| ensures Net(db.uses, g, o) <= 0 {
      assert FiguresAddUp(db.orders[o].figures);
      hide Net;
    }
    NeverInCredit(db.uses, g, |db.orders|);
    hide Net;
    hide NetOf;
  }

  /** In every state a run reaches, a shopper's retry is handed their order and no second one is placed. */
  lemma RetriesNeverOrderTwice(dbs: seq<Db>, events: seq<Event>, n: nat, t: Terms, at: Attempt, i: nat)
    requires Run(dbs, events) && n < |dbs|
    requires i < |dbs[n].orders| && at.request.key.Some? && dbs[n].orders[i].row.key == at.request.key
    ensures DbOk(dbs[n])
    ensures CheckoutAnswer(dbs[n], t, at) == if dbs[n].orders[i].row.body == at.request.body then Resumed(i) else Declined(KeyReused)
  {
    EveryRunKeepsBooks(dbs, events, n);
    RetryResumesItsOrder(dbs[n], t, at, i);
    hide *;
  }

  /** And there the promise of a quote has its exact condition, with nothing supposed of the records. */
  lemma QuotesInEveryRun(dbs: seq<Db>, events: seq<Event>, n: nat, t: Terms, at: Attempt)
    requires Run(dbs, events) && n < |dbs|
    ensures DbOk(dbs[n])
    ensures var db := dbs[n];
      var quote, placed := Answer(db, t, at, true), Answer(db, t, Trimmed(at), false);
      quote.Quoted? && placed.Placed? ==> (placed.figures == quote.figures <==> !TookWhatWasHad(db, quote.figures.taken, at.email))
  {
    EveryRunKeepsBooks(dbs, events, n);
    OrderIsAtTheQuote(dbs[n], t, at);
    hide Answer;
    hide DbOk;
    hide TookWhatWasHad;
    hide Trim;
  }
}
