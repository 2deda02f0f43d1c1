# GoCommerce, the transactional core

This project models the parts of the GoCommerce engine where money, parcels, baskets and trees have
to stay consistent over every run, and proves that they do. A transaction is one atomic step that
commits all of its changes or none; row locks and unique indexes are the guards of a step; network
calls fall between steps. Amounts are whole minor units.

- **Shipping** (`Shipping`, `ShippingDesk`, `ShippingRuns`, `ShippingOutcomes`,
  `ShippingCompletion`): parcels booked in two phases around a carrier call, tracked, cancelled,
  deleted, and the order status derived from them. `Shipping` says what each operation means,
  `ShippingDesk` is the code that updates an order in place, and `ShippingRuns` lets every booking
  interleave with everything else. `ShippingOutcomes` says of each call, on the rows themselves,
  when it is refused and what it leaves, and `ShippingCompletion` that an order not called off can
  always be delivered.
- **Checkout** (`CheckoutProtocol`, `Checkout`, `CheckoutMoney`, `QuoteMatch`, `CheckoutRuns`,
  `CheckoutOutcomes`): the idempotent protocol under retries and crashes; the transaction that
  reserves, discounts, charges and commits; what its figures promise to the preview and to the
  quote; and the rules' counts, the gift cards' ledger and the keys over whole runs of a store; and
  each figure, shelf and row an order leaves, said on the store's own rows.
- **Discounts** (`Discounts`, `DiscountOutcomes`, `OrderDiscount`): who may use a rule and why not,
  what it takes off, the claim, the best automatic rule, and the amount on an order whose lines are
  edited afterwards.
- **Categories** (`CategoryForest`, `CategoryEdits`, `CategoryOutcomes`, `CategoryListing`,
  `CategoryTree`): the bounded walks up and down, the edits that keep the forest they rely on, and
  the flat listing - once as a function of the table and once as objects linked and unlinked in
  place.
- **Carts** (`CartLifecycle`), **collections** (`CollectionOrder`), **hosts** (`HostRouting`),
  **masking** (`Masking`), **rate limits** (`RateLimit`), **lengths** (`Dimensions`) and **GST
  numbers** (`Gstin`). `Basics` holds the few definitions they share.

## Where the code and what is said of it differ

- `core/agent_keys.go:447-452` says a key allowed 60 a minute can make 120 in two seconds across a
  boundary. It can make 119: the window that is about to end was opened by a request of its own.
  `RateLimit.EveryMinuteIsBounded` proves the bound and `RateLimit.BoundIsMet` meets it.
- `Orders.EditLines` writes a total without tax (`core/orders.go:1567`), so an order sold with tax on
  top no longer adds up after an edit. `OrderDiscount.Order.EditLines` says exactly when it does, and
  `OrderDiscount.EditDropsTheTax` is an order that does not.
- `Quote` promises the arithmetic of the order placed now, but judges the address as typed, while
  `Checkout` trims it first (`core/checkout.go:164-182`, `core/checkout.go:909-910`).
  `QuoteMatch.AStraySpaceIsQuotedTooLow` is a quote of 90 for an order of 100;
  `QuoteMatch.OrderIsAtTheQuote` says exactly when the two agree.
- Replacing a product's collections deletes, then computes a new place in each, and takes no lock
  (`core/collections.go:388-417`), so calls at once can leave two rows at one place, in a collection's
  list (`CollectionOrder.TwoCallsAtOnceCanTie`) or in the product's own, which then holds more than
  either call asked for (`CollectionOrder.OneProductsCallsAtOnceCanTie`).
  `CollectionOrder.LateCallTiesExactly` says exactly when, on each axis.
- `applyTx` refuses when its conditional update finds no use left (`core/discounts.go:1546-1548`).
  Under the row lock it holds that never happens: `Discounts.ClaimNeverFails`. In the same way the
  refusal of a total below zero in `EditLines` is never reached.

## Model

| member | source | states |
|---|---|---|
| Shipping.TotalsDecideLines | core/fulfillment.go:370-397 | Because no line is over its own, the two totals shippingState compares are zero, equal or short exactly when every line is zero, full, or some line is short |
| Shipping.DerivedIsExact | core/fulfillment.go:370-397 | On any parcels within the order, the status derived from totals is the line-by-line status, except that it says shipped where every parcel is already delivered; what is owed never needs its clamp at zero |
| Shipping.ResolvedIsPacked | core/fulfillment.go:281-318 | What resolving lets through names known lines, each once, at least one unit each, and no more than was left |
| Shipping.OwedIsPacked | core/fulfillment.go:283-288 | What an empty request resolves to is owed, names each line at most once, and is nothing exactly when nothing is owed |
| Shipping.CommitKeepsValid | core/fulfillment.go:115-151 | Recording a parcel under the lock keeps every line within its order and leaves the exact status |
| Shipping.UnshippingStaysExact | core/fulfillment.go:574-591 | When a parcel stops counting, the guarded re-derivation lands on the exact status, though it knows nothing of deliveries |
| Shipping.DeleteKeepsValid | core/fulfillment.go:507-570 | Deleting a parcel keeps the order valid and its status exact |
| Shipping.CallOffKeepsValid | core/fulfillment.go:641-678 | Cancelling a parcel keeps the order valid and its status exact |
| Shipping.TrackKeepsValid | core/fulfillment.go:724-796 | Any carrier report - repeated, late, undated, cancelling or delivering - keeps the order valid and its status exact |
| Shipping.CancelOrderKeepsValid | core/orders.go:876-929 | Cancelling the order itself is possible only with nothing out, and keeps it valid |
| ShippingDesk.ShippedByLine | core/fulfillment.go:323-344 | The counts loop returns, for every line, the units in parcels that are not cancelled |
| ShippingDesk.ResolveShipLines | core/fulfillment.go:281-318 | The resolving loops, with their seen set and early refusals, answer exactly as the resolution they are specified by: unknown line, named twice, below one and too many are refused, and nothing left is a conflict |
| ShippingDesk.CheckShipLines | core/fulfillment.go:351-366 | The recheck says yes exactly when every line is still there with that much left |
| ShippingDesk.ShippingState | core/fulfillment.go:370-397 | The two sums and the switch give the derived status and the units still owed |
| ShippingDesk.Fulfillments.BeginCreate | core/fulfillment.go:68-80 | Phase one: refused unless confirmed or partial, else what the carrier will be told |
| ShippingDesk.Fulfillments.FinishCreate | core/fulfillment.go:111-177 | Phase two: refused whole, or the parcel, status and event of a commit and nothing else |
| ShippingDesk.Fulfillments.RederiveAfterUnshipping | core/fulfillment.go:574-591 | Only a shipped or partly shipped order follows its parcels back; returns what is owed |
| ShippingDesk.Fulfillments.DeleteParcel | core/fulfillment.go:507-570 | Delete in place: not found, refused on a delivered order, or removed with the status and event its specification gives |
| ShippingDesk.Fulfillments.CancelLocked | core/fulfillment.go:641-678 | Cancel in place: no-op when already cancelled, refused once delivered, else called off and announced |
| ShippingDesk.Fulfillments.TrackParcel | core/fulfillment.go:724-796 | Track in place, branch by branch: ignored reports write nothing; the last delivery delivers the order |
| ShippingRuns.EveryRunKeepsTheBook | core/fulfillment.go:49-177 | In every run of bookings whose three steps interleave with reports, cancels, deletions and cancelling the order: no line over-shipped, status exact, each parcel holding exactly what its carrier was told, no slip behind two parcels |
| ShippingRuns.StatusMeans | core/fulfillment.go:370-418 | In every reachable state partial, shipped and delivered each hold if and only if the parcels say so, and confirmed, pending or cancelled if and only if nothing is out |
| ShippingRuns.FinalStatusesStay | core/fulfillment.go:462-474 | No step leaves delivered or cancelled |
| ShippingRuns.AnnouncementsAddUp | core/fulfillment.go:541-569 | Over every run, units announced as shipped less units announced as owed again are the units out, line by line, whatever is cancelled and then deleted |
| ShippingRuns.DeliveredParcelsStay | core/fulfillment.go:641-678 | Every step but its own deletion leaves a delivered parcel exactly as it is |
| Shipping.TrackRespectsHistory | core/fulfillment.go:736-764 | A settled parcel or a repeated status changes nothing, a dated report never takes the stored time back, no other parcel is touched, and contents and slip are never rewritten |
| ShippingRuns.FreshSlip | core/fulfillment.go:115-124 | A slip that waits to be recorded is behind no parcel, however bookings interleave |
| ShippingOutcomes.EmptyRequestIsEverythingLeft | core/fulfillment.go:281-318 | A booking asked for nothing in particular is of every line with all it has left, and is refused only when no line has anything |
| ShippingOutcomes.RequestIsTakenAsAsked | core/fulfillment.go:290-318 | A request that names lines is taken unchanged if each is a line of the order, named once, with at least one unit and no more than is left, and refused as invalid otherwise |
| ShippingOutcomes.RemainingIsWhatIsLeft | core/fulfillment.go:370-397 | What is announced as still owed is the sum of what the lines have left, and never negative |
| ShippingOutcomes.RecordingIsExact | core/fulfillment.go:111-177 | Recorded exactly when the order is open and every line still has that much left: the parcel as told, under the next number, announced with what is then left, the status exact |
| ShippingOutcomes.ShippingTheRestCompletes | core/fulfillment.go:283-288 | Booking the rest and recording it at once puts everything out: the order is shipped and nothing is left |
| ShippingOutcomes.DeletionIsExact | core/fulfillment.go:507-570 | Exactly when a deletion is refused; else that parcel goes and no other, the status follows, and its units are announced as owed again unless it had been cancelled |
| ShippingOutcomes.CallingOffIsExact | core/fulfillment.go:641-678 | By the state of the parcel and the order: nothing new the second time, refused once either is delivered, else only that parcel is called off and its units announced |
| ShippingOutcomes.ReportIsExact | core/fulfillment.go:724-796 | A report that is news - parcel on its way and not returned, a new status, none later known - is written with its own time or now, and hands the parcel over if and only if it says so; the order is delivered, with that one event, if and only if it was shipped and no other parcel is out, and otherwise the report is the one event; what is no news changes nothing |
| ShippingOutcomes.CancellingTheOrderIsExact | core/orders.go:876-929 | Only pending and confirmed orders are called off, and only with nothing returned; a repeat changes nothing |
| ShippingCompletion.EveryOrderCanBeDelivered | core/fulfillment.go:49-177 | Whatever bookings, reports, deletions and cancellations came before, an order that was not called off can still be brought to delivered, with every unit out: what is on its way taken back, the rest booked, and its arrival reported |
| ShippingCompletion.CallsTakeEffect | core/fulfillment.go:507-796 | In a run each call is the call itself: what it accepts becomes the order, what it refuses changes nothing, and slips and bookings are left alone |
| CheckoutProtocol.EveryRunKeepsInv | core/checkout.go:78-123 | In every interleaving of attempts, retries, crashes and vanishing carts: each key row names the one order placed under it with the same body, and every attempt is paying for its own order |
| CheckoutProtocol.AtMostOneOrder | core/checkout.go:633-650 | No two orders in any reachable state share a cart or a key |
| CheckoutProtocol.RetryFindsItsOrder | core/checkout.go:185-225 | After a commit, a retry with the same body is given that order or resumes it and never reaches the creating step; another body under the key is refused |
| CheckoutProtocol.AnswerIsTheirOwn | core/checkout.go:779-791 | Whoever is answered is answered about the order of their own cart, key and body, and that order is there for ever after |
| CheckoutProtocol.CreateKeeps | core/checkout.go:633-650 | The one transaction that writes order, conversion and key row keeps one order for each key and cart |
| CheckoutProtocol.StoreKeeps | core/checkout.go:779-791 | Storing an answer never makes a key row speak of another order |
| Checkout.WalkNeverOversells | core/inventory.go:58-110 | Reserving a whole cart, line by line at the shelf pickLocation names, never leaves a shelf it touched of a counted, non-overselling variant with more reserved than it holds, and touches no other; nothing is supposed of the shelves beforehand, which the table lets be over-reserved |
| Checkout.WalkReservesWhatIsAsked | core/inventory.go:83-104 | With no conflict the reserved units of each counted variant, over all its shelves, rise by exactly what the cart asks for, and of an uncounted one not at all |
| Checkout.WalkChecksPrices | core/checkout.go:290-301 | With no conflict every line was active and at the price its variant has now |
| Checkout.ByVariantKeeps | core/checkout.go:267-270 | Sorting for lock order loses and invents no line |
| Checkout.NoOppositeOrders | core/checkout.go:267-270 | No two carts come to two variants in opposite orders, so no two checkouts can each wait for a row the other holds |
| Checkout.Store.ReserveLines | core/checkout.go:276-330 | The conflict loop leaves exactly the shelves and the list of conflicts the walk defines |
| Checkout.DeliveryIsTheChosenRate | core/checkout.go:346-408 | Refused as undeliverable exactly when rated with no rates, and as gone exactly when no rate has the chosen id; else free with nothing to send, flat where unrated, and otherwise the price of the first rate with that id, or of the first rate |
| Checkout.Store.WorkOut | core/checkout.go:373-501 | Delivery, discount, tax, fee and gift card in that order give exactly the specified figures or the specified refusal |
| Checkout.Store.CreateOrder | core/checkout.go:233-695 | One transaction: every refusal and every quote leaves the store as it was, apart from refreshed prices after a conflict; a placed order commits everything at once |
| Checkout.Store.Checkout | core/checkout.go:93-122 | The order under the key resumed, another body under it refused, or the order placed or refused for the request with its address trimmed; alone, it never finds its key taken at the write |
| Checkout.RetryResumesItsOrder | core/checkout.go:185-225 | A retry under the key of an order is handed that order if its body is the same and refused if not, whatever else the store has become |
| Checkout.Store.GiveBackGiftCards | core/giftcards.go:513-553 | In place: each card with money still out on the order gets it back once with a row to say so, and the cards the order bought are switched off |
| Checkout.Store.Quote | core/checkout.go:164-182 | A quote never places anything and leaves reservations, use counts, cards and carts as they were, apart from refreshed prices after a conflict |
| Checkout.Store.RefreshCartPrices | core/checkout.go:794-806 | After a conflict the cart shows current prices and nothing else changes |
| Checkout.RetryIsNotRepriced | core/checkout.go:668-679 | After the refresh the next attempt can no longer be refused over a price |
| CheckoutOutcomes.TakenFromTheFirstThatCan | core/inventory.go:58-81 | Units come from the first active location that can cover them, and from the default one only if none can |
| CheckoutOutcomes.ReservedExactly | core/inventory.go:83-110 | A line is held on the shelf picked if that can give the units, for nothing where they are not counted, and touches no other shelf |
| CheckoutOutcomes.ConflictsExactly | core/checkout.go:276-335 | Every line off sale or at a new price is reported so, and each conflict is about a line of the cart for the reason it gives |
| CheckoutOutcomes.AnOrderTakesWhatWasAsked | core/checkout.go:305-308 | The store an order leaves: of each counted variant exactly the units its cart asks for are newly reserved over all its shelves, of any other none, and no shelf taken from is oversold |
| CheckoutOutcomes.EveryCommitTakesWhatWasAsked | core/checkout.go:233-695 | The same of every committed checkout of every run, from the shelves as that run left them |
| CheckoutOutcomes.FiguresExactly | core/checkout.go:373-501 | Each figure of an order from the rows it comes from: goods as price times quantity; delivery as quoted, or 0 exactly where the rule taken is for free shipping or includes it; the rule's own amount, the tax on those lines and that discount, the fee, and the gift card's share |
| CheckoutOutcomes.GiftShareExactly | core/giftcards.go:483-492 | A usable card pays the smaller of what is due and what it holds; without a card or with nothing due, nothing; a card that cannot be used is refused |
| CheckoutOutcomes.TypedCodeWins | core/checkout.go:415-438 | A typed code is the rule tried, whatever would apply by itself, and its refusal is the refusal of the order |
| CheckoutOutcomes.FreeDeliveryIsTaken | core/checkout.go:415-438 | With delivery to pay and an automatic free-shipping rule that qualifies, an order carries a rule and costs no more than its goods |
| CheckoutOutcomes.RefusedCarts | core/checkout.go:243-335 | Not found, already an order, empty or moved: each refusal of the cart exactly when it applies, with the conflicts naming its lines |
| CheckoutOutcomes.EndsExactly | core/checkout.go:517-650 | With good figures: the quote; or refused over the quoted total, by a guard, or for a key taken, in that order; or placed |
| CheckoutOutcomes.CommittedRows | core/checkout.go:540-695 | The rows a placed order writes, field by field: itself, its cart converted, one more use and its record on the rule taken, its key; and what it leaves alone |
| CheckoutOutcomes.CardDebited | core/checkout.go:590-600 | The gift card an order spends is usable and holds it; its balance falls by the order's share, written in the ledger once against that order; with no share nothing of either changes |
| CheckoutOutcomes.OnceIsOnce | core/discounts.go:1441-1449 | Whoever an order took a once-per-address rule for is refused it from then on, however the address is cased |
| CheckoutOutcomes.RefreshedExactly | core/checkout.go:794-806 | After a conflict every line of that cart shows today's price, if its variant is there, and nothing else has moved |
| CheckoutMoney.PlacedOrdersAddUp | core/checkout.go:479-501 | Every placed order has total + gift card = subtotal + shipping - discount + fee, plus tax only where prices exclude it, with total and every figure non-negative |
| QuoteMatch.OrderIsAtTheQuote | core/checkout.go:164-182 | An order is placed at the figures quoted in the same state if and only if the quote took off no once-per-address rule that the trimmed address has had; then only the last checks come between; a refused quote is the same refusal, but for a gift card; and with a quoted total an order exists only at that total |
| QuoteMatch.AStraySpaceIsQuotedTooLow | core/checkout.go:909-910 | A store and an address with a space before it, quoted 90 and charged 100, and refused over the total where the quote is held to |
| QuoteMatch.QuoteIsTheOrderUnlessHad | core/checkout.go:415-438 | The same if-and-only-if for everything phase A works out, figures and shelves, and the same refusal wherever a quote is refused for anything but the gift card |
| QuoteMatch.QuoteIsTheOrderWhileSpellingsAgree | core/checkout.go:909-910 | Whatever is on record: while no once-per-address rule has just one of the two spellings, quote and order agree to the figure and to the refusal |
| QuoteMatch.TypedQuoteIsTheOrderExactly | core/discounts.go:1517-1551 | With a code typed, and whatever is on record, they disagree if and only if one of the spellings has had the rule it names and nothing else about the request is refused |
| QuoteMatch.SpacesOnlyHideAUse | core/discounts.go:1441-1449 | Judged untrimmed and trimmed, a rule answers differently exactly when it is once-per-address, nothing else refuses it and only one spelling is on record |
| CheckoutMoney.PreviewIsTheDiscount | core/discounts.go:1079-1114 | Whenever an order is placed with a typed code, the cart's preview at the cart's own prices shows the same rule and the same amount |
| CheckoutMoney.AutomaticDiscountIsTheBest | core/checkout.go:415-438 | With no code typed the order carries the automatic rule that leaves least to pay for goods and delivery, oldest of equals, and none only if none saves |
| CheckoutRuns.CommitIsTheProtocolsStep | core/checkout.go:633-650 | What the store commits is, on carts, orders and keys, precisely the step the protocol proofs are about |
| CheckoutRuns.EveryRunKeepsBooks | core/checkout.go:233-695 | Over every run of checkouts, cancellations and stored answers, with rules added, edited and deleted, gift cards issued and switched, and catalog, carts and shelves changed in between: a rule's used count is the number of orders that carry its id; a card holds its issue less what its ledger has out, order by order the whole share or nothing; every order adds up as placed; no key or cart has two; and recorded addresses are trimmed |
| CheckoutRuns.QuotesInEveryRun | core/checkout.go:164-182 | In every state a run reaches, an order is placed at the quoted figures if and only if the quote took off no rule the trimmed address has had, with nothing supposed of the records |
| CheckoutRuns.CancelPaysBackOnce | core/giftcards.go:510-541 | Cancelling pays back exactly what the order took, to the one card it took it from, whoever used the card since; cancelling again pays nothing |
| CheckoutRuns.BuyAndCancelIsFree | core/orders.go:909-911 | A checkout and its cancellation leave every gift card with what it had |
| CheckoutRuns.CardsStayWithinIssue | core/giftcards.go:40-46 | A card never holds less than nothing or more than it was issued with: the constraint on the table cannot fire |
| CheckoutRuns.RetriesNeverOrderTwice | core/checkout.go:93-111 | In every state a run reaches, a retry under the key of an order gets that order and places no other |
| Discounts.EligibleFor | core/discounts.go:1341-1371 | The loop returns the lines a rule covers and what they add up to, a missing product never counting |
| Discounts.BiggerBasketKeepsTheRule | core/discounts.go:1385-1508 | Goods added to a basket never cost it its rule, never make the rule take off less, and are never free: what is left to pay for the goods does not fall |
| Discounts.BaseIsMaskedTotal | core/discounts.go:1341-1371 | The base is what the masked lines add up to, whatever the rule |
| Discounts.AmountWithin | core/discounts.go:1486-1508 | What comes off is between nothing and the covered lines, and so within the basket |
| Discounts.PercentWithin | core/discounts.go:1491-1494 | A percentage is within half a minor unit of the exact share, and never more than its base |
| Discounts.SameBasketSameBase | core/discounts.go:1341-1371 | A rule is worth the same on any two orderings of one basket |
| Discounts.PreviewIsWhatCheckoutTakes | core/discounts.go:1097-1114 | Over the same basket in any order a preview shows what checkout accepts, at the same amount; checkout refuses what was shown exactly when the rule is prepaid-only and the method is cash on delivery |
| Discounts.RuleTable.ApplyTx | core/discounts.go:1517-1551 | Applying answers as judged and adds one use to the rule applied, and on any refusal changes nothing |
| Discounts.ClaimAddsOneUse | core/discounts.go:1539-1548 | A claim raises one used count by one and leaves the table and every other rule as it was |
| Discounts.BestAutoCode | core/discounts.go:1867-1911 | The loop over candidate rules returns the code of the row its specification picks, or none |
| Discounts.BestPaysLeast | core/discounts.go:1867-1911 | Of all automatic rules a basket qualifies for, the chosen one leaves least to pay and is the oldest of equals; none is chosen only if none saves |
| Discounts.ChosenCodeIsAccepted | core/discounts.go:1517-1551 | The chosen code is then accepted for the same rule and amount if and only if it still has a use left once other checkouts' claims have come between |
| DiscountOutcomes.CodeIsFound | core/discounts.go:1517-1530 | A code is found however it is cased and whatever white space is typed around it |
| DiscountOutcomes.CoversExactly | core/discounts.go:1262-1330 | Which lines a rule covers, by scope: all, products named, members of a named collection, or products filed at or under a named category |
| DiscountOutcomes.RefusedForTheFirstReason | core/discounts.go:1385-1453 | Each of the eleven refusals exactly when its own check fails and no earlier one did |
| DiscountOutcomes.AmountExactly | core/discounts.go:1486-1508 | A percentage to the nearest minor unit, a half upwards; a fixed amount as far as there is something to take; nothing for free shipping |
| DiscountOutcomes.AcceptedExactly | core/discounts.go:1517-1551 | A code names its rule: refused as that rule refuses, else its amount on the lines it covers, with free delivery exactly where the rule is for it or includes it |
| DiscountOutcomes.WithoutARule | core/discounts.go:1517-1530 | A blank code is no refusal at checkout and one at the preview; a code no rule has is refused at both |
| DiscountOutcomes.TriedByThemselves | core/discounts.go:1867-1911 | An automatic rule is tried exactly when it is switched on for it, has a code and the basket qualifies |
| DiscountOutcomes.FreeDeliverySavesTheDelivery | core/discounts.go:1486-1508 | With a free-shipping rule the shopper pays exactly for the goods |
| DiscountOutcomes.FreeDeliveryIsNotPassedOver | core/discounts.go:1867-1911 | Where delivery costs something and an automatic free-shipping rule qualifies, a rule is chosen, and with it the shopper pays no more than for the goods |
| OrderDiscount.RecomputedWithin | core/discounts.go:1643-1724 | After any accepted edit the discount is within the order, within the lines a live scoped rule covers, and never grown unless it is a live percentage |
| OrderDiscount.RefusedExactly | core/discounts.go:1679-1716 | Exactly which edits are refused: a live scoped rule left covering nothing, or a basket below the minimum of a live rule that is scoped or a percentage - never an order-wide fixed amount |
| OrderDiscount.SameBasketSameDiscount | core/discounts.go:1643-1724 | Judged again on the basket it was taken from, the amount checkout took stands |
| OrderDiscount.PercentageForgetsThePast | core/discounts.go:1709-1716 | After any edits a live percentage is the percentage of the basket it ends on |
| OrderDiscount.FixedIsTheLeastEverCovered | core/discounts.go:1700-1708 | After any edits a fixed amount is the least of what was first taken and what each accepted basket could bear |
| OrderDiscount.EligibleSubtotal | core/discounts.go:1803-1844 | The loop sums exactly the stored lines the rule still reaches |
| OrderDiscount.OrderDiscountMask | core/discounts.go:1740-1792 | The mask, in the order the caller holds its lines, marks exactly the lines today's rule covers; none means all |
| OrderDiscount.MaskIsWhatIsDiscounted | core/discounts.go:1740-1844 | The masked lines add up to the part of the order the discount is recomputed against |
| OrderDiscount.Order.RecomputeDiscount | core/discounts.go:1643-1724 | The recomputation branch by branch, with the snapshot row always left equal to the amount |
| OrderDiscount.Order.EditLines | core/orders.go:1539-1580 | An edit keeps the order consistent, is refused whole otherwise, can never go below zero, and keeps the order adding up if and only if prices include tax or there is none |
| OrderDiscount.EditDropsTheTax | core/orders.go:1567-1583 | An order of 100 with tax of 18 on top, placed at 118 and edited down to 50, is totalled 50 with the tax still on it |
| CategoryForest.ForestHasNoCycle | core/categories.go:737-771 | No category of a forest is above itself |
| CategoryForest.AncestorsAreComplete | core/categories.go:773-809 | The walk up, bounded by eight, returns exactly the true ancestors and reaches the root |
| CategoryForest.HeightCovers | core/categories.go:820-832 | Everything under a category is within the height its bounded walk measures |
| CategoryForest.MatchIsListingIsAncestry | core/discounts.go:1289-1306 | A discount's bounded walk up and a listing's bounded walk down select the same products, and both are true ancestry |
| CategoryForest.OnePath | core/categories.go:322-330 | A category has one path: climbed by categoryPaths, found exactly once by Search from the roots, or joined from Ancestors |
| CategoryForest.CategoryPathIsName | core/categories.go:969-999 | The row that climbed furthest carries the joined chain and its depth |
| CategoryForest.Ancestors | core/categories.go:456-506 | The chain from the root, each category with the very name and depth its own path gives; empty for an unknown id |
| CategoryForest.MoveKeepsForestExactly | core/categories.go:737-771 | checkReparent is exact: a move keeps an acyclic forest of at most eight levels if and only if it is let through |
| CategoryEdits.Categories.Create | core/categories.go:129-191 | Refused on an empty title, an unknown parent or too deep a one; else the category, at the given position or just past its siblings |
| CategoryEdits.Categories.Update | core/categories.go:625-735 | The patch applied whole or refused in the order of the checks, changing nothing |
| CategoryEdits.Categories.Delete | core/categories.go:924-954 | Refused with children, then with products, then if unknown; else the row goes and only it |
| CategoryEdits.Categories.Reorder | core/categories.go:856-915 | Accepted exactly when the list names every child once and nothing else; then child i stands at position i and nothing else changes |
| CategoryEdits.ReorderListsAsAsked | core/categories.go:856-915 | Afterwards the children are listed in the order asked for |
| CategoryEdits.ReorderMovesNoOthers | core/categories.go:856-915 | The children of every other parent keep their order |
| CategoryEdits.CreatedIsLast | core/categories.go:160-170 | A category created without a position is listed after all its siblings |
| CategoryEdits.EveryRunKeepsTheForest | core/categories.go:150-158 | Whatever sequence of creates, moves, reorders, deletes and filings, the categories stay a forest of at most eight levels and no product is filed under one that is gone |
| CategoryOutcomes.CreateIsExact | core/categories.go:129-191 | Refused for an empty title, an unknown parent, or exactly when the tree with the new category would be deeper than eight levels; else just that row is added |
| CategoryOutcomes.UpdateIsExact | core/categories.go:625-735 | Refused exactly for an empty title or a move that leaves no forest of eight levels; else that one row changes in the fields the patch names and in no other |
| CategoryOutcomes.DeleteIsExact | core/categories.go:924-954 | Refused exactly while something hangs under it or is filed in it, or it is not there; else just that row goes |
| CategoryListing.NoRowIsDropped | core/categories.go:600-604 | Whatever the parents, each row is among the roots or else under its parent, and never both: one whose parent is missing is a root |
| CategoryListing.ListingIsAPermutation | core/categories.go:512-532 | The flat listing is the whole table, each row once |
| CategoryListing.SubtreesAreBlocks | core/categories.go:512-532 | Every subtree is one unbroken run of rows that starts with its root and holds nothing else |
| CategoryListing.ParentComesFirst | core/categories.go:512-532 | A parent is listed before each of its children |
| CategoryListing.SiblingsKeepOrder | core/categories.go:548-552 | Roots among themselves, and children of one parent, keep the order they were read in |
| CategoryTree.BuildCategoryTree | core/categories.go:605-622 | Appending in place leaves each node holding exactly its children in row order, and returns the roots, a row with a missing parent among them |
| CategoryTree.Walk | core/categories.go:518-530 | The walk puts out the blocks of its nodes in order, and exactly the nodes put out have given up their children |
| CategoryTree.List | core/categories.go:512-532 | Build and walk together end, and put out the depth-first listing, with no node left holding children |
| CartLifecycle.AbandonedAtMatchesStatus | core/cart.go:931-984 | In every reachable state abandoned_at is set exactly when the status is abandoned |
| CartLifecycle.EventsMatchAbandonments | core/cart.go:994-1101 | Over every run of shoppers, checkouts and any number of replicas, the cart.abandoned events of a cart are its committed revivals, plus one if it stands abandoned or was purged so |
| CartLifecycle.ConvertedIsFinal | core/checkout.go:842-857 | A converted cart never changes again but for lines the catalog takes away |
| CartLifecycle.DeletedOnlyEmptyOrAfterRetention | core/cart.go:1139-1243 | A row is deleted only empty and expired, or after being announced with its lines and then standing abandoned, unrevived, longer than the retention |
| CartLifecycle.PurgeIsPastRetentionOfEveryAbandonment | core/cart.go:1187-1210 | A purge is more than the retention after every abandonment of that cart, so no pass does both whatever runs between its transactions; stamps of other carts may commit in any order |
| CartLifecycle.ChangeKeepsSweepsOff | core/cart.go:961-984 | Over every run, the first pass to abandon or sweep a cart after a change that touches or revives it comes more than a whole TTL after that change |
| CartLifecycle.DeletedStaysDeleted | core/cart.go:1225-1243 | A deleted cart never comes back |
| CartLifecycle.ClaimOldest | core/cart.go:997-1007 | A claim is a batch of distinct unlocked candidates, none left out that is older, and all of them when the batch is not full |
| CartLifecycle.Carts.OpenCart | core/cart.go:932-959 | Not found, refused once converted, else open - revived with a fresh expiry and no abandoned_at if it was abandoned |
| CartLifecycle.Carts.AddLine | core/cart.go:524-543 | A mutation that commits revives and extends; one that fails leaves no revival behind |
| CartLifecycle.Carts.RemoveLine | core/cart.go:716-740 | A line taken out with the add-ons it carried, or the whole transaction undone |
| CartLifecycle.Carts.SetDiscountCode | core/cart.go:918-929 | Revives an abandoned cart but does not extend an open one |
| CartLifecycle.Carts.CheckOut | core/checkout.go:830-859 | A checkout revives and converts, or leaves the cart as it was |
| CartLifecycle.Carts.AbandonPass | core/cart.go:994-1108 | Each claimed cart becomes abandoned at that moment and is announced once with its lines, in one step; an unfull batch leaves no unlocked open cart with a line and its expiry past |
| CartLifecycle.Carts.SweepExpiredPass | core/cart.go:1139-1160 | Only expired empty open carts go, and capped is exact |
| CartLifecycle.Carts.PurgeAbandoned | core/cart.go:1225-1243 | Only carts abandoned longer than the retention go, silently |
| CartLifecycle.Carts.SweepPass | core/cart.go:1187-1210 | Three steps in a row; if not capped, no unlocked open cart whose expiry is past is left: with lines it is abandoned and announced once, without it is gone; nor is one abandoned longer than the retention |
| CollectionOrder.DedupeIDs | core/collections.go:620-631 | The loop keeps each id once, at its first appearance |
| CollectionOrder.DedupeKeepsFirsts | core/collections.go:620-631 | Nothing is lost, nothing repeats, and ids follow their first appearances |
| CollectionOrder.Replace | core/collections.go:388-417 | The DELETE and the single-statement upsert, ranks taken from the table as the DELETE left it |
| CollectionOrder.OwnListIsWhatWasAsked | core/collections.go:371-428 | The written axis lists exactly the asked ids in the asked order |
| CollectionOrder.OtherOwnersAreUntouched | core/collections.go:371-428 | Every other list on the written axis is unchanged |
| CollectionOrder.OtherAxisIsUndisturbed | core/collections.go:400-417 | On the other axis a list is unchanged, loses the dropped owner, or gains the new one at its very end |
| CollectionOrder.ReplaceKeepsPlacesDistinct | core/collections.go:371-550 | Places stay distinct within every list of both axes |
| CollectionOrder.ListingIsUnique | core/collections.go:572-599 | Ordering by place leaves nothing open: a list is unique |
| CollectionOrder.EveryRunStaysOrdered | core/collections.go:371-566 | Over every serial run of both operations and of cascading deletes, both axes stay free of ties and every list exists |
| CollectionOrder.LateCallTiesExactly | core/collections.go:388-417 | A call that runs beside others, its DELETE and its INSERT each reading the table at its own moment and neither as it is at the commit: it leaves a tie on the axis it writes if and only if a row its DELETE did not see and it does not name stands at one of the places it gives out, and on the other if and only if a place it worked out was taken meanwhile |
| CollectionOrder.LateListIsWhatWasAskedExactly | core/collections.go:388-393 | Beside other calls, the written list is what was asked for if and only if the DELETE overlooked no row |
| CollectionOrder.AloneIsSerial | core/collections.go:371-428 | With nothing committed in between it is the serial call, and meets neither hazard |
| CollectionOrder.RunsOfCallsTieExactly | core/collections.go:371-566 | Over every run of calls that interleave, whatever each statement read, and of cascading deletes: the tables stay free of ties, and every owner keeps its one list on either axis, if and only if every commit met neither hazard |
| CollectionOrder.TwoCallsAtOnceCanTie | core/collections.go:409-412 | Two calls at once, each putting its product into the same empty collection, leave both at the same place |
| CollectionOrder.OneProductsCallsAtOnceCanTie | core/collections.go:388-417 | Two calls for one product, or one for the product and one for a collection, started on an empty table leave it in both collections at one place of its own list |
| CollectionOrder.Curation.SetProductCollections | core/collections.go:371-428 | Done exactly when the product and every collection exist; otherwise the first unknown id and no change |
| CollectionOrder.Curation.SetCollectionProducts | core/collections.go:512-566 | The mirror image on the other axis |
| HostRouting.ApplyBrands | core/brands.go:109-170 | Brands are rewritten in place to the tidied list routing relies on, and refused exactly when no such list exists or the install names a panel or base domain that is none of theirs; unset, the first brand's stand in |
| HostRouting.UnderStoreDomain | core/brands.go:283-292 | The longest store domain the host is under, with its owner, or none |
| HostRouting.ReservedSlug | core/brands.go:437-459 | True exactly for platform names and, with brands configured, panel labels, brands' reserved names and labels nested between store domains |
| HostRouting.AddressIsMostSpecific | core/brands.go:437-478 | No store domain can match an address longer than its own without having made the name reserved |
| HostRouting.EveryNameHasItsAddress | core/brands.go:437-478 | With brands configured a dot-free name has its address under each store domain if and only if it is not reserved |
| HostRouting.UnconfiguredNames | core/brands.go:441-443 | Without configured brands the one further name with no address is the panel host itself |
| HostRouting.AddressIsUnique | core/brands.go:465-478 | An address belongs to one name of one brand |
| HostRouting.OrderDoesNotMatter | core/brands.go:283-292 | The order brands are listed in decides nothing |
| HostRouting.StoreSlugOfHost | core/brands.go:465-478 | Resolves exactly the hosts that are addresses, to their name and brand |
| Masking.PatternFindsTheAddress | core/demo.go:347-373 | The pattern made from any address's mask matches that address, lower-cased and trimmed, whatever wildcards, backslashes or bullets it holds |
| Masking.PatternFindsExactly | core/demo.go:347-373 | A mask read as a pattern matches a text if and only if the mask could be of it: runs of bullets stand for anything, every other character, wildcards and backslashes too, for itself |
| Masking.MaskShowsOnly | core/demo.go:244-266 | Of an address the mask shows the first character, the first of the domain and the ending from the last dot, with three bullets for each stretch between, however long |
| Masking.HiddenTextIsHidden | core/demo.go:244-266 | Two addresses that differ only in those stretches have one mask |
| Masking.NoAddressIsHiddenWhole | core/demo.go:244-256 | Text with nothing on one side of its last @, or without one, is three bullets; blank text has no mask |
| Masking.MaskEmailTwice | core/demo.go:244-266 | Masking an email twice is masking it once |
| Masking.MaskedEmailPattern | core/demo.go:347-373 | The builder loop writes the pattern its specification gives |
| Masking.MaskPhone | core/demo.go:271-330 | The number written out character by character: same length, same separators, country code and last two digits kept |
| Masking.MaskedPhoneHides | core/demo.go:271-330 | No letter comes through, and any number with a digit loses at least one; of one or two, all |
| Masking.MaskedPhoneShows | core/demo.go:271-330 | Of a number of three digits or more a digit is shown if and only if it is one of the last two or in the country code, which must leave more than those two |
| RateLimit.EveryMinuteIsBounded | core/agent_keys.go:453-473 | In any log of non-decreasing times, one key gets at most twice its limit in a minute, and one fewer in any shorter span or from the panel's limiter |
| RateLimit.BoundIsMet | core/agent_keys.go:447-452 | Of either limiter, one second across a boundary can let exactly twice the limit less one through |
| RateLimit.FullMinuteBoundIsMet | core/agent_keys.go:447-452 | Over exactly a minute an agent key can be let exactly twice its limit |
| RateLimit.RetryAfterIsExact | core/agent_keys.go:407-429 | A refused key sending nothing else is admitted from exactly the wait it is given, and the whole seconds it is told are always enough |
| RateLimit.KeysAreIndependent | core/agent_keys.go:453-473 | Each key is counted as though its requests were the only ones |
| RateLimit.SweepingIsInvisible | core/error_tracker.go:578-606 | Pruning expired windows never changes an answer |
| RateLimit.TwentyReportsAMinute | core/error_tracker.go:574-606 | Of any burst of twenty or more reports exactly twenty are let through |
| RateLimit.RetryIsTheFewestSeconds | core/agent_keys.go:414-417 | The wait told is whole seconds, as few as cover it and at least one |
| RateLimit.AgentRates.AllowAgent | core/agent_keys.go:453-473 | One statement counts the request, answers, and gives the rest of the minute as the wait |
| RateLimit.PanelReports.AllowReport | core/error_tracker.go:589-606 | The table is pruned when large, the report counted and answered |
| Dimensions.RoundTrip | core/dimensions.go:101-144 | Printing a length in any unit and reading it back gives the same length if and only if it is one the column can hold |
| Dimensions.PrintingIsCloseEnough | core/dimensions.go:134-144 | Three decimals never land on a tie and are within 0.0127 mm of the length |
| Dimensions.TrimmedReadsBack | core/dimensions.go:134-144 | Trimming zeros and the point loses nothing, not even a zero before the point |
| Dimensions.DigitsDetermineTheLength | core/dimensions.go:134-144 | Two lengths that print alike are the same |
| Dimensions.UnitsMean | core/dimensions.go:41-46 | Ten millimetres to the centimetre, a thousand to the metre, 127 to five inches |
| Dimensions.MeasuredExactly | core/dimensions.go:101-126 | Refused as negative, of an unknown unit or implausible, each exactly when it is so; else within half a millimetre of the measure, a half rounded up |
| Gstin.CheckCharCompletesTheSum | core/gst.go:122-131 | The check character is the one that brings the folded sum to a multiple of 36 |
| Gstin.SubstitutionChangesCheck | core/gst.go:122-131 | At any length a single substitution leaves the check unchanged only if it changes nothing |
| Gstin.SwapChangesCheck | core/gst.go:122-131 | At any length swapping neighbours goes unseen exactly when they are equal or are 0 and Z |
| Gstin.GstinCheck | core/gst.go:124-131 | The loop computes that check over the first fourteen characters |
| Gstin.ParseGSTIN | core/gst.go:105-119 | Accepted exactly when valid, each refusal exactly when its rule fails, and the character offered instead would be right |
| Gstin.ShapeIsTheTemplate | core/gst.go:98 | The pattern as one kind of character for each of the fifteen places |
| Gstin.StateCodesAreThese | core/gst.go:36-85 | The accepted state codes are exactly the list, retired codes among them |
| Gstin.ValidExactly | core/gst.go:98-131 | Valid if and only if each of the fifteen places has its kind of character, the first two are a state, and the folded sum with the last character is a multiple of 36 |
| Gstin.TheExampleIsValid | core/gst.go:108-131 | The number shown as the example in the refusals is accepted |
| Gstin.OneWrongCharacterIsRefused | core/gst.go:105-131 | Changing any one character of a valid number makes it invalid |
| Gstin.OneSwapIsRefused | core/gst.go:105-131 | So does swapping any two unequal neighbours, the shape covering the pair the formula misses |

## Left out

- Shipping: MarkDelivered, MarkUndelivered, returns and editing a shipped order; parcels recorded before lines were; carrier names, labels and the text of audit rows.
- Shipping.TrackKeepsValid: does not order reports by time, because the code stamps an undated report with the present and a repeated status does not refresh the stored time; stored times are not monotone.
- Checkout: tax, delivery rates, the fee and the guards are functions of their inputs, and the price of a variant does not depend on quantity or buyer; agreed and add-on prices, designs, exemptions and weights are inside them.
- Checkout: a cart that is abandoned is treated as open, its revival being the business of CartLifecycle; order numbers, access tokens, addresses and events are not written.
- Checkout.Store.Checkout: starts once the method is known to be set up and the form has passed its checks, leaves out the modules' prechecks, and ends where payment starts; the refusals before it read nothing the rest depends on, and payment is CheckoutProtocol's.
- Checkout.Store.Quote: does not model the refusals of an unknown method, a missing cart id or a missing country, which are checks of one field each made before the transaction.
- Checkout.DeliveryIsTheChosenRate: a sale over the counter, which has nothing to send, is a basket with nothing physical.
- CheckoutRuns.EveryRunKeepsBooks: an order's figures are those it was placed with; what an edit makes of them is OrderDiscount's. The stock a cancellation returns and the statuses that forbid one are any change of the store.
- QuoteMatch.QuoteIsTheOrderUnlessHad: says nothing of a quote refused over the gift card, which has no figures; with tax an arbitrary function, the order could then still come out with nothing due.
- Checkout.Store.RefreshCartPrices: does not model the refresh failing, which the code only logs.
- Checkout.ByVariantKeeps: does not say which of two lines of one variant comes first, because the sort used is not stable; the model takes one such order.
- CheckoutProtocol: the request stands for its own hash, taken as injective; the payment provider is only whether payment could be started; a failed write of the stored answer is a crash at that point. Orders are never deleted, as only a sample shop's are.
- Discounts: codes are folded as ASCII, which is all a valid code may hold, and addresses with them; validation of input, listing, redemption reports and the text of refusals.
- OrderDiscount.Order.EditLines: starts where the lines after the edit are known; the stock moved by an edit and the statuses that forbid one are not modelled.
- Categories: slugs, metadata, HSN codes, attributes, paging and the search term; each Update is one step, as it takes no lock on the tree.
- CartLifecycle.ClaimOldest: does not order carts of equal age; SweepPass runs its three steps in a row, and what may run between them is covered by the lemmas over traces.
- CollectionOrder: audit rows and the collection.updated event.
- CollectionOrder.EveryRunStaysOrdered: is about calls that run one after another; runs of calls at once, where it can fail, are RunsOfCallsTieExactly's. There a call is one step at its commit, onto what those who committed before it leave, with what its statements read left open; waiting for row locks, and a call failing because an owner was deleted under it, are not modelled.
- HostRouting: parsing URLs and tidying names are functions; the defaults filled in when no brands are configured, and logos.
- Masking: white space, letters and lower case are functions of one character, so a letter whose lower case is longer is not modelled; walking JSON by field name.
- RateLimit: the statement and the mutex each make a call one step; the skew between database and server clocks.
- Dimensions: floating point is taken as real arithmetic; FormatDimension's unit suffix and the patching of several lengths at once.
- Gstin: trimming and upper-casing the input, and the names of the states.
- HTTP handlers, the admin panel, SQL text, row-level security, notifications, payment gateways, carriers' own formats, catalog editing, reports and API keys: plumbing, or checks with one branch.
