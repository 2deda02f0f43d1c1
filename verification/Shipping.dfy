/**
  An order's parcels and the status derived from them (core/fulfillment.go). A parcel is booked in
  two phases: what goes in it is resolved, the carrier is called with no lock held, and the order
  is checked again under its lock before the parcel is recorded.
*/
module Shipping {
  import opened Basics

  datatype OrderStatus = Pending | Confirmed | Partial | Shipped | Delivered | Cancelled
  /** A parcel's own status, a different fact from the order's: 'shipped', 'delivered', 'cancelled'. */
  datatype ParcelStatus = OnItsWay | HandedOver | CalledOff
  datatype Tracking =
    | InTransit | OutForDelivery | DeliveryFailed | HasArrived | Returning | Returned | Lost | CancelledByCarrier
    | NoSuchStatus

  datatype OrderLine = OrderLine(id: int, quantity: int)
  datatype ShipLine = ShipLine(line: int, quantity: int)
  datatype Parcel = Parcel(id: int, slip: nat, status: ParcelStatus, tracked: Option<Tracking>, trackedAt: Option<int>,
                           lines: seq<ShipLine>)
  datatype Event =
    | OrderShipped(parcel: int, lines: seq<ShipLine>, remaining: int)
    | OrderUnshipped(parcel: int, lines: seq<ShipLine>, remaining: int)
    | ShipmentUpdated(parcel: int, tracking: Tracking)
    | OrderDelivered(parcel: int)

  datatype Book = Book(lines: seq<OrderLine>, status: OrderStatus, parcels: seq<Parcel>, nextId: int, events: seq<Event>)

  datatype Refusal = NotFound | Validation | Conflict
  datatype Result<T> = Ok(value: T) | Refused(why: Refusal)

  // ------------------------------------------------------------------ counting units

  function Qty(lines: seq<ShipLine>, id: int): int {
    if lines == [] then 0
    else Qty(lines[..|lines| - 1], id) + if lines[|lines| - 1].line == id then lines[|lines| - 1].quantity else 0
  }

  /** A cancelled parcel carries nothing: its units are owed again. */
  function Carries(p: Parcel, id: int): int { if p.status == CalledOff then 0 else Qty(p.lines, id) }

  /** Units of one order line that have gone out. */
  function Out(parcels: seq<Parcel>, id: int): int {
    if parcels == [] then 0 else Out(parcels[..|parcels| - 1], id) + Carries(parcels[|parcels| - 1], id)
  }

  function OrderedUpTo(lines: seq<OrderLine>, n: nat): int
    requires n <= |lines|
    decreases n
  {
    if n == 0 then 0 else OrderedUpTo(lines, n - 1) + lines[n - 1].quantity
  }

  function ShippedUpTo(lines: seq<OrderLine>, parcels: seq<Parcel>, n: nat): int
    requires n <= |lines|
    decreases n
  {
    if n == 0 then 0 else ShippedUpTo(lines, parcels, n - 1) + Out(parcels, lines[n - 1].id)
  }

  function Ordered(lines: seq<OrderLine>): int { OrderedUpTo(lines, |lines|) }

  function ShippedUnits(lines: seq<OrderLine>, parcels: seq<Parcel>): int { ShippedUpTo(lines, parcels, |lines|) }

  function Remaining(lines: seq<OrderLine>, parcels: seq<Parcel>): int {
    var owed := Ordered(lines) - ShippedUnits(lines, parcels);
    if owed < 0 then 0 else owed
  }

  /** shippingState: the status two totals give. */
  function Derived(lines: seq<OrderLine>, parcels: seq<Parcel>): OrderStatus {
    var ordered, shipped := Ordered(lines), ShippedUnits(lines, parcels);
    if shipped == 0 then Confirmed
    else if ordered > 0 && shipped >= ordered then Shipped
    else Partial
  }

  // ------------------------------------------------------------------ what must hold

  predicate HasLine(lines: seq<OrderLine>, id: int) { exists i :: 0 <= i < |lines| && lines[i].id == id }

  function Ask(lines: seq<OrderLine>, id: int): int {
    if lines == [] then 0 else if lines[0].id == id then lines[0].quantity else Ask(lines[1..], id)
  }

  /** What a resolved parcel looks like: something of known lines, each named once. */
  ghost predicate Packed(lines: seq<OrderLine>, ship: seq<ShipLine>) {
    && ship != []
    && (forall k :: 0 <= k < |ship| ==> HasLine(lines, ship[k].line) && ship[k].quantity >= 1)
    && forall j, k :: 0 <= j < k < |ship| ==> ship[j].line != ship[k].line
  }

  ghost predicate LinesOk(lines: seq<OrderLine>) {
    && (forall i :: 0 <= i < |lines| ==> lines[i].quantity >= 1)
    && forall i, j :: 0 <= i < j < |lines| ==> lines[i].id != lines[j].id
  }

  /** No line has more units out than were ordered. */
  ghost predicate Within(lines: seq<OrderLine>, parcels: seq<Parcel>) {
    forall i :: 0 <= i < |lines| ==> 0 <= Out(parcels, lines[i].id) <= lines[i].quantity
  }

  ghost predicate NothingOut(lines: seq<OrderLine>, parcels: seq<Parcel>) {
    forall i :: 0 <= i < |lines| ==> Out(parcels, lines[i].id) == 0
  }

  ghost predicate AllOut(lines: seq<OrderLine>, parcels: seq<Parcel>) {
    forall i :: 0 <= i < |lines| ==> Out(parcels, lines[i].id) == lines[i].quantity
  }

  predicate SomeOnItsWay(parcels: seq<Parcel>) { exists i :: 0 <= i < |parcels| && parcels[i].status == OnItsWay }

  predicate NoneLive(parcels: seq<Parcel>) { forall i :: 0 <= i < |parcels| ==> parcels[i].status == CalledOff }

  /** What the status ought to say, line by line and parcel by parcel. */
  ghost function Exact(lines: seq<OrderLine>, parcels: seq<Parcel>): OrderStatus {
    if NothingOut(lines, parcels) then Confirmed
    else if !AllOut(lines, parcels) then Partial
    else if SomeOnItsWay(parcels) then Shipped
    else Delivered
  }

  ghost predicate ParcelsOk(lines: seq<OrderLine>, parcels: seq<Parcel>, nextId: int) {
    && (forall i :: 0 <= i < |parcels| ==> Packed(lines, parcels[i].lines) && parcels[i].id < nextId)
    && forall i, j :: 0 <= i < j < |parcels| ==> parcels[i].id != parcels[j].id
  }

  ghost predicate StatusOk(lines: seq<OrderLine>, status: OrderStatus, parcels: seq<Parcel>) {
    if status == Pending || status == Cancelled then NoneLive(parcels) else status == Exact(lines, parcels)
  }

  ghost predicate Valid(b: Book) {
    && LinesOk(b.lines) && ParcelsOk(b.lines, b.parcels, b.nextId)
    && Within(b.lines, b.parcels) && StatusOk(b.lines, b.status, b.parcels)
  }

  // ------------------------------------------------------------------ lemmas on counting

  lemma {:induction false} QtyBounds(ship: seq<ShipLine>, id: int)
    requires forall k :: 0 <= k < |ship| ==> ship[k].quantity >= 0
    ensures Qty(ship, id) >= 0
    ensures forall k :: 0 <= k < |ship| && ship[k].line == id ==> Qty(ship, id) >= ship[k].quantity
  {
    if ship != [] {
      QtyBounds(ship[..|ship| - 1], id);
      assert forall k :: 0 <= k < |ship| - 1 ==> ship[k] == ship[..|ship| - 1][k];
    }
  }

  /** Where each line is named once, Qty reads the one entry there is. */
  lemma {:induction false} QtyOfDistinct(ship: seq<ShipLine>, id: int)
    requires forall j, k :: 0 <= j < k < |ship| ==> ship[j].line != ship[k].line
    ensures forall k :: 0 <= k < |ship| && ship[k].line == id ==> Qty(ship, id) == ship[k].quantity
    ensures (forall k :: 0 <= k < |ship| ==> ship[k].line != id) ==> Qty(ship, id) == 0
  {
    if ship != [] {
      var m := ship[..|ship| - 1];
      QtyOfDistinct(m, id);
      assert forall k :: 0 <= k < |ship| - 1 ==> ship[k] == m[k];
    }
  }

  lemma {:induction false} OutConcat(a: seq<Parcel>, b: seq<Parcel>, id: int)
    ensures Out(a + b, id) == Out(a, id) + Out(b, id)
  {
    if b == [] {
      assert a + b == a;
    } else {
      var m := b[..|b| - 1];
      assert (a + b)[..|a + b| - 1] == a + m;
      OutConcat(a, m, id);
    }
  }

  /** The parcel at i, taken apart from the rest. */
  lemma OutSplit(parcels: seq<Parcel>, i: nat, id: int)
    requires i < |parcels|
    ensures Out(parcels, id) == Out(Removed(parcels, i), id) + Carries(parcels[i], id)
  {
    var a, b := parcels[..i], parcels[i + 1..];
    assert parcels == a + ([parcels[i]] + b);
    OutConcat(a, [parcels[i]] + b, id);
    OutConcat([parcels[i]], b, id);
    OutConcat(a, b, id);
    assert [parcels[i]][..0] == [];
  }

  lemma OutReplaced(parcels: seq<Parcel>, i: nat, p: Parcel, id: int)
    requires i < |parcels|
    ensures Out(parcels[i := p], id) == Out(parcels, id) - Carries(parcels[i], id) + Carries(p, id)
  {
    OutSplit(parcels, i, id);
    OutSplit(parcels[i := p], i, id);
    assert parcels[i := p][..i] == parcels[..i] && parcels[i := p][i + 1..] == parcels[i + 1..];
  }

  lemma OutAdded(parcels: seq<Parcel>, p: Parcel, id: int)
    ensures Out(parcels + [p], id) == Out(parcels, id) + Carries(p, id)
  {
    assert (parcels + [p])[..|parcels|] == parcels;
  }

  /** Two totals decide what a line-by-line comparison would, because no line is over its own. */
  lemma {:induction false} TotalsDecideLines(lines: seq<OrderLine>, parcels: seq<Parcel>, n: nat)
    requires n <= |lines| && Within(lines, parcels)
    ensures 0 <= ShippedUpTo(lines, parcels, n) <= OrderedUpTo(lines, n)
    ensures ShippedUpTo(lines, parcels, n) == 0 <==> forall i :: 0 <= i < n ==> Out(parcels, lines[i].id) == 0
    ensures ShippedUpTo(lines, parcels, n) == OrderedUpTo(lines, n) <==>
      forall i :: 0 <= i < n ==> Out(parcels, lines[i].id) == lines[i].quantity
    decreases n
  {
    if n > 0 {
      TotalsDecideLines(lines, parcels, n - 1);
    }
  }

  /** shippingState tells the exact status, save that it cannot tell delivered from shipped. */
  lemma DerivedIsExact(lines: seq<OrderLine>, parcels: seq<Parcel>)
    requires LinesOk(lines) && Within(lines, parcels)
    ensures Derived(lines, parcels) ==
      if Exact(lines, parcels) == Delivered then Shipped else Exact(lines, parcels)
    ensures Remaining(lines, parcels) == Ordered(lines) - ShippedUnits(lines, parcels)
  {
    TotalsDecideLines(lines, parcels, |lines|);
  }

  // ------------------------------------------------------------------ the operations

  predicate Shippable(status: OrderStatus) { status == Confirmed || status == Partial }

  /** Everything the first n lines still owe. */
  function OwedUpTo(lines: seq<OrderLine>, parcels: seq<Parcel>, n: nat): seq<ShipLine>
    requires n <= |lines|
    decreases n
  {
    if n == 0 then [] else
    var before, owed := OwedUpTo(lines, parcels, n - 1), lines[n - 1].quantity - Out(parcels, lines[n - 1].id);
    if owed > 0 then before + [ShipLine(lines[n - 1].id, owed)] else before
  }

  /** One asked line is acceptable: known, not named before, at least one unit, no more than is left. */
  predicate Askable(b: Book, want: seq<ShipLine>, k: nat)
    requires k < |want|
  {
    && HasLine(b.lines, want[k].line)
    && (forall j :: 0 <= j < k ==> want[j].line != want[k].line)
    && 1 <= want[k].quantity <= Ask(b.lines, want[k].line) - Out(b.parcels, want[k].line)
  }

  /** resolveShipLines: nothing asked for means everything still owed. */
  function Resolved(b: Book, want: seq<ShipLine>): Result<seq<ShipLine>> {
    if want == [] then
      var owed := OwedUpTo(b.lines, b.parcels, |b.lines|);
      if owed == [] then Refused(Conflict) else Ok(owed)
    else if forall k :: 0 <= k < |want| ==> Askable(b, want, k) then Ok(want)
    else Refused(Validation)
  }

  /** The first phase of Create, up to the carrier call. */
  function Begin(b: Book, want: seq<ShipLine>): Result<seq<ShipLine>> {
    if Shippable(b.status) then Resolved(b, want) else Refused(Conflict)
  }

  /** checkShipLines: every line is still there and still has that much left. */
  predicate StillFits(b: Book, ship: seq<ShipLine>) {
    forall k :: 0 <= k < |ship| ==>
      HasLine(b.lines, ship[k].line) && ship[k].quantity <= Ask(b.lines, ship[k].line) - Out(b.parcels, ship[k].line)
  }

  /** The second phase, under the order's lock, once the carrier has made the slip. */
  function Commit(b: Book, ship: seq<ShipLine>, slip: nat): Result<Book> {
    if !Shippable(b.status) || !StillFits(b, ship) then Refused(Conflict) else
    var parcels := b.parcels + [Parcel(b.nextId, slip, OnItsWay, None, None, ship)];
    Ok(Book(b.lines, Derived(b.lines, parcels), parcels, b.nextId + 1,
            b.events + [OrderShipped(b.nextId, ship, Remaining(b.lines, parcels))]))
  }

  /** rederiveAfterUnshipping: only a shipped or partly shipped order follows its parcels back. */
  function Rederived(lines: seq<OrderLine>, status: OrderStatus, parcels: seq<Parcel>): OrderStatus {
    if status == Shipped || status == Partial then Derived(lines, parcels) else status
  }

  function ParcelAt(parcels: seq<Parcel>, id: int): (i: nat)
    ensures i <= |parcels| && (i < |parcels| ==> parcels[i].id == id)
    ensures forall j :: 0 <= j < i ==> parcels[j].id != id
  {
    if parcels == [] || parcels[0].id == id then 0 else 1 + ParcelAt(parcels[1..], id)
  }

  function Removed(parcels: seq<Parcel>, i: nat): seq<Parcel>
    requires i < |parcels|
  {
    parcels[..i] + parcels[i + 1..]
  }

  /** Delete; removing a cancelled parcel is announced to nobody. */
  function Delete(b: Book, id: int): Result<Book> {
    var i := ParcelAt(b.parcels, id);
    if i == |b.parcels| then Refused(NotFound)
    else if b.status == Delivered then Refused(Conflict)
    else
      var p, parcels := b.parcels[i], Removed(b.parcels, i);
      Ok(b.(status := Rederived(b.lines, b.status, parcels), parcels := parcels,
            events := b.events + if p.status == CalledOff then []
                                 else [OrderUnshipped(id, p.lines, Remaining(b.lines, parcels))]))
  }

  /** cancelLocked, on the parcel at i. */
  function CallOff(b: Book, i: nat): Result<Book>
    requires i < |b.parcels|
  {
    var p := b.parcels[i];
    if p.status == CalledOff then Ok(b)
    else if p.status == HandedOver || b.status == Delivered then Refused(Conflict)
    else
      var parcels := b.parcels[i := p.(status := CalledOff)];
      Ok(b.(status := Rederived(b.lines, b.status, parcels), parcels := parcels,
            events := b.events + [OrderUnshipped(p.id, p.lines, Remaining(b.lines, parcels))]))
  }

  function Cancel(b: Book, id: int): Result<Book> {
    var i := ParcelAt(b.parcels, id);
    if i == |b.parcels| then Refused(NotFound) else CallOff(b, i)
  }

  /** A report that says nothing new, comes too late, or is older than the last one applied. */
  predicate Ignored(p: Parcel, u: Tracking, at: Option<int>) {
    || p.status != OnItsWay || p.tracked == Some(Returned) || p.tracked == Some(u)
    || (at.Some? && p.trackedAt.Some? && at.value < p.trackedAt.value)
  }

  function Track(b: Book, id: int, u: Tracking, at: Option<int>, now: int): Result<Book> {
    var i := ParcelAt(b.parcels, id);
    if u == NoSuchStatus then Refused(Validation)
    else if i == |b.parcels| then Refused(NotFound)
    else if Ignored(b.parcels[i], u, at) then Ok(b)
    else if u == CancelledByCarrier then CallOff(b, i)
    else
      var p := b.parcels[i].(status := if u == HasArrived then HandedOver else b.parcels[i].status,
                             tracked := Some(u), trackedAt := Some(if at.Some? then at.value else now));
      var parcels := b.parcels[i := p];
      if u == HasArrived && b.status == Shipped && !SomeOnItsWay(parcels)
      then Ok(b.(status := Delivered, parcels := parcels, events := b.events + [OrderDelivered(id)]))
      else Ok(b.(parcels := parcels, events := b.events + [ShipmentUpdated(id, u)]))
  }

  /** Orders.Cancel, as far as shipping is concerned; returned says goods came back. */
  function CancelOrder(b: Book, returned: bool): Result<Book> {
    match b.status
    case Cancelled => Ok(b)
    case Shipped | Delivered | Partial => Refused(Conflict)
    case Pending | Confirmed => if returned then Refused(Conflict) else Ok(b.(status := Cancelled))
  }

  // ------------------------------------------------------------------ each one keeps the book valid

  lemma {:induction false} AskIsTheLine(lines: seq<OrderLine>, i: nat)
    requires i < |lines| && LinesOk(lines)
    ensures Ask(lines, lines[i].id) == lines[i].quantity
  {
    if i > 0 {
      assert lines[0].id != lines[i].id;
      AskIsTheLine(lines[1..], i - 1);
    }
  }

  lemma {:induction false} OutIsNotNegative(lines: seq<OrderLine>, parcels: seq<Parcel>, id: int)
    requires forall i :: 0 <= i < |parcels| ==> Packed(lines, parcels[i].lines)
    ensures Out(parcels, id) >= 0
  {
    if parcels != [] {
      var m := parcels[..|parcels| - 1];
      OutIsNotNegative(lines, m, id);
      QtyBounds(parcels[|parcels| - 1].lines, id);
    }
  }

  /** A live parcel shows on some line of the order. */
  lemma LiveParcelShows(b: Book, i: nat) returns (l: nat)
    requires Valid(b) && i < |b.parcels| && b.parcels[i].status != CalledOff
    ensures l < |b.lines| && Carries(b.parcels[i], b.lines[l].id) >= 1
    ensures Out(b.parcels, b.lines[l].id) >= 1
  {
    var ship := b.parcels[i].lines;
    assert Packed(b.lines, ship);
    l :| 0 <= l < |b.lines| && b.lines[l].id == ship[0].line;
    QtyBounds(ship, ship[0].line);
    OutSplit(b.parcels, i, b.lines[l].id);
    OutIsNotNegative(b.lines, Removed(b.parcels, i), b.lines[l].id);
  }

  lemma ConfirmedHasNoneLive(b: Book)
    requires Valid(b) && b.status == Confirmed
    ensures NoneLive(b.parcels)
  {
    forall i | 0 <= i < |b.parcels| ensures b.parcels[i].status == CalledOff {
      if b.parcels[i].status != CalledOff {
        var l := LiveParcelShows(b, i);
      }
    }
  }

  /** The entry asks for all that line i still owes, and that is something. */
  ghost predicate Owes(b: Book, i: nat, s: ShipLine)
    requires i < |b.lines|
  {
    b.lines[i].id == s.line && s.quantity == b.lines[i].quantity - Out(b.parcels, s.line) >= 1
  }

  ghost predicate OwedBy(b: Book, n: nat, s: ShipLine)
    requires n <= |b.lines|
  {
    exists i :: 0 <= i < n && Owes(b, i, s)
  }

  /** What Resolve lets through is packed, and fits what the order owes at that moment. */
  lemma {:induction false} OwedIsPacked(b: Book, n: nat)
    requires Valid(b) && n <= |b.lines|
    ensures var owed := OwedUpTo(b.lines, b.parcels, n);
      && (forall k :: 0 <= k < |owed| ==> OwedBy(b, n, owed[k]))
      && (forall j, k :: 0 <= j < k < |owed| ==> owed[j].line != owed[k].line)
      && (owed == [] <==> forall i :: 0 <= i < n ==> Out(b.parcels, b.lines[i].id) == b.lines[i].quantity)
    decreases n
  {
    if n > 0 {
      OwedIsPacked(b, n - 1);
      var line := b.lines[n - 1];
      var owed := line.quantity - Out(b.parcels, line.id);
      var before := OwedUpTo(b.lines, b.parcels, n - 1);
      forall k | 0 <= k < |before| ensures OwedBy(b, n, before[k]) {
        assert OwedBy(b, n - 1, before[k]);
      }
      if owed > 0 {
        assert Owes(b, n - 1, ShipLine(line.id, owed));
      }
    }
  }

  lemma ResolvedIsPacked(b: Book, want: seq<ShipLine>)
    requires Valid(b) && Resolved(b, want).Ok?
    ensures Packed(b.lines, Resolved(b, want).value) && StillFits(b, Resolved(b, want).value)
  {
    if want == [] {
      OwedIsPacked(b, |b.lines|);
      var owed := Resolved(b, want).value;
      forall k | 0 <= k < |owed|
        ensures HasLine(b.lines, owed[k].line) && 1 <= owed[k].quantity <= Ask(b.lines, owed[k].line) - Out(b.parcels, owed[k].line)
      {
        assert OwedBy(b, |b.lines|, owed[k]);
        var i: nat :| i < |b.lines| && Owes(b, i, owed[k]);
        AskIsTheLine(b.lines, i);
      }
    } else {
      var all := forall k :: 0 <= k < |want| ==> Askable(b, want, k);
      assert all;
      forall k | 0 <= k < |want|
        ensures HasLine(b.lines, want[k].line) && 1 <= want[k].quantity <= Ask(b.lines, want[k].line) - Out(b.parcels, want[k].line)
        ensures forall j :: 0 <= j < k ==> want[j].line != want[k].line
      {
        assert Askable(b, want, k);
      }
    }
  }

  lemma CommitKeepsWithin(b: Book, ship: seq<ShipLine>, p: Parcel)
    requires Valid(b) && Packed(b.lines, ship) && StillFits(b, ship) && p.lines == ship && p.status == OnItsWay
    ensures Within(b.lines, b.parcels + [p])
    ensures !NothingOut(b.lines, b.parcels + [p])
  {
    forall i | 0 <= i < |b.lines| ensures 0 <= Out(b.parcels + [p], b.lines[i].id) <= b.lines[i].quantity {
      var id := b.lines[i].id;
      OutAdded(b.parcels, p, id);
      QtyOfDistinct(ship, id);
      AskIsTheLine(b.lines, i);
      if k :| 0 <= k < |ship| && ship[k].line == id {
        assert ship[k].quantity <= Ask(b.lines, ship[k].line) - Out(b.parcels, ship[k].line);
      }
    }
    var l :| 0 <= l < |b.lines| && b.lines[l].id == ship[0].line;
    OutAdded(b.parcels, p, b.lines[l].id);
    QtyOfDistinct(ship, b.lines[l].id);
  }

  lemma CommitKeepsValid(b: Book, ship: seq<ShipLine>, slip: nat)
    requires Valid(b) && Packed(b.lines, ship) && Commit(b, ship, slip).Ok?
    ensures Valid(Commit(b, ship, slip).value)
  {
    var c := Commit(b, ship, slip).value;
    var p := c.parcels[|b.parcels|];
    CommitKeepsWithin(b, ship, p);
    DerivedIsExact(c.lines, c.parcels);
    hide Derived;
    hide Packed;
    hide Out;
    hide StillFits;
    assert forall i :: 0 <= i < |b.parcels| ==> c.parcels[i] == b.parcels[i];
    assert SomeOnItsWay(c.parcels);
  }

  /**
    A parcel stops counting. Either it was not counting already, or some line really lost units;
    so a book left full has a parcel on its way, exactly as it had before.
  */
  lemma UnshippingStaysExact(lines: seq<OrderLine>, status: OrderStatus, before: seq<Parcel>, after: seq<Parcel>)
    requires LinesOk(lines) && Within(lines, before) && Within(lines, after)
    requires status == Exact(lines, before) && status != Delivered
    requires forall i :: 0 <= i < |lines| ==> Out(after, lines[i].id) <= Out(before, lines[i].id)
    requires (SomeOnItsWay(before) ==> SomeOnItsWay(after))
      || exists i :: 0 <= i < |lines| && Out(after, lines[i].id) < Out(before, lines[i].id)
    ensures Rederived(lines, status, after) == Exact(lines, after)
  {
    DerivedIsExact(lines, after);
    hide Derived;
    if AllOut(lines, after) {
      forall i | 0 <= i < |lines| ensures Out(after, lines[i].id) == Out(before, lines[i].id) {
      }
    }
  }

  lemma DeletedUnits(b: Book, i: nat, after: seq<Parcel>)
    requires Valid(b) && i < |b.parcels| && after == Removed(b.parcels, i)
    requires ParcelsOk(b.lines, after, b.nextId)
    ensures Within(b.lines, after)
    ensures forall l :: 0 <= l < |b.lines| ==> Out(after, b.lines[l].id) <= Out(b.parcels, b.lines[l].id)
    ensures b.parcels[i].status != CalledOff ==>
      exists l :: 0 <= l < |b.lines| && Out(after, b.lines[l].id) < Out(b.parcels, b.lines[l].id)
  {
    var p := b.parcels[i];
    forall l | 0 <= l < |b.lines|
      ensures Out(after, b.lines[l].id) == Out(b.parcels, b.lines[l].id) - Carries(p, b.lines[l].id)
      ensures Out(after, b.lines[l].id) >= 0 && Carries(p, b.lines[l].id) >= 0
    {
      OutSplit(b.parcels, i, b.lines[l].id);
      OutIsNotNegative(b.lines, after, b.lines[l].id);
      QtyBounds(p.lines, b.lines[l].id);
    }
    if p.status != CalledOff {
      var l := LiveParcelShows(b, i);
    }
  }

  lemma DeleteKeepsValid(b: Book, id: int)
    requires Valid(b) && Delete(b, id).Ok?
    ensures Valid(Delete(b, id).value)
  {
    hide Removed;
    hide Out;
    hide Exact;
    hide Within;
    hide ParcelsOk;
    hide LinesOk;
    hide NoneLive;
    hide SomeOnItsWay;
    hide Remaining;
    var i := ParcelAt(b.parcels, id);
    var after := Removed(b.parcels, i);
    OthersKept(b, i);
    DeletedUnits(b, i, after);
    if b.status != Pending && b.status != Cancelled {
      UnshippingStaysExact(b.lines, b.status, b.parcels, after);
    }
  }

  /** What deleting the parcel at i leaves of the others. */
  lemma OthersKept(b: Book, i: nat)
    requires Valid(b) && i < |b.parcels|
    ensures var after := Removed(b.parcels, i);
      && ParcelsOk(b.lines, after, b.nextId)
      && (NoneLive(b.parcels) ==> NoneLive(after))
      && (b.parcels[i].status == CalledOff && SomeOnItsWay(b.parcels) ==> SomeOnItsWay(after))
  {
    var after := Removed(b.parcels, i);
    assert forall k :: 0 <= k < |after| ==> after[k] == b.parcels[if k < i then k else k + 1];
    if b.parcels[i].status == CalledOff && SomeOnItsWay(b.parcels) {
      var j :| 0 <= j < |b.parcels| && b.parcels[j].status == OnItsWay;
      assert after[if j < i then j else j - 1] == b.parcels[j];
    }
  }

  lemma CalledOffUnits(b: Book, i: nat, p: Parcel)
    requires Valid(b) && i < |b.parcels| && b.parcels[i].status == OnItsWay && p == b.parcels[i].(status := CalledOff)
    ensures ParcelsOk(b.lines, b.parcels[i := p], b.nextId) && Within(b.lines, b.parcels[i := p])
    ensures forall l :: 0 <= l < |b.lines| ==> Out(b.parcels[i := p], b.lines[l].id) <= Out(b.parcels, b.lines[l].id)
    ensures exists l :: 0 <= l < |b.lines| && Out(b.parcels[i := p], b.lines[l].id) < Out(b.parcels, b.lines[l].id)
  {
    var after := b.parcels[i := p];
    assert ParcelsOk(b.lines, after, b.nextId) by { hide Packed; }
    forall l | 0 <= l < |b.lines|
      ensures Out(after, b.lines[l].id) == Out(b.parcels, b.lines[l].id) - Carries(b.parcels[i], b.lines[l].id)
      ensures Out(after, b.lines[l].id) >= 0 && Carries(b.parcels[i], b.lines[l].id) >= 0
    {
      OutReplaced(b.parcels, i, p, b.lines[l].id);
      OutIsNotNegative(b.lines, after, b.lines[l].id);
      QtyBounds(p.lines, b.lines[l].id);
    }
    var l := LiveParcelShows(b, i);
  }

  lemma CallOffKeepsValid(b: Book, i: nat)
    requires Valid(b) && i < |b.parcels| && CallOff(b, i).Ok?
    ensures Valid(CallOff(b, i).value)
  {
    if b.parcels[i].status == OnItsWay {
      var p := b.parcels[i].(status := CalledOff);
      var after := b.parcels[i := p];
      CalledOffUnits(b, i, p);
      if b.status != Pending && b.status != Cancelled {
        UnshippingStaysExact(b.lines, b.status, b.parcels, after);
      }
      hide Out;
      hide Exact;
      hide Within;
      hide ParcelsOk;
      hide Derived;
      hide Remaining;
    }
  }

  /** A report moves no units: only what the parcel is doing changes. */
  lemma TrackKeepsUnits(b: Book, i: nat, p: Parcel)
    requires i < |b.parcels| && b.parcels[i].status == OnItsWay && p.lines == b.parcels[i].lines && p.status != CalledOff
    ensures forall id :: Out(b.parcels[i := p], id) == Out(b.parcels, id)
  {
    forall id ensures Out(b.parcels[i := p], id) == Out(b.parcels, id) {
      OutReplaced(b.parcels, i, p, id);
    }
  }

  /** A parcel that is still on its way changes what it is doing; the order follows if it was the last. */
  lemma ReportKeepsValid(b: Book, i: nat, p: Parcel, c: Book)
    requires Valid(b) && i < |b.parcels| && b.parcels[i].status == OnItsWay
    requires p.id == b.parcels[i].id && p.lines == b.parcels[i].lines && p.status != CalledOff
    requires c.lines == b.lines && c.parcels == b.parcels[i := p] && c.nextId == b.nextId
    requires c.status == if b.status == Shipped && !SomeOnItsWay(c.parcels) then Delivered else b.status
    ensures Valid(c)
  {
    assert ParcelsOk(c.lines, c.parcels, c.nextId) by { hide Packed; }
    TrackKeepsUnits(b, i, p);
    var l := LiveParcelShows(b, i);
    hide Out;
    hide Packed;
    hide ParcelsOk;
    assert SomeOnItsWay(b.parcels);
    assert !NoneLive(b.parcels);
  }

  lemma TrackKeepsValid(b: Book, id: int, u: Tracking, at: Option<int>, now: int)
    requires Valid(b) && Track(b, id, u, at, now).Ok?
    ensures Valid(Track(b, id, u, at, now).value)
  {
    var i := ParcelAt(b.parcels, id);
    if !Ignored(b.parcels[i], u, at) {
      if u == CancelledByCarrier {
        CallOffKeepsValid(b, i);
      } else {
        var c := Track(b, id, u, at, now).value;
        hide Valid;
        if u != HasArrived {
          assert c.parcels[i].status == OnItsWay;
          assert SomeOnItsWay(c.parcels);
        }
        ReportKeepsValid(b, i, c.parcels[i], c);
      }
    }
  }

  lemma CancelOrderKeepsValid(b: Book, returned: bool)
    requires Valid(b) && CancelOrder(b, returned).Ok?
    ensures Valid(CancelOrder(b, returned).value)
  {
    if b.status == Confirmed {
      ConfirmedHasNoneLive(b);
    }
  }

  /** A parcel no report can move any more: delivered, cancelled, or back at the store. */
  predicate Settled(p: Parcel) { p.status != OnItsWay || p.tracked == Some(Returned) }

  /**
    Reports respect history. A settled parcel, or one that is told what it was told last, leaves the
    book as it is; a dated report never takes the stored time back; no other parcel is touched; and
    what was in a parcel, and on which slip, is never rewritten.
  */
  lemma TrackRespectsHistory(b: Book, id: int, u: Tracking, at: Option<int>, now: int)
    requires Track(b, id, u, at, now).Ok?
    ensures var i, c := ParcelAt(b.parcels, id), Track(b, id, u, at, now).value;
      && i < |b.parcels| == |c.parcels|
      && var was, p := b.parcels[i], c.parcels[i];
         && (Settled(was) || was.tracked == Some(u) ==> c == b)
         && (at.Some? && was.trackedAt.Some? ==> p.trackedAt.Some? && p.trackedAt.value >= was.trackedAt.value)
         && p.id == was.id && p.slip == was.slip && p.lines == was.lines
         && (p.status == HandedOver <==> was.status == HandedOver || (c != b && u == HasArrived))
         && forall j :: 0 <= j < |b.parcels| && j != i ==> c.parcels[j] == b.parcels[j]
  {
    hide Derived;
    hide Remaining;
    hide SomeOnItsWay;
    var i := ParcelAt(b.parcels, id);
    if !Ignored(b.parcels[i], u, at) {
      var c := Track(b, id, u, at, now).value;
      assert |c.events| == |b.events| + 1;
    }
  }
}
