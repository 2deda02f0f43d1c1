/**
  The transactions of core/fulfillment.go as they run: an order's fields updated in place, the
  loops over its lines and parcels, and the counts they build. Each is held to the function of
  Shipping that says what it means.
*/
module ShippingDesk {
  import opened Basics
  import opened Shipping

  /** A map of counts; a line it does not mention has none. */
  function Of(m: map<int, int>, id: int): int { if id in m then m[id] else 0 }

  /** What a call answers and leaves: the new book, or a refusal and the old one. */
  ghost predicate Answers(before: Book, meant: Result<Book>, refused: Option<Refusal>, after: Book) {
    match meant
    case Ok(book) => refused == None && after == book
    case Refused(why) => refused == Some(why) && after == before
  }

  /** GROUP BY order line over the parcels that are not cancelled. */
  method ShippedByLine(parcels: seq<Parcel>) returns (m: map<int, int>)
    ensures forall id :: Of(m, id) == Out(parcels, id)
  {
    m := map[];
    for i := 0 to |parcels|
      invariant forall id :: Of(m, id) == Out(parcels[..i], id)
    {
      assert parcels[..i + 1][..i] == parcels[..i];
      if parcels[i].status != CalledOff {
        m := AddLines(m, parcels[i].lines);
      }
    }
    assert parcels[..|parcels|] == parcels;
  }

  method AddLines(m: map<int, int>, ship: seq<ShipLine>) returns (n: map<int, int>)
    ensures forall id :: Of(n, id) == Of(m, id) + Qty(ship, id)
  {
    n := m;
    for k := 0 to |ship|
      invariant forall id :: Of(n, id) == Of(m, id) + Qty(ship[..k], id)
    {
      assert ship[..k + 1][..k] == ship[..k];
      n := n[ship[k].line := Of(n, ship[k].line) + ship[k].quantity];
    }
    assert ship[..|ship|] == ship;
  }

  method FindLine(lines: seq<OrderLine>, id: int) returns (found: bool, quantity: int)
    ensures found == HasLine(lines, id) && quantity == Ask(lines, id)
  {
    found, quantity := false, 0;
    var i := |lines|;
    while i > 0
      invariant 0 <= i <= |lines|
      invariant found == HasLine(lines[i..], id) && quantity == Ask(lines[i..], id)
    {
      i := i - 1;
      assert lines[i..][1..] == lines[i + 1..];
      if lines[i].id == id {
        found, quantity := true, lines[i].quantity;
      }
    }
  }

  method ResolveShipLines(b: Book, want: seq<ShipLine>) returns (r: Result<seq<ShipLine>>)
    ensures r == Resolved(b, want)
  {
    var shipped := ShippedByLine(b.parcels);
    var out := [];
    if want == [] {
      for i := 0 to |b.lines|
        invariant out == OwedUpTo(b.lines, b.parcels, i)
      {
        var remaining := b.lines[i].quantity - Of(shipped, b.lines[i].id);
        if remaining > 0 {
          out := out + [ShipLine(b.lines[i].id, remaining)];
        }
      }
    } else {
      var seen: set<int> := {};
      for k := 0 to |want|
        invariant out == want[..k] && seen == set j | 0 <= j < k :: want[j].line
        invariant forall j :: 0 <= j < k ==> Askable(b, want, j)
      {
        var found, quantity := FindLine(b.lines, want[k].line);
        if !found || want[k].line in seen || want[k].quantity < 1
          || want[k].quantity > quantity - Of(shipped, want[k].line)
        {
          assert !Askable(b, want, k);
          return Refused(Validation);
        }
        seen := seen + {want[k].line};
        out := out + [want[k]];
      }
      assert want[..|want|] == want;
    }
    if out == [] {
      return Refused(Conflict);
    }
    return Ok(out);
  }

  method CheckShipLines(b: Book, shipped: map<int, int>, ship: seq<ShipLine>) returns (ok: bool)
    requires forall id :: Of(shipped, id) == Out(b.parcels, id)
    ensures ok == StillFits(b, ship)
  {
    for k := 0 to |ship|
      invariant forall j :: 0 <= j < k ==>
        HasLine(b.lines, ship[j].line) && ship[j].quantity <= Ask(b.lines, ship[j].line) - Out(b.parcels, ship[j].line)
    {
      var found, quantity := FindLine(b.lines, ship[k].line);
      if !found || ship[k].quantity > quantity - Of(shipped, ship[k].line) {
        return false;
      }
    }
    return true;
  }

  method ShippingState(lines: seq<OrderLine>, parcels: seq<Parcel>) returns (want: OrderStatus, remaining: int)
    ensures want == Derived(lines, parcels) && remaining == Remaining(lines, parcels)
  {
    var byLine := ShippedByLine(parcels);
    var ordered, shipped := 0, 0;
    for i := 0 to |lines|
      invariant ordered == OrderedUpTo(lines, i) && shipped == ShippedUpTo(lines, parcels, i)
    {
      ordered := ordered + lines[i].quantity;
      shipped := shipped + Of(byLine, lines[i].id);
    }
    if shipped == 0 {
      want := Confirmed;
    } else if ordered > 0 && shipped >= ordered {
      want := Shipped;
    } else {
      want := Partial;
    }
    remaining := ordered - shipped;
    if remaining < 0 {
      remaining := 0;
    }
  }

  class Fulfillments {
    const lines: seq<OrderLine>
    var status: OrderStatus
    var parcels: seq<Parcel>
    var nextId: int
    var events: seq<Event>

    constructor (lines: seq<OrderLine>)
      ensures B() == Book(lines, Pending, [], 1, [])
    {
      this.lines, status, parcels, nextId, events := lines, Pending, [], 1, [];
    }

    function B(): Book reads this { Book(lines, status, parcels, nextId, events) }

    /** The first phase, read without a lock: what the carrier will be told. */
    method BeginCreate(want: seq<ShipLine>) returns (r: Result<seq<ShipLine>>)
      ensures r == Begin(B(), want)
    {
      if !Shippable(status) {
        return Refused(Conflict);
      }
      r := ResolveShipLines(B(), want);
    }

    method SettleOrderShipping() returns (remaining: int)
      modifies this`status
      ensures status == Derived(lines, parcels) && remaining == Remaining(lines, parcels)
    {
      var want;
      want, remaining := ShippingState(lines, parcels);
      if want != status {
        status := want;
      }
    }

    /** The second phase, once the carrier's slip exists. */
    method FinishCreate(ship: seq<ShipLine>, slip: nat) returns (refused: Option<Refusal>)
      modifies this
      ensures Answers(old(B()), Commit(old(B()), ship, slip), refused, B())
    {
      if !Shippable(status) {
        return Some(Conflict);
      }
      var shipped := ShippedByLine(parcels);
      var ok := CheckShipLines(B(), shipped, ship);
      if !ok {
        return Some(Conflict);
      }
      var id := nextId;
      parcels := parcels + [Parcel(id, slip, OnItsWay, None, None, ship)];
      nextId := nextId + 1;
      var remaining := SettleOrderShipping();
      events := events + [OrderShipped(id, ship, remaining)];
      return None;
    }

    method RederiveAfterUnshipping() returns (remaining: int)
      modifies this`status
      ensures status == Rederived(lines, old(status), parcels) && remaining == Remaining(lines, parcels)
    {
      var want;
      want, remaining := ShippingState(lines, parcels);
      if (status == Shipped || status == Partial) && want != status {
        status := want;
      }
    }

    method FindParcel(id: int) returns (i: nat)
      ensures i == ParcelAt(parcels, id)
    {
      i := 0;
      while i < |parcels| && parcels[i].id != id
        invariant i <= |parcels| && forall j :: 0 <= j < i ==> parcels[j].id != id
      {
        i := i + 1;
      }
    }

    method DeleteParcel(id: int) returns (refused: Option<Refusal>)
      modifies this
      ensures Answers(old(B()), Delete(old(B()), id), refused, B())
    {
      var i := FindParcel(id);
      if i == |parcels| {
        return Some(NotFound);
      }
      if status == Delivered {
        return Some(Conflict);
      }
      var held, was := parcels[i].lines, parcels[i].status;
      parcels := parcels[..i] + parcels[i + 1..];
      var remaining := RederiveAfterUnshipping();
      if was != CalledOff {
        events := events + [OrderUnshipped(id, held, remaining)];
      }
      return None;
    }

    method CancelLocked(i: nat) returns (refused: Option<Refusal>)
      requires i < |parcels|
      modifies this
      ensures Answers(old(B()), CallOff(old(B()), i), refused, B())
    {
      if parcels[i].status == CalledOff {
        return None;
      }
      if parcels[i].status == HandedOver || status == Delivered {
        return Some(Conflict);
      }
      parcels := parcels[i := parcels[i].(status := CalledOff)];
      var remaining := RederiveAfterUnshipping();
      events := events + [OrderUnshipped(parcels[i].id, parcels[i].lines, remaining)];
      return None;
    }

    method CancelParcel(id: int) returns (refused: Option<Refusal>)
      modifies this
      ensures Answers(old(B()), Cancel(old(B()), id), refused, B())
    {
      var i := FindParcel(id);
      if i == |parcels| {
        return Some(NotFound);
      }
      refused := CancelLocked(i);
    }

    method CountUndelivered() returns (n: nat)
      ensures n == 0 <==> !SomeOnItsWay(parcels)
    {
      n := 0;
      for i := 0 to |parcels|
        invariant n == 0 <==> forall j :: 0 <= j < i ==> parcels[j].status != OnItsWay
      {
        if parcels[i].status == OnItsWay {
          n := n + 1;
        }
      }
    }

    method TrackParcel(id: int, u: Tracking, at: Option<int>, now: int) returns (refused: Option<Refusal>)
      modifies this
      ensures Answers(old(B()), Track(old(B()), id, u, at, now), refused, B())
    {
      if u == NoSuchStatus {
        return Some(Validation);
      }
      var i := FindParcel(id);
      if i == |parcels| {
        return Some(NotFound);
      }
      var p := parcels[i];
      if p.status != OnItsWay || p.tracked == Some(Returned) || p.tracked == Some(u) {
        return None;
      }
      if at.Some? && p.trackedAt.Some? && at.value < p.trackedAt.value {
        return None;
      }
      if u == CancelledByCarrier {
        refused := CancelLocked(i);
        return;
      }
      var stamp := if at.Some? then at.value else now;
      parcels := parcels[i := p.(status := if u == HasArrived then HandedOver else p.status,
                                 tracked := Some(u), trackedAt := Some(stamp))];
      if u == HasArrived && status == Shipped {
        var undelivered := CountUndelivered();
        if undelivered == 0 {
          status := Delivered;
          events := events + [OrderDelivered(id)];
          return None;
        }
      }
      events := events + [ShipmentUpdated(id, u)];
      return None;
    }
  }
}
