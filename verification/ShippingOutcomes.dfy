/**
  What each shipping call does to an order, said on its lines, parcels and status (core/fulfillment.go):
  exactly when it is refused, and what it leaves when it is not. Shipping says how a call goes about it
  and what it keeps; here is what whoever made it can count on.
*/
module ShippingOutcomes {
  import opened Basics
  import opened Shipping

  /** What line i still has to go out. */
  function Left(b: Book, i: nat): int
    requires i < |b.lines|
  {
    b.lines[i].quantity - Out(b.parcels, b.lines[i].id)
  }

  // ------------------------------------------------------------------ booking a parcel

  lemma QtyOfOneMore(ship: seq<ShipLine>, last: ShipLine, id: int)
    ensures Qty(ship + [last], id) == Qty(ship, id) + if last.line == id then last.quantity else 0
  {
    assert (ship + [last])[..|ship|] == ship;
  }

  /** What the first n lines owe, seen from line i. */
  function LeftIfBefore(b: Book, n: nat, i: nat): int
    requires i < |b.lines|
  {
    if i < n then Left(b, i) else 0
  }

  lemma {:induction false} OwedUpToIsLeft(b: Book, n: nat, i: nat)
    requires LinesOk(b.lines) && Within(b.lines, b.parcels) && n <= |b.lines| && i < |b.lines|
    ensures Qty(OwedUpTo(b.lines, b.parcels, n), b.lines[i].id) == LeftIfBefore(b, n, i)
    decreases n
  {
    if n > 0 {
      OwedUpToIsLeft(b, n - 1, i);
      QtyOfOneMore(OwedUpTo(b.lines, b.parcels, n - 1), ShipLine(b.lines[n - 1].id, Left(b, n - 1)), b.lines[i].id);
      assert b.lines[n - 1].id == b.lines[i].id ==> i == n - 1;
      hide Qty;
      hide Out;
    }
  }

  /**
    Asked for nothing in particular, a booking is for every unit of every line that has not gone out;
    it is refused only when there is none.
  */
  lemma EmptyRequestIsEverythingLeft(b: Book)
    requires Valid(b)
    ensures AllOut(b.lines, b.parcels) ==> Resolved(b, []) == Refused(Conflict)
    ensures !AllOut(b.lines, b.parcels) ==> Resolved(b, []).Ok?
    ensures Resolved(b, []).Ok? ==> forall i :: 0 <= i < |b.lines| ==> Qty(Resolved(b, []).value, b.lines[i].id) == Left(b, i)
  {
    forall i | 0 <= i < |b.lines| ensures Qty(OwedUpTo(b.lines, b.parcels, |b.lines|), b.lines[i].id) == Left(b, i) {
      OwedUpToIsLeft(b, |b.lines|, i);
    }
    OwedIsPacked(b, |b.lines|);
  }

  /** One line of a request is one of the order's, with at least one unit and no more than it has left. */
  ghost predicate Fits(b: Book, s: ShipLine) {
    s.quantity >= 1 && HasLeft(b, s)
  }

  lemma {:induction false} AskNeedsALine(lines: seq<OrderLine>, id: int)
    ensures HasLine(lines, id) ==> exists i :: 0 <= i < |lines| && lines[i].id == id && Ask(lines, id) == lines[i].quantity
  {
    if lines != [] && lines[0].id != id {
      AskNeedsALine(lines[1..], id);
      if HasLine(lines, id) {
        var j :| 0 <= j < |lines| && lines[j].id == id;
        assert lines[1..][j - 1].id == id;
        var i :| 0 <= i < |lines[1..]| && lines[1..][i].id == id && Ask(lines[1..], id) == lines[1..][i].quantity;
        assert lines[i + 1] == lines[1..][i];
      }
    } else if lines != [] {
      assert lines[0].id == id;
    }
  }

  lemma FitsIsAskable(b: Book, want: seq<ShipLine>, k: nat)
    requires Valid(b) && k < |want|
    ensures Askable(b, want, k) <==> Fits(b, want[k]) && forall j :: 0 <= j < k ==> want[j].line != want[k].line
  {
    if HasLine(b.lines, want[k].line) {
      var i :| 0 <= i < |b.lines| && b.lines[i].id == want[k].line;
      AskIsTheLine(b.lines, i);
    }
    hide Out;
    hide Ask;
    hide Within;
    hide StatusOk;
    hide ParcelsOk;
  }

  /** A request that names lines is taken exactly as it stands, or refused: never filled up, never cut. */
  lemma RequestIsTakenAsAsked(b: Book, want: seq<ShipLine>)
    requires Valid(b) && want != []
    ensures var good := (forall k :: 0 <= k < |want| ==> Fits(b, want[k]))
        && forall j, k :: 0 <= j < k < |want| ==> want[j].line != want[k].line;
      Resolved(b, want) == if good then Ok(want) else Refused(Validation)
  {
    forall k | 0 <= k < |want|
      ensures Askable(b, want, k) <==> Fits(b, want[k]) && forall j :: 0 <= j < k ==> want[j].line != want[k].line
    {
      FitsIsAskable(b, want, k);
    }
    hide Askable;
    hide Fits;
    hide Valid;
  }

  /** A booking starts on a confirmed or partly shipped order, and on no other. */
  lemma BookingNeedsAnOpenOrder(b: Book, want: seq<ShipLine>)
    ensures b.status == Confirmed || b.status == Partial ==> Begin(b, want) == Resolved(b, want)
    ensures b.status != Confirmed && b.status != Partial ==> Begin(b, want) == Refused(Conflict)
  {
  }

  /** The units an order has left, over all its lines. */
  function LeftUpTo(b: Book, n: nat): int
    requires n <= |b.lines|
  {
    if n == 0 then 0 else LeftUpTo(b, n - 1) + Left(b, n - 1)
  }

  lemma {:induction false} TotalsAreLeft(b: Book, n: nat)
    requires n <= |b.lines|
    ensures LeftUpTo(b, n) == OrderedUpTo(b.lines, n) - ShippedUpTo(b.lines, b.parcels, n)
  {
    if n > 0 {
      TotalsAreLeft(b, n - 1);
    }
  }

  /** What is announced as still owed is what the lines have left, one by one. */
  lemma RemainingIsWhatIsLeft(b: Book)
    requires Within(b.lines, b.parcels)
    ensures Remaining(b.lines, b.parcels) == LeftUpTo(b, |b.lines|) >= 0
  {
    TotalsAreLeft(b, |b.lines|);
    TotalsDecideLines(b.lines, b.parcels, |b.lines|);
  }

  /** What was packed still fits the order under its lock. */
  ghost predicate StillLeft(b: Book, ship: seq<ShipLine>) { forall k :: 0 <= k < |ship| ==> HasLeft(b, ship[k]) }

  ghost predicate HasLeft(b: Book, s: ShipLine) { exists i :: 0 <= i < |b.lines| && b.lines[i].id == s.line && s.quantity <= Left(b, i) }

  lemma StillLeftIsStillFits(b: Book, ship: seq<ShipLine>)
    requires Valid(b)
    ensures StillFits(b, ship) <==> StillLeft(b, ship)
  {
    forall k | 0 <= k < |ship|
      ensures HasLine(b.lines, ship[k].line) && ship[k].quantity <= Ask(b.lines, ship[k].line) - Out(b.parcels, ship[k].line) <==>
        HasLeft(b, ship[k])
    {
      if HasLine(b.lines, ship[k].line) {
        var i :| 0 <= i < |b.lines| && b.lines[i].id == ship[k].line;
        AskIsTheLine(b.lines, i);
      }
    }
    hide HasLeft;
    hide Out;
    hide Ask;
  }

  /**
    The parcel is recorded exactly when the order is still open and every line still has that much
    left: as the carrier was told it, on its way, under the next number, announced with what is left.
  */
  lemma RecordingIsExact(b: Book, ship: seq<ShipLine>, slip: nat)
    requires Valid(b) && Packed(b.lines, ship)
    ensures var open := b.status == Confirmed || b.status == Partial;
      if !(open && StillLeft(b, ship)) then Commit(b, ship, slip) == Refused(Conflict) else
      && Commit(b, ship, slip).Ok?
      && var c := Commit(b, ship, slip).value;
         && c.lines == b.lines && c.nextId == b.nextId + 1
         && c.parcels == b.parcels + [Parcel(b.nextId, slip, OnItsWay, None, None, ship)]
         && c.events == b.events + [OrderShipped(b.nextId, ship, LeftUpTo(c, |c.lines|))]
         && c.status == Exact(c.lines, c.parcels)
  {
    StillLeftIsStillFits(b, ship);
    hide StillLeft;
    hide StillFits;
    if Commit(b, ship, slip).Ok? {
      CommitKeepsValid(b, ship, slip);
      RemainingIsWhatIsLeft(Commit(b, ship, slip).value);
      hide Exact;
      hide Remaining;
      hide Derived;
      hide LeftUpTo;
      hide NoneLive;
      hide Packed;
    }
  }

  /** Booking the rest and recording it at once completes the order: everything out, nothing owed. */
  lemma ShippingTheRestCompletes(b: Book, slip: nat)
    requires Valid(b) && Begin(b, []).Ok?
    ensures Commit(b, Begin(b, []).value, slip).Ok?
    ensures var c := Commit(b, Begin(b, []).value, slip).value;
      AllOut(c.lines, c.parcels) && c.status == Shipped && LeftUpTo(c, |c.lines|) == 0
  {
    var ship := Begin(b, []).value;
    EmptyRequestIsEverythingLeft(b);
    ResolvedIsPacked(b, []);
    hide Resolved;
    var c := Commit(b, ship, slip).value;
    CommitKeepsValid(b, ship, slip);
    var p := Parcel(b.nextId, slip, OnItsWay, None, None, ship);
    assert c.parcels == b.parcels + [p];
    forall i | 0 <= i < |b.lines| ensures Out(c.parcels, b.lines[i].id) == b.lines[i].quantity {
      OutAdded(b.parcels, p, b.lines[i].id);
    }
    assert c.parcels[|b.parcels|] == p;
    assert SomeOnItsWay(c.parcels);
    assert AllOut(c.lines, c.parcels);
    var l := LiveParcelShows(c, |b.parcels|);
    hide Commit;
    hide Out;
    NothingLeft(c, |c.lines|);
  }

  lemma {:induction false} NothingLeft(b: Book, n: nat)
    requires n <= |b.lines| && AllOut(b.lines, b.parcels)
    ensures LeftUpTo(b, n) == 0
  {
    if n > 0 {
      NothingLeft(b, n - 1);
    }
  }

  // ------------------------------------------------------------------ after the booking

  /** The parcel with this number stands at i. */
  ghost predicate StandsAt(b: Book, id: int, i: int) { 0 <= i < |b.parcels| && b.parcels[i].id == id }

  lemma FoundWhereItStands(b: Book, id: int)
    requires Valid(b)
    ensures forall i :: StandsAt(b, id, i) ==> ParcelAt(b.parcels, id) == i
    ensures ParcelAt(b.parcels, id) < |b.parcels| <==> exists i :: StandsAt(b, id, i)
  {
    if ParcelAt(b.parcels, id) < |b.parcels| {
      assert StandsAt(b, id, ParcelAt(b.parcels, id));
    }
  }

  /**
    Deleting a parcel: refused if it is not there or the order is delivered, and else the parcel goes and
    no other; its units are announced as owed again unless they had been when it was cancelled.
  */
  lemma DeletionIsExact(b: Book, id: int)
    requires Valid(b)
    ensures (forall i :: !StandsAt(b, id, i)) ==> Delete(b, id) == Refused(NotFound)
    ensures forall i :: StandsAt(b, id, i) && b.status == Delivered ==> Delete(b, id) == Refused(Conflict)
    ensures forall i :: StandsAt(b, id, i) && b.status != Delivered ==> Delete(b, id).Ok? && Deleted(b, i, Delete(b, id).value)
  {
    FoundWhereItStands(b, id);
    forall i | StandsAt(b, id, i) && b.status != Delivered ensures Delete(b, id).Ok? && Deleted(b, i, Delete(b, id).value) {
      var c := Delete(b, id).value;
      DeleteKeepsValid(b, id);
      RemainingIsWhatIsLeft(c);
      StatusOfValid(c);
      hide Valid;
      hide Remaining;
      hide Out;
      hide LeftUpTo;
      hide Derived;
    }
  }

  ghost predicate Deleted(b: Book, i: nat, c: Book)
    requires i < |b.parcels|
  {
    && c.lines == b.lines && c.nextId == b.nextId && c.parcels == b.parcels[..i] + b.parcels[i + 1..]
    && Follows(b, c)
    && c.events == b.events + Unshipped(b.parcels[i], c)
  }

  /** A parcel that was still counting is announced with what is then left; a cancelled one was already. */
  ghost function Unshipped(p: Parcel, c: Book): seq<Event> {
    if p.status == CalledOff then [] else [OrderUnshipped(p.id, p.lines, LeftUpTo(c, |c.lines|))]
  }

  /** A pending or cancelled order stays so; any other says what its parcels say. */
  ghost predicate Follows(b: Book, c: Book) {
    if b.status == Pending || b.status == Cancelled then c.status == b.status else c.status == Exact(c.lines, c.parcels)
  }

  lemma StatusOfValid(c: Book)
    requires Valid(c)
    ensures c.status != Pending && c.status != Cancelled ==> c.status == Exact(c.lines, c.parcels)
  {
  }

  ghost predicate WithParcelOff(b: Book, i: nat, c: Book)
    requires i < |b.parcels|
  {
    && Replaced(b, i, b.parcels[i].(status := CalledOff), c) && Follows(b, c)
    && c.events == b.events + Unshipped(b.parcels[i], c)
  }

  /** Calling a parcel off: refused once it or the order is delivered, nothing new the second time. */
  lemma CallingOffIsExact(b: Book, id: int)
    requires Valid(b)
    ensures (forall i :: !StandsAt(b, id, i)) ==> Cancel(b, id) == Refused(NotFound)
    ensures forall i :: StandsAt(b, id, i) ==>
      match b.parcels[i].status
      case CalledOff => Cancel(b, id) == Ok(b)
      case HandedOver => Cancel(b, id) == Refused(Conflict)
      case OnItsWay =>
        if b.status == Delivered then Cancel(b, id) == Refused(Conflict)
        else Cancel(b, id).Ok? && WithParcelOff(b, i, Cancel(b, id).value)
  {
    FoundWhereItStands(b, id);
    forall i | StandsAt(b, id, i) && b.parcels[i].status == OnItsWay && b.status != Delivered
      ensures Cancel(b, id).Ok? && WithParcelOff(b, i, Cancel(b, id).value)
    {
      CallOffKeepsValid(b, i);
      RemainingIsWhatIsLeft(Cancel(b, id).value);
      StatusOfValid(Cancel(b, id).value);
      hide Valid;
      hide Remaining;
      hide Out;
      hide LeftUpTo;
      hide Derived;
    }
  }

  /** Parcel i is now p, and no other parcel, line or number has changed. */
  ghost predicate Replaced(b: Book, i: nat, p: Parcel, c: Book)
    requires i < |b.parcels|
  {
    c.lines == b.lines && c.nextId == b.nextId && c.parcels == b.parcels[i := p]
  }

  /** A report is news to a parcel on its way, not back at the store, not told it last, and told nothing later. */
  predicate IsNews(p: Parcel, u: Tracking, at: Option<int>) {
    && p.status == OnItsWay && p.tracked != Some(Returned) && p.tracked != Some(u)
    && (at.None? || p.trackedAt.None? || p.trackedAt.value <= at.value)
  }

  /** The last parcel on its way: every other one is delivered or called off. */
  ghost predicate IsLastOut(b: Book, i: nat) {
    forall j :: 0 <= j < |b.parcels| && j != i ==> b.parcels[j].status != OnItsWay
  }

  /** The book once parcel i was told u, at its own time or else now. */
  ghost predicate Told(b: Book, i: nat, u: Tracking, at: Option<int>, now: int, c: Book)
    requires i < |b.parcels|
  {
    var was := b.parcels[i];
    var p := Parcel(was.id, was.slip, if u == HasArrived then HandedOver else OnItsWay, Some(u),
                    if at.Some? then at else Some(now), was.lines);
    var completes := u == HasArrived && b.status == Shipped && IsLastOut(b, i);
    && Replaced(b, i, p, c)
    && c.status == (if completes then Delivered else b.status)
    && c.events == b.events + [if completes then OrderDelivered(was.id) else ShipmentUpdated(was.id, u)]
  }

  lemma NewsIsTold(b: Book, i: nat, u: Tracking, at: Option<int>, now: int)
    requires Valid(b) && i < |b.parcels| && IsNews(b.parcels[i], u, at) && u != NoSuchStatus && u != CancelledByCarrier
    ensures var r := Track(b, b.parcels[i].id, u, at, now); r.Ok? && Told(b, i, u, at, now, r.value)
  {
    FoundWhereItStands(b, b.parcels[i].id);
    assert StandsAt(b, b.parcels[i].id, i);
    hide Valid;
    var c := Track(b, b.parcels[i].id, u, at, now).value;
    assert c.parcels[i].status == if u == HasArrived then HandedOver else OnItsWay;
    assert forall j :: 0 <= j < |b.parcels| && j != i ==> c.parcels[j] == b.parcels[j];
    if u == HasArrived {
      assert SomeOnItsWay(c.parcels) <==> !IsLastOut(b, i);
    }
    hide SomeOnItsWay;
    hide IsLastOut;
  }

  /**
    What a carrier's report does. One that is no news changes nothing; a cancellation is a calling off;
    any other is written on the parcel with its time, and hands the parcel over if it says so. The order
    is delivered, and that announced, exactly when it had shipped in full and this was the last parcel out;
    otherwise the report itself is announced.
  */
  lemma ReportIsExact(b: Book, id: int, u: Tracking, at: Option<int>, now: int)
    requires Valid(b)
    ensures u == NoSuchStatus ==> Track(b, id, u, at, now) == Refused(Validation)
    ensures u != NoSuchStatus && (forall i :: !StandsAt(b, id, i)) ==> Track(b, id, u, at, now) == Refused(NotFound)
    ensures forall i :: u != NoSuchStatus && StandsAt(b, id, i) ==>
      if !IsNews(b.parcels[i], u, at) then Track(b, id, u, at, now) == Ok(b)
      else if u == CancelledByCarrier then Track(b, id, u, at, now) == Cancel(b, id)
      else Track(b, id, u, at, now).Ok? && Told(b, i, u, at, now, Track(b, id, u, at, now).value)
  {
    FoundWhereItStands(b, id);
    forall i | u != NoSuchStatus && StandsAt(b, id, i) && IsNews(b.parcels[i], u, at) && u != CancelledByCarrier
      ensures Track(b, id, u, at, now).Ok? && Told(b, i, u, at, now, Track(b, id, u, at, now).value)
    {
      NewsIsTold(b, i, u, at, now);
    }
    hide Valid;
    hide Told;
  }

  /** An order can be called off while it is pending or confirmed and nothing has come back; once is enough. */
  lemma CancellingTheOrderIsExact(b: Book, returned: bool)
    ensures b.status == Cancelled ==> CancelOrder(b, returned) == Ok(b)
    ensures b.status in {Shipped, Partial, Delivered} ==> CancelOrder(b, returned) == Refused(Conflict)
    ensures b.status in {Pending, Confirmed} ==>
      CancelOrder(b, returned) == if returned then Refused(Conflict) else Ok(Book(b.lines, Cancelled, b.parcels, b.nextId, b.events))
  {
  }
}
