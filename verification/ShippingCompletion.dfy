/**
  That an order can always be brought to its end (core/fulfillment.go): whatever bookings, reports, deletions
  and cancellations have come before, there are calls that deliver it, unless the order itself was called off.
*/
module ShippingCompletion {
  import opened Basics
  import opened Shipping
  import opened ShippingRuns
  import opened ShippingOutcomes

  lemma OneMore(lines: seq<OrderLine>, steps: seq<Step>, step: Step)
    ensures After(lines, steps + [step]) == Next(After(lines, steps), step)
  {
    assert (steps + [step])[..|steps|] == steps;
    hide Next;
  }

  predicate Unfinished(b: Book) { b.status != Delivered && b.status != Cancelled }

  /** Deleting a parcel that is on its way leaves some line short, so the order is not finished by it. */
  lemma WithdrawOne(b: Book, i: nat)
    requires Valid(b) && Unfinished(b) && i < |b.parcels| && b.parcels[i].status == OnItsWay
    ensures var r := Delete(b, b.parcels[i].id); r.Ok? && Unfinished(r.value) && |r.value.parcels| < |b.parcels|
  {
    assert StandsAt(b, b.parcels[i].id, i);
    DeletionIsExact(b, b.parcels[i].id);
    var c := Delete(b, b.parcels[i].id).value;
    assert Deleted(b, i, c);
    hide Delete;
    var l := LiveParcelShows(b, i);
    OutSplit(b.parcels, i, b.lines[l].id);
    assert c.parcels == Removed(b.parcels, i);
    assert Out(c.parcels, b.lines[l].id) < b.lines[l].quantity;
    assert !AllOut(c.lines, c.parcels);
    hide Valid;
    hide Out;
  }

  lemma WithdrawNext(s: System) returns (step: Step)
    requires Inv(s) && Unfinished(s.book) && SomeOnItsWay(s.book.parcels)
    ensures var t := Next(s, step);
      Unfinished(t.book) && |t.book.parcels| < |s.book.parcels| && t.bookings == s.bookings
  {
    hide Valid;
    hide Unfinished;
    hide Begin;
    hide Commit;
    hide Track;
    hide Cancel;
    hide Delete;
    hide CancelOrder;
    hide BookingsOk;
    hide ParcelsMatchSlips;
    var i :| 0 <= i < |s.book.parcels| && s.book.parcels[i].status == OnItsWay;
    step := DeleteParcel(s.book.parcels[i].id);
    WithdrawOne(s.book, i);
  }

  /** Every parcel still on its way can be taken back, one by one. */
  lemma {:induction false} Withdraw(lines: seq<OrderLine>, steps: seq<Step>) returns (done: seq<Step>)
    requires LinesOk(lines) && Unfinished(After(lines, steps).book)
    ensures steps <= done && Unfinished(After(lines, done).book) && After(lines, done).bookings == After(lines, steps).bookings
    ensures !SomeOnItsWay(After(lines, done).book.parcels)
    decreases |After(lines, steps).book.parcels|
  {
    hide *;
    done := steps;
    if SomeOnItsWay(After(lines, steps).book.parcels) {
      EveryRunKeepsTheBook(lines, steps);
      var step := WithdrawNext(After(lines, steps));
      OneMore(lines, steps, step);
      done := Withdraw(lines, steps + [step]);
    }
  }

  /** With nothing on its way, what is left can be booked, and the order is delivered when that arrives. */
  lemma TheRestArrives(b: Book, slip: nat)
    requires Valid(b) && b.lines != [] && (b.status == Confirmed || b.status == Partial) && !SomeOnItsWay(b.parcels)
    ensures Begin(b, []).Ok? && Commit(b, Begin(b, []).value, slip).Ok?
    ensures var r := Track(Commit(b, Begin(b, []).value, slip).value, b.nextId, HasArrived, None, 0);
      r.Ok? && r.value.status == Delivered
  {
    SomethingIsLeft(b);
    var ship := Begin(b, []).value;
    ResolvedIsPacked(b, []);
    ShippingTheRestCompletes(b, slip);
    RecordingIsExact(b, ship, slip);
    CommitKeepsValid(b, ship, slip);
    hide Begin;
    hide Resolved;
    hide Packed;
    var c, n := Commit(b, ship, slip).value, |b.parcels|;
    hide Commit;
    assert c.parcels[n].id == b.nextId && StandsAt(c, b.nextId, n);
    LastOut(b, c);
    hide Valid;
    hide IsLastOut;
    hide StillLeft;
    hide Exact;
    hide LeftUpTo;
    ReportIsExact(c, b.nextId, HasArrived, None, 0);
    hide Track;
  }

  /** What three undisturbed steps of a booking come to. */
  lemma BookedAtOnce(s: System, b: nat)
    requires b !in s.bookings && Begin(s.book, []).Ok? && Commit(s.book, Begin(s.book, []).value, |s.slips|).Ok?
    ensures Next(Next(Next(s, BeginBooking(b, [])), CallCarrier(b)), RecordParcel(b)).book ==
      Commit(s.book, Begin(s.book, []).value, |s.slips|).value
  {
    hide Begin;
    hide Commit;
    var ship := Begin(s.book, []).value;
    var packing := s.(bookings := s.bookings[b := Packing(ship)]);
    assert Next(s, BeginBooking(b, [])) == packing;
    assert Next(packing, CallCarrier(b)) == System(s.book, s.slips + [ship], packing.bookings[b := Labelled(|s.slips|)]);
  }

  lemma SomethingIsLeft(b: Book)
    requires Valid(b) && b.lines != [] && (b.status == Confirmed || b.status == Partial)
    ensures Begin(b, []).Ok?
  {
    EmptyRequestIsEverythingLeft(b);
    assert NothingOut(b.lines, b.parcels) ==> Out(b.parcels, b.lines[0].id) == 0 < b.lines[0].quantity;
    hide Resolved;
    hide Out;
  }

  lemma LastOut(b: Book, c: Book)
    requires !SomeOnItsWay(b.parcels) && |c.parcels| == |b.parcels| + 1 && c.parcels[..|b.parcels|] == b.parcels
    ensures IsLastOut(c, |b.parcels|)
  {
    forall j | 0 <= j < |b.parcels| ensures c.parcels[j].status != OnItsWay {
      assert c.parcels[j] == c.parcels[..|b.parcels|][j];
    }
  }

  /** The order after a call that gave this answer. */
  function AfterCall(b: Book, r: Result<Book>): Book { match r case Ok(c) => c case Refused(_) => b }

  /** In a run every call is the call itself: what it accepts becomes the order, and what it refuses changes nothing. */
  lemma CallsTakeEffect(s: System, id: int, u: Tracking, at: Option<int>, now: int, returned: bool)
    ensures Next(s, Report(id, u, at, now)) == System(AfterCall(s.book, Track(s.book, id, u, at, now)), s.slips, s.bookings)
    ensures Next(s, CancelParcel(id)) == System(AfterCall(s.book, Cancel(s.book, id)), s.slips, s.bookings)
    ensures Next(s, DeleteParcel(id)) == System(AfterCall(s.book, Delete(s.book, id)), s.slips, s.bookings)
    ensures Next(s, CancelTheOrder(returned)) == System(AfterCall(s.book, CancelOrder(s.book, returned)), s.slips, s.bookings)
  {
    hide Track;
    hide Cancel;
    hide Delete;
    hide CancelOrder;
  }

  /** Booked, labelled, recorded and reported: an order with nothing on its way is delivered. */
  lemma Deliver(lines: seq<OrderLine>, steps: seq<Step>, b: nat) returns (done: seq<Step>)
    requires LinesOk(lines) && lines != [] && b !in After(lines, steps).bookings
    requires After(lines, steps).book.status == Confirmed || After(lines, steps).book.status == Partial
    requires !SomeOnItsWay(After(lines, steps).book.parcels)
    ensures steps <= done && After(lines, done).book.status == Delivered
  {
    var s := After(lines, steps);
    EveryRunKeepsTheBook(lines, steps);
    assert Valid(s.book);
    hide *;
    TheRestArrives(s.book, |s.slips|);
    BookedAtOnce(s, b);
    var one := steps + [BeginBooking(b, [])];
    OneMore(lines, steps, BeginBooking(b, []));
    var two := one + [CallCarrier(b)];
    OneMore(lines, one, CallCarrier(b));
    var three := two + [RecordParcel(b)];
    OneMore(lines, two, RecordParcel(b));
    CallsTakeEffect(After(lines, three), s.book.nextId, HasArrived, None, 0, false);
    done := three + [Report(s.book.nextId, HasArrived, None, 0)];
    OneMore(lines, three, Report(s.book.nextId, HasArrived, None, 0));
  }

  lemma ReadyToBook(lines: seq<OrderLine>, steps: seq<Step>) returns (done: seq<Step>)
    requires LinesOk(lines) && Unfinished(After(lines, steps).book) && !SomeOnItsWay(After(lines, steps).book.parcels)
    ensures steps <= done && !SomeOnItsWay(After(lines, done).book.parcels) && After(lines, done).bookings == After(lines, steps).bookings
    ensures After(lines, done).book.status == Confirmed || After(lines, done).book.status == Partial
  {
    done := steps;
    EveryRunKeepsTheBook(lines, steps);
    NotShippedWithNothingOut(After(lines, steps).book);
    hide After;
    hide Inv;
    hide SomeOnItsWay;
    if After(lines, steps).book.status == Pending {
      OneMore(lines, steps, ConfirmOrder);
      done := steps + [ConfirmOrder];
    }
  }

  /**
    Whatever has happened to an order that was not called off, it can still be delivered in full: take back what
    is on its way, book all that is left, and let it arrive.
  */
  lemma EveryOrderCanBeDelivered(lines: seq<OrderLine>, steps: seq<Step>, b: nat) returns (done: seq<Step>)
    requires LinesOk(lines) && lines != [] && After(lines, steps).book.status != Cancelled && b !in After(lines, steps).bookings
    ensures steps <= done && After(lines, done).book.status == Delivered && AllOut(lines, After(lines, done).book.parcels)
  {
    done := steps;
    if After(lines, steps).book.status != Delivered {
      var withdrawn := Withdraw(lines, steps);
      var ready := ReadyToBook(lines, withdrawn);
      done := Deliver(lines, ready, b);
    }
    StatusMeans(lines, done);
    hide After;
    hide AllOut;
    hide NothingOut;
    hide Within;
  }

  lemma NotShippedWithNothingOut(b: Book)
    requires Valid(b) && !SomeOnItsWay(b.parcels)
    ensures b.status != Shipped
  {
  }
}
