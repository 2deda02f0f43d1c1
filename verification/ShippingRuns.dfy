/**
  Any interleaving of bookings, carrier reports, cancellations and deletions on one order. A
  booking is three steps - what goes in is resolved against a read of the order, the carrier makes
  a slip for exactly that, the order is checked again under its lock - and others may act between.
*/
module ShippingRuns {
  import opened Basics
  import opened Shipping

  /** Labelled: the carrier has made a slip. Stranded: it has, and the recheck refused the parcel. */
  datatype Booking = Packing(lines: seq<ShipLine>) | Labelled(slip: nat) | Recorded(slip: nat) | Stranded(slip: nat)

  /** slips is everything any carrier was ever told, in order. */
  datatype System = System(book: Book, slips: seq<seq<ShipLine>>, bookings: map<nat, Booking>)

  datatype Step =
    | BeginBooking(booking: nat, want: seq<ShipLine>)
    | CallCarrier(booking: nat)
    | RecordParcel(booking: nat)
    | Report(parcel: int, tracking: Tracking, at: Option<int>, now: int)
    | CancelParcel(parcel: int)
    | DeleteParcel(parcel: int)
    | CancelTheOrder(returned: bool)
    | ConfirmOrder

  function WithBook(s: System, r: Result<Book>): System {
    if r.Ok? then s.(book := r.value) else s
  }

  /** One step; a refused one changes nothing, except that a refused parcel leaves its slip behind. */
  function Next(s: System, step: Step): System {
    match step
    case BeginBooking(b, want) =>
      var r := Begin(s.book, want);
      if b in s.bookings || r.Refused? then s else s.(bookings := s.bookings[b := Packing(r.value)])
    case CallCarrier(b) =>
      if b !in s.bookings || !s.bookings[b].Packing? then s else
      System(s.book, s.slips + [s.bookings[b].lines], s.bookings[b := Labelled(|s.slips|)])
    case RecordParcel(b) =>
      if b !in s.bookings || !s.bookings[b].Labelled? || s.bookings[b].slip >= |s.slips| then s else
      var slip := s.bookings[b].slip;
      var r := Commit(s.book, s.slips[slip], slip);
      if r.Ok? then System(r.value, s.slips, s.bookings[b := Recorded(slip)])
      else s.(bookings := s.bookings[b := Stranded(slip)])
    case Report(id, u, at, now) => WithBook(s, Track(s.book, id, u, at, now))
    case CancelParcel(id) => WithBook(s, Cancel(s.book, id))
    case DeleteParcel(id) => WithBook(s, Delete(s.book, id))
    case CancelTheOrder(returned) => WithBook(s, CancelOrder(s.book, returned))
    case ConfirmOrder => if s.book.status == Pending then s.(book := s.book.(status := Confirmed)) else s
  }

  function Start(lines: seq<OrderLine>): System { System(Book(lines, Pending, [], 1, []), [], map[]) }

  function After(lines: seq<OrderLine>, steps: seq<Step>): System {
    if steps == [] then Start(lines) else Next(After(lines, steps[..|steps| - 1]), steps[|steps| - 1])
  }

  // ------------------------------------------------------------------ slips and parcels

  predicate HasSlip(k: Booking) { !k.Packing? }

  ghost predicate BookingsOk(s: System) {
    && (forall b :: b in s.bookings && s.bookings[b].Packing? ==> Packed(s.book.lines, s.bookings[b].lines))
    && (forall b :: b in s.bookings && HasSlip(s.bookings[b]) ==> s.bookings[b].slip < |s.slips|)
    && (forall b, c :: b in s.bookings && c in s.bookings && b != c && HasSlip(s.bookings[b]) && HasSlip(s.bookings[c]) ==>
          s.bookings[b].slip != s.bookings[c].slip)
    && forall k :: 0 <= k < |s.slips| ==> Packed(s.book.lines, s.slips[k])
  }

  ghost predicate RecordedBy(s: System, slip: nat) {
    exists b :: b in s.bookings && s.bookings[b] == Recorded(slip)
  }

  /** Each parcel holds exactly what its carrier was told, and no slip is behind two parcels. */
  ghost predicate ParcelsMatchSlips(s: System) {
    && (forall i :: 0 <= i < |s.book.parcels| ==>
          var p := s.book.parcels[i]; p.slip < |s.slips| && p.lines == s.slips[p.slip] && RecordedBy(s, p.slip))
    && forall i, j :: 0 <= i < j < |s.book.parcels| ==> s.book.parcels[i].slip != s.book.parcels[j].slip
  }

  ghost predicate Inv(s: System) { Valid(s.book) && BookingsOk(s) && ParcelsMatchSlips(s) }

  lemma BeginKeeps(s: System, b: nat, want: seq<ShipLine>)
    requires Inv(s)
    ensures Inv(Next(s, BeginBooking(b, want)))
  {
    var r := Begin(s.book, want);
    if b !in s.bookings && r.Ok? {
      ResolvedIsPacked(s.book, want);
      assert r.value == Resolved(s.book, want).value;
      hide Valid;
      hide Packed;
      hide Resolved;
      hide StillFits;
      var t := Next(s, BeginBooking(b, want));
      SameRecords(s, t);
    }
  }

  /** Parcels go on matching their slips while bookings advance and slips are added. */
  lemma SameRecords(s: System, t: System)
    requires ParcelsMatchSlips(s) && t.book == s.book && s.slips <= t.slips
    requires forall b :: b in s.bookings && s.bookings[b].Recorded? ==> b in t.bookings && t.bookings[b] == s.bookings[b]
    ensures ParcelsMatchSlips(t)
  {
    forall i | 0 <= i < |s.book.parcels| ensures RecordedBy(t, s.book.parcels[i].slip) {
      assert RecordedBy(s, s.book.parcels[i].slip);
      var b :| b in s.bookings && s.bookings[b] == Recorded(s.book.parcels[i].slip);
      assert t.bookings[b] == s.bookings[b];
    }
  }

  lemma CarrierKeeps(s: System, b: nat)
    requires Inv(s)
    ensures Inv(Next(s, CallCarrier(b)))
  {
    var t := Next(s, CallCarrier(b));
    hide Valid;
    hide Packed;
    if b in s.bookings && s.bookings[b].Packing? {
      SameRecords(s, t);
    }
  }

  lemma RecordKeeps(s: System, b: nat)
    requires Inv(s)
    ensures Inv(Next(s, RecordParcel(b)))
  {
    if b in s.bookings && s.bookings[b].Labelled? {
      var slip := s.bookings[b].slip;
      var t := Next(s, RecordParcel(b));
      hide Valid;
      hide Packed;
      if Commit(s.book, s.slips[slip], slip).Ok? {
        CommitKeepsValid(s.book, s.slips[slip], slip);
        hide Commit;
        FreshSlip(s, b);
        RecordedMatches(s, t, b);
        hide BookingsOk;
        hide ParcelsMatchSlips;
      } else {
        hide Commit;
        SameRecords(s, t);
        hide BookingsOk;
        hide ParcelsMatchSlips;
      }
    }
  }

  /** A slip still waiting to be recorded is behind no parcel. */
  lemma FreshSlip(s: System, b: nat)
    requires Inv(s) && b in s.bookings && s.bookings[b].Labelled?
    ensures forall i :: 0 <= i < |s.book.parcels| ==> s.book.parcels[i].slip != s.bookings[b].slip
  {
    hide Valid;
    hide Packed;
    forall i | 0 <= i < |s.book.parcels| ensures s.book.parcels[i].slip != s.bookings[b].slip {
      assert RecordedBy(s, s.book.parcels[i].slip);
      var c :| c in s.bookings && s.bookings[c] == Recorded(s.book.parcels[i].slip);
    }
  }

  lemma RecordedMatches(s: System, t: System, b: nat)
    requires BookingsOk(s) && ParcelsMatchSlips(s) && b in s.bookings && s.bookings[b].Labelled?
    requires var slip := s.bookings[b].slip;
      && t.slips == s.slips && t.bookings == s.bookings[b := Recorded(slip)]
      && |t.book.parcels| == |s.book.parcels| + 1
      && (forall i :: 0 <= i < |s.book.parcels| ==> t.book.parcels[i] == s.book.parcels[i])
      && t.book.parcels[|s.book.parcels|].slip == slip && t.book.parcels[|s.book.parcels|].lines == s.slips[slip]
      && forall i :: 0 <= i < |s.book.parcels| ==> s.book.parcels[i].slip != slip
    ensures ParcelsMatchSlips(t)
  {
    hide Packed;
    var slip := s.bookings[b].slip;
    assert t.bookings[b] == Recorded(slip);
    assert RecordedBy(t, slip);
    forall i | 0 <= i < |s.book.parcels| ensures RecordedBy(t, s.book.parcels[i].slip) {
      assert RecordedBy(s, s.book.parcels[i].slip);
      var c :| c in s.bookings && s.bookings[c] == Recorded(s.book.parcels[i].slip);
      assert c in t.bookings && t.bookings[c] == Recorded(s.book.parcels[i].slip);
    }
  }

  /** Nothing about slips and contents changes. */
  ghost predicate SameContents(a: seq<Parcel>, b: seq<Parcel>) {
    |a| == |b| && forall i :: 0 <= i < |b| ==> b[i].slip == a[i].slip && b[i].lines == a[i].lines
  }

  lemma SameContentsKeeps(s: System, c: Book)
    requires Inv(s) && Valid(c) && c.lines == s.book.lines && SameContents(s.book.parcels, c.parcels)
    ensures Inv(s.(book := c))
  {
    hide Packed;
    hide Valid;
    forall i | 0 <= i < |c.parcels| ensures RecordedBy(s.(book := c), c.parcels[i].slip) {
      assert RecordedBy(s, s.book.parcels[i].slip);
    }
  }

  lemma RemovedKeeps(s: System, c: Book, k: nat)
    requires Inv(s) && Valid(c) && c.lines == s.book.lines && k < |s.book.parcels|
    requires c.parcels == Removed(s.book.parcels, k)
    ensures Inv(s.(book := c))
  {
    hide Packed;
    hide Valid;
    var a, p := s.book.parcels, c.parcels;
    assert |p| == |a| - 1;
    assert forall i :: 0 <= i < |p| ==> p[i] == a[if i < k then i else i + 1];
    hide Removed;
    forall i | 0 <= i < |p| ensures RecordedBy(s.(book := c), p[i].slip) {
      assert RecordedBy(s, a[if i < k then i else i + 1].slip);
    }
  }

  lemma TrackContents(b: Book, id: int, u: Tracking, at: Option<int>, now: int)
    requires Track(b, id, u, at, now).Ok?
    ensures SameContents(b.parcels, Track(b, id, u, at, now).value.parcels) && Track(b, id, u, at, now).value.lines == b.lines
  {
    hide Ignored;
    hide SomeOnItsWay;
    hide Derived;
    hide Remaining;
  }

  lemma ReportKeeps(s: System, id: int, u: Tracking, at: Option<int>, now: int)
    requires Inv(s)
    ensures Inv(WithBook(s, Track(s.book, id, u, at, now)))
  {
    var r := Track(s.book, id, u, at, now);
    if r.Ok? {
      assert Valid(s.book);
      TrackKeepsValid(s.book, id, u, at, now);
      TrackContents(s.book, id, u, at, now);
      assert Inv(s.(book := r.value)) by { hide *; SameContentsKeeps(s, r.value); }
    }
    hide Inv;
    hide Track;
  }

  lemma CancelKeeps(s: System, id: int)
    requires Inv(s)
    ensures Inv(WithBook(s, Cancel(s.book, id)))
  {
    var r := Cancel(s.book, id);
    if r.Ok? {
      assert Valid(s.book);
      CancelKeepsValid(s.book, id);
      assert Inv(s.(book := r.value)) by { hide *; SameContentsKeeps(s, r.value); }
    }
    hide Inv;
    hide Cancel;
  }

  lemma CancelKeepsValid(b: Book, id: int)
    requires Valid(b) && Cancel(b, id).Ok?
    ensures var c := Cancel(b, id).value; Valid(c) && SameContents(b.parcels, c.parcels) && c.lines == b.lines
  {
    var i := ParcelAt(b.parcels, id);
    assert CallOff(b, i).Ok?;
    hide CallOff;
    hide Valid;
    hide SameContents;
    CallOffKeepsValid(b, i);
  }

  lemma DeleteContents(b: Book, id: int) returns (k: nat)
    requires Delete(b, id).Ok?
    ensures var c := Delete(b, id).value; k < |b.parcels| && c.parcels == Removed(b.parcels, k) && c.lines == b.lines
  {
    hide Removed;
    hide Derived;
    hide Remaining;
    k := ParcelAt(b.parcels, id);
  }

  lemma DeleteKeeps(s: System, id: int)
    requires Inv(s)
    ensures Inv(WithBook(s, Delete(s.book, id)))
  {
    var r := Delete(s.book, id);
    if r.Ok? {
      assert Valid(s.book);
      DeleteKeepsValid(s.book, id);
      var k := DeleteContents(s.book, id);
      assert Inv(s.(book := r.value)) by { hide *; RemovedKeeps(s, r.value, k); }
    }
    hide Inv;
    hide Delete;
  }

  lemma CancelOrderKeeps(s: System, returned: bool)
    requires Inv(s)
    ensures Inv(WithBook(s, CancelOrder(s.book, returned)))
  {
    var r := CancelOrder(s.book, returned);
    if r.Ok? {
      assert Valid(s.book);
      CancelOrderKeepsValid(s.book, returned);
      assert r.value.lines == s.book.lines && SameContents(s.book.parcels, r.value.parcels);
      assert Inv(s.(book := r.value)) by { hide *; SameContentsKeeps(s, r.value); }
    }
    hide Inv;
    hide CancelOrder;
  }

  lemma ConfirmKeeps(s: System)
    requires Inv(s) && s.book.status == Pending
    ensures Inv(s.(book := s.book.(status := Confirmed)))
  {
    var c := s.book.(status := Confirmed);
    assert Valid(s.book);
    ConfirmKeepsValid(s.book);
    assert SameContents(s.book.parcels, c.parcels);
    assert Inv(s.(book := c)) by { hide *; SameContentsKeeps(s, c); }
    hide Inv;
  }

  lemma ConfirmKeepsValid(b: Book)
    requires Valid(b) && b.status == Pending
    ensures Valid(b.(status := Confirmed))
  {
    forall i | 0 <= i < |b.lines| ensures Out(b.parcels, b.lines[i].id) == 0 {
      NoneLiveNothingOut(b.parcels, b.lines[i].id);
    }
  }

  lemma {:induction false} NoneLiveNothingOut(parcels: seq<Parcel>, id: int)
    requires NoneLive(parcels)
    ensures Out(parcels, id) == 0
  {
    if parcels != [] {
      NoneLiveNothingOut(parcels[..|parcels| - 1], id);
    }
  }

  // ------------------------------------------------------------------ every run

  lemma StepKeeps(s: System, step: Step)
    requires Inv(s)
    ensures Inv(Next(s, step)) && Next(s, step).book.lines == s.book.lines
  {
    LinesAreFixed(s, step);
    hide Inv;
    hide Track;
    hide Cancel;
    hide Delete;
    hide CancelOrder;
    hide Commit;
    hide Begin;
    match step
    case BeginBooking(b, want) => BeginKeeps(s, b, want);
    case CallCarrier(b) => CarrierKeeps(s, b);
    case RecordParcel(b) => RecordKeeps(s, b);
    case Report(id, u, at, now) => ReportKeeps(s, id, u, at, now);
    case CancelParcel(id) => CancelKeeps(s, id);
    case DeleteParcel(id) => DeleteKeeps(s, id);
    case CancelTheOrder(returned) => CancelOrderKeeps(s, returned);
    case ConfirmOrder =>
      if s.book.status == Pending { ConfirmKeeps(s); }
  }

  lemma LinesAreFixed(s: System, step: Step)
    ensures Next(s, step).book.lines == s.book.lines
  {
    hide Derived;
    hide Remaining;
    hide Removed;
    hide Resolved;
    hide StillFits;
    hide Ignored;
    hide SomeOnItsWay;
  }

  /**
    In every run of any length, however bookings interleave: no line has more units out than were
    ordered, the status is exactly what the parcels say, every parcel holds what its carrier was
    told, and no slip is behind two parcels.
  */
  lemma {:induction false} EveryRunKeepsTheBook(lines: seq<OrderLine>, steps: seq<Step>)
    requires LinesOk(lines)
    ensures Inv(After(lines, steps)) && After(lines, steps).book.lines == lines
  {
    hide Inv;
    hide Next;
    if steps == [] {
      StartIsValid(lines);
    } else {
      EveryRunKeepsTheBook(lines, steps[..|steps| - 1]);
      var s, step := After(lines, steps[..|steps| - 1]), steps[|steps| - 1];
      StepKeeps(s, step);
    }
  }

  lemma StartIsValid(lines: seq<OrderLine>)
    requires LinesOk(lines)
    ensures Inv(Start(lines))
  {
  }

  /** The status, read off a run: each value says exactly what is out and how far it got. */
  lemma StatusMeans(lines: seq<OrderLine>, steps: seq<Step>)
    requires LinesOk(lines)
    ensures var b := After(lines, steps).book;
      && Within(lines, b.parcels)
      && (b.status == Partial <==> !NothingOut(lines, b.parcels) && !AllOut(lines, b.parcels))
      && (b.status == Shipped <==> !NothingOut(lines, b.parcels) && AllOut(lines, b.parcels) && SomeOnItsWay(b.parcels))
      && (b.status == Delivered <==> !NothingOut(lines, b.parcels) && AllOut(lines, b.parcels) && !SomeOnItsWay(b.parcels))
      && (NothingOut(lines, b.parcels) <==> b.status == Confirmed || b.status == Pending || b.status == Cancelled)
  {
    EveryRunKeepsTheBook(lines, steps);
    var b := After(lines, steps).book;
    hide After;
    if b.status == Pending || b.status == Cancelled {
      forall i | 0 <= i < |lines| ensures Out(b.parcels, lines[i].id) == 0 {
        NoneLiveNothingOut(b.parcels, lines[i].id);
      }
    }
  }

  predicate Final(status: OrderStatus) { status == Delivered || status == Cancelled }

  lemma TrackKeepsFinal(b: Book, id: int, u: Tracking, at: Option<int>, now: int)
    requires Valid(b) && Final(b.status)
    ensures Track(b, id, u, at, now).Ok? ==> Track(b, id, u, at, now).value.status == b.status
  {
    if b.status == Delivered {
      assert !SomeOnItsWay(b.parcels);
    }
    hide Valid;
    hide Derived;
    hide Remaining;
  }

  lemma UnshippingKeepsFinal(b: Book, id: int)
    requires Final(b.status)
    ensures Cancel(b, id).Ok? ==> Cancel(b, id).value.status == b.status
    ensures Delete(b, id).Ok? ==> Delete(b, id).value.status == b.status
  {
    hide Derived;
    hide Remaining;
    hide Removed;
  }

  /** Delivered and cancelled are never left. */
  lemma FinalStatusesStay(s: System, step: Step)
    requires Inv(s) && (s.book.status == Delivered || s.book.status == Cancelled)
    ensures Next(s, step).book.status == s.book.status
  {
    assert Valid(s.book);
    hide Inv;
    hide Valid;
    hide Begin;
    hide StillFits;
    hide Track;
    hide Cancel;
    hide Delete;
    match step
    case Report(id, u, at, now) => TrackKeepsFinal(s.book, id, u, at, now);
    case CancelParcel(id) => UnshippingKeepsFinal(s.book, id);
    case DeleteParcel(id) => UnshippingKeepsFinal(s.book, id);
    case _ =>
  }

  /** A delivered parcel is a record: every step but its own deletion leaves it as it is. */
  lemma DeliveredParcelsStay(s: System, step: Step, i: nat)
    requires Inv(s) && i < |s.book.parcels| && s.book.parcels[i].status == HandedOver
    requires step.DeleteParcel? ==> step.parcel != s.book.parcels[i].id
    ensures s.book.parcels[i] in Next(s, step).book.parcels
  {
    hide Inv;
    hide Derived;
    hide Remaining;
    hide StillFits;
    hide Begin;
    hide Ignored;
    hide SomeOnItsWay;
    match step
    case Report(id, u, at, now) =>
      if Track(s.book, id, u, at, now).Ok? {
        TrackRespectsHistory(s.book, id, u, at, now);
        hide Track;
      }
    case DeleteParcel(id) =>
      var k := ParcelAt(s.book.parcels, id);
      if k < |s.book.parcels| {
        assert s.book.parcels[i] in Removed(s.book.parcels, k) by {
          assert Removed(s.book.parcels, k)[if i < k then i else i - 1] == s.book.parcels[i];
        }
        hide Removed;
      }
    case _ =>
      assert Next(s, step).book.parcels[i] == s.book.parcels[i];
  }

  // ------------------------------------------------------------------ what was announced

  /** Units announced as shipped, less those announced as owed again. */
  function Announced(events: seq<Event>, id: int): int {
    if events == [] then 0 else
    var e := events[|events| - 1];
    Announced(events[..|events| - 1], id)
      + if e.OrderShipped? then Qty(e.lines, id) else if e.OrderUnshipped? then -Qty(e.lines, id) else 0
  }

  ghost predicate Balanced(b: Book) { forall id :: Announced(b.events, id) == Out(b.parcels, id) }

  lemma EventAdded(events: seq<Event>, e: Event, id: int)
    ensures Announced(events + [e], id) == Announced(events, id)
      + if e.OrderShipped? then Qty(e.lines, id) else if e.OrderUnshipped? then -Qty(e.lines, id) else 0
  {
    assert (events + [e])[..|events|] == events;
  }

  lemma CommitBalances(b: Book, ship: seq<ShipLine>, slip: nat, id: int)
    requires Commit(b, ship, slip).Ok? && Announced(b.events, id) == Out(b.parcels, id)
    ensures var c := Commit(b, ship, slip).value; Announced(c.events, id) == Out(c.parcels, id)
  {
    hide Derived;
    hide Remaining;
    hide StillFits;
    var p := Parcel(b.nextId, slip, OnItsWay, None, None, ship);
    var e := OrderShipped(b.nextId, ship, Remaining(b.lines, b.parcels + [p]));
    EventAdded(b.events, e, id);
    OutAdded(b.parcels, p, id);
    hide Announced;
    hide Out;
  }

  lemma CallOffBalances(b: Book, i: nat, id: int)
    requires i < |b.parcels| && CallOff(b, i).Ok? && Announced(b.events, id) == Out(b.parcels, id)
    ensures var c := CallOff(b, i).value; Announced(c.events, id) == Out(c.parcels, id)
  {
    hide Derived;
    hide Remaining;
    if b.parcels[i].status == OnItsWay {
      var c := CallOff(b, i).value;
      EventAdded(b.events, c.events[|b.events|], id);
      OutReplaced(b.parcels, i, c.parcels[i], id);
    }
  }

  lemma DeleteBalances(b: Book, parcel: int, id: int)
    requires Delete(b, parcel).Ok? && Announced(b.events, id) == Out(b.parcels, id)
    ensures var c := Delete(b, parcel).value; Announced(c.events, id) == Out(c.parcels, id)
  {
    hide Removed;
    hide Derived;
    hide Remaining;
    var i := ParcelAt(b.parcels, parcel);
    var c := Delete(b, parcel).value;
    OutSplit(b.parcels, i, id);
    if b.parcels[i].status == CalledOff {
      assert c.events == b.events;
    } else {
      EventAdded(b.events, c.events[|b.events|], id);
    }
  }

  lemma ReportBalances(b: Book, i: nat, p: Parcel, e: Event, id: int)
    requires i < |b.parcels| && Announced(b.events, id) == Out(b.parcels, id)
    requires b.parcels[i].status == OnItsWay && p.status != CalledOff && p.lines == b.parcels[i].lines
    requires !e.OrderShipped? && !e.OrderUnshipped?
    ensures Announced(b.events + [e], id) == Out(b.parcels[i := p], id)
  {
    EventAdded(b.events, e, id);
    OutReplaced(b.parcels, i, p, id);
  }

  lemma TrackBalances(b: Book, parcel: int, u: Tracking, at: Option<int>, now: int, id: int)
    requires Track(b, parcel, u, at, now).Ok? && Announced(b.events, id) == Out(b.parcels, id)
    ensures var c := Track(b, parcel, u, at, now).value; Announced(c.events, id) == Out(c.parcels, id)
  {
    var i := ParcelAt(b.parcels, parcel);
    if !Ignored(b.parcels[i], u, at) {
      hide Announced;
      hide Out;
      hide SomeOnItsWay;
      if u == CancelledByCarrier {
        CallOffBalances(b, i, id);
      } else {
        hide CallOff;
        var c := Track(b, parcel, u, at, now).value;
        ReportBalances(b, i, c.parcels[i], c.events[|b.events|], id);
      }
    }
  }

  lemma StepBalances(s: System, step: Step, id: int)
    requires Announced(s.book.events, id) == Out(s.book.parcels, id)
    ensures var b := Next(s, step).book; Announced(b.events, id) == Out(b.parcels, id)
  {
    hide Announced;
    hide Out;
    hide Derived;
    hide Remaining;
    hide Removed;
    match step
    case RecordParcel(b) =>
      if b in s.bookings && s.bookings[b].Labelled? && s.bookings[b].slip < |s.slips| {
        var slip := s.bookings[b].slip;
        if Commit(s.book, s.slips[slip], slip).Ok? {
          CommitBalances(s.book, s.slips[slip], slip, id);
        }
      }
    case Report(p, u, at, now) =>
      if Track(s.book, p, u, at, now).Ok? { TrackBalances(s.book, p, u, at, now, id); }
    case CancelParcel(p) =>
      if Cancel(s.book, p).Ok? { CallOffBalances(s.book, ParcelAt(s.book.parcels, p), id); }
    case DeleteParcel(p) =>
      if Delete(s.book, p).Ok? { DeleteBalances(s.book, p, id); }
    case _ =>
  }

  /**
    Over every run, what subscribers were told adds up: units announced as shipped, less units
    announced as owed again, are the units out - for every line, whatever is cancelled, reported
    twice, or deleted after being cancelled.
  */
  lemma {:induction false} AnnouncementsAddUp(lines: seq<OrderLine>, steps: seq<Step>)
    ensures Balanced(After(lines, steps).book)
  {
    if steps != [] {
      AnnouncementsAddUp(lines, steps[..|steps| - 1]);
      var s, step := After(lines, steps[..|steps| - 1]), steps[|steps| - 1];
      hide After;
      hide Next;
      forall id ensures Announced(Next(s, step).book.events, id) == Out(Next(s, step).book.parcels, id) {
        StepBalances(s, step, id);
      }
    }
  }
}
