/**
  The checkout protocol (core/checkout.go): look for an earlier attempt under the same key, create
  the order in one transaction, start payment with nothing held, store the answer. Any number of
  attempts run at once, each may stop for ever between two steps, and shoppers retry.
*/
module CheckoutProtocol {
  import opened Basics

  /** An idempotency key lives in a scope, one for each payment method. */
  datatype Key = Key(scope: string, key: string)

  /** What a request asks for; the stored hash tells one body from another. */
  datatype Body = Body(payment: string, cart: int, rest: string)
  datatype Request = Request(key: Option<Key>, body: Body)

  datatype OrderRow = OrderRow(cart: int, key: Option<Key>, body: Body)
  datatype KeyRow = KeyRow(body: Body, order: nat, response: Option<nat>)

  /** live holds the carts that exist and have not been converted; orders are never deleted. */
  datatype Desk = Desk(live: set<int>, orders: seq<OrderRow>, keys: map<Key, KeyRow>)

  datatype Phase =
    | Replaying
    | Creating
    | Replayed(order: nat)
    | Paying(order: nat)
    | Storing(order: nat)
    | Answered(order: nat)
    | Failed

  datatype Attempt = Attempt(request: Request, phase: Phase)
  datatype State = State(desk: Desk, attempts: map<nat, Attempt>)

  // ------------------------------------------------------------------ what each step decides

  /** replayCheckout: a stored answer, an order to resume, a refusal, or nothing to go by. */
  function Replay(d: Desk, r: Request): Phase {
    if r.key.None? || r.key.value !in d.keys then Creating
    else
      var row := d.keys[r.key.value];
      if row.body != r.body then Failed
      else if row.response.Some? then Replayed(row.response.value)
      else Paying(row.order)
  }

  /** What lets the transaction that creates an order commit, besides everything it may refuse for. */
  predicate MayCreate(d: Desk, r: Request) {
    r.body.cart in d.live && (r.key.None? || r.key.value !in d.keys)
  }

  /** The order, the cart's conversion and the key row are one transaction. */
  function Created(d: Desk, r: Request): Desk {
    Desk(d.live - {r.body.cart}, d.orders + [OrderRow(r.body.cart, r.key, r.body)],
         if r.key.None? then d.keys else d.keys[r.key.value := KeyRow(r.body, |d.orders|, None)])
  }

  /** finishPayment: the answer is stored under the key, if there is one. */
  function Stored(d: Desk, r: Request, order: nat): Desk {
    if r.key.None? || r.key.value !in d.keys then d
    else d.(keys := d.keys[r.key.value := d.keys[r.key.value].(response := Some(order))])
  }

  datatype Step =
    | Arrive(id: nat, request: Request)
    | LookUp(id: nat)
    | CreateOrder(id: nat)
    | RefuseOrder(id: nat)
    | ReturnStored(id: nat)
    | PayAgain(id: nat)
    | PaymentStarted(id: nat)
    | PaymentFailed(id: nat)
    | StoreAnswer(id: nat)
    | Crash(id: nat)
    | CartAppears(cart: int)
    | CartGoes(cart: int)

  predicate At(s: State, id: nat, p: Phase) { id in s.attempts && s.attempts[id].phase == p }

  function Move(s: State, id: nat, p: Phase): State
    requires id in s.attempts
  {
    s.(attempts := s.attempts[id := s.attempts[id].(phase := p)])
  }

  /**
    One step of anybody; a stored answer is returned, or its payment started again, or refused
    because its order was cancelled (Crash); one that does not apply changes nothing. A new cart has a
    new id.
  */
  function Next(s: State, step: Step): State {
    match step
    case Arrive(id, r) => if id in s.attempts then s else s.(attempts := s.attempts[id := Attempt(r, Replaying)])
    case LookUp(id) => if !At(s, id, Replaying) then s else Move(s, id, Replay(s.desk, s.attempts[id].request))
    case CreateOrder(id) =>
      if !At(s, id, Creating) || !MayCreate(s.desk, s.attempts[id].request) then s
      else State(Created(s.desk, s.attempts[id].request), s.attempts[id := s.attempts[id].(phase := Paying(|s.desk.orders|))])
    case RefuseOrder(id) => if !At(s, id, Creating) then s else Move(s, id, Failed)
    case ReturnStored(id) =>
      if id !in s.attempts || !s.attempts[id].phase.Replayed? then s else Move(s, id, Answered(s.attempts[id].phase.order))
    case PayAgain(id) =>
      if id !in s.attempts || !s.attempts[id].phase.Replayed? then s else Move(s, id, Paying(s.attempts[id].phase.order))
    case PaymentStarted(id) =>
      if id !in s.attempts || !s.attempts[id].phase.Paying? then s else Move(s, id, Storing(s.attempts[id].phase.order))
    case PaymentFailed(id) =>
      if id !in s.attempts || !s.attempts[id].phase.Paying? then s else Move(s, id, Failed)
    case StoreAnswer(id) =>
      if id !in s.attempts || !s.attempts[id].phase.Storing? then s else
      var a := s.attempts[id];
      State(Stored(s.desk, a.request, a.phase.order), s.attempts[id := a.(phase := Answered(a.phase.order))])
    case Crash(id) => if id !in s.attempts then s else Move(s, id, Failed)
    case CartAppears(cart) =>
      if exists i :: 0 <= i < |s.desk.orders| && s.desk.orders[i].cart == cart then s
      else s.(desk := s.desk.(live := s.desk.live + {cart}))
    case CartGoes(cart) => s.(desk := s.desk.(live := s.desk.live - {cart}))
  }

  function After(steps: seq<Step>): State {
    if steps == [] then State(Desk({}, [], map[]), map[]) else Next(After(steps[..|steps| - 1]), steps[|steps| - 1])
  }

  // ------------------------------------------------------------------ what every step keeps

  /** One order for a key and one for a cart, each named by its own row and by no other. */
  ghost predicate OneEach(d: Desk) {
    && (forall i :: 0 <= i < |d.orders| ==> d.orders[i].cart !in d.live && d.orders[i].body.cart == d.orders[i].cart)
    && (forall i, j :: 0 <= i < j < |d.orders| ==> d.orders[i].cart != d.orders[j].cart)
    && (forall i :: 0 <= i < |d.orders| && d.orders[i].key.Some? ==>
          d.orders[i].key.value in d.keys && d.keys[d.orders[i].key.value].order == i)
  }

  /** A key row names an order placed under it with the same body, and any answer is about that order. */
  ghost predicate KeysPoint(d: Desk) {
    forall k :: k in d.keys ==>
      && d.keys[k].order < |d.orders|
      && d.orders[d.keys[k].order] == OrderRow(d.keys[k].body.cart, Some(k), d.keys[k].body)
      && (d.keys[k].response.Some? ==> d.keys[k].response.value == d.keys[k].order)
  }

  /** The order an attempt is paying for is the one its own request placed or resumed. */
  ghost predicate Owns(d: Desk, r: Request, order: nat) {
    && order < |d.orders| && d.orders[order].key == r.key && d.orders[order].body == r.body
  }

  ghost predicate AttemptOk(d: Desk, a: Attempt) {
    match a.phase
    case Replayed(o) => Owns(d, a.request, o)
    case Paying(o) => Owns(d, a.request, o)
    case Storing(o) => Owns(d, a.request, o)
    case Answered(o) => Owns(d, a.request, o)
    case _ => true
  }

  ghost predicate Inv(s: State) {
    OneEach(s.desk) && KeysPoint(s.desk) && forall id :: id in s.attempts ==> AttemptOk(s.desk, s.attempts[id])
  }

  lemma CreateKeeps(d: Desk, r: Request)
    requires OneEach(d) && KeysPoint(d) && MayCreate(d, r)
    ensures OneEach(Created(d, r)) && KeysPoint(Created(d, r))
    ensures Owns(Created(d, r), r, |d.orders|)
  {
  }

  lemma StoreKeeps(d: Desk, r: Request, order: nat)
    requires OneEach(d) && KeysPoint(d) && Owns(d, r, order)
    ensures OneEach(Stored(d, r, order)) && KeysPoint(Stored(d, r, order)) && Stored(d, r, order).orders == d.orders
  {
  }

  lemma CartsKeep(d: Desk, e: Desk, cart: int)
    requires OneEach(d) && KeysPoint(d) && e.orders == d.orders && e.keys == d.keys && e.live <= d.live + {cart}
    requires cart in e.live ==> forall i :: 0 <= i < |d.orders| ==> d.orders[i].cart != cart
    ensures OneEach(e) && KeysPoint(e)
  {
  }

  lemma ReplayKeeps(d: Desk, r: Request)
    requires OneEach(d) && KeysPoint(d)
    ensures AttemptOk(d, Attempt(r, Replay(d, r)))
  {
  }

  /** What attempts hold on to stays true while orders are only added. */
  lemma AttemptsHold(s: State, d: Desk)
    requires Inv(s) && s.desk.orders <= d.orders
    ensures forall id :: id in s.attempts ==> AttemptOk(d, s.attempts[id])
  {
    hide OneEach;
    hide KeysPoint;
    forall id | id in s.attempts ensures AttemptOk(d, s.attempts[id]) {
      assert AttemptOk(s.desk, s.attempts[id]);
    }
  }

  lemma StepKeeps(s: State, step: Step)
    requires Inv(s)
    ensures Inv(Next(s, step))
  {
    AttemptsHold(s, Next(s, step).desk);
    hide OneEach;
    hide KeysPoint;
    hide MayCreate;
    match step
    case LookUp(id) =>
      if At(s, id, Replaying) { ReplayKeeps(s.desk, s.attempts[id].request); }
    case CreateOrder(id) =>
      if At(s, id, Creating) && MayCreate(s.desk, s.attempts[id].request) {
        CreateKeeps(s.desk, s.attempts[id].request);
      }
    case CartAppears(cart) => CartsKeep(s.desk, Next(s, step).desk, cart);
    case CartGoes(cart) => CartsKeep(s.desk, Next(s, step).desk, cart);
    case StoreAnswer(id) =>
      if id in s.attempts && s.attempts[id].phase.Storing? {
        StoreKeeps(s.desk, s.attempts[id].request, s.attempts[id].phase.order);
      }
    case _ =>
  }

  lemma {:induction false} EveryRunKeepsInv(steps: seq<Step>)
    ensures Inv(After(steps))
  {
    if steps != [] {
      EveryRunKeepsInv(steps[..|steps| - 1]);
      hide Inv;
      hide Next;
      StepKeeps(After(steps[..|steps| - 1]), steps[|steps| - 1]);
    }
  }

  /** However attempts, retries and crashes interleave: at most one order for a key, and for a cart. */
  lemma AtMostOneOrder(steps: seq<Step>, i: nat, j: nat)
    requires i < |After(steps).desk.orders| && j < |After(steps).desk.orders| && i != j
    ensures var orders := After(steps).desk.orders;
      && orders[i].cart != orders[j].cart
      && (orders[i].key.Some? ==> orders[i].key != orders[j].key)
  {
    EveryRunKeepsInv(steps);
  }

  /**
    A retry after a commit, whenever it comes: with the same body it is given that order's stored
    answer or resumes it, and never reaches the step that creates one; with another body it is refused.
  */
  lemma RetryFindsItsOrder(steps: seq<Step>, i: nat, r: Request)
    requires i < |After(steps).desk.orders| && r.key.Some? && After(steps).desk.orders[i].key == r.key
    ensures var d := After(steps).desk;
      if d.orders[i].body == r.body then Replay(d, r) == Replayed(i) || Replay(d, r) == Paying(i)
      else Replay(d, r) == Failed
  {
    EveryRunKeepsInv(steps);
  }

  /** Orders are only ever added: a row once there stays as it is. */
  lemma {:induction false} OrdersStay(steps: seq<Step>, n: nat)
    requires n <= |steps|
    ensures After(steps[..n]).desk.orders <= After(steps).desk.orders
    decreases |steps| - n
  {
    if n < |steps| {
      OrdersStay(steps, n + 1);
      assert steps[..n + 1][..|steps[..n + 1]| - 1] == steps[..n];
    } else {
      assert steps[..n] == steps;
    }
  }

  /** Whoever is answered is answered about the order of their own request, and it is there to stay. */
  lemma AnswerIsTheirOwn(steps: seq<Step>, n: nat, id: nat)
    requires n <= |steps| && id in After(steps[..n]).attempts && After(steps[..n]).attempts[id].phase.Answered?
    ensures var a := After(steps[..n]).attempts[id]; var orders := After(steps).desk.orders;
      a.phase.order < |orders| && orders[a.phase.order] == OrderRow(a.request.body.cart, a.request.key, a.request.body)
  {
    EveryRunKeepsInv(steps[..n]);
    OrdersStay(steps, n);
    assert AttemptOk(After(steps[..n]).desk, After(steps[..n]).attempts[id]);
  }
}
