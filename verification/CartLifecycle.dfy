/**
  A cart's life (core/cart.go): open, abandoned, converted or deleted, with shoppers, checkouts
  and any number of sweeping replicas acting on the same table. One transaction is one step; a
  replica claims rows with FOR UPDATE SKIP LOCKED, so a claim is any batch of unlocked candidates.
*/
module CartLifecycle {
  import opened Basics

  datatype Status = Open | Abandoned | Converted
  datatype Cart = Cart(status: Status, expiresAt: int, abandonedAt: Option<int>, lines: nat)
  datatype Announcement = Announcement(cart: int, at: int, lines: nat)
  datatype World = World(carts: map<int, Cart>, nextId: int, outbox: seq<Announcement>)
  datatype Config = Config(ttl: int, retention: int, batch: nat)

  // ------------------------------------------------------------------ one step

  predicate Abandonable(c: Cart, now: int) { c.status == Open && c.expiresAt < now && c.lines > 0 }

  predicate Sweepable(c: Cart, now: int) { c.status == Open && c.expiresAt < now && c.lines == 0 }

  predicate Purgeable(c: Cart, now: int, retention: int) {
    c.status == Abandoned && c.abandonedAt.Some? && c.abandonedAt.value < now - retention
  }

  /** openCartID and lockCartForCheckout: an abandoned cart is revived, a converted one refused. */
  function Opened(c: Cart, now: int, ttl: int): Option<Cart> {
    match c.status
    case Open => Some(c)
    case Abandoned => Some(Cart(Open, now + ttl, None, c.lines))
    case Converted => None
  }

  datatype Step =
    | Create(now: int)
    | Mutate(id: int, now: int, lines: nat, touched: bool)
    | Checkout(id: int, now: int)
    | LinesLost(id: int, lines: nat)
    | Abandon(now: int, ids: seq<int>)
    | Sweep(now: int, ids: seq<int>)
    | Purge(now: int, ids: seq<int>)

  function Announced(w: World, now: int, ids: seq<int>): seq<Announcement> {
    seq(|ids|, i requires 0 <= i < |ids| =>
      Announcement(ids[i], now, if ids[i] in w.carts then w.carts[ids[i]].lines else 0))
  }

  function Give(c: Cart, now: int): Cart { c.(status := Abandoned, abandonedAt := Some(now)) }

  function Without(carts: map<int, Cart>, ids: seq<int>): map<int, Cart> {
    map id | id in carts && id !in ids :: carts[id]
  }

  /** What each step commits; only meaningful where Enabled holds. */
  function After(cfg: Config, w: World, s: Step): World {
    match s
    case Create(now) =>
      World(w.carts[w.nextId := Cart(Open, now + cfg.ttl, None, 0)], w.nextId + 1, w.outbox)
    case Mutate(id, now, lines, touched) =>
      if id !in w.carts then w else
      (match Opened(w.carts[id], now, cfg.ttl)
       case None => w
       case Some(c) => w.(carts := w.carts[id := c.(lines := lines, expiresAt := if touched then now + cfg.ttl else c.expiresAt)]))
    case Checkout(id, now) =>
      if id !in w.carts then w else
      (match Opened(w.carts[id], now, cfg.ttl)
       case None => w
       case Some(c) => w.(carts := w.carts[id := c.(status := Converted)]))
    case LinesLost(id, lines) =>
      if id !in w.carts then w else w.(carts := w.carts[id := w.carts[id].(lines := lines)])
    case Abandon(now, ids) =>
      World(map id | id in w.carts :: if id in ids then Give(w.carts[id], now) else w.carts[id],
            w.nextId, w.outbox + Announced(w, now, ids))
    case Sweep(now, ids) => w.(carts := Without(w.carts, ids))
    case Purge(now, ids) => w.(carts := Without(w.carts, ids))
  }

  /** What a step needs to commit. A refused or failed transaction changes nothing and is no step. */
  ghost predicate Enabled(cfg: Config, w: World, s: Step) {
    match s
    case Create(_) => true
    case Mutate(id, _, _, _) => id in w.carts && w.carts[id].status != Converted
    case Checkout(id, _) => id in w.carts && w.carts[id].status != Converted && w.carts[id].lines > 0
    case LinesLost(id, lines) => id in w.carts && lines <= w.carts[id].lines
    case Abandon(now, ids) =>
      NoRepeats(ids) && |ids| <= cfg.batch && forall id :: id in ids ==> id in w.carts && Abandonable(w.carts[id], now)
    case Sweep(now, ids) =>
      NoRepeats(ids) && |ids| <= cfg.batch && forall id :: id in ids ==> id in w.carts && Sweepable(w.carts[id], now)
    case Purge(now, ids) =>
      NoRepeats(ids) && |ids| <= cfg.batch
      && forall id :: id in ids ==> id in w.carts && Purgeable(w.carts[id], now, cfg.retention)
  }

  // ------------------------------------------------------------------ runs

  datatype Trace = Trace(worlds: seq<World>, steps: seq<Step>)

  ghost predicate Run(cfg: Config, t: Trace) {
    && |t.worlds| == |t.steps| + 1 && t.worlds[0] == World(map[], 1, [])
    && forall i :: 0 <= i < |t.steps| ==> StepAt(cfg, t, i)
  }

  ghost predicate StepAt(cfg: Config, t: Trace, i: nat)
    requires i < |t.steps| && |t.worlds| == |t.steps| + 1
  {
    Enabled(cfg, t.worlds[i], t.steps[i]) && t.worlds[i + 1] == After(cfg, t.worlds[i], t.steps[i])
  }

  function Count(outbox: seq<Announcement>, id: int): nat {
    if outbox == [] then 0
    else Count(outbox[..|outbox| - 1], id) + if outbox[|outbox| - 1].cart == id then 1 else 0
  }

  predicate IsAbandoned(w: World, id: int) { id in w.carts && w.carts[id].status == Abandoned }

  predicate IsConverted(w: World, id: int) { id in w.carts && w.carts[id].status == Converted }

  /** A committed revival: the row was abandoned, and is a live or converted cart afterwards. */
  predicate Revives(before: World, after: World, id: int) {
    IsAbandoned(before, id) && id in after.carts && !IsAbandoned(after, id)
  }

  function Revivals(t: Trace, id: int, n: nat): nat
    requires n < |t.worlds|
    decreases n
  {
    if n == 0 then 0
    else Revivals(t, id, n - 1) + if Revives(t.worlds[n - 1], t.worlds[n], id) then 1 else 0
  }

  /** The cart is abandoned now, or was when its row was deleted. */
  predicate GivenUp(t: Trace, id: int, n: nat)
    requires n < |t.worlds|
    decreases n
  {
    if id in t.worlds[n].carts then IsAbandoned(t.worlds[n], id) else n > 0 && GivenUp(t, id, n - 1)
  }

  /** carts_abandoned_at_matches_status, and the ids the sequence has handed out. */
  ghost predicate Sound(w: World) {
    && (forall id :: id in w.carts ==> id < w.nextId && (w.carts[id].abandonedAt.Some? <==> w.carts[id].status == Abandoned))
    && forall i :: 0 <= i < |w.outbox| ==> w.outbox[i].cart < w.nextId
  }

  /** abandoned_at is set exactly when the status is abandoned, in every world a run reaches. */
  lemma {:induction false} AbandonedAtMatchesStatus(cfg: Config, t: Trace, n: nat)
    requires Run(cfg, t) && n < |t.worlds|
    ensures Sound(t.worlds[n])
    decreases n
  {
    if n > 0 {
      AbandonedAtMatchesStatus(cfg, t, n - 1);
      assert StepAt(cfg, t, n - 1);
    }
  }

  lemma {:induction false} CountAppend(a: seq<Announcement>, b: seq<Announcement>, id: int)
    ensures Count(a + b, id) == Count(a, id) + Count(b, id)
  {
    if b == [] {
      assert a + b == a;
    } else {
      var m := b[..|b| - 1];
      assert (a + b)[..|a + b| - 1] == a + m;
      CountAppend(a, m, id);
    }
  }

  /** A batch announces each cart it claims exactly once, and no other. */
  lemma {:induction false} BatchAnnouncesOnce(w: World, now: int, ids: seq<int>, id: int)
    requires NoRepeats(ids)
    ensures Count(Announced(w, now, ids), id) == if id in ids then 1 else 0
  {
    if ids != [] {
      var m := ids[..|ids| - 1];
      BatchAnnouncesOnce(w, now, m, id);
      assert Announced(w, now, ids)[..|ids| - 1] == Announced(w, now, m);
      assert id in ids <==> id in m || id == ids[|ids| - 1];
    }
  }

  /**
    These carts, each open with a line or more and expired, are abandoned now and announced once, each with
    its lines, in this order; and nothing else has changed.
  */
  ghost predicate AbandonedAndAnnounced(w: World, now: int, ids: seq<int>, v: World) {
    && (forall id | id in ids :: id in w.carts && w.carts[id].status == Open && w.carts[id].expiresAt < now && w.carts[id].lines >= 1)
    && v.carts.Keys == w.carts.Keys && v.nextId == w.nextId
    && (forall id | id in v.carts && id !in ids :: v.carts[id] == w.carts[id])
    && (forall id | id in ids :: v.carts[id] == Cart(Abandoned, w.carts[id].expiresAt, Some(now), w.carts[id].lines))
    && |v.outbox| == |w.outbox| + |ids| && v.outbox[..|w.outbox|] == w.outbox
    && (forall i | 0 <= i < |ids| :: ids[i] in w.carts && v.outbox[|w.outbox| + i] == Announcement(ids[i], now, w.carts[ids[i]].lines))
    && forall id | id in ids :: Count(v.outbox[|w.outbox|..], id) == 1
  }

  lemma AbandonLeaves(cfg: Config, w: World, now: int, ids: seq<int>)
    requires Enabled(cfg, w, Abandon(now, ids))
    ensures AbandonedAndAnnounced(w, now, ids, After(cfg, w, Abandon(now, ids)))
  {
    var v := After(cfg, w, Abandon(now, ids));
    assert v.outbox[|w.outbox|..] == Announced(w, now, ids);
    forall id | id in ids ensures Count(v.outbox[|w.outbox|..], id) == 1 {
      BatchAnnouncesOnce(w, now, ids, id);
    }
    hide Count;
    hide NoRepeats;
    forall i | 0 <= i < |ids|
      ensures ids[i] in w.carts && v.outbox[|w.outbox| + i] == Announcement(ids[i], now, w.carts[ids[i]].lines)
    {
      assert ids[i] in ids;
      assert v.outbox[|w.outbox| + i] == v.outbox[|w.outbox|..][i];
    }
    assert v.outbox[..|w.outbox|] == w.outbox;
  }

  /** What the catalog takes out of a cart goes, whatever the cart's status, and nothing else of it changes. */
  lemma LinesLostLeave(cfg: Config, w: World, id: int, lines: nat)
    requires Enabled(cfg, w, LinesLost(id, lines))
    ensures var v, c := After(cfg, w, LinesLost(id, lines)), w.carts[id];
      && v.carts == w.carts[id := Cart(c.status, c.expiresAt, c.abandonedAt, lines)] && v.nextId == w.nextId && v.outbox == w.outbox
  {
  }

  /** How one step moves the books of one cart. */
  lemma StepBalances(cfg: Config, w: World, s: Step, id: int)
    requires Sound(w) && Enabled(cfg, w, s)
    ensures var v := After(cfg, w, s);
      var change := Count(v.outbox, id) - Count(w.outbox, id);
      && (id in w.carts && id in v.carts ==>
           change == (if Revives(w, v, id) then 1 else 0)
             + (if IsAbandoned(v, id) then 1 else 0) - (if IsAbandoned(w, id) then 1 else 0))
      && (!(id in w.carts && id in v.carts) ==> change == 0)
      && (id !in w.carts && id in v.carts ==> id == w.nextId && !IsAbandoned(v, id))
  {
    if s.Abandon? {
      CountAppend(w.outbox, Announced(w, s.now, s.ids), id);
      BatchAnnouncesOnce(w, s.now, s.ids, id);
    }
  }

  lemma NoEarlyAnnouncement(w: World, id: int)
    requires Sound(w) && id >= w.nextId
    ensures Count(w.outbox, id) == 0
  {
    NoneOf(w.outbox, id);
  }

  lemma {:induction false} NoneOf(outbox: seq<Announcement>, id: int)
    requires forall i :: 0 <= i < |outbox| ==> outbox[i].cart != id
    ensures Count(outbox, id) == 0
  {
    if outbox != [] {
      NoneOf(outbox[..|outbox| - 1], id);
    }
  }

  /**
    However shoppers, checkouts and replicas interleave, the cart.abandoned events for a cart are
    its committed revivals, plus one if it stands abandoned or was purged standing abandoned.
  */
  lemma {:induction false} EventsMatchAbandonments(cfg: Config, t: Trace, id: int, n: nat)
    requires Run(cfg, t) && n < |t.worlds|
    ensures Count(t.worlds[n].outbox, id) == Revivals(t, id, n) + if GivenUp(t, id, n) then 1 else 0
    ensures id >= t.worlds[n].nextId ==> Revivals(t, id, n) == 0 && !GivenUp(t, id, n)
    decreases n
  {
    if n > 0 {
      var w, s, v := t.worlds[n - 1], t.steps[n - 1], t.worlds[n];
      EventsMatchAbandonments(cfg, t, id, n - 1);
      AbandonedAtMatchesStatus(cfg, t, n - 1);
      assert StepAt(cfg, t, n - 1);
      hide Run;
      StepBalances(cfg, w, s, id);
      if id >= w.nextId {
        NoEarlyAnnouncement(w, id);
      }
    }
  }

  /** A converted cart is never anything else again. */
  lemma {:induction false} ConvertedIsFinal(cfg: Config, t: Trace, id: int, m: nat, n: nat)
    requires Run(cfg, t) && m <= n < |t.worlds| && IsConverted(t.worlds[m], id)
    ensures IsConverted(t.worlds[n], id) && t.worlds[n].carts[id].(lines := 0) == t.worlds[m].carts[id].(lines := 0)
    decreases n
  {
    if m < n {
      ConvertedIsFinal(cfg, t, id, m, n - 1);
      assert StepAt(cfg, t, n - 1);
      AbandonedAtMatchesStatus(cfg, t, n - 1);
    }
  }

  /** The cart has stood abandoned, unrevived, ever since step k announced it at time at. */
  ghost predicate StandsSince(t: Trace, id: int, k: nat, n: nat, at: int)
    requires n < |t.worlds| == |t.steps| + 1
  {
    && k < n && t.steps[k].Abandon? && t.steps[k].now == at && id in t.steps[k].ids
    && forall j :: k < j <= n ==> IsAbandoned(t.worlds[j], id) && t.worlds[j].carts[id].abandonedAt == Some(at)
  }

  lemma {:induction false} AbandonedStands(cfg: Config, t: Trace, id: int, n: nat) returns (k: nat)
    requires Run(cfg, t) && n < |t.worlds| && IsAbandoned(t.worlds[n], id)
    ensures t.worlds[n].carts[id].abandonedAt.Some?
    ensures StandsSince(t, id, k, n, t.worlds[n].carts[id].abandonedAt.value)
    decreases n
  {
    var w, s := t.worlds[n - 1], t.steps[n - 1];
    assert StepAt(cfg, t, n - 1);
    AbandonedAtMatchesStatus(cfg, t, n);
    AbandonedAtMatchesStatus(cfg, t, n - 1);
    if s.Abandon? && id in s.ids {
      k := n - 1;
    } else {
      hide Run;
      assert IsAbandoned(w, id) && w.carts[id].abandonedAt == t.worlds[n].carts[id].abandonedAt;
      k := AbandonedStands(cfg, t, id, n - 1);
    }
  }

  /** Step k put the cart in the outbox, holding what it held. */
  lemma AbandonAnnounces(cfg: Config, t: Trace, id: int, k: nat)
    requires Run(cfg, t) && k < |t.steps| && t.steps[k].Abandon? && id in t.steps[k].ids
    ensures id in t.worlds[k].carts && t.worlds[k].carts[id].lines > 0
    ensures Announcement(id, t.steps[k].now, t.worlds[k].carts[id].lines) in t.worlds[k + 1].outbox
  {
    assert StepAt(cfg, t, k);
    var w, s := t.worlds[k], t.steps[k];
    var i :| 0 <= i < |s.ids| && s.ids[i] == id;
    assert Announced(w, s.now, s.ids)[i] == Announcement(id, s.now, w.carts[id].lines);
    assert t.worlds[k + 1].outbox[|w.outbox| + i] == Announced(w, s.now, s.ids)[i];
  }

  /** Announced with its lines at step k, and left alone since. */
  ghost predicate KeptSince(t: Trace, id: int, k: nat, n: nat, at: int)
    requires n < |t.worlds| == |t.steps| + 1
  {
    && StandsSince(t, id, k, n, at)
    && id in t.worlds[k].carts && t.worlds[k].carts[id].lines > 0
    && Announcement(id, at, t.worlds[k].carts[id].lines) in t.worlds[k + 1].outbox
  }

  /**
    The two ways a row goes. Only an open, expired cart with nothing in it is swept. Every other
    deletion - so every deletion of a cart holding lines - is a purge of a cart that was announced
    with its lines and then stood abandoned, unrevived, for longer than the whole retention.
  */
  lemma DeletedOnlyEmptyOrAfterRetention(cfg: Config, t: Trace, id: int, n: nat)
    requires Run(cfg, t) && n < |t.steps| && id in t.worlds[n].carts && id !in t.worlds[n + 1].carts
    ensures var c, s := t.worlds[n].carts[id], t.steps[n];
      || (s.Sweep? && Sweepable(c, s.now))
      || (s.Purge? && exists k: nat, at: int :: KeptSince(t, id, k, n, at) && s.now - at > cfg.retention)
  {
    assert StepAt(cfg, t, n);
    if t.steps[n].Purge? {
      assert IsAbandoned(t.worlds[n], id);
      var k := AbandonedStands(cfg, t, id, n);
      AbandonAnnounces(cfg, t, id, k);
      var at := t.worlds[n].carts[id].abandonedAt.value;
      assert KeptSince(t, id, k, n, at);
    }
  }

  /**
    One cart's own abandonments carry rising stamps. Stamps of different carts may commit in any order,
    as they do when two replicas' passes overlap.
  */
  ghost predicate Clocked(t: Trace, id: int) {
    forall i, j :: 0 <= i <= j < |t.steps| && Abandons(t.steps[i], id) && Abandons(t.steps[j], id) ==> t.steps[i].now <= t.steps[j].now
  }

  predicate Abandons(s: Step, id: int) { s.Abandon? && id in s.ids }

  /**
    No pass both abandons and purges one cart, whatever runs between its transactions: a cart
    abandoned at step i by anybody can be purged at step j only once the retention has passed.
  */
  lemma PurgeIsPastRetentionOfEveryAbandonment(cfg: Config, t: Trace, id: int, i: nat, j: nat)
    requires Run(cfg, t) && Clocked(t, id) && i < j < |t.steps|
    requires Abandons(t.steps[i], id) && t.steps[j].Purge? && id in t.steps[j].ids
    ensures t.steps[j].now - t.steps[i].now > cfg.retention
  {
    assert StepAt(cfg, t, j);
    assert StepAt(cfg, t, i);
    var k := AbandonedStands(cfg, t, id, j);
    assert Abandons(t.steps[k], id);
  }

  /**
    Whatever a shopper does to a cart - revived, or touched - buys it a whole TTL: until then no
    sweep can claim it, and what a revival without a touch extends is only a cart that was abandoned.
  */
  lemma MutationBuysAWholeTtl(cfg: Config, w: World, id: int, now: int, lines: nat, touched: bool)
    requires Enabled(cfg, w, Mutate(id, now, lines, touched))
    ensures var v := After(cfg, w, Mutate(id, now, lines, touched));
      && id in v.carts && v.carts[id].status == Open
      && (touched || IsAbandoned(w, id) ==>
            forall t :: t <= now + cfg.ttl ==> !Abandonable(v.carts[id], t) && !Sweepable(v.carts[id], t))
      && (!touched && !IsAbandoned(w, id) ==> v.carts[id].expiresAt == w.carts[id].expiresAt)
  {
  }

  /** Step m is a shopper's change that touches the cart, or revives it. */
  ghost predicate Extends(t: Trace, id: int, m: nat)
    requires m < |t.steps| && |t.worlds| == |t.steps| + 1
  {
    t.steps[m].Mutate? && t.steps[m].id == id && (t.steps[m].touched || IsAbandoned(t.worlds[m], id))
  }

  ghost predicate NoChangeBetween(t: Trace, id: int, m: nat, n: nat) {
    forall k :: m < k < n && k < |t.steps| && t.steps[k].Mutate? ==> t.steps[k].id != id
  }

  lemma {:induction false} ExpiryStands(cfg: Config, t: Trace, id: int, m: nat, n: nat)
    requires Run(cfg, t) && m < n < |t.worlds| && Extends(t, id, m) && NoChangeBetween(t, id, m, n)
    ensures id < t.worlds[n].nextId
    ensures id in t.worlds[n].carts && t.worlds[n].carts[id].status == Open ==> t.worlds[n].carts[id].expiresAt == t.steps[m].now + cfg.ttl
    decreases n
  {
    assert StepAt(cfg, t, n - 1);
    AbandonedAtMatchesStatus(cfg, t, n - 1);
    if m < n - 1 {
      ExpiryStands(cfg, t, id, m, n - 1);
    }
  }

  /**
    Whatever replicas run meanwhile, a shopper's change keeps every sweep off the cart for a whole TTL:
    the next pass to abandon it, or to sweep it away empty, comes only after that.
  */
  lemma ChangeKeepsSweepsOff(cfg: Config, t: Trace, id: int, m: nat, n: nat)
    requires Run(cfg, t) && m < n < |t.steps| && Extends(t, id, m) && NoChangeBetween(t, id, m, n)
    requires (t.steps[n].Abandon? || t.steps[n].Sweep?) && id in t.steps[n].ids
    ensures t.steps[n].now > t.steps[m].now + cfg.ttl
  {
    ExpiryStands(cfg, t, id, m, n);
    assert StepAt(cfg, t, n);
  }

  /** A deleted cart stays deleted: its id is never handed out again. */
  lemma {:induction false} DeletedStaysDeleted(cfg: Config, t: Trace, id: int, m: nat, n: nat)
    requires Run(cfg, t) && m <= n < |t.worlds| && id < t.worlds[m].nextId && id !in t.worlds[m].carts
    ensures id !in t.worlds[n].carts && id < t.worlds[n].nextId
    decreases n
  {
    if m < n {
      DeletedStaysDeleted(cfg, t, id, m, n - 1);
      assert StepAt(cfg, t, n - 1);
    }
  }

  // ------------------------------------------------------------------ the table itself

  /** ORDER BY key FOR UPDATE SKIP LOCKED LIMIT batch. */
  ghost predicate Claim(free: set<int>, key: map<int, int>, batch: nat, ids: seq<int>)
    requires free <= key.Keys
  {
    && NoRepeats(ids) && (forall id :: id in ids ==> id in free)
    && |ids| <= batch && (|ids| < batch ==> forall id :: id in free ==> id in ids)
    && forall a, b :: a in ids && b in free && b !in ids ==> a in free && key[a] <= key[b]
  }

  method ClaimOldest(free: set<int>, key: map<int, int>, batch: nat) returns (ids: seq<int>)
    requires free <= key.Keys
    ensures Claim(free, key, batch, ids)
  {
    ids := [];
    var left := free;
    while |ids| < batch && left != {}
      invariant left <= free && |ids| <= batch && NoRepeats(ids)
      invariant forall id :: id in free <==> id in left || id in ids
      invariant forall id :: id in ids ==> id !in left
      invariant forall a, b :: a in ids && b in left ==> a in free && key[a] <= key[b]
      decreases left
    {
      var oldest := Oldest(left, key);
      ids := ids + [oldest];
      left := left - {oldest};
    }
  }

  method Oldest(left: set<int>, key: map<int, int>) returns (oldest: int)
    requires left != {} && left <= key.Keys
    ensures oldest in left && forall b :: b in left ==> key[oldest] <= key[b]
  {
    NonEmpty(left);
    oldest :| oldest in left;
    var rest := left - {oldest};
    while rest != {}
      invariant rest <= left && oldest in left
      invariant forall b :: b in left && b !in rest ==> key[oldest] <= key[b]
      decreases rest
    {
      NonEmpty(rest);
      var b :| b in rest;
      if key[b] < key[oldest] {
        oldest := b;
      }
      rest := rest - {b};
    }
  }

  datatype Outcome = Done | NotFound | CheckedOut | NoSuchLine | CartEmpty | Refused
  datatype CartSweep = CartSweep(abandoned: nat, removed: nat, purged: nat, capped: bool)

  /** Three steps in a row: abandonment, the sweep of empty carts, the purge. */
  ghost predicate Passes(cfg: Config, w: World, t1: int, t2: int, t3: int,
                         abandoned: seq<int>, removed: seq<int>, purged: seq<int>, v: World) {
    var w1 := After(cfg, w, Abandon(t1, abandoned));
    var w2 := After(cfg, w1, Sweep(t2, removed));
    && Enabled(cfg, w, Abandon(t1, abandoned)) && Enabled(cfg, w1, Sweep(t2, removed))
    && Enabled(cfg, w2, Purge(t3, purged)) && v == After(cfg, w2, Purge(t3, purged))
  }

  function Report(batch: nat, abandoned: seq<int>, removed: seq<int>, purged: seq<int>): CartSweep {
    CartSweep(|abandoned|, |removed|, |purged|, |abandoned| >= batch || |removed| >= batch || |purged| >= batch)
  }

  class Carts {
    const ttl: int
    const retention: int
    const batch: nat
    var carts: map<int, Cart>
    var nextId: int
    var outbox: seq<Announcement>

    constructor (ttl: int, retention: int, batch: nat)
      ensures this.ttl == ttl && this.retention == retention && this.batch == batch
      ensures W() == World(map[], 1, [])
    {
      this.ttl, this.retention, this.batch := ttl, retention, batch;
      carts, nextId, outbox := map[], 1, [];
    }

    function W(): World reads this { World(carts, nextId, outbox) }

    function Cfg(): Config { Config(ttl, retention, batch) }

    /** A cart that is open, or open again for a whole TTL if it was abandoned. */
    function Live(c: Cart, now: int): Cart { if c.status == Abandoned then Cart(Open, now + ttl, None, c.lines) else c }

    /** Cart id, and nothing else, is now c. */
    twostate predicate OnlyCart(id: int, c: Cart) reads this {
      carts == old(carts)[id := c] && nextId == old(nextId) && outbox == old(outbox)
    }

    /** The step committed and did what After says. */
    twostate predicate Commits(s: Step) reads this {
      Enabled(Cfg(), old(W()), s) && W() == After(Cfg(), old(W()), s)
    }

    method CreateCart(now: int) returns (id: int)
      modifies this
      ensures Commits(Create(now)) && id == old(nextId)
      ensures carts == old(carts)[id := Cart(Open, now + ttl, None, 0)] && nextId == id + 1 && outbox == old(outbox)
    {
      id := nextId;
      carts := carts[id := Cart(Open, now + ttl, None, 0)];
      nextId := nextId + 1;
    }

    /** openCartID, on the row the caller has locked. */
    method OpenCart(id: int, now: int) returns (r: Outcome)
      modifies this`carts
      ensures r.NotFound? <==> id !in old(carts)
      ensures r.CheckedOut? <==> id in old(carts) && old(carts)[id].status == Converted
      ensures r.NotFound? || r.CheckedOut? || r.Done?
      ensures !r.Done? ==> carts == old(carts)
      ensures r.Done? ==> Opened(old(carts)[id], now, ttl).Some?
      ensures r.Done? ==> carts == old(carts)[id := Live(old(carts)[id], now)]
      ensures r.Done? ==> carts == old(carts)[id := Opened(old(carts)[id], now, ttl).value]
    {
      if id !in carts { return NotFound; }
      match carts[id].status {
        case Open =>
        case Abandoned =>
          carts := carts[id := Cart(Open, now + ttl, None, carts[id].lines)];
        case Converted =>
          return CheckedOut;
      }
      return Done;
    }

    method TouchCart(id: int, now: int)
      requires id in carts
      modifies this`carts
      ensures carts == old(carts)[id := old(carts)[id].(expiresAt := now + ttl)]
    {
      carts := carts[id := carts[id].(expiresAt := now + ttl)];
    }

    /** refused stands for what the line itself is checked for: stock, price, the offer it came by. */
    method AddLine(id: int, now: int, isNew: bool, refused: bool) returns (r: Outcome)
      modifies this
      ensures r.Done? <==> !refused && id in old(carts) && old(carts)[id].status != Converted
      ensures r.Done? ==> Commits(Mutate(id, now, old(carts)[id].lines + if isNew then 1 else 0, true))
      ensures r.Done? ==> OnlyCart(id, Live(old(carts)[id], now).(
        lines := old(carts)[id].lines + if isNew then 1 else 0, expiresAt := now + ttl))
      ensures !r.Done? ==> W() == old(W())
    {
      var saved := carts;
      r := OpenCart(id, now);
      if !r.Done? { return; }
      if refused {
        carts := saved;
        return Refused;
      }
      carts := carts[id := carts[id].(lines := carts[id].lines + if isNew then 1 else 0)];
      TouchCart(id, now);
    }

    /** settled is how many add-on lines lose the product they were offered with. */
    method RemoveLine(id: int, now: int, found: bool, settled: nat) returns (r: Outcome)
      modifies this
      ensures r.Done? <==>
        found && id in old(carts) && old(carts)[id].status != Converted && settled < old(carts)[id].lines
      ensures r.Done? ==> Commits(Mutate(id, now, old(carts)[id].lines - 1 - settled, true))
      ensures r.Done? ==> OnlyCart(id, Live(old(carts)[id], now).(lines := old(carts)[id].lines - 1 - settled, expiresAt := now + ttl))
      ensures !r.Done? ==> W() == old(W())
    {
      var saved := carts;
      r := OpenCart(id, now);
      if !r.Done? { return; }
      if !found || settled >= carts[id].lines {
        carts := saved;
        return NoSuchLine;
      }
      carts := carts[id := carts[id].(lines := carts[id].lines - 1 - settled)];
      TouchCart(id, now);
    }

    /** The one kind of mutation that revives but does not extend an open cart's life. */
    method SetDiscountCode(id: int, now: int) returns (r: Outcome)
      modifies this
      ensures r.Done? <==> id in old(carts) && old(carts)[id].status != Converted
      ensures r.Done? ==> Commits(Mutate(id, now, old(carts)[id].lines, false))
      ensures r.Done? ==> OnlyCart(id, Live(old(carts)[id], now))
      ensures !r.Done? ==> W() == old(W())
    {
      r := OpenCart(id, now);
    }

    /** The cart's part of a checkout; fails stands for every other reason it rolls back. */
    method CheckOut(id: int, now: int, fails: bool) returns (r: Outcome)
      modifies this
      ensures r.Done? <==> !fails && id in old(carts) && old(carts)[id].status != Converted && old(carts)[id].lines > 0
      ensures r.Done? ==> Commits(Checkout(id, now)) && OnlyCart(id, Live(old(carts)[id], now).(status := Converted))
      ensures !r.Done? ==> W() == old(W())
    {
      var saved := carts;
      r := OpenCart(id, now);
      if !r.Done? { return; }
      if carts[id].lines == 0 || fails {
        r := if carts[id].lines == 0 then CartEmpty else Refused;
        carts := saved;
        return;
      }
      carts := carts[id := carts[id].(status := Converted)];
    }

    method AbandonPass(now: int, locked: set<int>) returns (ids: seq<int>)
      modifies this
      ensures Commits(Abandon(now, ids))
      ensures forall id | id in ids :: id !in locked
      ensures |ids| < batch ==>
        forall id | id in old(carts) && id !in locked && id !in ids ::
          var c := old(carts)[id]; !(c.status == Open && c.expiresAt < now && c.lines >= 1)
      ensures AbandonedAndAnnounced(old(W()), now, ids, W()) && |ids| <= batch
    {
      hide AbandonedAndAnnounced;
      hide NoRepeats;
      var free := set id | id in carts && id !in locked && Abandonable(carts[id], now);
      ids := ClaimOldest(free, map id | id in carts :: carts[id].expiresAt, batch);
      ghost var was := W();
      var events := [];
      for i := 0 to |ids|
        invariant events == Announced(was, now, ids[..i])
      {
        var id := ids[i];
        assert id in ids;
        assert id in free;
        assert ids[..i + 1] == ids[..i] + [ids[i]];
        events := events + [Announcement(ids[i], now, carts[ids[i]].lines)];
      }
      assert ids[..|ids|] == ids;
      carts := map id | id in carts :: if id in ids then Give(carts[id], now) else carts[id];
      outbox := outbox + events;
      assert Commits(Abandon(now, ids));
      hide After;
      hide Announced;
      AbandonLeaves(Cfg(), was, now, ids);
      hide Enabled;
    }

    method SweepExpiredPass(now: int, locked: set<int>) returns (ids: seq<int>, capped: bool)
      modifies this
      ensures Commits(Sweep(now, ids)) && capped == (|ids| >= batch)
      ensures forall id | id in ids :: id in old(carts) && id !in locked
      ensures forall id | id in ids :: var c := old(carts)[id]; c.status == Open && c.expiresAt < now && c.lines == 0
      ensures !capped ==>
        forall id | id in old(carts) && id !in locked && id !in ids ::
          var c := old(carts)[id]; !(c.status == Open && c.expiresAt < now && c.lines == 0)
      ensures carts == (map id | id in old(carts) && id !in ids :: old(carts)[id]) && nextId == old(nextId) && outbox == old(outbox)
    {
      var free := set id | id in carts && id !in locked && Sweepable(carts[id], now);
      ids := ClaimOldest(free, map id | id in carts :: carts[id].expiresAt, batch);
      carts := Without(carts, ids);
      capped := |ids| >= batch;
    }

    method PurgeAbandoned(now: int, locked: set<int>) returns (ids: seq<int>)
      modifies this
      ensures Commits(Purge(now, ids))
      ensures forall id | id in ids :: id in old(carts) && id !in locked
      ensures forall id | id in ids ::
        var c := old(carts)[id]; c.status == Abandoned && c.abandonedAt.Some? && now - c.abandonedAt.value > retention
      ensures |ids| < batch ==>
        forall id | id in old(carts) && id !in locked && id !in ids ::
          var c := old(carts)[id]; !(c.status == Abandoned && c.abandonedAt.Some? && now - c.abandonedAt.value > retention)
      ensures carts == (map id | id in old(carts) && id !in ids :: old(carts)[id]) && nextId == old(nextId) && outbox == old(outbox)
    {
      var free := set id | id in carts && id !in locked && Purgeable(carts[id], now, retention);
      ids := ClaimOldest(free, map id | id in carts :: if carts[id].abandonedAt.Some? then carts[id].abandonedAt.value else 0, batch);
      carts := Without(carts, ids);
    }

    /** Three transactions, each with its own clock and whatever rows others hold locked then. */
    method SweepPass(t1: int, t2: int, t3: int, locked: set<int>) returns (out: CartSweep)
      requires t1 <= t2 <= t3
      modifies this
      ensures out.capped <==> out.abandoned >= batch || out.removed >= batch || out.purged >= batch
      ensures !out.capped ==> forall id | id in carts && id !in locked ::
        var c := carts[id];
        && !(c.status == Open && c.expiresAt < t1)
        && !(c.status == Abandoned && c.abandonedAt.Some? && t3 - c.abandonedAt.value > retention)
      ensures !out.capped ==> forall id | id in old(carts) && id !in locked ::
        var c := old(carts)[id]; c.status == Open && c.expiresAt < t1 && c.lines == 0 ==> id !in carts
      ensures |old(outbox)| <= |outbox| && outbox[..|old(outbox)|] == old(outbox)
      ensures !out.capped && t3 - t1 <= retention ==> forall id | id in old(carts) && id !in locked ::
        var c := old(carts)[id];
        c.status == Open && c.expiresAt < t1 && c.lines >= 1 ==>
          && id in carts && carts[id] == Cart(Abandoned, c.expiresAt, Some(t1), c.lines)
          && Count(outbox[|old(outbox)|..], id) == 1
      ensures exists a, r, p :: Passes(Cfg(), old(W()), t1, t2, t3, a, r, p, W()) && out == Report(batch, a, r, p)
      ensures 0 <= t3 - t1 <= retention ==> forall id :: id in old(carts) && Abandonable(old(carts)[id], t1) ==> id in carts
    {
      var abandoned := AbandonPass(t1, locked);
      var removed, cappedRemoved := SweepExpiredPass(t2, locked);
      var purged := PurgeAbandoned(t3, locked);
      out := CartSweep(|abandoned|, |removed|, |purged|, cappedRemoved || |abandoned| >= batch || |purged| >= batch);
      assert out == Report(batch, abandoned, removed, purged);
      assert Passes(Cfg(), old(W()), t1, t2, t3, abandoned, removed, purged, W());
    }
  }
}
