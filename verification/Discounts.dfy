/**
  Discount rules (core/discounts.go): who may use one, what it takes off, the claim a checkout
  makes on it, the dry run a cart shows, and the automatic rule that saves a basket the most.
*/
module Discounts {
  import opened Basics
  import opened CategoryForest

  datatype Kind = Percentage | Fixed | FreeShipping
  datatype Scope = WholeOrder | Products | Collections | Categories

  datatype Discount = Discount(
    id: int, code: Option<string>, kind: Kind, valueBP: int, valueMinor: int, scope: Scope, targets: set<int>,
    includesFreeShipping: bool, active: bool, autoApply: bool, prepaidOnly: bool, oncePerEmail: bool,
    startsAt: Option<int>, endsAt: Option<int>, minSubtotal: Option<int>, usageLimit: Option<int>, usedCount: int)

  /** product 0 is a line whose product is gone. */
  datatype Line = Line(product: int, total: int)
  datatype Request = Request(email: string, lines: seq<Line>, cashOnDelivery: bool)

  /** What the rules are judged against: the catalog's shape, the clock, and who has used what. */
  datatype Catalog = Catalog(categories: Table, filed: map<int, int>, members: set<(int, int)>)
  datatype Env = Env(catalog: Catalog, now: int, usedBy: set<(int, string)>)

  datatype Reason =
    | NotActive | NotStarted | Expired | UsedUp | PrepaidOnly | BelowMinimum | NoCode | ScopedFreeShipping
    | NoTargets | CoversNothing | EmailUsed | NoSuchCode

  /** A mask of None means every line. */
  datatype Verdict = Refused(why: Reason) | Eligible(mask: Option<seq<bool>>, base: int)

  // ------------------------------------------------------------------ text

  function FoldChar(c: char): char { if 'A' <= c <= 'Z' then c - 'A' + 'a' else c }

  function Fold(s: string): string { seq(|s|, i requires 0 <= i < |s| => FoldChar(s[i])) }

  /** Unicode's white space. */
  predicate IsSpace(c: char) {
    || c == ' ' || '\t' <= c <= '\r' || c == '\U{85}' || c == '\U{A0}' || c == '\U{1680}' || '\U{2000}' <= c <= '\U{200A}'
    || c == '\U{2028}' || c == '\U{2029}' || c == '\U{202F}' || c == '\U{205F}' || c == '\U{3000}'
  }

  function TrimLeft(s: string): string {
    if s != [] && IsSpace(s[0]) then TrimLeft(s[1..]) else s
  }

  function TrimRight(s: string): string {
    if s != [] && IsSpace(s[|s| - 1]) then TrimRight(s[..|s| - 1]) else s
  }

  function Trim(s: string): string { TrimRight(TrimLeft(s)) }

  // ------------------------------------------------------------------ what a rule covers

  function Total(lines: seq<Line>): int {
    if lines == [] then 0 else Total(lines[..|lines| - 1]) + lines[|lines| - 1].total
  }

  /** matchedProducts: one product, one rule. */
  predicate Reaches(cat: Catalog, d: Discount, product: int) {
    match d.scope
    case WholeOrder => true
    case Products => product in d.targets
    case Collections => exists c :: c in d.targets && (product, c) in cat.members
    case Categories => product in cat.filed && MatchedUp(cat.categories, cat.filed[product], d.targets)
  }

  predicate Covers(cat: Catalog, d: Discount, l: Line) { d.scope == WholeOrder || (l.product != 0 && Reaches(cat, d, l.product)) }

  function CoveredTotal(cat: Catalog, d: Discount, lines: seq<Line>): int {
    if lines == [] then 0 else
    var last := lines[|lines| - 1];
    CoveredTotal(cat, d, lines[..|lines| - 1]) + if Covers(cat, d, last) then last.total else 0
  }

  function Mask(cat: Catalog, d: Discount, lines: seq<Line>): Option<seq<bool>> {
    if d.scope == WholeOrder then None
    else Some(seq(|lines|, i requires 0 <= i < |lines| => Covers(cat, d, lines[i])))
  }

  /** What the lines a mask lets through add up to. */
  function MaskedTotal(lines: seq<Line>, mask: Option<seq<bool>>): int
    requires mask.Some? ==> |mask.value| == |lines|
  {
    if lines == [] then 0 else
    var n := |lines| - 1;
    MaskedTotal(lines[..n], if mask.None? then None else Some(mask.value[..n]))
      + if mask.None? || mask.value[n] then lines[n].total else 0
  }

  method EligibleFor(cat: Catalog, d: Discount, lines: seq<Line>) returns (mask: Option<seq<bool>>, base: int)
    ensures mask == Mask(cat, d, lines) && base == CoveredTotal(cat, d, lines)
  {
    if d.scope == WholeOrder {
      WholeOrderCoversAll(cat, d, lines);
      return None, Total(lines);
    }
    var ids: set<int> := {};
    for i := 0 to |lines|
      invariant ids == set j | 0 <= j < i && lines[j].product != 0 :: lines[j].product
    {
      if lines[i].product != 0 {
        ids := ids + {lines[i].product};
      }
    }
    var matched := set p | p in ids && Reaches(cat, d, p);
    var bits := [];
    base := 0;
    for i := 0 to |lines|
      invariant bits == seq(i, j requires 0 <= j < i => Covers(cat, d, lines[j]))
      invariant base == CoveredTotal(cat, d, lines[..i])
    {
      assert lines[..i + 1][..i] == lines[..i];
      assert lines[i].product in matched <==> Covers(cat, d, lines[i]);
      bits := bits + [lines[i].product in matched];
      if lines[i].product in matched {
        base := base + lines[i].total;
      }
    }
    assert lines[..|lines|] == lines;
    mask := Some(bits);
  }

  lemma {:induction false} WholeOrderCoversAll(cat: Catalog, d: Discount, lines: seq<Line>)
    requires d.scope == WholeOrder
    ensures CoveredTotal(cat, d, lines) == Total(lines)
  {
    if lines != [] {
      WholeOrderCoversAll(cat, d, lines[..|lines| - 1]);
    }
  }

  /** The base is what the mask's lines add up to, so tax and refunds see the same part of the basket. */
  lemma {:induction false} BaseIsMaskedTotal(cat: Catalog, d: Discount, lines: seq<Line>)
    ensures MaskedTotal(lines, Mask(cat, d, lines)) == CoveredTotal(cat, d, lines)
  {
    if lines != [] {
      var n := |lines| - 1;
      BaseIsMaskedTotal(cat, d, lines[..n]);
      if d.scope != WholeOrder {
        assert Mask(cat, d, lines).value[..n] == Mask(cat, d, lines[..n]).value;
      }
    }
  }

  ghost predicate Priced(lines: seq<Line>) { forall i :: 0 <= i < |lines| ==> lines[i].total >= 0 }

  lemma {:induction false} TotalNotNegative(lines: seq<Line>)
    requires Priced(lines)
    ensures Total(lines) >= 0
  {
    if lines != [] {
      TotalNotNegative(lines[..|lines| - 1]);
    }
  }

  lemma {:induction false} CoveredWithinTotal(cat: Catalog, d: Discount, lines: seq<Line>)
    requires Priced(lines)
    ensures 0 <= CoveredTotal(cat, d, lines) <= Total(lines)
  {
    if lines != [] {
      CoveredWithinTotal(cat, d, lines[..|lines| - 1]);
    }
  }

  // ------------------------------------------------------------------ may it be used

  function Judge(env: Env, d: Discount, req: Request): Verdict {
    if !d.active then Refused(NotActive)
    else if d.startsAt.Some? && env.now < d.startsAt.value then Refused(NotStarted)
    else if d.endsAt.Some? && env.now >= d.endsAt.value then Refused(Expired)
    else if d.usageLimit.Some? && d.usedCount >= d.usageLimit.value then Refused(UsedUp)
    else if d.prepaidOnly && req.cashOnDelivery then Refused(PrepaidOnly)
    else if d.minSubtotal.Some? && Total(req.lines) < d.minSubtotal.value then Refused(BelowMinimum)
    else if d.code.None? || Trim(d.code.value) == "" then Refused(NoCode)
    else if d.kind == FreeShipping && d.scope != WholeOrder then Refused(ScopedFreeShipping)
    else
      var base := CoveredTotal(env.catalog, d, req.lines);
      if d.scope != WholeOrder && base == 0 then Refused(if d.targets == {} then NoTargets else CoversNothing)
      else if d.oncePerEmail && Trim(req.email) != "" && (d.id, Fold(req.email)) in env.usedBy then Refused(EmailUsed)
      else Eligible(Mask(env.catalog, d, req.lines), base)
  }

  /** The rule is running: switched on, inside its window, with a use left. */
  predicate Running(d: Discount, now: int) {
    && d.active && (d.startsAt.None? || d.startsAt.value <= now) && (d.endsAt.None? || now < d.endsAt.value)
    && (d.usageLimit.None? || d.usedCount < d.usageLimit.value)
  }

  /**
    Who may use a rule: exactly the baskets it is running for, that reach its minimum as a whole,
    pay the way it asks, hold something it covers, and whose address has not had it.
  */
  lemma EligibleExactly(env: Env, d: Discount, req: Request)
    ensures Judge(env, d, req).Eligible? <==>
      && Running(d, env.now)
      && (d.prepaidOnly ==> !req.cashOnDelivery)
      && (d.minSubtotal.Some? ==> Total(req.lines) >= d.minSubtotal.value)
      && d.code.Some? && Trim(d.code.value) != ""
      && (d.scope != WholeOrder ==> d.kind != FreeShipping && CoveredTotal(env.catalog, d, req.lines) != 0)
      && (d.oncePerEmail ==> Trim(req.email) == "" || (d.id, Fold(req.email)) !in env.usedBy)
  {
    hide CoveredTotal;
    hide Total;
    hide Mask;
    hide Trim;
    hide Fold;
  }

  lemma JudgedBase(env: Env, d: Discount, req: Request)
    requires Judge(env, d, req).Eligible?
    ensures Judge(env, d, req).base == CoveredTotal(env.catalog, d, req.lines)
  {
    hide CoveredTotal;
    hide Mask;
    hide Total;
    hide Trim;
    hide Fold;
  }

  // ------------------------------------------------------------------ what it takes off

  function Clamp(amount: int, base: int): int {
    if amount > base then (if base < 0 then 0 else base) else if amount < 0 then 0 else amount
  }

  /** Half a minor unit and over rounds up; money and basis points are never negative here. */
  function PercentOf(base: int, bp: int): int { (base * bp + 5000) / 10000 }

  function Amount(d: Discount, base: int): int {
    Clamp(match d.kind case Percentage => PercentOf(base, d.valueBP) case Fixed => d.valueMinor case FreeShipping => 0, base)
  }

  predicate ShipsFree(d: Discount) { d.kind == FreeShipping || d.includesFreeShipping }

  /** validateDiscount's rules on the value, which the table's own constraints repeat. */
  predicate ValueFits(d: Discount) {
    match d.kind
    case Percentage => 1 <= d.valueBP <= 10000
    case Fixed => d.valueMinor > 0
    case FreeShipping => true
  }

  lemma PercentWithin(base: int, bp: int)
    requires base >= 0 && 0 <= bp <= 10000
    ensures 0 <= PercentOf(base, bp) <= base
    ensures -5000 < 10000 * PercentOf(base, bp) - base * bp <= 5000
  {
    var p := base * bp;
    assert 0 <= p <= base * 10000 by { Product(base, bp, 10000); }
  }

  lemma Product(a: int, b: int, c: int)
    requires a >= 0 && 0 <= b <= c
    ensures 0 <= a * b <= a * c
  {
  }

  /** Never more than the part of the basket the rule covers, and so never more than the basket. */
  lemma AmountWithin(cat: Catalog, d: Discount, lines: seq<Line>)
    requires Priced(lines)
    ensures 0 <= Amount(d, CoveredTotal(cat, d, lines)) <= CoveredTotal(cat, d, lines) <= Total(lines)
  {
    CoveredWithinTotal(cat, d, lines);
  }

  /** A percentage and a fixed amount both grow with what they are taken off, and never faster. */
  lemma AmountGrowsSlower(d: Discount, base: int, more: int)
    requires ValueFits(d) && base >= 0 && more >= 0
    ensures Amount(d, base) <= Amount(d, base + more) <= Amount(d, base) + more
  {
    if d.kind == Percentage {
      assert 0 <= more * d.valueBP <= more * 10000 by { Product(more, d.valueBP, 10000); }
      assert (base + more) * d.valueBP == base * d.valueBP + more * d.valueBP;
      PercentWithin(base, d.valueBP);
      PercentWithin(base + more, d.valueBP);
      SumRoundsSlower(base * d.valueBP, more * d.valueBP, more);
    }
  }

  lemma SumRoundsSlower(a: int, b: int, more: int)
    requires 0 <= b <= 10000 * more
    ensures (a + 5000) / 10000 <= (a + b + 5000) / 10000 <= (a + 5000) / 10000 + more
  {
  }

  // ------------------------------------------------------------------ order does not matter

  lemma {:induction false} CoveredConcat(cat: Catalog, d: Discount, a: seq<Line>, b: seq<Line>)
    ensures CoveredTotal(cat, d, a + b) == CoveredTotal(cat, d, a) + CoveredTotal(cat, d, b)
    ensures Total(a + b) == Total(a) + Total(b)
  {
    if b == [] {
      assert a + b == a;
    } else {
      var m := b[..|b| - 1];
      assert (a + b)[..|a + b| - 1] == a + m;
      CoveredConcat(cat, d, a, m);
    }
  }

  /** A line adds what it is worth wherever it stands. */
  lemma CoveredWithOne(cat: Catalog, d: Discount, a: seq<Line>, x: Line, b: seq<Line>)
    ensures CoveredTotal(cat, d, a + ([x] + b)) == CoveredTotal(cat, d, a + b) + if Covers(cat, d, x) then x.total else 0
    ensures Total(a + ([x] + b)) == Total(a + b) + x.total
  {
    CoveredConcat(cat, d, a, b);
    CoveredConcat(cat, d, a, [x] + b);
    CoveredConcat(cat, d, [x], b);
    assert [x][..0] == [];
  }

  /** Two readings of the same basket, in whatever order, are worth the same to a rule. */
  lemma {:induction false} SameBasketSameBase(cat: Catalog, d: Discount, a: seq<Line>, b: seq<Line>)
    requires multiset(a) == multiset(b)
    ensures CoveredTotal(cat, d, a) == CoveredTotal(cat, d, b) && Total(a) == Total(b)
    decreases |a|
  {
    if a == [] {
      assert |multiset(b)| == 0;
      assert b == [];
    } else {
      hide CoveredTotal;
      hide Total;
      var x := a[0];
      assert x in multiset(a);
      var a1, a2 := SplitAt(a, x);
      var b1, b2 := SplitAt(b, x);
      TakenOut(a1, x, a2);
      TakenOut(b1, x, b2);
      SameBasketSameBase(cat, d, a1 + a2, b1 + b2);
      CoveredWithOne(cat, d, a1, x, a2);
      CoveredWithOne(cat, d, b1, x, b2);
    }
  }

  /**
    Goods put into a basket never cost it its rule, never make the rule take off less, and are never
    free: what is left to pay for the goods does not fall.
  */
  lemma BiggerBasketKeepsTheRule(env: Env, d: Discount, req: Request, added: seq<Line>)
    requires Priced(req.lines) && Priced(added) && ValueFits(d) && Judge(env, d, req).Eligible?
    ensures var more := req.(lines := req.lines + added);
      && Judge(env, d, more).Eligible?
      && var was, now := Amount(d, Judge(env, d, req).base), Amount(d, Judge(env, d, more).base);
         was <= now && Total(req.lines) - was <= Total(more.lines) - now
  {
    var more := req.(lines := req.lines + added);
    CoveredConcat(env.catalog, d, req.lines, added);
    CoveredWithinTotal(env.catalog, d, req.lines);
    CoveredWithinTotal(env.catalog, d, added);
    EligibleExactly(env, d, req);
    EligibleExactly(env, d, more);
    JudgedBase(env, d, req);
    JudgedBase(env, d, more);
    AmountGrowsSlower(d, CoveredTotal(env.catalog, d, req.lines), CoveredTotal(env.catalog, d, added));
    hide Judge;
    hide CoveredTotal;
    hide Total;
    hide Amount;
    hide Trim;
    hide Fold;
  }

  // ------------------------------------------------------------------ the table of rules

  /** Ids rise, codes are unique once folded, and no stored code has space around it. */
  ghost predicate TableOk(rows: seq<Discount>) {
    && (forall i, j :: 0 <= i < j < |rows| ==> rows[i].id < rows[j].id)
    && (forall i, j :: 0 <= i < j < |rows| && rows[i].code.Some? && rows[j].code.Some? ==>
          Fold(rows[i].code.value) != Fold(rows[j].code.value))
    && forall i :: 0 <= i < |rows| ==> CodeTrimmed(rows[i])
  }

  ghost predicate CodeTrimmed(d: Discount) { d.code.Some? ==> Trim(d.code.value) == d.code.value }

  predicate Answers(d: Discount, code: string) { d.code.Some? && Fold(d.code.value) == Fold(code) }

  /** WHERE lower(code) = lower($1). */
  function Lookup(rows: seq<Discount>, code: string): (i: nat)
    ensures i <= |rows| && (i < |rows| ==> Answers(rows[i], code)) && forall j :: 0 <= j < i ==> !Answers(rows[j], code)
  {
    if rows == [] || Answers(rows[0], code) then 0 else 1 + Lookup(rows[1..], code)
  }

  datatype Taken = Taken(row: nat, mask: Option<seq<bool>>, amount: int, shipsFree: bool)
  datatype Outcome = NoCodeGiven | Denied(why: Reason) | Applied(taken: Taken)

  /** What applyTx answers; an applied rule has one use more afterwards. */
  function Apply(rows: seq<Discount>, env: Env, req: Request, code: string): Outcome {
    if Trim(code) == "" then NoCodeGiven else
    var i := Lookup(rows, Trim(code));
    if i == |rows| then Denied(NoSuchCode) else
    match Judge(env, rows[i], req)
    case Refused(why) => Denied(why)
    case Eligible(mask, base) => Applied(Taken(i, mask, Amount(rows[i], base), ShipsFree(rows[i])))
  }

  function Claimed(rows: seq<Discount>, i: nat): seq<Discount>
    requires i < |rows|
  {
    rows[i := rows[i].(usedCount := rows[i].usedCount + 1)]
  }

  /** Preview: the same judgement with no method chosen, and nothing claimed. */
  function Preview(rows: seq<Discount>, env: Env, email: string, lines: seq<Line>, code: string): Outcome {
    if Trim(code) == "" then Denied(NoSuchCode) else
    var i := Lookup(rows, Trim(code));
    if i == |rows| then Denied(NoSuchCode) else
    match Judge(env, rows[i], Request(email, lines, false))
    case Refused(why) => Denied(why)
    case Eligible(mask, base) => Applied(Taken(i, mask, Amount(rows[i], base), ShipsFree(rows[i])))
  }

  /** The only thing the method can change is a prepaid-only rule's refusal of cash on delivery. */
  lemma VerdictIgnoresLineOrder(env: Env, d: Discount, a: Request, b: Request)
    requires multiset(a.lines) == multiset(b.lines) && a.email == b.email
    requires a.cashOnDelivery == b.cashOnDelivery || !(d.prepaidOnly && (a.cashOnDelivery || b.cashOnDelivery))
    ensures Judge(env, d, a).Eligible? <==> Judge(env, d, b).Eligible?
    ensures Judge(env, d, a).Eligible? ==> Judge(env, d, a).base == Judge(env, d, b).base
    ensures Judge(env, d, a).Refused? ==> Judge(env, d, a) == Judge(env, d, b)
  {
    SameBasketSameBase(env.catalog, d, a.lines, b.lines);
    hide CoveredTotal;
    hide Total;
    hide Mask;
    hide Trim;
    hide Fold;
  }

  /** One rule, one amount, one answer on delivery; the masks follow each reading's own line order. */
  predicate SameTaken(a: Taken, b: Taken) { a.row == b.row && a.amount == b.amount && a.shipsFree == b.shipsFree }

  /**
    The cart's preview reads its lines in cart order and checkout in variant order; over the same
    basket they agree. Whatever checkout accepts the preview shows, at the same amount; and what
    the preview shows checkout accepts, unless the rule is prepaid-only and the method is cash on
    delivery - which is exactly when it does not.
  */
  lemma PreviewIsWhatCheckoutTakes(rows: seq<Discount>, env: Env, req: Request, lines: seq<Line>, code: string)
    requires multiset(lines) == multiset(req.lines) && Trim(code) != ""
    ensures var shown, taken := Preview(rows, env, req.email, lines, code), Apply(rows, env, req, code);
      && (taken.Applied? ==> shown.Applied? && SameTaken(shown.taken, taken.taken))
      && (shown.Applied? ==> (taken.Applied? <==> !(rows[shown.taken.row].prepaidOnly && req.cashOnDelivery)))
  {
    var i := Lookup(rows, Trim(code));
    if i < |rows| {
      var d := rows[i];
      var prepaid := Request(req.email, req.lines, false);
      VerdictIgnoresLineOrder(env, d, Request(req.email, lines, false), prepaid);
      hide Judge;
      hide Amount;
      hide Lookup;
    }
  }

  /** Under the row's lock the conditional UPDATE never finds the last use gone. */
  lemma ClaimNeverFails(rows: seq<Discount>, env: Env, req: Request, code: string)
    requires Apply(rows, env, req, code).Applied?
    ensures var d := rows[Apply(rows, env, req, code).taken.row]; d.usageLimit.None? || d.usedCount < d.usageLimit.value
  {
    hide CoveredTotal;
    hide Mask;
    hide Amount;
  }

  // ------------------------------------------------------------------ the best automatic rule

  /** bestAutoCode's own query. */
  predicate Auto(d: Discount, now: int) {
    && d.autoApply && d.active && d.code.Some?
    && (d.startsAt.None? || d.startsAt.value <= now) && (d.endsAt.None? || d.endsAt.value > now)
    && (d.usageLimit.None? || d.usedCount < d.usageLimit.value)
  }

  /** The automatic rules this basket qualifies for. */
  predicate Candidate(env: Env, d: Discount, req: Request) { Auto(d, env.now) && Judge(env, d, req).Eligible? }

  /** What a rule the basket qualifies for is worth: its amount, and the delivery it makes free. */
  function Worth(env: Env, d: Discount, req: Request, shipping: int): int
    requires Judge(env, d, req).Eligible?
  {
    Amount(d, Judge(env, d, req).base) + if ShipsFree(d) then shipping else 0
  }

  /** The first n rules, best so far: the row and what it is worth. */
  function BestOf(rows: seq<Discount>, env: Env, req: Request, shipping: int, n: nat): (Option<nat>, int)
    requires n <= |rows|
    decreases n
  {
    if n == 0 then (None, 0) else
    var best := BestOf(rows, env, req, shipping, n - 1);
    if Candidate(env, rows[n - 1], req) && Worth(env, rows[n - 1], req, shipping) > best.1
    then (Some(n - 1), Worth(env, rows[n - 1], req, shipping)) else best
  }

  method BestAutoCode(rows: seq<Discount>, env: Env, req: Request, shipping: int) returns (code: string, row: Option<nat>)
    ensures row == BestOf(rows, env, req, shipping, |rows|).0
    ensures code == if row.Some? && row.value < |rows| && rows[row.value].code.Some? then rows[row.value].code.value else ""
  {
    code, row := "", None;
    var bestValue := 0;
    for i := 0 to |rows|
      invariant (row, bestValue) == BestOf(rows, env, req, shipping, i)
      invariant row.Some? ==> row.value < i && rows[row.value].code.Some?
      invariant code == if row.Some? then rows[row.value].code.value else ""
    {
      var d := rows[i];
      if !Auto(d, env.now) {
        continue;
      }
      var verdict := Judge(env, d, req);
      if verdict.Refused? {
        continue;
      }
      var value := Amount(d, verdict.base);
      if ShipsFree(d) {
        value := value + shipping;
      }
      if value > bestValue {
        code, row, bestValue := d.code.value, Some(i), value;
      }
    }
  }

  lemma {:induction false} BestIsBest(rows: seq<Discount>, env: Env, req: Request, shipping: int, n: nat)
    requires n <= |rows|
    ensures var (row, value) := BestOf(rows, env, req, shipping, n);
      && value >= 0
      && (row.None? ==> value == 0)
      && (row.Some? ==> row.value < n && value > 0)
      && (row.Some? ==> Candidate(env, rows[row.value], req) && Worth(env, rows[row.value], req, shipping) == value)
      && (forall j :: 0 <= j < n && Candidate(env, rows[j], req) ==>
            Worth(env, rows[j], req, shipping) <= value)
      && (forall j :: 0 <= j < n && row.Some? && j < row.value && Candidate(env, rows[j], req) ==>
            Worth(env, rows[j], req, shipping) < value)
    decreases n
  {
    if n > 0 {
      hide Candidate;
      hide Worth;
      BestIsBest(rows, env, req, shipping, n - 1);
    }
  }

  /** What the shopper pays for goods and delivery once a rule is taken off. */
  function PaysWith(env: Env, d: Discount, req: Request, shipping: int): int
    requires Judge(env, d, req).Eligible?
  {
    Total(req.lines) + (if ShipsFree(d) then 0 else shipping) - Amount(d, Judge(env, d, req).base)
  }

  ghost predicate NoneSaves(rows: seq<Discount>, env: Env, req: Request, shipping: int) {
    forall j :: 0 <= j < |rows| && Candidate(env, rows[j], req) ==>
      PaysWith(env, rows[j], req, shipping) >= Total(req.lines) + shipping
  }

  /** Row i saves something, no rule saves more, and none that saves as much is older. */
  ghost predicate LeavesLeast(rows: seq<Discount>, env: Env, req: Request, shipping: int, i: nat)
    requires i < |rows| && Candidate(env, rows[i], req)
  {
    var least := PaysWith(env, rows[i], req, shipping);
    && least < Total(req.lines) + shipping
    && forall j :: 0 <= j < |rows| && Candidate(env, rows[j], req) ==>
         && least <= PaysWith(env, rows[j], req, shipping)
         && (least == PaysWith(env, rows[j], req, shipping) ==> rows[i].id <= rows[j].id)
  }

  /**
    Of all the automatic rules a basket qualifies for, the one chosen leaves the least to pay; of
    equals the oldest; and none is chosen only when none saves anything.
  */
  lemma BestPaysLeast(rows: seq<Discount>, env: Env, req: Request, shipping: int)
    requires TableOk(rows)
    ensures match BestOf(rows, env, req, shipping, |rows|).0
      case None => NoneSaves(rows, env, req, shipping)
      case Some(i) => i < |rows| && Candidate(env, rows[i], req) && LeavesLeast(rows, env, req, shipping, i)
  {
    BestIsBest(rows, env, req, shipping, |rows|);
    forall j | 0 <= j < |rows| && Candidate(env, rows[j], req)
      ensures PaysWith(env, rows[j], req, shipping) == Total(req.lines) + shipping - Worth(env, rows[j], req, shipping)
    {
    }
    hide Judge;
    hide Candidate;
    hide PaysWith;
    hide Worth;
    hide Total;
    hide BestOf;
  }

  /** The same rules, with other checkouts' claims come in between. */
  ghost predicate OnlyClaims(rows: seq<Discount>, later: seq<Discount>) {
    |later| == |rows| && forall i :: 0 <= i < |rows| ==> later[i] == rows[i].(usedCount := later[i].usedCount)
  }

  lemma CodeFindsItsRow(rows: seq<Discount>, i: nat)
    requires TableOk(rows) && i < |rows| && rows[i].code.Some?
    ensures Lookup(rows, rows[i].code.value) == i
  {
    hide Fold;
    hide Trim;
  }

  lemma StillJudged(env: Env, d: Discount, later: Discount, req: Request)
    requires later == d.(usedCount := later.usedCount) && Judge(env, d, req).Eligible?
    ensures Judge(env, later, req).Eligible? <==> later.usageLimit.None? || later.usedCount < later.usageLimit.value
    ensures Judge(env, later, req).Eligible? ==> Judge(env, later, req).base == Judge(env, d, req).base
  {
    OnlyCountDiffers(env.catalog, d, later, req.lines);
    hide CoveredTotal;
    hide Mask;
    hide Total;
    hide Trim;
    hide Fold;
  }

  lemma {:induction false} OnlyCountDiffers(cat: Catalog, d: Discount, later: Discount, lines: seq<Line>)
    requires later == d.(usedCount := later.usedCount)
    ensures CoveredTotal(cat, later, lines) == CoveredTotal(cat, d, lines)
  {
    if lines != [] {
      OnlyCountDiffers(cat, d, later, lines[..|lines| - 1]);
    }
  }

  /**
    The chosen code is accepted if nothing comes between; choosing takes no lock, so if other
    checkouts' claims do come between, it is accepted if and only if the rule still has a use left.
  */
  lemma ChosenCodeIsAccepted(rows: seq<Discount>, later: seq<Discount>, env: Env, req: Request, shipping: int)
    requires TableOk(rows) && OnlyClaims(rows, later) && BestOf(rows, env, req, shipping, |rows|).0.Some?
    ensures var i := BestOf(rows, env, req, shipping, |rows|).0.value;
      && i < |rows| && rows[i].code.Some? && Judge(env, rows[i], req).Eligible?
      && var now := Apply(later, env, req, rows[i].code.value);
         && (now.Applied? <==> later[i].usageLimit.None? || later[i].usedCount < later[i].usageLimit.value)
         && (now.Applied? ==> now.taken.row == i && now.taken.amount == Amount(rows[i], Judge(env, rows[i], req).base))
  {
    BestIsBest(rows, env, req, shipping, |rows|);
    var i := BestOf(rows, env, req, shipping, |rows|).0.value;
    var code := rows[i].code.value;
    assert CodeTrimmed(rows[i]);
    CodeFindsItsRow(rows, i);
    LookupIgnoresCounts(rows, later, code);
    StillJudged(env, rows[i], later[i], req);
    hide Judge;
    hide BestOf;
    hide Lookup;
    hide Auto;
    hide Trim;
    hide Worth;
    hide TableOk;
  }

  lemma LookupIgnoresCounts(rows: seq<Discount>, later: seq<Discount>, code: string)
    requires OnlyClaims(rows, later)
    ensures Lookup(later, code) == Lookup(rows, code)
  {
    hide Fold;
    forall i | 0 <= i < |rows| ensures Answers(later[i], code) <==> Answers(rows[i], code) {
    }
  }

  // ------------------------------------------------------------------ the table, in place

  class RuleTable {
    var rows: seq<Discount>

    /** applyTx: judged under the row's lock, then claimed with a conditional UPDATE. */
    method ApplyTx(env: Env, req: Request, code: string) returns (r: Outcome)
      modifies this
      ensures r == Apply(old(rows), env, req, code)
      ensures rows == if r.Applied? then Claimed(old(rows), r.taken.row) else old(rows)
    {
      var trimmed := Trim(code);
      if trimmed == "" {
        return NoCodeGiven;
      }
      var i := Lookup(rows, trimmed);
      if i == |rows| {
        return Denied(NoSuchCode);
      }
      var verdict := Judge(env, rows[i], req);
      if verdict.Refused? {
        return Denied(verdict.why);
      }
      ClaimNeverFails(rows, env, req, code);
      if rows[i].usageLimit.Some? && rows[i].usedCount >= rows[i].usageLimit.value {
        return Denied(UsedUp);
      }
      r := Applied(Taken(i, verdict.mask, Amount(rows[i], verdict.base), ShipsFree(rows[i])));
      rows := Claimed(rows, i);
    }
  }

  /** A claim keeps the table well formed, adds one use to one rule, and touches no other. */
  lemma ClaimAddsOneUse(rows: seq<Discount>, env: Env, req: Request, code: string)
    requires TableOk(rows) && Apply(rows, env, req, code).Applied?
    ensures var i := Apply(rows, env, req, code).taken.row; var after := Claimed(rows, i);
      && TableOk(after) && OnlyClaims(rows, after)
      && forall j :: 0 <= j < |rows| ==> after[j].usedCount == rows[j].usedCount + if j == i then 1 else 0
  {
    var i := Apply(rows, env, req, code).taken.row;
    hide Fold;
    hide Trim;
    forall j | 0 <= j < |rows| ensures CodeTrimmed(Claimed(rows, i)[j]) {
      assert CodeTrimmed(rows[j]);
    }
  }
}
