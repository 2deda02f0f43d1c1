/**
  What a discount rule does to a basket, said on the rule's own fields (core/discounts.go): which lines it
  covers, which refusal a shopper is given, what comes off and whether delivery is free.
*/
module DiscountOutcomes {
  import opened Basics
  import opened CategoryForest
  import opened Discounts

  // ------------------------------------------------------------------ codes as they are typed

  /** The same letter, whichever case either is in. */
  predicate SameLetter(a: char, b: char) {
    a == b || ('a' <= a <= 'z' && b == a - 'a' + 'A') || ('a' <= b <= 'z' && a == b - 'a' + 'A')
  }

  predicate SameText(a: string, b: string) { |a| == |b| && forall k :: 0 <= k < |a| ==> SameLetter(a[k], b[k]) }

  /** Text is compared letter by letter with case ignored, and nothing else ignored. */
  lemma FoldedIsSameText(a: string, b: string)
    ensures Fold(a) == Fold(b) <==> SameText(a, b)
  {
    if SameText(a, b) {
      assert forall k :: 0 <= k < |a| ==> SameLetter(a[k], b[k]) && Fold(a)[k] == Fold(b)[k];
    } else if |a| == |b| {
      var k :| 0 <= k < |a| && !SameLetter(a[k], b[k]);
      assert Fold(a)[k] != Fold(b)[k];
    } else {
      assert |Fold(a)| != |Fold(b)|;
    }
  }

  /** What counts as blank around typed text. */
  predicate Blank(c: char) {
    || c == ' ' || '\t' <= c <= '\r' || c == '\U{85}' || c == '\U{A0}' || c == '\U{1680}' || '\U{2000}' <= c <= '\U{200A}'
    || c == '\U{2028}' || c == '\U{2029}' || c == '\U{202F}' || c == '\U{205F}' || c == '\U{3000}'
  }

  lemma {:induction false} BlankAtTheEnd(s: string, c: char)
    requires IsSpace(c)
    ensures TrimLeft(s + [c]) == if TrimLeft(s) == [] then [] else TrimLeft(s) + [c]
  {
    if s == [] {
      assert s + [c] == [c] && [c][1..] == [];
    } else if IsSpace(s[0]) {
      assert (s + [c])[1..] == s[1..] + [c];
      BlankAtTheEnd(s[1..], c);
    }
  }

  /** Blanks around text go, one by one, from either end; nothing else does. */
  lemma OnlyBlanksGo(c: char, s: string)
    ensures Blank(c) ==> Trim([c] + s) == Trim(s) && Trim(s + [c]) == Trim(s)
    ensures !Blank(c) ==> Trim([c]) == [c]
  {
    assert IsSpace(c) <==> Blank(c);
    assert ([c] + s)[1..] == s;
    if IsSpace(c) {
      BlankAtTheEnd(s, c);
      assert TrimLeft(s) != [] ==> (TrimLeft(s) + [c])[..|TrimLeft(s)|] == TrimLeft(s);
    }
  }

  /** A code is found however it is cased and whatever blank space is typed around it. */
  lemma CodeIsFound(rows: seq<Discount>, i: nat, typed: string)
    requires TableOk(rows) && i < |rows| && rows[i].code.Some? && SameText(Trim(typed), rows[i].code.value)
    ensures Lookup(rows, Trim(typed)) == i
  {
    FoldedIsSameText(Trim(typed), rows[i].code.value);
    hide Fold;
    hide Trim;
    hide SameText;
  }

  // ------------------------------------------------------------------ what a rule covers

  /** The part of the basket a rule is for: everything, or lines of products it reaches by name, collection or category. */
  lemma CoversExactly(cat: Catalog, d: Discount, l: Line)
    requires Forest(cat.categories)
    ensures Covers(cat, d, l) <==> match d.scope
      case WholeOrder => true
      case Products => l.product != 0 && l.product in d.targets
      case Collections => l.product != 0 && exists c :: c in d.targets && (l.product, c) in cat.members
      case Categories => l.product != 0 && l.product in cat.filed
                         && exists a :: a in d.targets && IsAbove(cat.categories, a, cat.filed[l.product])
  {
    if d.scope == Categories && l.product in cat.filed {
      MatchIsListingIsAncestry(cat.categories, cat.filed[l.product], d.targets);
    }
    hide IsAbove;
    hide MatchedUp;
    hide ListedDown;
  }

  // ------------------------------------------------------------------ why not

  /**
    The one reason a shopper is given: each exactly when its own check fails and none before it did, in the
    order they are made.
  */
  lemma RefusedForTheFirstReason(env: Env, d: Discount, req: Request, why: Reason)
    ensures var early, late := d.startsAt.Some? && d.startsAt.value > env.now, d.endsAt.Some? && d.endsAt.value <= env.now;
      var spent := d.usageLimit.Some? && d.usageLimit.value <= d.usedCount;
      var cod, small := d.prepaidOnly && req.cashOnDelivery, d.minSubtotal.Some? && d.minSubtotal.value > Total(req.lines);
      var nameless, ships := d.code.None? || Trim(d.code.value) == "", d.kind == FreeShipping && d.scope != WholeOrder;
      var empty := d.scope != WholeOrder && CoveredTotal(env.catalog, d, req.lines) == 0;
      var had := d.oncePerEmail && Trim(req.email) != "" && (d.id, Fold(req.email)) in env.usedBy;
      var running := d.active && !early && !late && !spent;
      var allowed := running && !cod && !small && !nameless && !ships;
      (Judge(env, d, req) == Refused(why) <==> match why
        case NotActive => !d.active
        case NotStarted => d.active && early
        case Expired => d.active && !early && late
        case UsedUp => d.active && !early && !late && spent
        case PrepaidOnly => running && cod
        case BelowMinimum => running && !cod && small
        case NoCode => running && !cod && !small && nameless
        case ScopedFreeShipping => running && !cod && !small && !nameless && ships
        case NoTargets => allowed && empty && d.targets == {}
        case CoversNothing => allowed && empty && d.targets != {}
        case EmailUsed => allowed && !empty && had
        case NoSuchCode => false)
  {
    hide CoveredTotal;
    hide Total;
    hide Mask;
    hide Trim;
    hide Fold;
  }

  // ------------------------------------------------------------------ what comes off

  /**
    What a rule takes off the part it covers: a percentage to the nearest minor unit, a half upwards; a
    fixed amount as far as there is something to take it off; nothing for free delivery.
  */
  lemma AmountExactly(d: Discount, base: int)
    requires ValueFits(d) && base >= 0
    ensures d.kind == Percentage ==> -5000 < 10000 * Amount(d, base) - base * d.valueBP <= 5000
    ensures d.kind == Fixed ==> Amount(d, base) == if d.valueMinor < base then d.valueMinor else base
    ensures d.kind == FreeShipping ==> Amount(d, base) == 0
  {
    if d.kind == Percentage {
      PercentWithin(base, d.valueBP);
    }
  }

  /** A code that is accepted takes this off: its row, its own amount, the lines it covers, and the delivery if it is free. */
  lemma AcceptedExactly(rows: seq<Discount>, env: Env, req: Request, code: string, i: nat)
    requires TableOk(rows) && i < |rows| && rows[i].code.Some? && Trim(code) != "" && SameText(Trim(code), rows[i].code.value)
    ensures match Judge(env, rows[i], req)
      case Refused(why) => Apply(rows, env, req, code) == Denied(why)
      case Eligible(_, _) =>
        var base := CoveredTotal(env.catalog, rows[i], req.lines);
        Apply(rows, env, req, code) == Applied(Taken(i, Mask(env.catalog, rows[i], req.lines), Amount(rows[i], base),
          rows[i].kind == FreeShipping || rows[i].includesFreeShipping))
  {
    CodeIsFound(rows, i, code);
    JudgedWith(env, rows[i], req);
    hide Judge;
    hide Amount;
    hide Lookup;
    hide Trim;
    hide SameText;
    hide TableOk;
  }

  lemma JudgedWith(env: Env, d: Discount, req: Request)
    ensures match Judge(env, d, req)
      case Refused(_) => true
      case Eligible(mask, base) => mask == Mask(env.catalog, d, req.lines) && base == CoveredTotal(env.catalog, d, req.lines)
  {
    hide CoveredTotal;
    hide Total;
    hide Mask;
    hide Trim;
    hide Fold;
  }

  /** No code at all is no refusal; a code no rule has is. */
  lemma WithoutARule(rows: seq<Discount>, env: Env, req: Request, code: string)
    ensures Trim(code) == "" ==> Apply(rows, env, req, code) == NoCodeGiven
    ensures Trim(code) != "" && (forall i :: 0 <= i < |rows| && rows[i].code.Some? ==> !SameText(Trim(code), rows[i].code.value)) ==>
      Apply(rows, env, req, code) == Denied(NoSuchCode) == Preview(rows, env, req.email, req.lines, code)
    ensures Trim(code) == "" ==> Preview(rows, env, req.email, req.lines, code) == Denied(NoSuchCode)
  {
    var i := Lookup(rows, Trim(code));
    if i < |rows| {
      FoldedIsSameText(rows[i].code.value, Trim(code));
      assert SameText(Trim(code), rows[i].code.value) <==> SameText(rows[i].code.value, Trim(code));
    }
    hide Judge;
    hide Trim;
    hide Amount;
  }

  // ------------------------------------------------------------------ rules that apply themselves

  /** Which rules are tried when nothing was typed: switched on to apply themselves, named, running, and fit for this basket. */
  lemma TriedByThemselves(env: Env, d: Discount, req: Request)
    ensures Candidate(env, d, req) <==>
      && d.autoApply && d.code.Some? && Judge(env, d, req).Eligible?
  {
    EligibleExactly(env, d, req);
    hide Judge;
    hide CoveredTotal;
    hide Total;
    hide Trim;
    hide Fold;
  }

  /** A rule for free delivery saves the delivery, all of it and nothing else. */
  lemma FreeDeliverySavesTheDelivery(env: Env, d: Discount, req: Request, shipping: int)
    requires Priced(req.lines) && Judge(env, d, req).Eligible? && d.kind == FreeShipping
    ensures PaysWith(env, d, req, shipping) == Total(req.lines)
  {
    JudgedBase(env, d, req);
    CoveredWithinTotal(env.catalog, d, req.lines);
    hide Judge;
    hide Total;
    hide CoveredTotal;
  }

  /** Any other rule leaves the delivery as it is, unless it says it includes it. */
  lemma OthersLeaveTheDelivery(env: Env, d: Discount, req: Request, shipping: int)
    requires Judge(env, d, req).Eligible? && d.kind != FreeShipping
    ensures PaysWith(env, d, req, shipping) ==
      Total(req.lines) - Amount(d, CoveredTotal(env.catalog, d, req.lines)) + if d.includesFreeShipping then 0 else shipping
  {
    JudgedBase(env, d, req);
    hide Judge;
    hide Total;
    hide CoveredTotal;
    hide Amount;
  }

  /**
    Where delivery costs something and the basket qualifies for an automatic rule that makes it free, some
    rule is chosen, and with it the shopper pays no more than for the goods.
  */
  lemma FreeDeliveryIsNotPassedOver(rows: seq<Discount>, env: Env, req: Request, shipping: int, j: nat)
    requires TableOk(rows) && Priced(req.lines) && shipping > 0 && j < |rows|
    requires Candidate(env, rows[j], req) && rows[j].kind == FreeShipping
    ensures var best := BestOf(rows, env, req, shipping, |rows|).0;
      best.Some? && best.value < |rows| && Candidate(env, rows[best.value], req)
      && PaysWith(env, rows[best.value], req, shipping) <= Total(req.lines)
  {
    FreeDeliverySavesTheDelivery(env, rows[j], req, shipping);
    BestPaysLeast(rows, env, req, shipping);
    hide Judge;
    hide Auto;
    hide Total;
    hide BestOf;
    hide TableOk;
    hide PaysWith;
  }
}
