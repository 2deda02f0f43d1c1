/**
  A quote against the order placed after it (core/checkout.go, Quote and Checkout). Both run the same
  arithmetic, but a quote judges the address as it was typed and a checkout the trimmed one. So the
  promise that a quote shows what an order placed now would be charged has an exact condition.
*/
module QuoteMatch {
  import opened Basics
  import opened CategoryForest
  import opened Discounts
  import opened Checkout
  import P = CheckoutProtocol

  // ------------------------------------------------------------------ trimmed text

  predicate StartsClean(s: string) { s == [] || !IsSpace(s[0]) }

  predicate EndsClean(s: string) { s == [] || !IsSpace(s[|s| - 1]) }

  lemma {:induction false} LeftTrimmed(s: string)
    ensures StartsClean(TrimLeft(s))
  {
    if s != [] && IsSpace(s[0]) {
      LeftTrimmed(s[1..]);
    }
  }

  lemma {:induction false} RightTrimmed(s: string)
    ensures EndsClean(TrimRight(s)) && (StartsClean(s) ==> StartsClean(TrimRight(s)))
  {
    if s != [] && IsSpace(s[|s| - 1]) {
      RightTrimmed(s[..|s| - 1]);
    }
  }

  /** Trimming leaves no space at either end, and what has none is left alone. */
  lemma TrimIsClean(s: string)
    ensures StartsClean(Trim(s)) && EndsClean(Trim(s))
    ensures StartsClean(s) && EndsClean(s) ==> Trim(s) == s
  {
    LeftTrimmed(s);
    RightTrimmed(TrimLeft(s));
  }

  lemma TrimTwice(s: string)
    ensures Trim(Trim(s)) == Trim(s)
  {
    TrimIsClean(s);
    TrimIsClean(Trim(s));
  }

  // ------------------------------------------------------------------ who has used what

  /** Every address on an order was trimmed when it was written, so every use is on record under one. */
  ghost predicate RecordsTrimmed(usedBy: set<(int, string)>) {
    forall u :: u in usedBy ==> StartsClean(u.1) && EndsClean(u.1)
  }

  lemma FoldKeepsEnds(s: string)
    ensures (StartsClean(Fold(s)) <==> StartsClean(s)) && (EndsClean(Fold(s)) <==> EndsClean(s))
  {
    assert s != [] ==> Fold(s)[0] == FoldChar(s[0]) && Fold(s)[|s| - 1] == FoldChar(s[|s| - 1]);
  }

  /** A spelling with space around it is on nobody's record. */
  lemma LooseSpellingIsUnrecorded(usedBy: set<(int, string)>, id: int, email: string)
    requires RecordsTrimmed(usedBy) && Trim(email) != email
    ensures (id, Fold(email)) !in usedBy
  {
    TrimIsClean(email);
    FoldKeepsEnds(email);
  }

  /** The rule is once per address, and the trimmed address has had it. */
  predicate HadBefore(usedBy: set<(int, string)>, d: Discount, email: string) {
    d.oncePerEmail && Trim(email) != "" && (d.id, Fold(Trim(email))) in usedBy
  }

  /** Only one of the two spellings is on record for a once-per-address rule. */
  predicate OneSpellingHad(usedBy: set<(int, string)>, d: Discount, email: string) {
    && d.oncePerEmail && Trim(email) != ""
    && ((d.id, Fold(email)) in usedBy) != ((d.id, Fold(Trim(email))) in usedBy)
  }

  /** The rule would take everything else about this request. */
  predicate FineButForUse(env: Env, d: Discount, req: Request) { Judge(env.(usedBy := {}), d, req).Eligible? }

  /** The two spellings are judged differently exactly when one is on record and nothing else refuses. */
  lemma SpacesOnlyHideAUse(env: Env, d: Discount, req: Request)
    ensures var loose, trim := Judge(env, d, req), Judge(env, d, req.(email := Trim(req.email)));
      && (loose != trim <==> FineButForUse(env, d, req) && OneSpellingHad(env.usedBy, d, req.email))
      && (loose != trim ==> loose == Refused(EmailUsed) || trim == Refused(EmailUsed))
  {
    TrimTwice(req.email);
    hide CoveredTotal;
    hide Total;
    hide Trim;
    hide Fold;
    hide Mask;
  }

  /** Where records are trimmed, a stray space can only turn a refusal for use into an acceptance. */
  lemma LooseIsMoreWelcome(env: Env, d: Discount, req: Request)
    requires RecordsTrimmed(env.usedBy)
    ensures var loose, trim := Judge(env, d, req), Judge(env, d, req.(email := Trim(req.email)));
      && (loose.Refused? ==> trim == loose)
      && (loose.Eligible? ==> trim == if HadBefore(env.usedBy, d, req.email) then Refused(EmailUsed) else loose)
  {
    TrimTwice(req.email);
    if Trim(req.email) != req.email {
      LooseSpellingIsUnrecorded(env.usedBy, d.id, req.email);
    }
    hide CoveredTotal;
    hide Total;
    hide Trim;
    hide Fold;
    hide Mask;
    hide RecordsTrimmed;
  }

  // ------------------------------------------------------------------ which rule is tried

  function TrimmedRequest(req: Request): Request { req.(email := Trim(req.email)) }

  ghost predicate JudgedAlike(rows: seq<Discount>, env: Env, a: Request, b: Request) {
    forall i :: 0 <= i < |rows| ==> Judge(env, rows[i], a) == Judge(env, rows[i], b)
  }

  lemma {:induction false} AlikeSameBest(rows: seq<Discount>, env: Env, a: Request, b: Request, shipping: int, n: nat)
    requires JudgedAlike(rows, env, a, b) && n <= |rows|
    ensures BestOf(rows, env, a, shipping, n) == BestOf(rows, env, b, shipping, n)
    decreases n
  {
    if n > 0 {
      hide Judge;
      hide Amount;
      AlikeSameBest(rows, env, a, b, shipping, n - 1);
    }
  }

  /** The trimmed address qualifies for the same rules less those it has had; each is worth the same. */
  lemma TrimmedQualifiesForFewer(rows: seq<Discount>, env: Env, req: Request, shipping: int)
    requires RecordsTrimmed(env.usedBy)
    ensures forall j :: 0 <= j < |rows| ==>
      (Candidate(env, rows[j], TrimmedRequest(req)) <==> Candidate(env, rows[j], req) && !HadBefore(env.usedBy, rows[j], req.email))
    ensures forall j :: 0 <= j < |rows| && Candidate(env, rows[j], TrimmedRequest(req)) ==>
      Worth(env, rows[j], TrimmedRequest(req), shipping) == Worth(env, rows[j], req, shipping)
  {
    forall j | 0 <= j < |rows|
      ensures Candidate(env, rows[j], TrimmedRequest(req)) <==> Candidate(env, rows[j], req) && !HadBefore(env.usedBy, rows[j], req.email)
      ensures Candidate(env, rows[j], TrimmedRequest(req)) ==>
        Worth(env, rows[j], TrimmedRequest(req), shipping) == Worth(env, rows[j], req, shipping)
    {
      LooseIsMoreWelcome(env, rows[j], req);
      hide Judge;
      hide HadBefore;
      hide Auto;
      hide Amount;
    }
  }

  /** Unless the trimmed address has had the best rule, the best rule is the same. */
  lemma SameBestUnlessHad(rows: seq<Discount>, env: Env, req: Request, shipping: int)
    requires RecordsTrimmed(env.usedBy)
    ensures var best := BestOf(rows, env, req, shipping, |rows|).0;
      var trim := BestOf(rows, env, TrimmedRequest(req), shipping, |rows|).0;
      && (best.Some? ==> best.value < |rows|)
      && (best.None? || !HadBefore(env.usedBy, rows[best.value], req.email) ==> trim == best)
  {
    BestIsBest(rows, env, req, shipping, |rows|);
    BestIsBest(rows, env, TrimmedRequest(req), shipping, |rows|);
    TrimmedQualifiesForFewer(rows, env, req, shipping);
    hide Candidate;
    hide Worth;
    hide BestOf;
    hide HadBefore;
  }

  // ------------------------------------------------------------------ what the rules answer

  function AtTrimmed(db: Db, t: Terms, at: Attempt, code: string, priced: seq<Line>, quoted: int): Outcome {
    RuleTried(db, t, Trimmed(at), code, priced, quoted)
  }

  ghost predicate SpellingsAgree(db: Db, email: string) {
    forall i :: 0 <= i < |db.rules| ==> !OneSpellingHad(db.usedBy, db.rules[i], email)
  }

  /** Whoever is on record, and however: while the spellings agree, so do the answers. */
  lemma AgreeSameRule(db: Db, t: Terms, at: Attempt, code: string, priced: seq<Line>, quoted: int)
    requires SpellingsAgree(db, at.email)
    ensures AtTrimmed(db, t, at, code, priced, quoted) == RuleTried(db, t, at, code, priced, quoted)
  {
    var req, env := Request(at.email, priced, at.cod), EnvOf(db, t);
    forall i | 0 <= i < |db.rules| ensures Judge(env, db.rules[i], req) == Judge(env, db.rules[i], TrimmedRequest(req)) {
      SpacesOnlyHideAUse(env, db.rules[i], req);
      assert !OneSpellingHad(db.usedBy, db.rules[i], at.email);
    }
    AlikeSameBest(db.rules, env, req, TrimmedRequest(req), quoted, |db.rules|);
    hide Judge;
    hide BestOf;
    hide Trim;
    hide Amount;
    hide Lookup;
  }

  /** The rule a typed code names. */
  function Named(db: Db, code: string): Option<Discount> {
    var i := Lookup(db.rules, Trim(code));
    if i < |db.rules| then Some(db.rules[i]) else None
  }

  /** A typed code: the answers differ exactly when one spelling has had the rule it names. */
  lemma TypedSameRuleExactly(db: Db, t: Terms, at: Attempt, code: string, priced: seq<Line>, quoted: int)
    requires Trim(code) != ""
    ensures var loose, trim := RuleTried(db, t, at, code, priced, quoted), AtTrimmed(db, t, at, code, priced, quoted);
      && (loose != trim <==>
            && Named(db, code).Some?
            && FineButForUse(EnvOf(db, t), Named(db, code).value, Request(at.email, priced, at.cod))
            && OneSpellingHad(db.usedBy, Named(db, code).value, at.email))
      && (loose != trim ==> (loose == Denied(EmailUsed) && trim.Applied?) || (loose.Applied? && trim == Denied(EmailUsed)))
  {
    if Named(db, code).Some? {
      SpacesOnlyHideAUse(EnvOf(db, t), Named(db, code).value, Request(at.email, priced, at.cod));
    }
    hide Judge;
    hide Lookup;
    hide Trim;
    hide Amount;
    hide FineButForUse;
    hide OneSpellingHad;
    hide BestCode;
  }

  /** The rule an answer applied was had before by the trimmed address. */
  predicate TookWhatWasHad(db: Db, taken: Option<Taken>, email: string) {
    taken.Some? && taken.value.row < |db.rules| && HadBefore(db.usedBy, db.rules[taken.value.row], email)
  }

  lemma TypedUnlessHad(db: Db, t: Terms, at: Attempt, code: string, priced: seq<Line>, quoted: int)
    requires RecordsTrimmed(db.usedBy) && Trim(code) != ""
    ensures var loose, trim := RuleTried(db, t, at, code, priced, quoted), AtTrimmed(db, t, at, code, priced, quoted);
      loose == trim <==> !TookWhatWasHad(db, TakenOf(loose), at.email)
  {
    if Named(db, code).Some? {
      LooseIsMoreWelcome(EnvOf(db, t), Named(db, code).value, Request(at.email, priced, at.cod));
    }
    hide Judge;
    hide Lookup;
    hide Trim;
    hide Amount;
    hide HadBefore;
    hide BestCode;
  }

  lemma AutoUnlessHad(db: Db, t: Terms, at: Attempt, code: string, priced: seq<Line>, quoted: int)
    requires TableOk(db.rules) && RecordsTrimmed(db.usedBy) && Trim(code) == ""
    ensures var loose, trim := RuleTried(db, t, at, code, priced, quoted), AtTrimmed(db, t, at, code, priced, quoted);
      loose == trim <==> !TookWhatWasHad(db, TakenOf(loose), at.email)
  {
    var req, env := Request(at.email, priced, at.cod), EnvOf(db, t);
    var rows := db.rules;
    SameBestUnlessHad(rows, env, req, quoted);
    var best := BestOf(rows, env, req, quoted, |rows|).0;
    if best.None? {
      assert Trim("") == "";
      assert RuleTried(db, t, at, code, priced, quoted) == NoCodeGiven;
    } else {
      ChosenCodeIsAccepted(rows, rows, env, req, quoted);
      BestIsBest(rows, env, req, quoted, |rows|);
      assert Candidate(env, rows[best.value], req);
      var name := rows[best.value].code.value;
      assert CodeTried(db, t, code, req, quoted) == name;
      LooseIsMoreWelcome(env, rows[best.value], req);
      if HadBefore(db.usedBy, rows[best.value], at.email) {
        NeverTakesTheRefused(rows, env, TrimmedRequest(req), CodeTried(db, t, code, TrimmedRequest(req), quoted), best.value);
      } else {
        SameAnswerToTheCode(rows, env, req, name, best.value);
      }
    }
    hide Judge;
    hide BestOf;
    hide Lookup;
    hide Trim;
    hide Amount;
    hide HadBefore;
    hide TableOk;
    hide RecordsTrimmed;
    hide Candidate;
  }

  lemma NeverTakesTheRefused(rows: seq<Discount>, env: Env, req: Request, code: string, i: nat)
    requires i < |rows| && Judge(env, rows[i], req).Refused?
    ensures var r := Apply(rows, env, req, code); r.Applied? ==> r.taken.row != i
  {
    hide Judge;
    hide Lookup;
    hide Trim;
    hide Amount;
  }

  lemma SameAnswerToTheCode(rows: seq<Discount>, env: Env, req: Request, code: string, i: nat)
    requires i < |rows| && Judge(env, rows[i], TrimmedRequest(req)) == Judge(env, rows[i], req)
    requires Apply(rows, env, req, code).Applied? && Apply(rows, env, req, code).taken.row == i
    ensures Apply(rows, env, TrimmedRequest(req), code) == Apply(rows, env, req, code)
  {
    hide Judge;
    hide Lookup;
    hide Trim;
    hide Amount;
  }

  // ------------------------------------------------------------------ the figures

  /** How far phase A gets before it looks at the address: the lines' worth and the delivery, or not there. */
  function ReachesRules(db: Db, t: Terms, at: Attempt): Option<(Cart, seq<Line>, int)>
    requires DbOk(db)
  {
    var c := at.request.body.cart;
    if c !in db.carts || db.carts[c].converted || db.carts[c].lines == [] then None else
    var lines := ByVariant(db.carts[c].lines);
    SortedLinesOk(db, db.carts[c].lines);
    if WalkUpTo(db, lines, |lines|).1 != [] then None else
    var priced := Lines(db.variants, lines);
    match Delivery(t, SomePhysical(db.variants, lines), Total(priced), at.rate)
    case Not(_) => None
    case Yes(quoted) => Some((db.carts[c], priced, quoted))
  }

  /** Nothing but the rules' answer depends on the address. */
  lemma OnlyTheRuleSees(db: Db, t: Terms, at: Attempt)
    requires DbOk(db)
    ensures var shown, made := Compute(db, t, at), Compute(db, t, Trimmed(at));
      match ReachesRules(db, t, at)
      case None => shown == made && shown.Not? && !shown.why.CardRefused? && !shown.why.DiscountDenied?
      case Some((cart, priced, quoted)) =>
        var loose, trim := RuleTried(db, t, at, cart.code, priced, quoted), AtTrimmed(db, t, at, cart.code, priced, quoted);
        && Carries(shown, FiguresWith(db, t, cart, priced, quoted, loose))
        && Carries(made, FiguresWith(db, t, cart, priced, quoted, trim))
        && (shown.Yes? && made.Yes? ==> shown.value.1 == made.value.1)
  {
    hide DbOk;
    hide WalkUpTo;
    hide RuleTried;
    hide FiguresWith;
    hide Total;
    hide Lines;
    hide SomePhysical;
    hide Trim;
    hide ByVariant;
  }

  ghost predicate Carries(all: Either<(Figures, Stock)>, f: Either<Figures>) {
    match f
    case Not(why) => all == Not(why)
    case Yes(figures) => all.Yes? && all.value.0 == figures
  }

  /** The figures name the rule they were worked out with, so different answers give different ones. */
  lemma FiguresTellTheRule(db: Db, t: Terms, cart: Cart, priced: seq<Line>, quoted: int, a: Outcome, b: Outcome)
    ensures var x, y := FiguresWith(db, t, cart, priced, quoted, a), FiguresWith(db, t, cart, priced, quoted, b);
      && (x.Yes? ==> !a.Denied? && x.value.taken == TakenOf(a))
      && (x.Not? ==> if a.Denied? then x.why == DiscountDenied(a.why) else x.why == CardRefused)
      && (x == y && x.Yes? ==> a == b)
  {
    hide Total;
    hide Trim;
  }

  /** While the spellings agree a quote is the order, to the figure and to the refusal. */
  lemma QuoteIsTheOrderWhileSpellingsAgree(db: Db, t: Terms, at: Attempt)
    requires DbOk(db) && SpellingsAgree(db, at.email)
    ensures Compute(db, t, Trimmed(at)) == Compute(db, t, at)
  {
    OnlyTheRuleSees(db, t, at);
    match ReachesRules(db, t, at) {
      case None =>
      case Some((cart, priced, quoted)) =>
        AgreeSameRule(db, t, at, cart.code, priced, quoted);
    }
    hide Compute;
    hide ReachesRules;
    hide RuleTried;
    hide FiguresWith;
    hide DbOk;
    hide SpellingsAgree;
    hide Trim;
  }

  /** With a code typed, exactly when the quote is the order, whatever is on record. */
  lemma TypedQuoteIsTheOrderExactly(db: Db, t: Terms, at: Attempt)
    requires DbOk(db) && ReachesRules(db, t, at).Some? && Trim(ReachesRules(db, t, at).value.0.code) != ""
    ensures var (cart, priced, quoted) := ReachesRules(db, t, at).value;
      Compute(db, t, Trimmed(at)) == Compute(db, t, at) <==>
        !(&& Named(db, cart.code).Some?
          && FineButForUse(EnvOf(db, t), Named(db, cart.code).value, Request(at.email, priced, at.cod))
          && OneSpellingHad(db.usedBy, Named(db, cart.code).value, at.email))
  {
    OnlyTheRuleSees(db, t, at);
    var (cart, priced, quoted) := ReachesRules(db, t, at).value;
    TypedSameRuleExactly(db, t, at, cart.code, priced, quoted);
    var loose, trim := RuleTried(db, t, at, cart.code, priced, quoted), AtTrimmed(db, t, at, cart.code, priced, quoted);
    FiguresTellTheRule(db, t, cart, priced, quoted, loose, trim);
    FiguresTellTheRule(db, t, cart, priced, quoted, trim, loose);
    hide Compute;
    hide ReachesRules;
    hide RuleTried;
    hide FiguresWith;
    hide DbOk;
    hide Named;
    hide FineButForUse;
    hide OneSpellingHad;
    hide Trim;
  }

  /**
    What the store's own records make of it: they hold trimmed addresses only, so a quote is the
    order if and only if the rule it took off is not one the trimmed address has had.
  */
  lemma QuoteIsTheOrderUnlessHad(db: Db, t: Terms, at: Attempt)
    requires DbOk(db) && RecordsTrimmed(db.usedBy)
    ensures var shown, made := Compute(db, t, at), Compute(db, t, Trimmed(at));
      && (shown.Yes? ==> (made == shown <==> !TookWhatWasHad(db, shown.value.0.taken, at.email)))
      && (shown.Not? && !shown.why.CardRefused? ==> made == shown)
  {
    OnlyTheRuleSees(db, t, at);
    match ReachesRules(db, t, at) {
      case None =>
      case Some((cart, priced, quoted)) =>
        if Trim(cart.code) == "" {
          assert TableOk(db.rules);
          AutoUnlessHad(db, t, at, cart.code, priced, quoted);
        } else {
          TypedUnlessHad(db, t, at, cart.code, priced, quoted);
        }
        var loose, trim := RuleTried(db, t, at, cart.code, priced, quoted), AtTrimmed(db, t, at, cart.code, priced, quoted);
        FiguresTellTheRule(db, t, cart, priced, quoted, loose, trim);
    }
    hide Compute;
    hide ReachesRules;
    hide RuleTried;
    hide FiguresWith;
    hide DbOk;
    hide HadBefore;
    hide Trim;
  }

  lemma TotalIsComparedLast(db: Db, t: Terms, at: Attempt)
    requires DbOk(db)
    ensures Compute(db, t, at).Not? ==> !Compute(db, t, at).why.TotalChanged?
  {
    hide WalkUpTo;
    hide DbOk;
    hide RuleTried;
    hide Lines;
    hide Total;
    hide SomePhysical;
    hide Trim;
  }

  /**
    An order is placed at the figures quoted in the same state if and only if the quote took off no
    rule the trimmed address has had. A quote that shows figures is then followed by nothing but the
    last checks on them, a refused one by the same refusal; and where the shopper was quoted a total,
    an order exists only at that total, whatever was quoted.
  */
  lemma OrderIsAtTheQuote(db: Db, t: Terms, at: Attempt)
    requires DbOk(db) && RecordsTrimmed(db.usedBy)
    ensures var quote, placed := Answer(db, t, at, true), Answer(db, t, Trimmed(at), false);
      && (quote.Quoted? && placed.Placed? ==>
            (placed.figures == quote.figures <==> !TookWhatWasHad(db, quote.figures.taken, at.email)))
      && (quote.Quoted? && !TookWhatWasHad(db, quote.figures.taken, at.email) ==>
            placed == Ending(db, t, at, false, quote.figures))
      && (quote.Declined? && !quote.why.CardRefused? ==> placed == quote)
      && (placed.Placed? && at.quotedTotal.Some? ==> placed.figures.total == at.quotedTotal.value)
      && (placed.Declined? && placed.why.TotalChanged? ==>
            at.quotedTotal.Some? && placed.why.total != at.quotedTotal.value)
  {
    QuoteIsTheOrderUnlessHad(db, t, at);
    TotalIsComparedLast(db, t, Trimmed(at));
    hide Compute;
    hide DbOk;
    hide Trim;
    hide TookWhatWasHad;
    hide RecordsTrimmed;
  }

  // ------------------------------------------------------------------ a stray space

  /** Ten off, taken by itself, once for each address; it is used by a@b. */
  function OncePerAddress(): Discount {
    Discount(1, Some("TEN"), Fixed, 0, 10, WholeOrder, {}, false, true, true, false, true, None, None, None, None, 1)
  }

  /** One cart with one download at 100 in it. */
  function SmallStore(): Db {
    Db(map[1 := Cart(false, [CartLine(5, 1, 100)], "", "")],
       map[5 := Variant(7, 100, true, false, false, false)], [], Some(1), map[(5, 1) := Shelf(0, 0)],
       [OncePerAddress()], 2, Catalog(map[], map[], {}), {(1, "a@b")}, map[], [], [], map[])
  }

  function PlainTerms(): Terms { Terms(false, n => [], 0, true, (l, m, d) => 0, 0, true, 0) }

  function StraySpace(quoted: Option<int>): Attempt {
    Attempt(P.Request(None, P.Body("cod", 1, "")), " a@b", None, quoted, false)
  }

  lemma SmallTexts()
    ensures Trim(" a@b") == "a@b" && Trim("a@b") == "a@b" && Trim("TEN") == "TEN" && Trim("") == ""
    ensures Fold("a@b") == "a@b" && Fold(" a@b") == " a@b"
  {
    var loose := " a@b";
    assert loose[1..] == "a@b" && TrimLeft("a@b") == "a@b";
    assert TrimLeft(loose) == "a@b";
    assert Fold("a@b") == ['a', '@', 'b'];
    assert Fold(loose) == [' ', 'a', '@', 'b'];
  }

  lemma SmallStoreIsOk()
    ensures DbOk(SmallStore()) && TermsOk(PlainTerms()) && RecordsTrimmed(SmallStore().usedBy)
  {
    SmallTexts();
    hide Trim;
    hide Fold;
  }

  lemma SmallBasket(at: Attempt)
    requires DbOk(SmallStore()) && at.request.body.cart == 1 && at.rate.None?
    ensures ReachesRules(SmallStore(), PlainTerms(), at) == Some((SmallStore().carts[1], [Line(7, 100)], 0))
  {
    var db := SmallStore();
    var lines := db.carts[1].lines;
    assert lines[1..] == [];
    assert ByVariant(lines) == lines;
    assert Reserve(db, db.stock, lines[0]).Some?;
    assert WalkUpTo(db, lines, 0).1 == [] && WalkUpTo(db, lines, 1).1 == [];
    assert Lines(db.variants, lines) == [Line(7, 100)];
    hide DbOk;
  }

  /** Only the spelling that is on record is refused. */
  lemma SmallVerdict(email: string)
    requires email == "a@b" || email == " a@b"
    ensures var verdict := Judge(EnvOf(SmallStore(), PlainTerms()), OncePerAddress(), Request(email, [Line(7, 100)], false));
      if email == "a@b" then verdict == Refused(EmailUsed) else verdict == Eligible(None, 100)
  {
    SmallTexts();
    hide Trim;
    hide Fold;
    var lines := [Line(7, 100)];
    assert lines[..0] == [];
    assert CoveredTotal(SmallStore().catalog, OncePerAddress(), lines) == 100;
  }

  lemma SmallRule(at: Attempt)
    requires (at.email == "a@b" || at.email == " a@b") && !at.cod
    ensures RuleTried(SmallStore(), PlainTerms(), at, "", [Line(7, 100)], 0) ==
      if at.email == "a@b" then NoCodeGiven else TenOff()
  {
    SmallTexts();
    SmallVerdict(at.email);
    hide Trim;
    hide Judge;
    var env, req, rows := EnvOf(SmallStore(), PlainTerms()), Request(at.email, [Line(7, 100)], false), SmallStore().rules;
    assert BestOf(rows, env, req, 0, 0) == (None, 0);
    assert BestOf(rows, env, req, 0, 1) == if at.email == "a@b" then (None, 0) else (Some(0), 10);
    assert Lookup(rows, "TEN") == 0;
  }

  function TenOff(): Outcome { Applied(Taken(0, None, 10, false)) }

  lemma SmallFigures(outcome: Outcome)
    requires outcome == NoCodeGiven || outcome == TenOff()
    ensures var f := FiguresWith(SmallStore(), PlainTerms(), SmallStore().carts[1], [Line(7, 100)], 0, outcome);
      f.Yes? && f.value.discount == (if outcome.Applied? then 10 else 0) && f.value.total == 100 - f.value.discount
  {
    var lines := [Line(7, 100)];
    assert lines[..0] == [];
    assert Total(lines) == 100;
    hide Total;
    hide Trim;
  }

  lemma SmallCompute(at: Attempt)
    requires at == StraySpace(at.quotedTotal) && DbOk(SmallStore())
    ensures var loose, trim := Compute(SmallStore(), PlainTerms(), at), Compute(SmallStore(), PlainTerms(), Trimmed(at));
      && loose.Yes? && loose.value.0.discount == 10 && loose.value.0.total == 90
      && trim.Yes? && trim.value.0.discount == 0 && trim.value.0.total == 100
  {
    SmallBasket(at);
    OnlyTheRuleSees(SmallStore(), PlainTerms(), at);
    SmallTexts();
    hide Trim;
    SmallRule(at);
    SmallRule(Trimmed(at));
    SmallFigures(NoCodeGiven);
    SmallFigures(TenOff());
    hide Compute;
    hide ReachesRules;
    hide RuleTried;
    hide FiguresWith;
    hide DbOk;
    hide PlainTerms;
    hide OncePerAddress;
  }

  /**
    The promise fails: a stray space is quoted 90, the order is placed at 100; and if the shopper
    holds the store to the total it quoted, nothing can be bought at all.
  */
  lemma AStraySpaceIsQuotedTooLow()
    ensures DbOk(SmallStore()) && TermsOk(PlainTerms()) && RecordsTrimmed(SmallStore().usedBy)
    ensures var quote := Answer(SmallStore(), PlainTerms(), StraySpace(None), true);
      var placed := Answer(SmallStore(), PlainTerms(), Trimmed(StraySpace(None)), false);
      && quote.Quoted? && quote.figures.discount == 10 && quote.figures.total == 90
      && placed.Placed? && placed.figures.discount == 0 && placed.figures.total == 100
    ensures Answer(SmallStore(), PlainTerms(), Trimmed(StraySpace(Some(90))), false) == Declined(TotalChanged(100))
  {
    SmallStoreIsOk();
    hide RecordsTrimmed;
    hide DbOk;
    hide TermsOk;
    hide Trim;
    hide Compute;
    hide SmallStore;
    SmallCompute(StraySpace(None));
    SmallCompute(StraySpace(Some(90)));
  }
}
