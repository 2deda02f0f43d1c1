/**
  Which store a host name reaches (core/brands.go): the most specific of the brands' store
  domains decides, and the rule for reserved names is what makes that answer the right one.

  Host names are lower-case text. Parsing a panel URL, tidying a domain name and tidying a store
  name are parameters: each gives back the tidied text, or says it is not one.
*/
module HostRouting {
  import opened Basics

  datatype Brand = Brand(name: string, panelHost: string, baseDomain: string, aliases: seq<string>, reserved: seq<string>)

  predicate HasSuffix(s: string, t: string) {
    |t| <= |s| && s[|s| - |t|..] == t
  }

  predicate DotFree(s: string) {
    '.' !in s
  }

  /** The text in front of the first dot. */
  function FirstLabel(host: string): string {
    if host == "" || host[0] == '.' then "" else [host[0]] + FirstLabel(host[1..])
  }

  function StoreDomains(b: Brand): seq<string> {
    if b.baseDomain == "" then [] else [b.baseDomain] + b.aliases
  }

  predicate IsDomainOf(brands: seq<Brand>, b: Brand, d: string) {
    b in brands && d in StoreDomains(b)
  }

  predicate Under(host: string, d: string) {
    host == d || HasSuffix(host, "." + d)
  }

  // ------------------------------------------------------- what applyBrands accepts

  /** d is a store domain of one of the first n brands. */
  ghost predicate AmongFirst(brands: seq<Brand>, n: nat, d: string)
    requires n <= |brands|
  {
    exists k :: 0 <= k < n && d in StoreDomains(brands[k])
  }

  /** What routing relies on: a domain has one owner, none is empty, no two panels share a host. */
  ghost predicate WellConfigured(brands: seq<Brand>) {
    && (forall i, j, d :: 0 <= i < |brands| && 0 <= j < |brands| && d in StoreDomains(brands[i]) && d in StoreDomains(brands[j])
                          ==> i == j)
    && (forall i :: 0 <= i < |brands| ==> "" !in StoreDomains(brands[i]))
    && (forall i, j :: 0 <= i < j < |brands| ==> brands[i].panelHost != brands[j].panelHost)
  }

  lemma OneOwner(brands: seq<Brand>, a: Brand, b: Brand, d: string)
    requires WellConfigured(brands) && IsDomainOf(brands, a, d) && IsDomainOf(brands, b, d)
    ensures a == b
  {
    var i :| 0 <= i < |brands| && brands[i] == a;
    var j :| 0 <= j < |brands| && brands[j] == b;
    assert i == j;
  }

  // ------------------------------------------------------------- applyBrands

  /**
    The text rules applyBrands leans on: what a name trims to, the host a panel URL names, the host of
    any URL, a domain name and a store name as they are compared. None means the text is refused.
  */
  datatype Rules = Rules(trim: string -> string, panelHost: string -> Option<string>, urlHost: string -> Option<string>,
                         domain: string -> Option<string>, slug: string -> Option<string>)

  ghost predicate NoRepeats(s: seq<string>) {
    forall i, j :: 0 <= i < j < |s| ==> s[i] != s[j]
  }

  /** tidied is raw with every text put through the rule, and no text refused. */
  ghost predicate Tidies(rule: string -> Option<string>, raw: seq<string>, tidied: seq<string>) {
    |raw| == |tidied| && forall i :: 0 <= i < |raw| ==> rule(raw[i]) == Some(tidied[i])
  }

  /** One brand as configured - its panel still a URL - and as applyBrands leaves it. */
  ghost predicate TidiedBrand(rules: Rules, raw: Brand, b: Brand) {
    && b.name == rules.trim(raw.name) != ""
    && rules.panelHost(raw.panelHost) == Some(b.panelHost)
    && (raw.baseDomain == "" ==> raw.aliases == [] && b.baseDomain == "" && b.aliases == [])
    && (raw.baseDomain != "" ==> rules.domain(raw.baseDomain) == Some(b.baseDomain) && Tidies(rules.domain, raw.aliases, b.aliases))
    && Tidies(rules.slug, raw.reserved, b.reserved)
  }

  /** What applyBrands makes of the whole list: every brand tidied, every panel and domain written once. */
  ghost predicate Applied(rules: Rules, raw: seq<Brand>, brands: seq<Brand>) {
    && |brands| == |raw|
    && (forall i :: 0 <= i < |raw| ==> TidiedBrand(rules, raw[i], brands[i]))
    && (forall i :: 0 <= i < |raw| ==> NoRepeats(StoreDomains(brands[i])))
    && WellConfigured(brands)
  }

  datatype Outcome<T> = Done(value: T) | Refused

  method TidyEach(rule: string -> Option<string>, raw: seq<string>) returns (r: Outcome<seq<string>>)
    ensures r.Done? ==> Tidies(rule, raw, r.value)
    ensures r.Refused? ==> forall t :: !Tidies(rule, raw, t)
  {
    var out: seq<string> := [];
    for i := 0 to |raw|
      invariant |out| == i && forall k :: 0 <= k < i ==> rule(raw[k]) == Some(out[k])
    {
      match rule(raw[i]) {
        case Some(t) => out := out + [t];
        case None => return Refused;
      }
    }
    return Done(out);
  }

  /** Takes each domain in turn unless somebody, this brand included, has it already. */
  method ClaimEach(own: seq<string>, taken: set<string>) returns (ok: bool, domains: set<string>)
    ensures ok <==> NoRepeats(own) && forall d :: d in own ==> d !in taken
    ensures ok ==> domains == taken + set d | d in own
  {
    domains := taken;
    for i := 0 to |own|
      invariant domains == taken + set k | 0 <= k < i :: own[k]
      invariant forall k, l :: 0 <= k < l < i ==> own[k] != own[l]
      invariant forall k :: 0 <= k < i ==> own[k] !in taken
    {
      if own[i] in domains {
        assert own[i] in own;
        return false, domains;
      }
      domains := domains + {own[i]};
    }
    return true, domains;
  }

  /** One brand's checks, without the ones against the brands before it. */
  method TidyBrand(rules: Rules, raw: Brand) returns (r: Outcome<Brand>)
    ensures r.Done? ==> TidiedBrand(rules, raw, r.value)
    ensures r.Refused? ==> forall b :: !TidiedBrand(rules, raw, b)
  {
    var name, host := rules.trim(raw.name), rules.panelHost(raw.panelHost);
    if name == "" || host.None? || (raw.baseDomain == "" && raw.aliases != []) {
      return Refused;
    }
    var base := if raw.baseDomain == "" then Some("") else rules.domain(raw.baseDomain);
    if base.None? {
      return Refused;
    }
    var aliases := TidyEach(rules.domain, raw.aliases);
    var reserved := TidyEach(rules.slug, raw.reserved);
    assert raw.aliases == [] ==> Tidies(rules.domain, raw.aliases, []);
    if aliases.Refused? || reserved.Refused? {
      return Refused;
    }
    return Done(Brand(name, host.value, base.value, aliases.value, reserved.value));
  }

  /** A brand tidies to one thing only. */
  lemma TidiedOnce(rules: Rules, raw: Brand, a: Brand, b: Brand)
    requires TidiedBrand(rules, raw, a) && TidiedBrand(rules, raw, b)
    ensures a == b
  {
    assert a.aliases == b.aliases;
    assert a.reserved == b.reserved;
  }

  /** Where the loop stands: the brands done, and the panels and domains they have taken. */
  ghost predicate Progress(rules: Rules, raw: seq<Brand>, done: seq<Brand>, panels: set<string>, domains: set<string>) {
    && |done| <= |raw| && Applied(rules, raw[..|done|], done)
    && (forall p :: p in panels <==> exists k :: 0 <= k < |done| && done[k].panelHost == p)
    && (forall d :: d in domains <==> AmongFirst(done, |done|, d))
  }

  /** The next brand fits: its panel and its domains are nobody's, and named once. */
  ghost predicate Fits(b: Brand, panels: set<string>, domains: set<string>) {
    b.panelHost !in panels && NoRepeats(StoreDomains(b)) && forall d :: d in StoreDomains(b) ==> d !in domains
  }

  lemma OneMore(rules: Rules, raw: seq<Brand>, done: seq<Brand>, panels: set<string>, domains: set<string>, b: Brand)
    requires Progress(rules, raw, done, panels, domains) && |done| < |raw|
    requires TidiedBrand(rules, raw[|done|], b) && Fits(b, panels, domains) && "" !in StoreDomains(b)
    ensures Progress(rules, raw, done + [b], panels + {b.panelHost}, domains + set d | d in StoreDomains(b))
  {
    hide TidiedBrand;
    hide WellConfigured;
    hide NoRepeats;
    hide StoreDomains;
    var n := |done|;
    OneMoreApplied(rules, raw[..n], done, raw[n], b, panels, domains);
    assert raw[..n + 1] == raw[..n] + [raw[n]];
    OneMorePanel(done, b, panels);
    OneMoreSet(done, b, domains);
  }

  lemma OneMoreApplied(rules: Rules, raw: seq<Brand>, done: seq<Brand>, x: Brand, b: Brand, panels: set<string>, domains: set<string>)
    requires Applied(rules, raw, done) && TidiedBrand(rules, x, b) && Fits(b, panels, domains) && "" !in StoreDomains(b)
    requires forall k :: 0 <= k < |done| ==> done[k].panelHost in panels
    requires forall d :: AmongFirst(done, |done|, d) ==> d in domains
    ensures Applied(rules, raw + [x], done + [b])
  {
    OneMoreConfigured(done, b, panels, domains);
  }

  lemma NoEmptyDomain(rules: Rules, raw: Brand, b: Brand)
    requires TidiedBrand(rules, raw, b) && forall s :: rules.domain(s) != Some("")
    ensures "" !in StoreDomains(b)
  {
  }

  lemma NothingDoneYet(rules: Rules, raw: seq<Brand>)
    ensures Progress(rules, raw, [], {}, {})
  {
  }

  lemma OneMorePanel(done: seq<Brand>, b: Brand, panels: set<string>)
    requires forall p :: p in panels <==> exists k :: 0 <= k < |done| && done[k].panelHost == p
    ensures var more := done + [b];
            forall p :: p in panels + {b.panelHost} <==> exists k :: 0 <= k < |more| && more[k].panelHost == p
  {
    var n, more := |done|, done + [b];
    forall p ensures p in panels + {b.panelHost} <==> exists k :: 0 <= k < n + 1 && more[k].panelHost == p {
      if p == b.panelHost {
        assert more[n].panelHost == p;
      } else if p in panels {
        var k :| 0 <= k < n && done[k].panelHost == p;
        assert more[k].panelHost == p;
      }
    }
  }

  lemma OneMoreSet(done: seq<Brand>, b: Brand, domains: set<string>)
    requires forall d :: d in domains <==> AmongFirst(done, |done|, d)
    ensures var all := domains + set d | d in StoreDomains(b);
            forall d :: d in all <==> AmongFirst(done + [b], |done| + 1, d)
  {
    var n, more := |done|, done + [b];
    forall d ensures d in StoreDomains(b) || d in domains <==> AmongFirst(more, n + 1, d) {
      if d in StoreDomains(b) {
        assert d in StoreDomains(more[n]);
      } else if d in domains {
        var k :| 0 <= k < n && d in StoreDomains(done[k]);
        assert d in StoreDomains(more[k]);
      }
    }
  }

  lemma OneMoreConfigured(done: seq<Brand>, b: Brand, panels: set<string>, domains: set<string>)
    requires WellConfigured(done) && Fits(b, panels, domains) && "" !in StoreDomains(b)
    requires forall k :: 0 <= k < |done| ==> done[k].panelHost in panels
    requires forall d :: AmongFirst(done, |done|, d) ==> d in domains
    ensures WellConfigured(done + [b])
  {
    var n, more := |done|, done + [b];
    forall i, j, d | 0 <= i <= n && 0 <= j <= n && d in StoreDomains(more[i]) && d in StoreDomains(more[j])
      ensures i == j
    {
      assert i < n ==> AmongFirst(done, n, d);
      assert j < n ==> AmongFirst(done, n, d);
    }
  }

  /** If the next brand does not tidy, or does not fit, no list is what this one should become. */
  lemma NothingApplies(rules: Rules, raw: seq<Brand>, done: seq<Brand>, panels: set<string>, domains: set<string>, out: seq<Brand>)
    requires Progress(rules, raw, done, panels, domains) && |done| < |raw|
    requires forall b :: TidiedBrand(rules, raw[|done|], b) ==> !Fits(b, panels, domains)
    ensures !Applied(rules, raw, out)
  {
    var n := |done|;
    if Applied(rules, raw, out) {
      forall k | 0 <= k < n ensures out[k] == done[k] {
        assert raw[..n][k] == raw[k];
        TidiedOnce(rules, raw[k], out[k], done[k]);
      }
      var b := out[n];
      assert TidiedBrand(rules, raw[n], b);
      TakenTwice(out, done, b, panels, domains);
    }
  }

  lemma OnlyOneTidying(rules: Rules, raw: Brand, b: Brand, panels: set<string>, domains: set<string>)
    requires TidiedBrand(rules, raw, b) && !Fits(b, panels, domains)
    ensures forall x :: TidiedBrand(rules, raw, x) ==> !Fits(x, panels, domains)
  {
    forall x | TidiedBrand(rules, raw, x) ensures !Fits(x, panels, domains) {
      TidiedOnce(rules, raw, x, b);
    }
  }

  lemma NothingAppliesAtAll(rules: Rules, raw: seq<Brand>, done: seq<Brand>, panels: set<string>, domains: set<string>)
    requires Progress(rules, raw, done, panels, domains) && |done| < |raw|
    requires forall b :: TidiedBrand(rules, raw[|done|], b) ==> !Fits(b, panels, domains)
    ensures forall out :: !Applied(rules, raw, out)
  {
    forall out ensures !Applied(rules, raw, out) {
      NothingApplies(rules, raw, done, panels, domains, out);
    }
  }

  lemma TakenTwice(out: seq<Brand>, done: seq<Brand>, b: Brand, panels: set<string>, domains: set<string>)
    requires |done| < |out| && b == out[|done|] && NoRepeats(StoreDomains(b)) && !Fits(b, panels, domains)
    requires forall k :: 0 <= k < |done| ==> out[k] == done[k]
    requires forall p :: p in panels ==> exists k :: 0 <= k < |done| && done[k].panelHost == p
    requires forall d :: d in domains ==> AmongFirst(done, |done|, d)
    ensures !WellConfigured(out)
  {
    var n := |done|;
    if b.panelHost in panels {
      var k :| 0 <= k < n && done[k].panelHost == b.panelHost;
      assert out[k].panelHost == out[n].panelHost;
    } else {
      var d :| d in StoreDomains(b) && d in domains;
      var k :| 0 <= k < n && d in StoreDomains(done[k]);
      assert d in StoreDomains(out[k]) && d in StoreDomains(out[n]);
    }
  }

  /** The loop: every brand tidied in place, with the panels and domains they take between them. */
  method TidyBrands(rules: Rules, brands: array<Brand>) returns (ok: bool, panels: set<string>, domains: set<string>)
    requires forall s :: rules.domain(s) != Some("")
    modifies brands
    ensures ok ==> Applied(rules, old(brands[..]), brands[..])
    ensures ok ==> forall p :: p in panels <==> PanelOf(brands[..], p)
    ensures ok ==> forall d :: d in domains <==> DomainOf(brands[..], d)
    ensures !ok ==> forall b :: !Applied(rules, old(brands[..]), b)
  {
    hide TidiedBrand;
    hide WellConfigured;
    hide NoRepeats;
    hide StoreDomains;
    ghost var raw := brands[..];
    panels, domains := {}, {};
    NothingDoneYet(rules, raw);
    for i := 0 to brands.Length
      invariant brands[i..] == raw[i..]
      invariant Progress(rules, raw, brands[..i], panels, domains)
    {
      assert brands[i] == brands[i..][0] == raw[i];
      ghost var done := brands[..i];
      var tidy := TidyBrand(rules, brands[i]);
      if tidy.Refused? {
        NothingAppliesAtAll(rules, raw, done, panels, domains);
        return false, panels, domains;
      }
      var b := tidy.value;
      var claimed, all := ClaimEach(StoreDomains(b), domains);
      if b.panelHost in panels || !claimed {
        OnlyOneTidying(rules, raw[i], b, panels, domains);
        NothingAppliesAtAll(rules, raw, done, panels, domains);
        return false, panels, domains;
      }
      NoEmptyDomain(rules, raw[i], b);
      OneMore(rules, raw, done, panels, domains, b);
      panels, domains := panels + {b.panelHost}, all;
      brands[i] := b;
      assert brands[..i + 1] == done + [b];
    }
    assert raw[..|raw|] == raw && brands[..brands.Length] == brands[..];
    return true, panels, domains;
  }

  ghost predicate PanelOf(brands: seq<Brand>, p: string) { exists k :: 0 <= k < |brands| && brands[k].panelHost == p }

  ghost predicate DomainOf(brands: seq<Brand>, d: string) { AmongFirst(brands, |brands|, d) }

  /** The install's own panel and base domain, where they are set, each name one of the brands'. */
  ghost predicate NamesABrand(rules: Rules, brands: seq<Brand>, panelURL: string, baseDomain: string) {
    && (panelURL != "" ==> rules.urlHost(panelURL).Some? && PanelOf(brands, rules.urlHost(panelURL).value))
    && (baseDomain != "" ==> rules.domain(baseDomain).Some? && DomainOf(brands, rules.domain(baseDomain).value))
  }

  lemma AppliedOnce(rules: Rules, raw: seq<Brand>, a: seq<Brand>, b: seq<Brand>)
    requires Applied(rules, raw, a) && Applied(rules, raw, b)
    ensures a == b
  {
    forall i | 0 <= i < |a| ensures a[i] == b[i] {
      TidiedOnce(rules, raw[i], a[i], b[i]);
    }
  }

  /**
    applyBrands rewrites the configured brands in place. It accepts exactly the lists that tidy to
    something routing can rely on, with an install's panel and base domain that are unset or among
    them, and what it leaves is that. Unset, the first brand's stand in for them; with no brands at
    all it changes nothing.
  */
  method ApplyBrands(rules: Rules, brands: array<Brand>, panelURL: string, baseDomain: string)
    returns (ok: bool, panel: string, base: string)
    requires forall s :: rules.domain(s) != Some("")
    modifies brands
    ensures brands.Length == 0 ==> ok && panel == panelURL && base == baseDomain
    ensures ok ==> Applied(rules, old(brands[..]), brands[..])
    ensures ok && brands.Length > 0 ==> NamesABrand(rules, brands[..], panelURL, baseDomain)
    ensures ok && brands.Length > 0 ==> panel == if panelURL == "" then brands[0].panelHost else panelURL
    ensures ok && brands.Length > 0 ==> base == if baseDomain == "" then brands[0].baseDomain else baseDomain
    ensures !ok ==> forall b :: !(Applied(rules, old(brands[..]), b) && NamesABrand(rules, b, panelURL, baseDomain))
  {
    panel, base := panelURL, baseDomain;
    if brands.Length == 0 {
      NothingToTidy(rules, brands[..]);
      return true, panel, base;
    }
    ghost var raw := brands[..];
    var panels, domains;
    ok, panels, domains := TidyBrands(rules, brands);
    if !ok {
      return;
    }
    hide Applied;
    ghost var tidied := brands[..];
    forall b | Applied(rules, raw, b) ensures b == tidied {
      AppliedOnce(rules, raw, b, tidied);
    }
    if panelURL == "" {
      panel := brands[0].panelHost;
    } else {
      var host := rules.urlHost(panelURL);
      if host.None? || host.value !in panels {
        return false, panel, base;
      }
    }
    if baseDomain == "" {
      base := brands[0].baseDomain;
    } else {
      var name := rules.domain(baseDomain);
      if name.None? || name.value !in domains {
        return false, panel, base;
      }
    }
    hide PanelOf;
    hide DomainOf;
  }

  lemma NothingToTidy(rules: Rules, raw: seq<Brand>)
    ensures raw == [] ==> Applied(rules, raw, raw)
  {
  }

  // ------------------------------------------------------------------- routing

  /** d is the longest store domain host is under. */
  ghost predicate MostSpecific(brands: seq<Brand>, host: string, b: Brand, d: string) {
    && IsDomainOf(brands, b, d) && Under(host, d) && d != ""
    && forall c, e :: IsDomainOf(brands, c, e) && Under(host, e) ==> |e| <= |d|
  }

  method UnderStoreDomain(brands: seq<Brand>, host: string) returns (domain: string, owner: Option<Brand>)
    ensures owner.Some? ==> MostSpecific(brands, host, owner.value, domain)
    ensures owner.None? ==> forall c, e :: IsDomainOf(brands, c, e) && Under(host, e) ==> e == ""
  {
    domain, owner := "", None;
    for i := 0 to |brands|
      invariant Candidate(brands, host, domain, owner)
      invariant NoneLongerIn(brands, i, host, |domain|)
    {
      var better, longest := LongestUnder(StoreDomains(brands[i]), host, domain);
      OneMoreBrand(brands, i, host, |domain|, |longest|);
      if better {
        assert IsDomainOf(brands, brands[i], longest);
        domain, owner := longest, Some(brands[i]);
      }
    }
    LongestOfAll(brands, host, |domain|);
  }

  ghost predicate NoneLongerIn(brands: seq<Brand>, n: nat, host: string, length: nat)
    requires n <= |brands|
  {
    forall k :: 0 <= k < n ==> NoneLonger(StoreDomains(brands[k]), host, length)
  }

  lemma OneMoreBrand(brands: seq<Brand>, n: nat, host: string, length: nat, longer: nat)
    requires n < |brands| && length <= longer
    requires NoneLongerIn(brands, n, host, length) && NoneLonger(StoreDomains(brands[n]), host, longer)
    ensures NoneLongerIn(brands, n + 1, host, longer)
  {
    hide Under;
    forall k | 0 <= k < n ensures NoneLonger(StoreDomains(brands[k]), host, longer) {
      assert NoneLonger(StoreDomains(brands[k]), host, length);
    }
  }

  lemma LongestOfAll(brands: seq<Brand>, host: string, length: nat)
    requires NoneLongerIn(brands, |brands|, host, length)
    ensures forall c, e :: IsDomainOf(brands, c, e) && Under(host, e) ==> |e| <= length
  {
    forall c, e | IsDomainOf(brands, c, e) && Under(host, e) ensures |e| <= length {
      var k :| 0 <= k < |brands| && brands[k] == c;
      assert NoneLonger(StoreDomains(brands[k]), host, length);
    }
  }

  /** One brand's turn: the longest of its domains that host is under and that beats `domain`. */
  method LongestUnder(own: seq<string>, host: string, domain: string) returns (better: bool, longest: string)
    ensures better ==> longest in own && Under(host, longest) && |longest| > |domain|
    ensures !better ==> longest == domain
    ensures NoneLonger(own, host, |longest|)
  {
    better, longest := false, domain;
    for j := 0 to |own|
      invariant better ==> longest in own && Under(host, longest) && |longest| > |domain|
      invariant !better ==> longest == domain
      invariant forall k :: 0 <= k < j && Under(host, own[k]) ==> |own[k]| <= |longest|
    {
      if Under(host, own[j]) && |own[j]| > |longest| {
        better, longest := true, own[j];
      }
    }
  }

  ghost predicate Candidate(brands: seq<Brand>, host: string, domain: string, owner: Option<Brand>) {
    match owner
    case None => domain == ""
    case Some(b) => domain != "" && Under(host, domain) && IsDomainOf(brands, b, domain)
  }

  ghost predicate NoneLonger(domains: seq<string>, host: string, length: nat) {
    forall e :: e in domains && Under(host, e) ==> |e| <= length
  }

  /** A name no store may have: the platform's own, and - with brands configured - every brand's. */
  ghost predicate Reserved(platform: set<string>, configured: bool, brands: seq<Brand>, slug: string) {
    || slug in platform
    || (configured && exists b :: b in brands && (FirstLabel(b.panelHost) == slug || slug in b.reserved))
    || (configured && exists d :: Owned(brands, d) && Owned(brands, slug + "." + d))
  }

  ghost predicate Owned(brands: seq<Brand>, d: string) {
    exists b :: IsDomainOf(brands, b, d)
  }

  ghost predicate IsPanel(brands: seq<Brand>, host: string) {
    host != "" && exists b :: b in brands && b.panelHost == host
  }

  method ReservedSlug(platform: set<string>, configured: bool, brands: seq<Brand>, slug: string) returns (r: bool)
    ensures r <==> Reserved(platform, configured, brands, slug)
  {
    hide FirstLabel;
    if slug in platform {
      return true;
    }
    if !configured {
      return false;
    }
    var domains: seq<string> := [];
    for i := 0 to |brands|
      invariant forall d :: d in domains <==> AmongFirst(brands, i, d)
      invariant forall k :: 0 <= k < i ==> FirstLabel(brands[k].panelHost) != slug && slug !in brands[k].reserved
    {
      var b := brands[i];
      if FirstLabel(b.panelHost) == slug || slug in b.reserved {
        assert b in brands;
        return true;
      }
      domains := domains + StoreDomains(b);
    }
    r := Nested(domains, slug);
    EveryDomainHasAnOwner(brands, domains);
  }

  /** The label of one store domain that sits directly under another. */
  method Nested(domains: seq<string>, slug: string) returns (r: bool)
    ensures r <==> exists d :: d in domains && slug + "." + d in domains
  {
    for i := 0 to |domains|
      invariant forall k :: 0 <= k < i ==> slug + "." + domains[k] !in domains
    {
      if slug + "." + domains[i] in domains {
        return true;
      }
    }
    return false;
  }

  lemma EveryDomainHasAnOwner(brands: seq<Brand>, domains: seq<string>)
    requires forall d :: d in domains <==> AmongFirst(brands, |brands|, d)
    ensures forall d :: d in domains <==> Owned(brands, d)
  {
    forall d ensures d in domains <==> Owned(brands, d) {
      if d in domains {
        var k :| 0 <= k < |brands| && d in StoreDomains(brands[k]);
        assert IsDomainOf(brands, brands[k], d);
      }
    }
  }

  // ---------------------------------------------------------------- the promise

  /** With no brands configured there is one, made of older settings: a base domain and no aliases. */
  ghost predicate Install(configured: bool, brands: seq<Brand>) {
    && WellConfigured(brands)
    && (!configured ==> |brands| == 1 && brands[0].aliases == [])
  }

  /** host is the address that the store called slug has under b's domain d. */
  ghost predicate IsAddressUnder(platform: set<string>, configured: bool, brands: seq<Brand>,
                                 b: Brand, slug: string, d: string, host: string) {
    && IsDomainOf(brands, b, d) && host == slug + "." + d
    && slug != "" && DotFree(slug) && !Reserved(platform, configured, brands, slug) && !IsPanel(brands, host)
  }

  ghost predicate IsAddress(platform: set<string>, configured: bool, brands: seq<Brand>,
                            b: Brand, slug: string, host: string) {
    exists d :: IsAddressUnder(platform, configured, brands, b, slug, d, host)
  }

  lemma NoLongerSuffix(slug: string, d: string, e: string)
    requires HasSuffix(slug + "." + d, "." + e) && DotFree(slug)
    ensures |e| <= |d|
  {
    var host := slug + "." + d;
    var k := |host| - |e| - 1;
    assert host[k] == host[k..][0] == '.';
    assert forall i :: 0 <= i < |slug| ==> host[i] == slug[i] && slug[i] in slug;
  }

  /** Nothing can match an address longer than its own domain without making its name reserved. */
  lemma AddressIsMostSpecific(platform: set<string>, configured: bool, brands: seq<Brand>,
                              b: Brand, slug: string, d: string, host: string)
    requires Install(configured, brands)
    requires IsAddressUnder(platform, configured, brands, b, slug, d, host)
    ensures MostSpecific(brands, host, b, d)
  {
    SuffixOfAddress(slug, d);
    forall c, e | IsDomainOf(brands, c, e) && Under(host, e)
      ensures |e| <= |d|
    {
      assert Owned(brands, d) && Owned(brands, e);
      assert !configured ==> c == b && d == e;
      if HasSuffix(host, "." + e) {
        NoLongerSuffix(slug, d, e);
      }
    }
  }

  lemma SameDomain(host: string, d: string, e: string)
    requires Under(host, d) && HasSuffix(host, "." + e) && |d| == |e|
    ensures d == e && HasSuffix(host, "." + d)
  {
    assert |"." + e| == |e| + 1;
    assert host != d;
    assert "." + d == "." + e;
    assert d == ("." + d)[1..] && e == ("." + e)[1..];
  }

  /** An address belongs to one store of one brand. */
  lemma AddressIsUnique(platform: set<string>, configured: bool, brands: seq<Brand>,
                        a: Brand, s: string, b: Brand, t: string, host: string)
    requires Install(configured, brands)
    requires IsAddress(platform, configured, brands, a, s, host) && IsAddress(platform, configured, brands, b, t, host)
    ensures a == b && s == t
  {
    var d :| IsAddressUnder(platform, configured, brands, a, s, d, host);
    var e :| IsAddressUnder(platform, configured, brands, b, t, e, host);
    AddressIsMostSpecific(platform, configured, brands, a, s, d, host);
    AddressIsMostSpecific(platform, configured, brands, b, t, e, host);
    SuffixOfAddress(t, e);
    SameDomain(host, d, e);
    OneOwner(brands, a, b, d);
    assert s == host[..|host| - |d| - 1] && t == host[..|host| - |e| - 1];
  }

  lemma SuffixOfAddress(slug: string, d: string)
    ensures HasSuffix(slug + "." + d, "." + d)
  {
    assert (slug + "." + d)[|slug|..] == "." + d;
  }

  lemma {:induction false} FirstLabelOfAddress(slug: string, d: string)
    requires DotFree(slug)
    ensures FirstLabel(slug + "." + d) == slug
  {
    var host := slug + "." + d;
    if slug != "" {
      assert host[1..] == slug[1..] + "." + d;
      FirstLabelOfAddress(slug[1..], d);
    }
  }

  /**
    Every unreserved name with no dot in it has an address under every store domain of every
    configured brand. A panel host cannot be in the way: its first label is a reserved name.
  */
  lemma EveryNameHasItsAddress(platform: set<string>, brands: seq<Brand>, b: Brand, slug: string, d: string)
    requires IsDomainOf(brands, b, d) && slug != "" && DotFree(slug)
    ensures IsAddress(platform, true, brands, b, slug, slug + "." + d) <==> !Reserved(platform, true, brands, slug)
  {
    FirstLabelOfAddress(slug, d);
    if !Reserved(platform, true, brands, slug) {
      assert IsAddressUnder(platform, true, brands, b, slug, d, slug + "." + d);
    }
  }

  /** Without configured brands a panel host is not reserved, and is the one more name with no address. */
  lemma UnconfiguredNames(platform: set<string>, brands: seq<Brand>, slug: string)
    requires Install(false, brands) && brands[0].baseDomain != "" && slug != "" && DotFree(slug)
    ensures var host := slug + "." + brands[0].baseDomain;
            IsAddress(platform, false, brands, brands[0], slug, host) <==> slug !in platform && host != brands[0].panelHost
  {
    var d := brands[0].baseDomain;
    var host := slug + "." + d;
    assert IsDomainOf(brands, brands[0], d);
    if slug !in platform && host != brands[0].panelHost {
      assert IsAddressUnder(platform, false, brands, brands[0], slug, d, host);
    }
  }

  /** The order brands are listed in decides nothing. */
  lemma OrderDoesNotMatter(platform: set<string>, configured: bool, brands: seq<Brand>, others: seq<Brand>,
                           b: Brand, slug: string, host: string)
    requires forall x :: x in brands <==> x in others
    ensures IsAddress(platform, configured, brands, b, slug, host) <==> IsAddress(platform, configured, others, b, slug, host)
  {
    assert forall c, d :: IsDomainOf(brands, c, d) <==> IsDomainOf(others, c, d);
    assert forall s :: Reserved(platform, configured, brands, s) <==> Reserved(platform, configured, others, s);
    assert IsPanel(brands, host) <==> IsPanel(others, host);
    assert forall d :: IsAddressUnder(platform, configured, brands, b, slug, d, host)
                       <==> IsAddressUnder(platform, configured, others, b, slug, d, host);
  }

  method BrandByPanelHost(brands: seq<Brand>, host: string) returns (found: bool)
    ensures found <==> IsPanel(brands, host)
  {
    for i := 0 to |brands|
      invariant forall k :: 0 <= k < i ==> host == "" || brands[k].panelHost != host
    {
      if host != "" && brands[i].panelHost == host {
        assert brands[i] in brands;
        return true;
      }
    }
    return false;
  }

  /** storeSlugOfHost: a store and its brand for exactly the hosts that are addresses. */
  method StoreSlugOfHost(platform: set<string>, configured: bool, brands: seq<Brand>, host: string)
    returns (slug: string, owner: Option<Brand>)
    requires Install(configured, brands)
    ensures owner.Some? ==> IsAddress(platform, configured, brands, owner.value, slug, host)
    ensures owner.None? ==> forall b, s :: !IsAddress(platform, configured, brands, b, s, host)
  {
    var panel := BrandByPanelHost(brands, host);
    if panel {
      return "", None;
    }
    var d;
    d, owner := UnderStoreDomain(brands, host);
    if owner.None? || !HasSuffix(host, "." + d) {
      NoOtherDomain(platform, configured, brands, host, d, owner);
      return "", None;
    }
    slug := host[..|host| - |d| - 1];
    assert host == slug + "." + d;
    var reserved := ReservedSlug(platform, configured, brands, slug);
    if slug == "" || '.' in slug || reserved {
      NoOtherSplit(platform, configured, brands, host, slug, d, owner.value);
      return "", None;
    }
    assert IsAddressUnder(platform, configured, brands, owner.value, slug, d, host);
  }

  lemma NoOtherDomain(platform: set<string>, configured: bool, brands: seq<Brand>, host: string,
                      d: string, owner: Option<Brand>)
    requires Install(configured, brands)
    requires if owner.Some? then MostSpecific(brands, host, owner.value, d) && !HasSuffix(host, "." + d)
             else forall c, e :: IsDomainOf(brands, c, e) && Under(host, e) ==> e == ""
    ensures forall b, s :: !IsAddress(platform, configured, brands, b, s, host)
  {
    forall b, s ensures !IsAddress(platform, configured, brands, b, s, host) {
      if e :| IsAddressUnder(platform, configured, brands, b, s, e, host) {
        AddressIsMostSpecific(platform, configured, brands, b, s, e, host);
        SuffixOfAddress(s, e);
        if owner.Some? {
          SameDomain(host, d, e);
        }
      }
    }
  }

  /** The most specific domain splits a host the way any address does. */
  lemma AddressSplit(platform: set<string>, configured: bool, brands: seq<Brand>, host: string,
                     slug: string, d: string, owner: Brand, b: Brand, s: string, e: string)
    requires Install(configured, brands) && MostSpecific(brands, host, owner, d) && host == slug + "." + d
    requires IsAddressUnder(platform, configured, brands, b, s, e, host)
    ensures s == slug
  {
    AddressIsMostSpecific(platform, configured, brands, b, s, e, host);
    SuffixOfAddress(s, e);
    SameDomain(host, d, e);
    assert s == host[..|host| - |e| - 1];
    assert slug == host[..|host| - |d| - 1];
  }

  lemma NoOtherSplit(platform: set<string>, configured: bool, brands: seq<Brand>, host: string,
                     slug: string, d: string, owner: Brand)
    requires Install(configured, brands) && MostSpecific(brands, host, owner, d) && host == slug + "." + d
    requires slug == "" || !DotFree(slug) || Reserved(platform, configured, brands, slug)
    ensures forall b, s :: !IsAddress(platform, configured, brands, b, s, host)
  {
    forall b, s ensures !IsAddress(platform, configured, brands, b, s, host) {
      if e :| IsAddressUnder(platform, configured, brands, b, s, e, host) {
        AddressSplit(platform, configured, brands, host, slug, d, owner, b, s, e);
      }
    }
  }
}
