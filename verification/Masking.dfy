/**
  Masking of addresses and phone numbers, and the SQL LIKE pattern that finds an address again
  from its mask (core/demo.go). Text is a sequence of runes; the Unicode tables for spaces, letters
  and lower case are parameters, of which only what is stated in a requires clause is used.
*/
module Masking {
  import opened Basics

  const MASK := '\U{2022}'
  const BULLETS := [MASK, MASK, MASK]

  function TrimLeft(s: string, isSpace: char -> bool): string {
    if s != "" && isSpace(s[0]) then TrimLeft(s[1..], isSpace) else s
  }

  function TrimRight(s: string, isSpace: char -> bool): (t: string)
    ensures t <= s
  {
    if s != "" && isSpace(s[|s| - 1]) then TrimRight(s[..|s| - 1], isSpace) else s
  }

  function TrimSpace(s: string, isSpace: char -> bool): string {
    TrimRight(TrimLeft(s, isSpace), isSpace)
  }

  /** Nothing to trim: the text is empty, or starts and ends on something other than space. */
  predicate Trimmed(s: string, isSpace: char -> bool) {
    s == "" || (!isSpace(s[0]) && !isSpace(s[|s| - 1]))
  }

  lemma TrimLeftStops(s: string, isSpace: char -> bool)
    ensures var t := TrimLeft(s, isSpace); t == "" || !isSpace(t[0])
  {
  }

  lemma TrimRightStops(s: string, isSpace: char -> bool)
    ensures var t := TrimRight(s, isSpace); t == "" || (!isSpace(t[|t| - 1]) && t[0] == s[0])
  {
  }

  lemma TrimSpaceTrims(s: string, isSpace: char -> bool)
    ensures Trimmed(TrimSpace(s, isSpace), isSpace)
  {
    TrimLeftStops(s, isSpace);
    TrimRightStops(TrimLeft(s, isSpace), isSpace);
  }

  /** LastIndexByte: -1 when c does not occur. */
  function LastIndex(s: string, c: char): (k: int)
    ensures -1 <= k < |s| && (k >= 0 ==> s[k] == c) && forall i :: k < i < |s| ==> s[i] != c
  {
    LastIndexBefore(s, c, |s|)
  }

  function LastIndexBefore(s: string, c: char, n: nat): (k: int)
    requires n <= |s|
    ensures -1 <= k < n && (k >= 0 ==> s[k] == c) && forall i :: k < i < n ==> s[i] != c
  {
    if n == 0 then -1 else if s[n - 1] == c then n - 1 else LastIndexBefore(s, c, n - 1)
  }

  function FirstRune(s: string): string {
    if s == "" then "" else [s[0]]
  }

  function MaskDomain(domain: string): string {
    var dot := LastIndex(domain, '.');
    if dot <= 0 || dot == |domain| - 1 then FirstRune(domain) + BULLETS
    else FirstRune(domain[..dot]) + BULLETS + domain[dot..]
  }

  function MaskEmail(raw: string, isSpace: char -> bool): string {
    var s := TrimSpace(raw, isSpace);
    if s == "" then "" else MaskAddress(s)
  }

  /** There is an at sign, with something on both sides of it. */
  predicate Shaped(s: string) {
    0 < LastIndex(s, '@') < |s| - 1
  }

  /** Text that is not shaped like an address is hidden whole. */
  function MaskAddress(s: string): string {
    if !Shaped(s) then BULLETS
    else FirstRune(s) + BULLETS + ("@" + MaskDomain(s[LastIndex(s, '@') + 1..]))
  }

  // ----------------------------------------------------------- SQL's LIKE

  /** PostgreSQL's LIKE with its default escape: % is any run, _ any one rune, \ takes the next literally. */
  predicate Like(pattern: string, s: string)
    decreases |pattern| + |s|
  {
    if pattern == "" then s == ""
    else if pattern[0] == '%' then Like(pattern[1..], s) || (s != "" && Like(pattern, s[1..]))
    else if pattern[0] == '\\' then |pattern| >= 2 && s != "" && s[0] == pattern[1] && Like(pattern[2..], s[1..])
    else s != "" && (pattern[0] == '_' || pattern[0] == s[0]) && Like(pattern[1..], s[1..])
  }

  function Lowered(s: string, lower: char -> char): (t: string)
    ensures |t| == |s|
  {
    if s == "" then "" else [lower(s[0])] + Lowered(s[1..], lower)
  }

  function Escaped(c: char): string {
    if c == '%' || c == '_' || c == '\\' then ['\\', c] else [c]
  }

  /** The pattern for the rest of a mask, `wild` saying its last rune was already a bullet. */
  function Pattern(t: string, wild: bool): string {
    if t == "" then ""
    else if t[0] == MASK then (if wild then "" else "%") + Pattern(t[1..], true)
    else Escaped(t[0]) + Pattern(t[1..], false)
  }

  /** maskedEmailPattern's loop. */
  method MaskedEmailPattern(s: string, isSpace: char -> bool, lower: char -> char) returns (b: string)
    ensures b == if MASK in s then Pattern(Lowered(TrimSpace(s, isSpace), lower), false) else ""
  {
    if MASK !in s {
      return "";
    }
    b := LikePattern(Lowered(TrimSpace(s, isSpace), lower));
  }

  method LikePattern(t: string) returns (b: string)
    ensures b == Pattern(t, false)
  {
    b := "";
    var wild := false;
    for i := 0 to |t|
      invariant b == PatternUpTo(t, i) && wild == AfterBullet(t, i)
    {
      var r := t[i];
      if r != MASK {
        wild := false;
      }
      if r == MASK {
        if !wild {
          b := b + "%";
          wild := true;
        }
      } else if r == '%' || r == '_' || r == '\\' {
        b := b + ['\\', r];
      } else {
        b := b + [r];
      }
    }
    PrefixesAddUp(t, |t|);
    assert t[|t|..] == "";
  }

  predicate AfterBullet(t: string, i: nat)
    requires i <= |t|
  {
    i > 0 && t[i - 1] == MASK
  }

  function Piece(r: char, wild: bool): string {
    if r == MASK then (if wild then "" else "%") else Escaped(r)
  }

  /** What the loop has written after i runes. */
  function PatternUpTo(t: string, i: nat): string
    requires i <= |t|
  {
    if i == 0 then "" else PatternUpTo(t, i - 1) + Piece(t[i - 1], AfterBullet(t, i - 1))
  }

  lemma {:induction false} PrefixesAddUp(t: string, i: nat)
    requires i <= |t|
    ensures PatternUpTo(t, i) + Pattern(t[i..], AfterBullet(t, i)) == Pattern(t, false)
    decreases i
  {
    if i == 0 {
      assert t[0..] == t;
    } else {
      PrefixesAddUp(t, i - 1);
      PatternStep(t, i - 1, AfterBullet(t, i - 1));
      Associative(PatternUpTo(t, i - 1), Piece(t[i - 1], AfterBullet(t, i - 1)), Pattern(t[i..], AfterBullet(t, i)));
    }
  }

  lemma Associative(a: string, b: string, c: string)
    ensures a + (b + c) == a + b + c
  {
  }

  lemma PatternStep(t: string, i: nat, wild: bool)
    requires i < |t|
    ensures Pattern(t[i..], wild) == Piece(t[i], wild) + Pattern(t[i + 1..], t[i] == MASK)
  {
    assert t[i..][1..] == t[i + 1..];
  }

  /** The pattern matches, counting the % a preceding bullet has already left. */
  predicate Matches(t: string, wild: bool, s: string) {
    Like(if wild then "%" + Pattern(t, true) else Pattern(t, false), s)
  }

  lemma PercentMatchesMore(p: string, x: string, s: string)
    requires Like("%" + p, s)
    ensures Like("%" + p, x + s)
  {
    if x == "" {
      assert x + s == s;
    } else {
      PercentMatchesMore(p, x[1..], s);
      assert (x + s)[1..] == x[1..] + s;
    }
  }

  lemma PercentMatchesNothing(p: string, s: string)
    requires Like(p, s)
    ensures Like("%" + p, s)
  {
    assert ("%" + p)[1..] == p;
  }

  lemma MatchesAfterBullet(t: string, s: string)
    requires Matches(t, false, s)
    ensures Matches(t, true, s)
  {
    if t != "" && t[0] == MASK {
      assert "%" + Pattern(t, true) == Pattern(t, false);
    } else {
      assert Pattern(t, true) == Pattern(t, false);
      PercentMatchesNothing(Pattern(t, false), s);
    }
  }

  /** Bullets stand for any text, the empty one included. */
  lemma BulletsMatch(t: string, wild: bool, x: string, s: string)
    requires Matches(t, false, s)
    ensures Matches(BULLETS + t, wild, x + s)
  {
    MatchesAfterBullet(t, s);
    PercentMatchesMore(Pattern(t, true), x, s);
    BulletsPattern(t, wild);
    assert "%" + Pattern(t, true) == if wild then "%" + Pattern(BULLETS + t, true) else Pattern(BULLETS + t, false);
  }

  lemma BulletsPattern(t: string, wild: bool)
    ensures Pattern(BULLETS + t, wild) == (if wild then "" else "%") + Pattern(t, true)
  {
    assert (BULLETS + t)[1..] == [MASK, MASK] + t;
    assert ([MASK, MASK] + t)[1..] == [MASK] + t;
    assert ([MASK] + t)[1..] == t;
    assert Pattern([MASK] + t, true) == Pattern(t, true);
    assert Pattern([MASK, MASK] + t, true) == Pattern([MASK] + t, true);
  }

  /** Text a mask keeps matches itself, whatever wildcards or bullets are in it. */
  lemma {:induction false} KeptTextMatches(kept: string, t: string, wild: bool, s: string)
    requires Matches(t, false, s)
    ensures Matches(kept + t, wild, kept + s)
    decreases kept
  {
    if kept == "" {
      assert kept + t == t && kept + s == s;
      if wild {
        MatchesAfterBullet(t, s);
      }
    } else {
      var c, rest := kept[0], kept[1..];
      assert (kept + t)[0] == c && (kept + t)[1..] == rest + t;
      assert (kept + s)[0] == c && (kept + s)[1..] == rest + s;
      assert kept + s == [c] + (rest + s);
      if c == MASK {
        KeptTextMatches(rest, t, true, s);
        PercentMatchesMore(Pattern(rest + t, true), [c], rest + s);
        assert "" + Pattern(rest + t, true) == Pattern(rest + t, true);
      } else {
        KeptTextMatches(rest, t, false, s);
        LiteralMatches(c, Pattern(rest + t, false), rest + s);
        if wild {
          PercentMatchesNothing(Escaped(c) + Pattern(rest + t, false), kept + s);
        }
      }
    }
  }

  lemma LiteralMatches(c: char, p: string, s: string)
    requires Like(p, s)
    ensures Like(Escaped(c) + p, [c] + s)
  {
    assert ([c] + s)[1..] == s;
    if |Escaped(c)| == 2 {
      assert (Escaped(c) + p)[2..] == p;
    } else {
      assert (Escaped(c) + p)[1..] == p;
    }
  }

  lemma LoweredConcat(s: string, t: string, lower: char -> char)
    ensures Lowered(s + t, lower) == Lowered(s, lower) + Lowered(t, lower)
  {
    if s == "" {
      assert s + t == t;
    } else {
      assert (s + t)[1..] == s[1..] + t;
      LoweredConcat(s[1..], t, lower);
    }
  }

  lemma LoweredBullets(lower: char -> char)
    requires lower(MASK) == MASK
    ensures Lowered(BULLETS, lower) == BULLETS
  {
    assert BULLETS[1..] == [MASK, MASK] && [MASK, MASK][1..] == [MASK] && [MASK][1..] == "";
    assert Lowered([MASK], lower) == [MASK];
    assert Lowered([MASK, MASK], lower) == [MASK, MASK];
  }

  /** A mask that hides one stretch of an address, or the whole of it. */
  lemma OneGapMatches(a: string, x: string, b: string, lower: char -> char)
    requires lower(MASK) == MASK
    ensures Matches(Lowered(a + BULLETS + b, lower), false, Lowered(a + x + b, lower))
  {
    EndMatches(Lowered(b, lower));
    GapMatches(a, x, b, b, lower);
  }

  lemma EndMatches(b: string)
    ensures Matches(b, false, b)
  {
    assert Matches("", false, "");
    KeptTextMatches(b, "", false, "");
    assert b + "" == b;
  }

  lemma GapMatches(a: string, x: string, mask: string, s: string, lower: char -> char)
    requires lower(MASK) == MASK
    requires Matches(Lowered(mask, lower), false, Lowered(s, lower))
    ensures Matches(Lowered(a + BULLETS + mask, lower), false, Lowered(a + x + s, lower))
  {
    var la, lx, lm, ls := Lowered(a, lower), Lowered(x, lower), Lowered(mask, lower), Lowered(s, lower);
    BulletsMatch(lm, false, lx, ls);
    KeptTextMatches(la, BULLETS + lm, false, lx + ls);
    LoweredBullets(lower);
    LoweredThree(a, BULLETS, mask, lower);
    LoweredThree(a, x, s, lower);
  }

  lemma LoweredThree(a: string, b: string, c: string, lower: char -> char)
    ensures Lowered(a + b + c, lower) == Lowered(a, lower) + (Lowered(b, lower) + Lowered(c, lower))
  {
    hide Lowered;
    LoweredConcat(a + b, c, lower);
    LoweredConcat(a, b, lower);
  }

  lemma DomainMatches(domain: string, lower: char -> char)
    requires lower(MASK) == MASK
    ensures Matches(Lowered(MaskDomain(domain), lower), false, Lowered(domain, lower))
  {
    var dot := LastIndex(domain, '.');
    if dot <= 0 || dot == |domain| - 1 {
      var x := if domain == "" then "" else domain[1..];
      OneGapMatches(FirstRune(domain), x, "", lower);
      assert FirstRune(domain) + BULLETS + "" == MaskDomain(domain);
      assert FirstRune(domain) + x + "" == domain;
    } else {
      OneGapMatches(domain[..1], domain[1..dot], domain[dot..], lower);
      assert domain[..1] + domain[1..dot] + domain[dot..] == domain;
      assert FirstRune(domain[..dot]) == domain[..1];
    }
  }

  /** An address's mask, rune by rune: its first rune, three bullets, the at sign, the masked domain. */
  predicate IsMask(m: string, first: char, d: string) {
    |m| == 5 + |d| && m[0] == first && m[1] == m[2] == m[3] == MASK && m[4] == '@' && m[5..] == d
  }

  predicate IsBullets(m: string) {
    |m| == 3 && m[0] == m[1] == m[2] == MASK
  }

  lemma WholeMask(s: string, m: string)
    requires !Shaped(s) && m == MaskAddress(s)
    ensures IsBullets(m)
  {
  }

  lemma ShapedMask(s: string, m: string)
    requires Shaped(s) && m == MaskAddress(s)
    ensures IsMask(m, s[0], MaskDomain(s[LastIndex(s, '@') + 1..]))
  {
    JoinedMask(FirstRune(s), MaskDomain(s[LastIndex(s, '@') + 1..]), m);
  }

  lemma JoinedMask(first: string, d: string, m: string)
    requires |first| == 1
    ensures m == first + BULLETS + ("@" + d) <==> IsMask(m, first[0], d)
  {
    var joined := first + BULLETS + ("@" + d);
    assert IsMask(joined, first[0], d) by {
      assert joined[5..] == d;
    }
    if IsMask(m, first[0], d) {
      assert m == m[..5] + m[5..] && joined == joined[..5] + joined[5..];
      assert m[..5] == joined[..5];
    }
  }

  /** What is left of an address is already trimmed, and is a mask. */
  lemma MaskIsTrimmed(s: string, m: string, isSpace: char -> bool)
    requires !isSpace(MASK) && s != "" && Trimmed(s, isSpace) && m == MaskAddress(s)
    ensures MASK in m && TrimSpace(m, isSpace) == m
  {
    if Shaped(s) {
      ShapedMask(s, m);
      ShapedMaskIsTrimmed(s[0], s[LastIndex(s, '@') + 1..], m, isSpace);
    } else {
      WholeMask(s, m);
      BulletsAreTrimmed(m, isSpace);
    }
  }

  lemma BulletsAreTrimmed(m: string, isSpace: char -> bool)
    requires !isSpace(MASK) && IsBullets(m)
    ensures MASK in m && TrimSpace(m, isSpace) == m
  {
    TrimmedIsFixed(m, isSpace);
  }

  lemma ShapedMaskIsTrimmed(first: char, domain: string, m: string, isSpace: char -> bool)
    requires !isSpace(MASK) && !isSpace(first) && domain != "" && !isSpace(domain[|domain| - 1])
    requires IsMask(m, first, MaskDomain(domain))
    ensures MASK in m && TrimSpace(m, isSpace) == m
  {
    var d := MaskDomain(domain);
    MaskDomainEnd(domain);
    assert m[1] == MASK && m[|m| - 1] == d[|d| - 1];
    TrimmedIsFixed(m, isSpace);
  }

  lemma MaskDomainEnd(domain: string)
    requires domain != ""
    ensures var d := MaskDomain(domain);
            d != "" && (d[|d| - 1] == MASK || d[|d| - 1] == domain[|domain| - 1])
  {
    var d := MaskDomain(domain);
    var dot := LastIndex(domain, '.');
    if dot <= 0 || dot == |domain| - 1 {
      assert d[|d| - 1] == MASK;
    } else {
      assert d[|d| - 1] == domain[dot..][|domain| - dot - 1];
    }
  }

  lemma TrimmedIsFixed(s: string, isSpace: char -> bool)
    requires Trimmed(s, isSpace)
    ensures TrimSpace(s, isSpace) == s
  {
  }

  /**
    The pattern made from any address's mask finds that address: it matches the trimmed,
    lower-cased text, whatever wildcards, backslashes or bullets the address itself contains.
  */
  lemma PatternFindsTheAddress(raw: string, isSpace: char -> bool, lower: char -> char)
    requires lower(MASK) == MASK && !isSpace(MASK)
    requires TrimSpace(raw, isSpace) != ""
    ensures MASK in MaskEmail(raw, isSpace)
    ensures Like(Pattern(Lowered(TrimSpace(MaskEmail(raw, isSpace), isSpace), lower), false), Lowered(TrimSpace(raw, isSpace), lower))
  {
    var s := TrimSpace(raw, isSpace);
    TrimSpaceTrims(raw, isSpace);
    MaskIsTrimmed(s, MaskAddress(s), isSpace);
    MaskedAddressMatches(s, lower);
  }

  lemma AddressParts(s: string, at: nat)
    requires at == LastIndex(s, '@') && 0 < at < |s| - 1
    ensures s == FirstRune(s) + s[1..at] + ("@" + s[at + 1..])
  {
    assert s[at] == '@';
  }

  lemma MaskedAddressMatches(s: string, lower: char -> char)
    requires lower(MASK) == MASK && s != ""
    ensures Matches(Lowered(MaskAddress(s), lower), false, Lowered(s, lower))
  {
    if !Shaped(s) {
      OneGapMatches("", s, "", lower);
      assert "" + BULLETS + "" == BULLETS && "" + s + "" == s;
    } else {
      var at := LastIndex(s, '@');
      AddressMatches(FirstRune(s), s[1..at], s[at + 1..], lower);
      AddressParts(s, at);
    }
  }

  lemma AddressMatches(first: string, hidden: string, domain: string, lower: char -> char)
    requires lower(MASK) == MASK
    ensures Matches(Lowered(first + BULLETS + ("@" + MaskDomain(domain)), lower), false,
                    Lowered(first + hidden + ("@" + domain), lower))
  {
    DomainMatches(domain, lower);
    KeptTextMatches(Lowered("@", lower), Lowered(MaskDomain(domain), lower), false, Lowered(domain, lower));
    LoweredConcat("@", MaskDomain(domain), lower);
    LoweredConcat("@", domain, lower);
    GapMatches(first, hidden, "@" + MaskDomain(domain), "@" + domain, lower);
  }

  // ---------------------------------------------------------- idempotence

  lemma MaskDomainTwice(domain: string)
    requires domain != ""
    ensures MaskDomain(MaskDomain(domain)) == MaskDomain(domain)
  {
    var dot, d := LastIndex(domain, '.'), MaskDomain(domain);
    if dot <= 0 || dot == |domain| - 1 {
      assert d == [domain[0], MASK, MASK, MASK];
      assert d[0] != '.' ==> LastIndex(d, '.') == -1;
    } else {
      assert d == [domain[0], MASK, MASK, MASK] + domain[dot..];
      assert forall i :: 4 < i < |d| ==> d[i] == domain[i - 4 + dot];
      assert d[4] == '.';
      assert LastIndex(d, '.') == 4;
      assert FirstRune(d[..4]) == [domain[0]];
      assert d[4..] == domain[dot..];
    }
  }

  /** Masking an address twice is masking it once. */
  lemma MaskEmailTwice(raw: string, isSpace: char -> bool)
    requires !isSpace(MASK)
    ensures MaskEmail(MaskEmail(raw, isSpace), isSpace) == MaskEmail(raw, isSpace)
  {
    var s := TrimSpace(raw, isSpace);
    if s != "" {
      TrimSpaceTrims(raw, isSpace);
      MaskIsTrimmed(s, MaskAddress(s), isSpace);
      MaskAddressTwice(s, MaskAddress(s));
    }
  }

  lemma MaskAddressTwice(s: string, m: string)
    requires s != "" && m == MaskAddress(s)
    ensures MaskAddress(m) == m
  {
    if Shaped(s) {
      ShapedMask(s, m);
      MaskAgain(s[0], s[LastIndex(s, '@') + 1..], m);
    } else {
      WholeMask(s, m);
      BulletsAreFixed(m);
    }
  }

  lemma BulletsAreFixed(m: string)
    requires IsBullets(m)
    ensures MaskAddress(m) == m
  {
    assert LastIndex(m, '@') == -1;
  }

  lemma MaskAgain(first: char, domain: string, m: string)
    requires domain != "" && '@' !in domain
    requires IsMask(m, first, MaskDomain(domain))
    ensures MaskAddress(m) == m
  {
    var d := MaskDomain(domain);
    MaskDomainHasNoAt(domain);
    MaskDomainTwice(domain);
    AtPosition(m, d);
    JoinedMask(FirstRune(m), d, m);
  }

  lemma AtPosition(m: string, d: string)
    requires m != "" && IsMask(m, m[0], d) && '@' !in d
    ensures LastIndex(m, '@') == 4
  {
    assert forall i :: 4 < i < |m| ==> m[i] == m[5..][i - 5] && m[i] in d;
  }

  lemma MaskDomainHasNoAt(domain: string)
    requires domain != "" && '@' !in domain
    ensures '@' !in MaskDomain(domain) && |MaskDomain(domain)| > 0
  {
  }

  // ----------------------------------------------------------------- phones

  /** How many of the first n runes are digits. */
  function DigitsBefore(s: string, n: nat): nat
    requires n <= |s|
  {
    if n == 0 then 0 else DigitsBefore(s, n - 1) + if IsDigit(s[n - 1]) then 1 else 0
  }

  function DigitCount(s: string): nat {
    DigitsBefore(s, |s|)
  }

  function LeadingDigits(s: string): (k: nat)
    ensures k <= |s| && (forall i :: 0 <= i < k ==> IsDigit(s[i])) && (k < |s| ==> !IsDigit(s[k]))
  {
    if s == "" || !IsDigit(s[0]) then 0 else 1 + LeadingDigits(s[1..])
  }

  /** How many leading digits are a country code: those after a plus, unless that would be nearly all. */
  function Keep(s: string): nat {
    if s != "" && s[0] == '+' && LeadingDigits(s[1..]) < DigitCount(s) - 2 then LeadingDigits(s[1..]) else 0
  }

  /** The digit at i stays: it is country code, or one of the last two of a number long enough. */
  predicate DigitShown(s: string, i: nat)
    requires i < |s|
  {
    DigitCount(s) > 2 && (DigitsBefore(s, i) < Keep(s) || DigitsBefore(s, i) >= DigitCount(s) - 2)
  }

  function MaskedAt(s: string, i: nat, isLetter: char -> bool): char
    requires i < |s|
  {
    if IsDigit(s[i]) then (if DigitShown(s, i) then s[i] else MASK)
    else if isLetter(s[i]) then MASK else s[i]
  }

  /** maskPhone: count the digits, find the country code, then write the number out rune by rune. */
  method MaskPhone(raw: string, isSpace: char -> bool, isLetter: char -> bool) returns (b: string)
    ensures var s := TrimSpace(raw, isSpace);
            |b| == |s| && forall i :: 0 <= i < |s| ==> b[i] == MaskedAt(s, i, isLetter)
  {
    var s := TrimSpace(raw, isSpace);
    if s == "" {
      return "";
    }
    var digits := 0;
    for i := 0 to |s|
      invariant digits == DigitsBefore(s, i)
    {
      if IsDigit(s[i]) {
        digits := digits + 1;
      }
    }
    if digits <= 2 {
      b := MaskAllDigits(s, isLetter);
      return;
    }
    var keep := 0;
    if s[0] == '+' {
      keep := CountLeadingDigits(s[1..]);
      if keep >= digits - 2 {
        keep := 0;
      }
    }
    b := "";
    var seen := 0;
    for i := 0 to |s|
      invariant |b| == i && seen == DigitsBefore(s, i)
      invariant forall j :: 0 <= j < i ==> b[j] == MaskedAt(s, j, isLetter)
    {
      if !IsDigit(s[i]) {
        b := b + [if isLetter(s[i]) then MASK else s[i]];
      } else {
        b := b + [if seen < keep || seen >= digits - 2 then s[i] else MASK];
        seen := seen + 1;
      }
    }
  }

  method CountLeadingDigits(s: string) returns (keep: nat)
    ensures keep == LeadingDigits(s)
  {
    keep := 0;
    while keep < |s| && IsDigit(s[keep])
      invariant keep <= |s| && LeadingDigits(s) == keep + LeadingDigits(s[keep..])
    {
      assert s[keep..][1..] == s[keep + 1..];
      keep := keep + 1;
    }
  }

  method MaskAllDigits(s: string, isLetter: char -> bool) returns (b: string)
    ensures |b| == |s|
    ensures forall i :: 0 <= i < |s| ==> b[i] == if IsDigit(s[i]) || isLetter(s[i]) then MASK else s[i]
  {
    b := "";
    for i := 0 to |s|
      invariant |b| == i
      invariant forall j :: 0 <= j < i ==> b[j] == if IsDigit(s[j]) || isLetter(s[j]) then MASK else s[j]
    {
      b := b + [if IsDigit(s[i]) || isLetter(s[i]) then MASK else s[i]];
    }
  }

  /** Every count below the total is the count in front of some digit. */
  lemma {:induction false} DigitWithCount(s: string, n: nat, end: nat) returns (i: nat)
    requires end <= |s| && n < DigitsBefore(s, end)
    ensures i < end && IsDigit(s[i]) && DigitsBefore(s, i) == n
    decreases end
  {
    if n < DigitsBefore(s, end - 1) {
      i := DigitWithCount(s, n, end - 1);
    } else {
      i := end - 1;
    }
  }

  /**
    No letter comes through a masked number, everything that is neither letter nor digit does, and
    any number that has a digit loses one: of three digits or more at least one is hidden, of one
    or two all are.
  */
  lemma MaskedPhoneHides(s: string, isLetter: char -> bool)
    requires !isLetter(MASK) && forall c :: IsDigit(c) ==> !isLetter(c)
    ensures forall i :: 0 <= i < |s| ==> !isLetter(MaskedAt(s, i, isLetter))
    ensures forall i :: 0 <= i < |s| && !isLetter(s[i]) && !IsDigit(s[i]) ==> MaskedAt(s, i, isLetter) == s[i]
    ensures DigitCount(s) > 0 ==> exists i :: 0 <= i < |s| && IsDigit(s[i]) && MaskedAt(s, i, isLetter) == MASK
    ensures DigitCount(s) <= 2 ==> forall i :: 0 <= i < |s| ==> !IsDigit(MaskedAt(s, i, isLetter))
  {
    if DigitCount(s) > 0 {
      var i := DigitWithCount(s, if DigitCount(s) <= 2 then 0 else Keep(s), |s|);
      assert MaskedAt(s, i, isLetter) == MASK;
    }
  }

  // ---------------------------------------------------------- the pattern finds nothing else

  /** Text a mask could be of: each run of bullets stands for anything, every other rune for itself. */
  ghost predicate CouldBe(t: string, s: string)
    decreases |t|
  {
    if t == "" then s == ""
    else if t[0] == MASK then exists k :: 0 <= k <= |s| && CouldBe(t[1..], s[k..])
    else s != "" && s[0] == t[0] && CouldBe(t[1..], s[1..])
  }

  ghost predicate SomeEndCouldBe(t: string, s: string) { exists k :: 0 <= k <= |s| && CouldBe(t, s[k..]) }

  lemma SomeEndOneMore(t: string, s: string)
    requires s != ""
    ensures SomeEndCouldBe(t, s) <==> CouldBe(t, s) || SomeEndCouldBe(t, s[1..])
  {
    assert s[0..] == s;
    if k :| 0 <= k <= |s| && CouldBe(t, s[k..]) {
      assert k > 0 ==> s[1..][k - 1..] == s[k..];
    }
    if k :| 0 <= k <= |s[1..]| && CouldBe(t, s[1..][k..]) {
      assert s[1..][k..] == s[k + 1..];
    }
    hide CouldBe;
  }

  lemma MoreBulletsSayNoMore(t: string, s: string)
    requires t != "" && t[0] == MASK
    ensures SomeEndCouldBe(t, s) <==> SomeEndCouldBe(t[1..], s)
  {
    if k :| 0 <= k <= |s| && CouldBe(t, s[k..]) {
      var j :| 0 <= j <= |s[k..]| && CouldBe(t[1..], s[k..][j..]);
      assert s[k..][j..] == s[k + j..];
    }
    if k :| 0 <= k <= |s| && CouldBe(t[1..], s[k..]) {
      assert s[0..] == s;
      assert CouldBe(t, s[0..]);
    }
  }

  lemma LiteralExactly(c: char, p: string, s: string)
    ensures Like(Escaped(c) + p, s) <==> s != "" && s[0] == c && Like(p, s[1..])
  {
    if |Escaped(c)| == 2 {
      assert (Escaped(c) + p)[2..] == p;
    } else {
      assert (Escaped(c) + p)[1..] == p;
    }
  }

  /**
    The pattern made from a mask matches a text if and only if the mask could be of it: wildcards and
    backslashes in the mask are themselves, and only bullets stand for other text.
  */
  lemma {:induction false} PatternFindsExactly(t: string, s: string)
    ensures Like(Pattern(t, false), s) <==> CouldBe(t, s)
    decreases |t| + |s|, 0
  {
    if t != "" && t[0] == MASK {
      WildPatternFindsExactly(t[1..], s);
    } else if t != "" {
      LiteralExactly(t[0], Pattern(t[1..], false), s);
      if s != "" {
        PatternFindsExactly(t[1..], s[1..]);
      }
    }
  }

  lemma {:induction false} WildPatternFindsExactly(t: string, s: string)
    ensures Like("%" + Pattern(t, true), s) <==> SomeEndCouldBe(t, s)
    decreases |t| + |s|, 1
  {
    var q := Pattern(t, true);
    assert ("%" + q)[1..] == q;
    if t != "" && t[0] == MASK {
      WildPatternFindsExactly(t[1..], s);
      MoreBulletsSayNoMore(t, s);
      assert q == "" + Pattern(t[1..], true) == Pattern(t[1..], true);
    } else {
      PatternFindsExactly(t, s);
      assert q == Pattern(t, false);
      if s == "" {
        assert s[0..] == s;
        assert SomeEndCouldBe(t, s) <==> CouldBe(t, s);
      } else {
        WildPatternFindsExactly(t, s[1..]);
        SomeEndOneMore(t, s);
      }
    }
  }

  // ---------------------------------------------------------- what is left to see

  /** Space at either end goes, and nothing else does. */
  lemma OnlySpaceGoes(a: string, s: string, b: string, isSpace: char -> bool)
    requires (forall i :: 0 <= i < |a| ==> isSpace(a[i])) && (forall i :: 0 <= i < |b| ==> isSpace(b[i])) && Trimmed(s, isSpace)
    ensures TrimSpace(a + s + b, isSpace) == s
  {
    SpaceInFront(a, s + b, isSpace);
    assert a + s + b == a + (s + b);
    if s == "" {
      assert s + b == b;
      SpaceInFront(b, "", isSpace);
      assert b + "" == b;
    } else {
      assert (s + b)[0] == s[0];
      SpaceBehind(s, b, isSpace);
    }
  }

  lemma {:induction false} SpaceInFront(a: string, s: string, isSpace: char -> bool)
    requires forall i :: 0 <= i < |a| ==> isSpace(a[i])
    ensures TrimLeft(a + s, isSpace) == TrimLeft(s, isSpace)
  {
    if a == "" {
      assert a + s == s;
    } else {
      assert (a + s)[1..] == a[1..] + s;
      SpaceInFront(a[1..], s, isSpace);
    }
  }

  lemma {:induction false} SpaceBehind(s: string, b: string, isSpace: char -> bool)
    requires forall i :: 0 <= i < |b| ==> isSpace(b[i])
    ensures TrimRight(s + b, isSpace) == TrimRight(s, isSpace)
  {
    if b == "" {
      assert s + b == s;
    } else {
      assert (s + b)[..|s + b| - 1] == s + b[..|b| - 1];
      SpaceBehind(s, b[..|b| - 1], isSpace);
    }
  }

  /** An address taken apart: the rune in front, what is hidden, the domain's first rune, what is hidden of it, its ending. */
  predicate Parts(s: string, first: char, hidden: string, d: char, middle: string, ending: string) {
    && s == [first] + hidden + "@" + [d] + middle + ending
    && '@' !in [d] + middle + ending && ending != "." && (ending == "" ==> NoInnerDot([d] + middle))
    && (ending != "" ==> ending[0] == '.' && '.' !in ending[1..])
  }

  /** No dot with something on both sides of it. */
  predicate NoInnerDot(domain: string) {
    var dot := LastIndex(domain, '.');
    dot <= 0 || dot == |domain| - 1
  }

  /**
    A mask shows the first rune of an address, the first of its domain and the ending from the last dot; for
    what stands between, however long, there are three bullets. Nothing of it is left, not even its length.
  */
  lemma MaskShowsOnly(raw: string, isSpace: char -> bool, first: char, hidden: string, d: char, middle: string, ending: string)
    requires Parts(TrimSpace(raw, isSpace), first, hidden, d, middle, ending)
    ensures MaskEmail(raw, isSpace) == [first] + [MASK, MASK, MASK] + "@" + [d] + [MASK, MASK, MASK] + ending
  {
    hide TrimSpace;
    hide MaskDomain;
    hide MaskAddress;
    var s, local, domain := TrimSpace(raw, isSpace), [first] + hidden, [d] + middle + ending;
    Regrouped(local, [d], middle, ending);
    assert s == local + "@" + domain;
    AddressShowsOnly(local, domain);
    DomainShowsOnly(d, middle, ending);
    hide NoInnerDot;
    Regrouped([first] + [MASK, MASK, MASK], [d], [MASK, MASK, MASK], ending);
  }

  lemma Regrouped(a: string, b: string, c: string, e: string)
    ensures a + "@" + b + c + e == a + "@" + (b + c + e)
  {
  }

  lemma AddressShowsOnly(local: string, domain: string)
    requires local != "" && domain != "" && '@' !in domain
    ensures MaskAddress(local + "@" + domain) == [local[0]] + [MASK, MASK, MASK] + "@" + MaskDomain(domain)
  {
    LastAt(local, domain);
    hide MaskDomain;
    var s := local + "@" + domain;
    assert s[|local| + 1..] == domain && s[0] == local[0];
    assert [local[0]] + BULLETS + ("@" + MaskDomain(domain)) == [local[0]] + [MASK, MASK, MASK] + "@" + MaskDomain(domain);
  }

  lemma LastAt(local: string, domain: string)
    requires '@' !in domain
    ensures LastIndex(local + "@" + domain, '@') == |local|
  {
    var s := local + "@" + domain;
    assert s[|local|] == '@';
    assert forall i :: |local| < i < |s| ==> s[i] == domain[i - |local| - 1] && s[i] in domain;
  }

  lemma DomainShowsOnly(d: char, middle: string, ending: string)
    requires ending != "." && (ending == "" ==> NoInnerDot([d] + middle))
    requires ending != "" ==> ending[0] == '.' && '.' !in ending[1..]
    ensures MaskDomain([d] + middle + ending) == [d] + [MASK, MASK, MASK] + ending
  {
    var domain := [d] + middle + ending;
    if ending == "" {
      assert domain == [d] + middle;
    } else {
      var dot := 1 + |middle|;
      assert domain[dot] == '.' && domain[dot..] == ending;
      assert forall i :: dot < i < |domain| ==> domain[i] == ending[1..][i - dot - 1] && domain[i] in ending[1..];
      assert LastIndex(domain, '.') == dot;
    }
  }

  /** So two addresses that differ only in what is hidden are one to whoever sees their masks. */
  lemma HiddenTextIsHidden(raw: string, other: string, isSpace: char -> bool, first: char, hidden: string, d: char, middle: string,
                           ending: string, hidden2: string, middle2: string)
    requires Parts(TrimSpace(raw, isSpace), first, hidden, d, middle, ending)
    requires Parts(TrimSpace(other, isSpace), first, hidden2, d, middle2, ending)
    ensures MaskEmail(raw, isSpace) == MaskEmail(other, isSpace)
  {
    MaskShowsOnly(raw, isSpace, first, hidden, d, middle, ending);
    MaskShowsOnly(other, isSpace, first, hidden2, d, middle2, ending);
  }

  /** Text that is no address is hidden whole, and blank text has no mask. */
  lemma NoAddressIsHiddenWhole(raw: string, isSpace: char -> bool)
    ensures var s := TrimSpace(raw, isSpace);
      && (s == "" ==> MaskEmail(raw, isSpace) == "")
      && (s != "" && (forall i :: 0 < i < |s| - 1 && s[i] == '@' ==> '@' in s[i + 1..]) ==>
            MaskEmail(raw, isSpace) == [MASK, MASK, MASK])
  {
  }

  /** The digits after a plus, as a run that ends at e, are a country code: not so many as to be nearly the whole number. */
  predicate CountryCode(s: string, e: int) {
    && 1 <= e <= |s| && s[0] == '+' && (forall j :: 1 <= j < e ==> IsDigit(s[j])) && (e < |s| ==> !IsDigit(s[e]))
    && e - 1 < DigitCount(s) - 2
  }

  /** Of a number of three digits or more, the last two are shown, and a country code, and no other digit. */
  lemma MaskedPhoneShows(s: string, i: nat, isLetter: char -> bool)
    requires i < |s| && IsDigit(s[i]) && DigitCount(s) >= 3
    ensures MaskedAt(s, i, isLetter) == s[i] <==>
      DigitCount(s) - DigitsBefore(s, i + 1) < 2 || exists e :: CountryCode(s, e) && i < e
    ensures MaskedAt(s, i, isLetter) == s[i] || MaskedAt(s, i, isLetter) == MASK
  {
    if s[0] == '+' {
      var e := 1 + LeadingDigits(s[1..]);
      assert forall j :: 1 <= j < e ==> s[j] == s[1..][j - 1];
      assert e < |s| ==> s[e] == s[1..][e - 1];
      RunCount(s, e);
      if i < e {
        CountInRun(s, e, i);
      } else {
        CountMonotone(s, e, i);
      }
      forall x | CountryCode(s, x) ensures x == e {
        assert x < |s| ==> !IsDigit(s[x]);
        assert e < |s| ==> !IsDigit(s[e]);
      }
      assert e - 1 < DigitCount(s) - 2 ==> CountryCode(s, e);
    }
  }

  lemma {:induction false} CountInRun(s: string, e: nat, i: nat)
    requires 1 <= i <= e <= |s| && s[0] == '+' && forall j :: 1 <= j < e ==> IsDigit(s[j])
    ensures DigitsBefore(s, i) == i - 1
  {
    if i > 1 {
      CountInRun(s, e, i - 1);
    }
  }

  lemma RunCount(s: string, e: nat)
    requires 1 <= e <= |s| && s[0] == '+' && forall j :: 1 <= j < e ==> IsDigit(s[j])
    ensures DigitsBefore(s, e) == e - 1
  {
    CountInRun(s, e, e);
  }

  lemma {:induction false} CountMonotone(s: string, a: nat, b: nat)
    requires a <= b <= |s|
    ensures DigitsBefore(s, a) <= DigitsBefore(s, b)
    decreases b
  {
    if a < b {
      CountMonotone(s, a, b - 1);
    }
  }
}
