/**
  The GSTIN check character (core/gst.go): the mod-36 form of the Luhn formula, Annex B of
  ISO/IEC 7812-1, and the parser that relies on it.

  The two questions a check character exists to answer are proved for strings of any length -
  which single substitutions and which adjacent swaps it catches - and then for the parser, where
  the shape of a GSTIN closes the one gap the formula leaves.
*/
module Gstin {
  import opened Basics

  const ALPHABET := "0123456789ABCDEFGHIJKLMNOPQRSTUVWXYZ"

  predicate InAlphabet(c: char) {
    '0' <= c <= '9' || 'A' <= c <= 'Z'
  }

  predicate AllInAlphabet(s: string) {
    forall i :: 0 <= i < |s| ==> InAlphabet(s[i])
  }

  function CharOf(v: nat): (c: char)
    requires v < 36
    ensures InAlphabet(c)
  {
    if v < 10 then '0' + v as char else 'A' + (v - 10) as char
  }

  /** The index of c in ALPHABET. */
  function Value(c: char): (v: nat)
    requires InAlphabet(c)
    ensures v < 36 && CharOf(v) == c
  {
    if c <= '9' then (c - '0') as int else (c - 'A') as int + 10
  }

  lemma CharOfIsAlphabet(v: nat)
    requires v < 36
    ensures ALPHABET[v] == CharOf(v)
  {
  }

  lemma CharOfIsInjective(u: nat, v: nat)
    requires u < 36 && v < 36
    ensures CharOf(u) == CharOf(v) <==> u == v
  {
  }

  /** One character's share of the sum: every second value doubled, the product folded to base 36. */
  function Fold(v: nat, i: nat): nat {
    var p := v * (1 + i % 2);
    p / 36 + p % 36
  }

  /** The folded sum of the first n characters. */
  function FoldSum(s: string, n: nat): nat
    requires n <= |s| && AllInAlphabet(s)
  {
    if n == 0 then 0 else FoldSum(s, n - 1) + Fold(Value(s[n - 1]), n - 1)
  }

  function CheckChar(s: string): char
    requires AllInAlphabet(s)
  {
    CharOf((36 - FoldSum(s, |s|) % 36) % 36)
  }

  lemma SameResidue(a: int, b: int)
    ensures (a - b) % 36 == 0 <==> a % 36 == b % 36
  {
    var q, r := (a - b) / 36, (a - b) % 36;
    assert a - b == 36 * q + r;
    assert a == 36 * (a / 36) + a % 36 && b == 36 * (b / 36) + b % 36;
    assert r == 36 * (a / 36 - b / 36 - q) + (a % 36 - b % 36);
  }

  lemma SmallResidue(r: int)
    ensures 0 <= r < 36 ==> r % 36 == r
    ensures (36 - 0) % 36 == 0
  {
  }

  /** v completes a sum to a multiple of 36 when it is what is missing to the next one. */
  lemma MissingResidue(sum: int, v: int)
    requires 0 <= v < 36
    ensures v == (36 - sum % 36) % 36 <==> (sum + v) % 36 == 0
  {
    SmallResidue(36 - sum % 36);
    SmallResidue(36 - v);
    SameResidue(sum, -v);
    assert sum - (-v) == sum + v;
    SameResidue(36 - v, -v);
    assert 36 - v - (-v) == 36;
  }

  /** The check character is the one character that brings the folded sum to a multiple of 36. */
  lemma CheckCharCompletesTheSum(s: string, c: char)
    requires AllInAlphabet(s) && InAlphabet(c)
    ensures c == CheckChar(s) <==> (FoldSum(s, |s|) + Value(c)) % 36 == 0
  {
    hide FoldSum;
    MissingResidue(FoldSum(s, |s|), Value(c));
    CharOfIsInjective(Value(c), (36 - FoldSum(s, |s|) % 36) % 36);
  }

  /** Doubling and folding permutes 0..35, so a changed value always changes its share. */
  lemma FoldIsInjective(u: nat, v: nat, i: nat)
    requires u < 36 && v < 36
    ensures Fold(u, i) < 36
    ensures Fold(u, i) == Fold(v, i) <==> u == v
  {
    FoldShares(u, i);
    FoldShares(v, i);
  }

  lemma FoldShares(v: nat, i: nat)
    requires v < 36
    ensures Fold(v, i) == if i % 2 == 0 then v else if v < 18 then 2 * v else 2 * v - 35
  {
    if i % 2 == 1 {
      assert v * (1 + i % 2) == 2 * v;
      assert (2 * v) / 36 == if v < 18 then 0 else 1;
    } else {
      assert v * (1 + i % 2) == v;
    }
  }

  /** Strings that agree except at k differ in their sums by exactly that character's share. */
  lemma {:induction false} SumAfterSubstitution(s: string, t: string, k: nat, n: nat)
    requires AllInAlphabet(s) && AllInAlphabet(t) && k < n <= |s| == |t|
    requires forall i :: 0 <= i < |s| && i != k ==> s[i] == t[i]
    ensures FoldSum(s, n) - FoldSum(t, n) == Fold(Value(s[k]), k) - Fold(Value(t[k]), k)
  {
    hide Fold;
    hide Value;
    if k == n - 1 {
      SameSum(s, t, k);
    } else {
      SumAfterSubstitution(s, t, k, n - 1);
    }
  }

  lemma {:induction false} SameSum(s: string, t: string, n: nat)
    requires AllInAlphabet(s) && AllInAlphabet(t) && n <= |s| == |t|
    requires forall i :: 0 <= i < n ==> s[i] == t[i]
    ensures FoldSum(s, n) == FoldSum(t, n)
  {
    if n > 0 {
      SameSum(s, t, n - 1);
    }
  }

  lemma {:induction false} SumAfterSwap(s: string, t: string, k: nat, n: nat)
    requires AllInAlphabet(s) && AllInAlphabet(t) && k + 1 < n <= |s| == |t|
    requires t[k] == s[k + 1] && t[k + 1] == s[k]
    requires forall i :: 0 <= i < |s| && i != k && i != k + 1 ==> s[i] == t[i]
    ensures FoldSum(s, n) - FoldSum(t, n) ==
            Fold(Value(s[k]), k) + Fold(Value(s[k + 1]), k + 1) - Fold(Value(s[k + 1]), k) - Fold(Value(s[k]), k + 1)
  {
    hide Fold;
    hide Value;
    if k + 1 == n - 1 {
      SameSum(s, t, k);
      assert FoldSum(s, k + 1) == FoldSum(s, k) + Fold(Value(s[k]), k);
      assert FoldSum(t, k + 1) == FoldSum(t, k) + Fold(Value(t[k]), k);
    } else {
      SumAfterSwap(s, t, k, n - 1);
    }
  }

  lemma SameCheckMeansSameResidue(s: string, t: string)
    requires AllInAlphabet(s) && AllInAlphabet(t)
    ensures CheckChar(s) == CheckChar(t) <==> (FoldSum(s, |s|) - FoldSum(t, |t|)) % 36 == 0
  {
    hide FoldSum;
    var a, b := FoldSum(s, |s|), FoldSum(t, |t|);
    CharOfIsInjective((36 - a % 36) % 36, (36 - b % 36) % 36);
    SmallResidue(36 - a % 36);
    SmallResidue(36 - b % 36);
    SameResidue(a, b);
  }

  /** Every single-character substitution changes the check character, at any length. */
  lemma SubstitutionChangesCheck(s: string, t: string, k: nat)
    requires AllInAlphabet(s) && AllInAlphabet(t) && k < |s| == |t|
    requires forall i :: 0 <= i < |s| && i != k ==> s[i] == t[i]
    ensures CheckChar(s) == CheckChar(t) <==> s[k] == t[k]
  {
    hide FoldSum;
    hide CheckChar;
    hide Fold;
    SumAfterSubstitution(s, t, k, |s|);
    SameCheckMeansSameResidue(s, t);
    var u, v := Value(s[k]), Value(t[k]);
    FoldIsInjective(u, v, k);
    FoldIsInjective(v, u, k);
    SameResidue(Fold(u, k), Fold(v, k));
    SmallResidue(Fold(u, k));
    SmallResidue(Fold(v, k));
  }

  lemma ShareDifferences(a: nat, b: nat, k: nat)
    requires a < 36 && b < 36
    ensures (Fold(a, k) + Fold(b, k + 1) - Fold(b, k) - Fold(a, k + 1)) % 36 == 0
            <==> a == b || (a == 0 && b == 35) || (a == 35 && b == 0)
  {
    hide Fold;
    FoldShares(a, k);
    FoldShares(b, k);
    FoldShares(a, k + 1);
    FoldShares(b, k + 1);
    assert k % 2 == 0 <==> (k + 1) % 2 == 1;
    var d := Fold(a, k) + Fold(b, k + 1) - Fold(b, k) - Fold(a, k + 1);
    assert -72 < d < 72;
    assert d % 36 == 0 <==> d == 0 || d == 36 || d == -36;
  }

  predicate IsZeroAndZ(a: char, b: char) {
    (a == '0' && b == 'Z') || (a == 'Z' && b == '0')
  }

  /** A swap of two adjacent characters goes unseen exactly when they are equal, or are 0 and Z. */
  lemma SwapChangesCheck(s: string, t: string, k: nat)
    requires AllInAlphabet(s) && AllInAlphabet(t) && k + 1 < |s| == |t|
    requires t[k] == s[k + 1] && t[k + 1] == s[k]
    requires forall i :: 0 <= i < |s| && i != k && i != k + 1 ==> s[i] == t[i]
    ensures CheckChar(s) == CheckChar(t) <==> s[k] == s[k + 1] || IsZeroAndZ(s[k], s[k + 1])
  {
    hide FoldSum;
    hide CheckChar;
    hide Fold;
    SumAfterSwap(s, t, k, |s|);
    SameCheckMeansSameResidue(s, t);
    ShareDifferences(Value(s[k]), Value(s[k + 1]), k);
  }

  /** gstinCheck's loop. */
  method GstinCheck(g: string) returns (c: char)
    requires |g| >= 14 && AllInAlphabet(g)
    ensures c == CheckChar(g[..14])
  {
    hide CharOf;
    hide Value;
    var sum := 0;
    for i := 0 to 14
      invariant sum == FoldSum(g, i)
    {
      var p := Value(g[i]) * (1 + i % 2);
      assert p / 36 + p % 36 == Fold(Value(g[i]), i);
      sum := sum + p / 36 + p % 36;
    }
    PrefixSum(g, 14, 14);
    CharOfIsAlphabet((36 - sum % 36) % 36);
    c := ALPHABET[(36 - sum % 36) % 36];
  }

  lemma {:induction false} PrefixSum(g: string, m: nat, n: nat)
    requires n <= m <= |g| && AllInAlphabet(g)
    ensures FoldSum(g[..m], n) == FoldSum(g, n)
  {
    if n > 0 {
      PrefixSum(g, m, n - 1);
    }
  }

  datatype Parsed = Accepted(gstin: string) | WrongLength | WrongShape | UnknownState | WrongCheck(shouldBe: char)

  predicate IsUpper(c: char) { 'A' <= c <= 'Z' }

  /** Two digits, five letters, four digits, a letter, an entity number, Z, a check character. */
  predicate HasShape(g: string)
    requires |g| == 15
  {
    && IsDigit(g[0]) && IsDigit(g[1])
    && (forall i :: 2 <= i < 7 ==> IsUpper(g[i]))
    && (forall i :: 7 <= i < 11 ==> IsDigit(g[i]))
    && IsUpper(g[11])
    && InAlphabet(g[12]) && g[12] != '0'
    && g[13] == 'Z'
    && InAlphabet(g[14])
  }

  /** The state codes GST prints, 25 and 28 being retired ones still on older numbers. */
  predicate IsStateCode(tens: char, units: char)
    requires IsDigit(tens) && IsDigit(units)
  {
    var code := 10 * Value(tens) + Value(units);
    1 <= code <= 38 || code == 97
  }

  /** ParseGSTIN, on the trimmed and upper-cased text. */
  method ParseGSTIN(g: string) returns (r: Parsed)
    ensures r.Accepted? ==> r.gstin == g
    ensures r.Accepted? <==> IsValid(g)
    ensures r.WrongLength? <==> |g| != 15
    ensures r.WrongShape? <==> |g| == 15 && !HasShape(g)
    ensures r.UnknownState? <==> |g| == 15 && HasShape(g) && !IsStateCode(g[0], g[1])
    ensures r.WrongCheck? ==> IsValid(g[14 := r.shouldBe])
  {
    if |g| != 15 {
      return WrongLength;
    }
    if !HasShape(g) {
      return WrongShape;
    }
    if !IsStateCode(g[0], g[1]) {
      return UnknownState;
    }
    var c := GstinCheck(g);
    if g[14] != c {
      assert g[14 := c][..14] == g[..14];
      return WrongCheck(c);
    }
    return Accepted(g);
  }

  predicate IsValid(g: string) {
    |g| == 15 && HasShape(g) && IsStateCode(g[0], g[1]) && AllInAlphabet(g[..14]) && g[14] == CheckChar(g[..14])
  }

  /** Changing any one of the fifteen characters of a valid GSTIN makes it invalid. */
  lemma OneWrongCharacterIsRefused(g: string, h: string, k: nat)
    requires IsValid(g) && |h| == 15 && k < 15 && h[k] != g[k]
    requires forall i :: 0 <= i < 15 && i != k ==> h[i] == g[i]
    ensures !IsValid(h)
  {
    if k == 14 {
      assert g[..14] == h[..14];
    } else if IsValid(h) {
      SubstitutionChangesCheck(g[..14], h[..14], k);
    }
  }

  /**
    So does swapping any two unequal neighbours: where the formula would miss 0 and Z, the shape
    never lets the two stand next to each other in both orders.
  */
  lemma OneSwapIsRefused(g: string, h: string, k: nat)
    requires IsValid(g) && |h| == 15 && k + 1 < 15 && g[k] != g[k + 1]
    requires h[k] == g[k + 1] && h[k + 1] == g[k]
    requires forall i :: 0 <= i < 15 && i != k && i != k + 1 ==> h[i] == g[i]
    ensures !IsValid(h)
  {
    if IsValid(h) && k != 13 {
      SwapChangesCheck(g[..14], h[..14], k);
    }
  }

  // ------------------------------------------------------------------ what a number looks like

  /** What may stand at each place: 9 a digit, A a letter, E a letter or a digit but 0, Z itself, X either. */
  const TEMPLATE := "99AAAAA9999AEZX"

  predicate FitsPlace(place: char, c: char) {
    match place
    case '9' => '0' <= c <= '9'
    case 'A' => 'A' <= c <= 'Z'
    case 'E' => '1' <= c <= '9' || 'A' <= c <= 'Z'
    case 'Z' => c == 'Z'
    case _ => '0' <= c <= '9' || 'A' <= c <= 'Z'
  }

  /** The shape, place by place. */
  lemma ShapeIsTheTemplate(g: string)
    requires |g| == 15
    ensures HasShape(g) <==> forall i :: 0 <= i < 15 ==> FitsPlace(TEMPLATE[i], g[i])
  {
    if forall i :: 0 <= i < 15 ==> FitsPlace(TEMPLATE[i], g[i]) {
      assert FitsPlace(TEMPLATE[0], g[0]) && FitsPlace(TEMPLATE[1], g[1]) && FitsPlace(TEMPLATE[11], g[11]);
      assert FitsPlace(TEMPLATE[12], g[12]) && FitsPlace(TEMPLATE[13], g[13]) && FitsPlace(TEMPLATE[14], g[14]);
      forall i | 2 <= i < 7 ensures IsUpper(g[i]) {
        assert FitsPlace(TEMPLATE[i], g[i]);
      }
      forall i | 7 <= i < 11 ensures IsDigit(g[i]) {
        assert FitsPlace(TEMPLATE[i], g[i]);
      }
    }
  }

  const STATES: set<string> := {
    "01", "02", "03", "04", "05", "06", "07", "08", "09", "10", "11", "12", "13", "14", "15", "16", "17", "18", "19", "20",
    "21", "22", "23", "24", "25", "26", "27", "28", "29", "30", "31", "32", "33", "34", "35", "36", "37", "38", "97" }

  /** The states GST numbers, the two retired codes among them. */
  lemma StateCodesAreThese(tens: char, units: char)
    requires IsDigit(tens) && IsDigit(units)
    ensures IsStateCode(tens, units) <==> [tens, units] in STATES
  {
    var code := [tens, units];
    assert code[0] == tens && code[1] == units;
    forall s: string | s in STATES ensures |s| == 2 && IsDigit(s[0]) && IsDigit(s[1]) && IsStateCode(s[0], s[1]) {
    }
    if IsStateCode(tens, units) {
      var t, u := Value(tens), Value(units);
      assert tens == CharOf(t) && units == CharOf(u);
      assert code == [CharOf(t), CharOf(u)];
      assert t <= 3 || t == 9;
    }
  }

  /** What makes a number valid: each place has its kind, the first two a state, and the folded sum comes out even. */
  lemma ValidExactly(g: string)
    ensures IsValid(g) <==>
      && |g| == 15 && (forall i :: 0 <= i < 15 ==> FitsPlace(TEMPLATE[i], g[i]) && InAlphabet(g[i])) && g[..2] in STATES
      && (FoldSum(g[..14], 14) + Value(g[14])) % 36 == 0
  {
    if |g| == 15 {
      ShapeIsTheTemplate(g);
      if forall i :: 0 <= i < 15 ==> FitsPlace(TEMPLATE[i], g[i]) {
        assert FitsPlace(TEMPLATE[0], g[0]) && FitsPlace(TEMPLATE[1], g[1]) && FitsPlace(TEMPLATE[14], g[14]);
        forall i | 0 <= i < 15 ensures InAlphabet(g[i]) {
          assert FitsPlace(TEMPLATE[i], g[i]);
        }
        assert g[..2] == [g[0], g[1]];
        StateCodesAreThese(g[0], g[1]);
        CheckCharCompletesTheSum(g[..14], g[14]);
      }
      hide HasShape;
      hide IsStateCode;
      hide FoldSum;
      hide FitsPlace;
      hide CheckChar;
    }
  }

  /** A number that starts so has a sum of 131 after seven characters, whatever follows. */
  lemma ExampleFirstHalf(h: string)
    requires |h| >= 7 && AllInAlphabet(h) && h[0] == '2' && h[1] == '7' && h[2] == 'A' && h[3] == 'A'
    requires h[4] == 'P' && h[5] == 'F' && h[6] == 'U'
    ensures FoldSum(h, 7) == 131
  {
    NextShare(h, 0, 2);
    NextShare(h, 1, 7);
    NextShare(h, 2, 10);
    NextShare(h, 3, 10);
    NextShare(h, 4, 25);
    NextShare(h, 5, 15);
    NextShare(h, 6, 30);
  }

  lemma NextShare(s: string, n: nat, v: nat)
    requires AllInAlphabet(s) && n < |s| && v < 36 && s[n] == CharOf(v)
    ensures FoldSum(s, n + 1) == FoldSum(s, n) + if n % 2 == 0 then v else if v < 18 then 2 * v else 2 * v - 35
  {
    CharOfIsInjective(v, Value(s[n]));
    FoldShares(v, n);
  }

  lemma ExampleSecondHalf(h: string)
    requires |h| == 14 && AllInAlphabet(h) && h[7] == '0' && h[8] == '9' && h[9] == '3' && h[10] == '9'
    requires h[11] == 'F' && h[12] == '1' && h[13] == 'Z' && FoldSum(h, 7) == 131
    ensures FoldSum(h, 14) == 221
  {
    hide FoldSum;
    NextShare(h, 7, 0);
    NextShare(h, 8, 9);
    NextShare(h, 9, 3);
    NextShare(h, 10, 9);
    NextShare(h, 11, 15);
    NextShare(h, 12, 1);
    NextShare(h, 13, 35);
  }

  /** The number the refusals show as their example is one. */
  lemma TheExampleIsValid()
    ensures IsValid("27AAPFU0939F1ZV")
  {
    var g := "27AAPFU0939F1ZV";
    var h := g[..14];
    assert AllInAlphabet(h);
    ExampleFirstHalf(h);
    ExampleSecondHalf(h);
    hide FoldSum;
    hide Fold;
    assert CheckChar(h) == CharOf(31);
  }
}
