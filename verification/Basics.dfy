/** Small things several components share. */
module Basics {
  datatype Option<+T> = None | Some(value: T)

  ghost predicate NoRepeats(ids: seq<int>) { forall i, j :: 0 <= i < j < |ids| ==> ids[i] != ids[j] }

  /** Where x first stands, or the length of the sequence. */
  function IndexOf(ids: seq<int>, x: int): (k: nat)
    ensures k <= |ids| && (k < |ids| ==> ids[k] == x) && forall i :: 0 <= i < k ==> ids[i] != x
  {
    if ids == [] || ids[0] == x then 0 else 1 + IndexOf(ids[1..], x)
  }

  lemma NonEmpty(s: set<int>)
    ensures s == {} || exists x :: x in s
  {
    if forall x :: x !in s {
      assert s == {};
    }
  }

  /** A multiset's member stands somewhere in the sequence. */
  lemma SplitAt<T>(b: seq<T>, x: T) returns (b1: seq<T>, b2: seq<T>)
    requires x in multiset(b)
    ensures b == b1 + ([x] + b2)
  {
    var i :| 0 <= i < |b| && b[i] == x;
    b1, b2 := b[..i], b[i + 1..];
  }

  lemma TakenOut<T>(b1: seq<T>, x: T, b2: seq<T>)
    ensures multiset(b1 + b2) == multiset(b1 + ([x] + b2)) - multiset{x}
  {
    assert multiset(b1 + ([x] + b2)) == multiset(b1) + multiset{x} + multiset(b2);
    assert multiset(b1 + b2) == multiset(b1) + multiset(b2);
  }

  predicate IsDigit(c: char) { '0' <= c <= '9' }
}
