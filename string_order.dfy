/** Ordinal lexicographic order on strings, character by character (each
    `char` a Unicode scalar value): the order the model uses where
    `useSwapForm` compares currency names with `localeCompare`. */
module StringOrder {

  import StableSort

  /** `a` sorts strictly before `b`: a proper prefix comes first, otherwise
      the first differing character decides. */
  predicate Less(a: string, b: string)
    decreases |a|
  {
    if a == [] then b != []
    else if b == [] then false
    else if a[0] != b[0] then a[0] < b[0]
    else Less(a[1..], b[1..])
  }

  lemma {:induction false} LessIrreflexive(a: string)
    ensures !Less(a, a)
    decreases |a|
  {
    if a != [] {
      LessIrreflexive(a[1..]);
    }
  }

  lemma {:induction false} LessTransitive(a: string, b: string, c: string)
    requires Less(a, b) && Less(b, c)
    ensures Less(a, c)
    decreases |a|
  {
    if a != [] && a[0] == b[0] && b[0] == c[0] {
      LessTransitive(a[1..], b[1..], c[1..]);
    }
  }

  /** Any two different strings are ordered one way or the other. */
  lemma {:induction false} LessTrichotomous(a: string, b: string)
    ensures a == b || Less(a, b) || Less(b, a)
    decreases |a|
  {
    if a != [] && b != [] && a[0] == b[0] {
      LessTrichotomous(a[1..], b[1..]);
      if a[1..] == b[1..] {
        assert a == [a[0]] + a[1..] && b == [b[0]] + b[1..];
      }
    }
  }

  /** `Less` is a strict total order, so it can drive a sort. */
  lemma LessIsStrictTotalOrder()
    ensures StableSort.StrictTotalOrder(Less)
  {
    forall x
      ensures !Less(x, x)
    {
      LessIrreflexive(x);
    }
    forall x, y, z | Less(x, y) && Less(y, z)
      ensures Less(x, z)
    {
      LessTransitive(x, y, z);
    }
    forall x, y
      ensures x == y || Less(x, y) || Less(y, x)
    {
      LessTrichotomous(x, y);
    }
  }
}
