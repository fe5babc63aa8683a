/** String ordering used by the task table's comparator.

    The table calls `String.prototype.localeCompare`, whose result depends on
    the runtime's collation tables. The model therefore takes the collation
    as a parameter and asks only that it be a consistent comparator (a total
    preorder: antisymmetric in sign and transitive), which is what a sort
    needs and what a locale collation provides. Distinct strings may compare
    equal, as they can under a locale collation. `Lexicographic`, plain
    character-by-character order, is one collation that meets the
    requirement. */
module Collation {

  /** A consistent string comparator: swapping the operands swaps the sign of
      the result, and "sorts no later than" is transitive. */
  ghost predicate IsCollation(collate: (string, string) -> int)
  {
    && (forall a, b :: collate(a, b) > 0 <==> collate(b, a) < 0)
    && (forall a, b, c :: collate(a, b) <= 0 && collate(b, c) <= 0 ==> collate(a, c) <= 0)
  }

  /** The empty string sorts no later than any string. */
  ghost predicate EmptyFirst(collate: (string, string) -> int)
  {
    forall s :: collate("", s) <= 0
  }

  /** Equal-comparing is symmetric, every string compares equal to itself,
      and any two strings are comparable. */
  lemma CollationBasics(collate: (string, string) -> int, a: string, b: string)
    requires IsCollation(collate)
    ensures collate(a, a) == 0
    ensures collate(a, b) == 0 <==> collate(b, a) == 0
    ensures collate(a, b) <= 0 || collate(b, a) <= 0
  {
    assert collate(a, a) > 0 <==> collate(a, a) < 0;
  }

  /** Strings that compare equal to a third compare equal to each other. */
  lemma EquivalentTransitive(collate: (string, string) -> int, a: string, b: string, c: string)
    requires IsCollation(collate)
    requires collate(a, b) == 0 && collate(b, c) == 0
    ensures collate(a, c) == 0
  {
    CollationBasics(collate, a, b);
    CollationBasics(collate, b, c);
    CollationBasics(collate, a, c);
    assert collate(c, b) <= 0 && collate(b, a) <= 0;
  }

  /** Negative, zero or positive as `a` sorts before, together with, or after
      `b`, comparing character by character, a proper prefix first. */
  function Lexicographic(a: string, b: string): (r: int)
    ensures -1 <= r <= 1
  {
    if |a| == 0 then (if |b| == 0 then 0 else -1)
    else if |b| == 0 then 1
    else if a[0] < b[0] then -1
    else if a[0] > b[0] then 1
    else Lexicographic(a[1..], b[1..])
  }

  lemma {:induction false} LexicographicZero(a: string, b: string)
    ensures Lexicographic(a, b) == 0 <==> a == b
  {
    if |a| > 0 && |b| > 0 && a[0] == b[0] {
      LexicographicZero(a[1..], b[1..]);
      assert a == [a[0]] + a[1..] && b == [b[0]] + b[1..];
    }
  }

  lemma {:induction false} LexicographicAntisymmetric(a: string, b: string)
    ensures Lexicographic(b, a) == -Lexicographic(a, b)
  {
    if |a| > 0 && |b| > 0 && a[0] == b[0] {
      LexicographicAntisymmetric(a[1..], b[1..]);
    }
  }

  lemma {:induction false} LexicographicTransitive(a: string, b: string, c: string)
    requires Lexicographic(a, b) <= 0 && Lexicographic(b, c) <= 0
    ensures Lexicographic(a, c) <= 0
  {
    if |a| > 0 && |b| > 0 && |c| > 0 && a[0] == b[0] == c[0] {
      LexicographicTransitive(a[1..], b[1..], c[1..]);
    }
  }

  /** Lexicographic order is a consistent comparator that puts the empty
      string first; it compares two strings equal only when they are equal. */
  lemma LexicographicIsCollation()
    ensures IsCollation(Lexicographic) && EmptyFirst(Lexicographic)
    ensures forall a, b :: Lexicographic(a, b) == 0 ==> a == b
  {
    forall a, b ensures Lexicographic(a, b) > 0 <==> Lexicographic(b, a) < 0 {
      LexicographicAntisymmetric(a, b);
    }
    forall a, b, c | Lexicographic(a, b) <= 0 && Lexicographic(b, c) <= 0
      ensures Lexicographic(a, c) <= 0
    {
      LexicographicTransitive(a, b, c);
    }
    forall a, b | Lexicographic(a, b) == 0 ensures a == b {
      LexicographicZero(a, b);
    }
  }
}
