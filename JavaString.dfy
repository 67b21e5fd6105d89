/**
 * Java strings and the order `String.compareTo` puts on them.
 *
 * A Java `String` is a sequence of UTF-16 code units, and `compareTo`
 * compares two strings code unit by code unit: at the first position where
 * they differ it returns the difference of the two units; when one string is
 * a prefix of the other it returns the difference of the lengths.  The shuffle
 * phase sorts its groups with this order (`Comparator.comparing(Pair::getKey)`).
 */
module JavaString {

  /** One UTF-16 code unit (a Java `char`). */
  newtype CodeUnit = x: int | 0 <= x < 0x1_0000

  /** A Java `String`, as the sequence of its code units. */
  type JString = seq<CodeUnit>

  /** `String.compareTo`: negative, zero or positive as `a` sorts before, equal to or after `b`. */
  function CompareTo(a: JString, b: JString): (c: int)
    ensures a <= b || b <= a ==> c == |a| - |b|
  {
    if |a| == 0 || |b| == 0 then |a| - |b|
    else if a[0] != b[0] then a[0] as int - b[0] as int
    else CompareTo(a[1..], b[1..])
  }

  /** At the first position where two strings differ, `compareTo` is the difference of their code units there. */
  lemma {:induction false} CompareToFirstDifference(a: JString, b: JString, k: nat)
    requires k < |a| && k < |b| && a[..k] == b[..k] && a[k] != b[k]
    ensures CompareTo(a, b) == a[k] as int - b[k] as int
  {
    if k > 0 {
      assert a[0] == a[..k][0] == b[..k][0] == b[0];
      assert a[1..][..k - 1] == a[..k][1..] == b[..k][1..] == b[1..][..k - 1];
      CompareToFirstDifference(a[1..], b[1..], k - 1);
    }
  }

  /** `a` sorts strictly before `b`. */
  predicate Less(a: JString, b: JString)
  {
    CompareTo(a, b) < 0
  }

  /** `compareTo` answers zero exactly for equal strings. */
  lemma {:induction false} CompareToZero(a: JString, b: JString)
    ensures CompareTo(a, b) == 0 <==> a == b
  {
    if |a| > 0 && |b| > 0 && a[0] == b[0] {
      CompareToZero(a[1..], b[1..]);
      assert a == [a[0]] + a[1..];
      assert b == [b[0]] + b[1..];
    }
  }

  /** Swapping the arguments negates the answer (`sgn(x.compareTo(y)) == -sgn(y.compareTo(x))`). */
  lemma {:induction false} CompareToAntisymmetric(a: JString, b: JString)
    ensures CompareTo(a, b) == -CompareTo(b, a)
  {
    if |a| > 0 && |b| > 0 && a[0] == b[0] {
      CompareToAntisymmetric(a[1..], b[1..]);
    }
  }

  /** No string sorts before itself. */
  lemma LessIrreflexive(a: JString)
    ensures !Less(a, a)
  {
    CompareToZero(a, a);
  }

  /** Two strings are either equal or one sorts strictly before the other, never both. */
  lemma LessTrichotomy(a: JString, b: JString)
    ensures a == b || Less(a, b) || Less(b, a)
    ensures !(Less(a, b) && Less(b, a))
    ensures Less(a, b) ==> a != b
  {
    CompareToZero(a, b);
    CompareToAntisymmetric(a, b);
  }

  /** The order is transitive. */
  lemma {:induction false} LessTransitive(a: JString, b: JString, c: JString)
    ensures Less(a, b) && Less(b, c) ==> Less(a, c)
  {
    if |a| > 0 && |b| > 0 && |c| > 0 && a[0] == b[0] && b[0] == c[0] {
      LessTransitive(a[1..], b[1..], c[1..]);
    }
  }
}
