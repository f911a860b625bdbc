/** Lexicographic order on character sequences, by character code and without
    case folding, as LString.compareTo promises it ("B" < "BB" < "Ba" < "a").

    Compare is the value Java's String.compareTo returns: the difference of the
    first pair of differing characters, or else the difference of the lengths.
    Only its sign is part of the contract; Precedes is an independent,
    non-recursive statement of "comes first" that Compare is proved against. */
module Lexicographic {

  function Compare(a: seq<char>, b: seq<char>): (r: int)
    decreases |a|
  {
    if |a| == 0 || |b| == 0 then |a| - |b|
    else if a[0] != b[0] then a[0] as int - b[0] as int
    else Compare(a[1..], b[1..])
  }

  /** a comes strictly before b: after a common prefix of length k, either a
      ends while b goes on, or a's next character has the smaller code. */
  ghost predicate Precedes(a: seq<char>, b: seq<char>)
  {
    exists k :: 0 <= k <= |a| && k <= |b| && a[..k] == b[..k] &&
      ((k == |a| && k < |b|) || (k < |a| && k < |b| && a[k] < b[k]))
  }

  /** Swapping the arguments negates the result, so the signs are opposite. */
  lemma {:induction false} CompareAntisymmetric(a: seq<char>, b: seq<char>)
    ensures Compare(a, b) == -Compare(b, a)
    decreases |a|
  {
    if |a| != 0 && |b| != 0 && a[0] == b[0] {
      CompareAntisymmetric(a[1..], b[1..]);
    }
  }

  /** Equal content, and only equal content, compares as zero. */
  lemma {:induction false} CompareZeroIff(a: seq<char>, b: seq<char>)
    ensures Compare(a, b) == 0 <==> a == b
    decreases |a|
  {
    if |a| != 0 && |b| != 0 {
      if a[0] == b[0] {
        CompareZeroIff(a[1..], b[1..]);
        assert a == [a[0]] + a[1..] && b == [b[0]] + b[1..];
      } else {
        assert a[0] != b[0];
      }
    } else if |a| != |b| {
      assert |a| - |b| != 0;
    }
  }

  /** Reflexivity: every sequence compares equal to itself. */
  lemma CompareReflexive(a: seq<char>)
    ensures Compare(a, a) == 0
  {
    CompareZeroIff(a, a);
  }

  /** A negative result means exactly that a precedes b. */
  lemma {:induction false} CompareNegativeIff(a: seq<char>, b: seq<char>)
    ensures Compare(a, b) < 0 <==> Precedes(a, b)
    decreases |a|
  {
    if |a| == 0 || |b| == 0 {
      if |a| < |b| {
        assert a[..0] == b[..0];
      }
    } else if a[0] != b[0] {
      if a[0] < b[0] {
        assert a[..0] == b[..0];
      }
    } else {
      CompareNegativeIff(a[1..], b[1..]);
      if Precedes(a[1..], b[1..]) {
        var k :| 0 <= k <= |a[1..]| && k <= |b[1..]| && a[1..][..k] == b[1..][..k] &&
          ((k == |a[1..]| && k < |b[1..]|) || (k < |a[1..]| && k < |b[1..]| && a[1..][k] < b[1..][k]));
        assert a[..k + 1] == [a[0]] + a[1..][..k];
        assert b[..k + 1] == [b[0]] + b[1..][..k];
      }
      if Precedes(a, b) {
        var k :| 0 <= k <= |a| && k <= |b| && a[..k] == b[..k] &&
          ((k == |a| && k < |b|) || (k < |a| && k < |b| && a[k] < b[k]));
        assert a[1..][..k - 1] == a[..k][1..];
        assert b[1..][..k - 1] == b[..k][1..];
      }
    }
  }

  /** The first position where the sequences differ decides the result. */
  lemma {:induction false} FirstDifferenceDecides(a: seq<char>, b: seq<char>, k: nat)
    requires k < |a| && k < |b| && a[..k] == b[..k] && a[k] != b[k]
    ensures Compare(a, b) == a[k] as int - b[k] as int
    decreases k
  {
    if k > 0 {
      assert a[0] == a[..k][0] && b[0] == b[..k][0];
      assert a[1..][..k - 1] == a[..k][1..] && b[1..][..k - 1] == b[..k][1..];
      FirstDifferenceDecides(a[1..], b[1..], k - 1);
    }
  }

  /** A proper prefix compares smaller than the sequence it begins. */
  lemma {:induction false} ProperPrefixIsSmaller(a: seq<char>, b: seq<char>)
    requires |a| < |b| && a == b[..|a|]
    ensures Compare(a, b) == |a| - |b| < 0
    decreases |a|
  {
    if |a| > 0 {
      assert a[0] == b[0];
      assert a[1..] == b[1..][..|a| - 1];
      ProperPrefixIsSmaller(a[1..], b[1..]);
    }
  }

  /** "Comes first" is transitive, so Compare orders sequences totally. */
  lemma {:induction false} CompareTransitive(a: seq<char>, b: seq<char>, c: seq<char>)
    requires Compare(a, b) < 0 && Compare(b, c) < 0
    ensures Compare(a, c) < 0
    decreases |a|
  {
    if |a| != 0 && a[0] == b[0] && b[0] == c[0] {
      CompareTransitive(a[1..], b[1..], c[1..]);
    }
  }
}
