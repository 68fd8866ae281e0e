/** Sequence helpers: reversal, used for reversed letters and reversed paths, and distinctness. */
module SeqUtil {
  function Reverse<T>(s: seq<T>): (r: seq<T>)
    ensures |r| == |s|
    ensures forall i :: 0 <= i < |s| ==> r[i] == s[|s| - 1 - i]
  {
    seq(|s|, i requires 0 <= i < |s| => s[|s| - 1 - i])
  }

  lemma ReverseReverse<T>(s: seq<T>)
    ensures Reverse(Reverse(s)) == s
  {
  }

  /** Reversal is a bijection: two sequences are equal exactly when their reversals are. */
  lemma ReverseInjective<T>(s: seq<T>, t: seq<T>)
    ensures Reverse(s) == Reverse(t) <==> s == t
  {
    if Reverse(s) == Reverse(t) {
      ReverseReverse(s);
      ReverseReverse(t);
    }
  }

  /** No element occurs twice. */
  predicate Distinct<T(==)>(s: seq<T>) {
    forall i, j :: 0 <= i < j < |s| ==> s[i] != s[j]
  }
}
