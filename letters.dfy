/** Upper-casing of words and selected letters, as `toUpperCase` does for ASCII letters. */
module Letters {
  import opened SeqUtil

  /** Upper-case mapping of one character (ASCII letters only). */
  function UpperChar(ch: char): char {
    if 'a' <= ch <= 'z' then (ch as int - 'a' as int + 'A' as int) as char else ch
  }

  function UpperString(s: string): (u: string)
    ensures |u| == |s| && forall i :: 0 <= i < |s| ==> u[i] == UpperChar(s[i])
  {
    seq(|s|, i requires 0 <= i < |s| => UpperChar(s[i]))
  }

  /** Upper-casing commutes with reversal, so the reversed selection reads the reversed letters. */
  lemma UpperReverse(s: string)
    ensures UpperString(Reverse(s)) == Reverse(UpperString(s))
  {
  }
}
