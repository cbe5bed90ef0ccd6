/** Character and string helpers of java.lang.Character and java.lang.String,
    restricted to the ASCII letters. */
module AsciiText {

  /** Character.toUpperCase on ASCII: 'a'..'z' map to 'A'..'Z', everything else is kept. */
  function ToUpper(c: char): (u: char)
    ensures !('a' <= u <= 'z')
    ensures 'a' <= c <= 'z' ==> ToLower(u) == c
  {
    if 'a' <= c <= 'z' then (c as int - 32) as char else c
  }

  /** Character.toLowerCase on ASCII: 'A'..'Z' map to 'a'..'z', everything else is kept. */
  function ToLower(c: char): (l: char)
    ensures !('A' <= l <= 'Z')
  {
    if 'A' <= c <= 'Z' then (c as int + 32) as char else c
  }

  /** One step of String.equalsIgnoreCase: two characters match when they are
      equal, when their upper cases are equal, or when the lower cases of
      their upper cases are equal. */
  predicate CharEqualsIgnoreCase(x: char, y: char)
    ensures x == y ==> CharEqualsIgnoreCase(x, y)
    ensures CharEqualsIgnoreCase(x, y) ==> ToLower(ToUpper(x)) == ToLower(ToUpper(y))
  {
    x == y || ToUpper(x) == ToUpper(y) || ToLower(ToUpper(x)) == ToLower(ToUpper(y))
  }

  /** String.equalsIgnoreCase on a non-null argument: same length and every
      pair of characters matches ignoring case. */
  predicate EqualsIgnoreCase(a: string, b: string)
    ensures EqualsIgnoreCase(a, b) ==> |a| == |b|
    ensures a == b ==> EqualsIgnoreCase(a, b)
  {
    |a| == |b| && forall i :: 0 <= i < |a| ==> CharEqualsIgnoreCase(a[i], b[i])
  }

  /** The three tests of CharEqualsIgnoreCase come down to one: equal upper cases. */
  lemma CharEqualsIgnoreCaseIffSameUpper(x: char, y: char)
    ensures CharEqualsIgnoreCase(x, y) <==> ToUpper(x) == ToUpper(y)
  {
  }

  lemma EqualsIgnoreCaseReflexive(a: string)
    ensures EqualsIgnoreCase(a, a)
  {
  }

  lemma EqualsIgnoreCaseSymmetric(a: string, b: string)
    requires EqualsIgnoreCase(a, b)
    ensures EqualsIgnoreCase(b, a)
  {
  }

  lemma EqualsIgnoreCaseTransitive(a: string, b: string, c: string)
    requires EqualsIgnoreCase(a, b) && EqualsIgnoreCase(b, c)
    ensures EqualsIgnoreCase(a, c)
  {
  }
}
