/**
 * The two functions of Go's `strings` package that the GeoIP predicate uses:
 * `HasPrefix` and `ToUpper`. `ToUpper` is modelled on ASCII letters only.
 */
module GoStrings {

  /**
   * `strings.HasPrefix(s, prefix)`: `s` is at least as long as `prefix` and
   * its first `|prefix|` characters are `prefix`.
   */
  predicate HasPrefix(s: string, prefix: string): (b: bool)
    ensures b <==> |prefix| <= |s| && s[..|prefix|] == prefix
  {
    prefix <= s
  }

  /** A character that is not an ASCII lower-case letter, so upper-casing leaves it unchanged. */
  predicate NoLowerChar(c: char)
  {
    !('a' <= c <= 'z')
  }

  /** A string without ASCII lower-case letters. */
  predicate NoLower(s: string)
  {
    forall i :: 0 <= i < |s| ==> NoLowerChar(s[i])
  }

  /** Upper-casing of one character: 'a'..'z' become 'A'..'Z', everything else is kept. */
  function UpperChar(c: char): (u: char)
    ensures NoLowerChar(u)
    ensures NoLowerChar(c) ==> u == c
  {
    if 'a' <= c <= 'z' then (c as int - 'a' as int + 'A' as int) as char else c
  }

  /** `strings.ToUpper`: the same length, each character upper-cased, and no lower-case letter left. */
  function ToUpper(s: string): (u: string)
    ensures |u| == |s|
    ensures forall i :: 0 <= i < |s| ==> u[i] == UpperChar(s[i])
    ensures NoLower(u)
  {
    if s == [] then [] else [UpperChar(s[0])] + ToUpper(s[1..])
  }

  /** Upper-casing twice is upper-casing once. */
  lemma ToUpperIdempotent(s: string)
    ensures ToUpper(ToUpper(s)) == ToUpper(s)
  {
  }

  /** The fixed points of `ToUpper` are exactly the strings without lower-case letters. */
  lemma ToUpperFixedPoint(s: string)
    ensures ToUpper(s) == s <==> NoLower(s)
  {
    if !NoLower(s) {
      var i :| 0 <= i < |s| && !NoLowerChar(s[i]);
      assert ToUpper(s)[i] != s[i];
    }
  }
}
