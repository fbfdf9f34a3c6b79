/** `String.equalsIgnoreCase`, the comparison the program uses between a
    computed digest and the hash a manifest publishes. Case mapping is the
    ASCII one: the strings compared are hexadecimal. */
module CaseInsensitive {

  function ToUpper(c: char): char {
    if 'a' <= c <= 'z' then (c as int - 32) as char else c
  }

  function ToLower(c: char): char {
    if 'A' <= c <= 'Z' then (c as int + 32) as char else c
  }

  /** Two characters match as `regionMatches(true, ...)` tests them:
      equal, equal after upper-casing, or equal after upper- then
      lower-casing. */
  predicate CharsMatch(a: char, b: char) {
    a == b || ToUpper(a) == ToUpper(b) || ToLower(ToUpper(a)) == ToLower(ToUpper(b))
  }

  /** Same length and every position matches ignoring case. */
  predicate EqualsIgnoreCase(a: string, b: string) {
    |a| == |b| && forall i :: 0 <= i < |a| ==> CharsMatch(a[i], b[i])
  }

  function LowerAll(s: string): string {
    seq(|s|, i requires 0 <= i < |s| => ToLower(s[i]))
  }

  function UpperAll(s: string): string {
    seq(|s|, i requires 0 <= i < |s| => ToUpper(s[i]))
  }

  lemma CharsMatchIffSameLower(a: char, b: char)
    ensures CharsMatch(a, b) <==> ToLower(a) == ToLower(b)
  {
  }

  /** Ignoring case is the same as comparing the lower-cased texts. */
  lemma EqualsIgnoreCaseIffSameLower(a: string, b: string)
    ensures EqualsIgnoreCase(a, b) <==> LowerAll(a) == LowerAll(b)
  {
    if EqualsIgnoreCase(a, b) {
      forall i | 0 <= i < |a|
        ensures LowerAll(a)[i] == LowerAll(b)[i]
      {
        CharsMatchIffSameLower(a[i], b[i]);
      }
    }
    if LowerAll(a) == LowerAll(b) {
      forall i | 0 <= i < |a|
        ensures CharsMatch(a[i], b[i])
      {
        assert LowerAll(a)[i] == LowerAll(b)[i];
        CharsMatchIffSameLower(a[i], b[i]);
      }
    }
  }

  /** Upper-casing a text never changes whether it matches. */
  lemma UpperAllMatches(s: string)
    ensures EqualsIgnoreCase(s, UpperAll(s))
  {
    forall i | 0 <= i < |s|
      ensures CharsMatch(s[i], UpperAll(s)[i])
    {
      CharsMatchIffSameLower(s[i], UpperAll(s)[i]);
    }
  }
}
