/** Case-insensitive comparison of host names, as the payment store's
    `equalsIgnoreCase` query performs it, restricted to ASCII: an upper-case
    letter 'A'..'Z' is identified with its lower-case form, every other
    character only with itself. */
module AsciiCase {

  predicate IsUpper(c: char) {
    'A' <= c <= 'Z'
  }

  /** Reference reading of "equal ignoring case" for one pair of characters:
      identical, or one is an upper-case letter and the other its lower-case form. */
  predicate SameLetterIgnoringCase(c: char, d: char) {
    || c == d
    || (IsUpper(c) && d as int == c as int + ('a' as int - 'A' as int))
    || (IsUpper(d) && c as int == d as int + ('a' as int - 'A' as int))
  }

  /** ASCII lower-casing of one character. */
  function ToLower(c: char): (r: char)
    ensures !IsUpper(r)
    ensures IsUpper(c) ==> 'a' <= r <= 'z' && r as int - c as int == 'a' as int - 'A' as int
    ensures !IsUpper(c) ==> r == c
  {
    if IsUpper(c) then (c as int + ('a' as int - 'A' as int)) as char else c
  }

  /** ASCII lower-casing of a string, character by character: no upper-case
      letter is left, and every other character stays where it was. */
  function LowerStr(s: string): (r: string)
    ensures |r| == |s|
    ensures forall i :: 0 <= i < |r| ==> !IsUpper(r[i])
    ensures forall i :: 0 <= i < |s| && !IsUpper(s[i]) ==> r[i] == s[i]
    ensures forall i :: 0 <= i < |s| ==> SameLetterIgnoringCase(r[i], s[i])
  {
    seq(|s|, i requires 0 <= i < |s| => ToLower(s[i]))
  }

  /** The host comparison used by the allowance listing: equal after
      lower-casing, which is the same as having the same length and agreeing
      at every position up to the case of letters. */
  function EqualsIgnoreCase(a: string, b: string): (r: bool)
    ensures r <==> |a| == |b| && forall i :: 0 <= i < |a| ==> SameLetterIgnoringCase(a[i], b[i])
  {
    LowerStrCharwise(a, b);
    LowerStr(a) == LowerStr(b)
  }

  lemma ToLowerAgree(c: char, d: char)
    ensures ToLower(c) == ToLower(d) <==> SameLetterIgnoringCase(c, d)
  {
  }

  /** Two strings have the same lower-case form exactly when they have the
      same length and agree position by position up to the case of letters. */
  lemma LowerStrCharwise(a: string, b: string)
    ensures LowerStr(a) == LowerStr(b) <==>
            |a| == |b| && forall i :: 0 <= i < |a| ==> SameLetterIgnoringCase(a[i], b[i])
  {
    if |a| == |b| {
      forall i | 0 <= i < |a|
        ensures LowerStr(a)[i] == LowerStr(b)[i] <==> SameLetterIgnoringCase(a[i], b[i])
      {
        ToLowerAgree(a[i], b[i]);
      }
      if forall i :: 0 <= i < |a| ==> SameLetterIgnoringCase(a[i], b[i]) {
        assert LowerStr(a) == LowerStr(b);
      }
    }
  }

  /** Lower-casing twice is lower-casing once, and a string compares equal
      to its lower-cased form. */
  lemma LowerStrIdempotent(s: string)
    ensures LowerStr(LowerStr(s)) == LowerStr(s)
    ensures EqualsIgnoreCase(s, LowerStr(s))
  {
    var t := LowerStr(s);
    assert forall i :: 0 <= i < |t| ==> LowerStr(t)[i] == t[i];
  }

  /** The comparison is an equivalence relation, so every host falls into one
      class of case variants. */
  lemma EqualsIgnoreCaseIsEquivalence(a: string, b: string, c: string)
    ensures EqualsIgnoreCase(a, a)
    ensures EqualsIgnoreCase(a, b) ==> EqualsIgnoreCase(b, a)
    ensures EqualsIgnoreCase(a, b) && EqualsIgnoreCase(b, c) ==> EqualsIgnoreCase(a, c)
  {
  }

  /** A host and its upper-cased spelling compare equal. */
  lemma MixedCaseExample()
    ensures EqualsIgnoreCase("Example.COM", "example.com")
    ensures !EqualsIgnoreCase("example.com", "example.org")
  {
    assert LowerStr("Example.COM") == "example.com";
    assert LowerStr("example.com")[8] != LowerStr("example.org")[8];
  }
}
