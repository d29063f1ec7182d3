/** Character classes used by the validators, over ASCII.
    `str.isdigit`, `str.islower`, `str.isupper`, `str.isalpha`, `str.lower`
    and the regular-expression class `\w` are Unicode-aware in Python;
    this model restricts them to their ASCII meaning. */
module CharClasses {

  predicate IsDigit(c: char) { '0' <= c <= '9' }
  predicate IsLower(c: char) { 'a' <= c <= 'z' }
  predicate IsUpper(c: char) { 'A' <= c <= 'Z' }
  predicate IsAlpha(c: char) { IsLower(c) || IsUpper(c) }

  /** Membership in `\w`: letters, digits and the underscore. */
  predicate IsWord(c: char) { IsAlpha(c) || IsDigit(c) || c == '_' }

  function ToLower(c: char): (r: char)
    ensures IsUpper(c) ==> IsLower(r) && r as int == c as int - 'A' as int + 'a' as int
    ensures !IsUpper(c) ==> r == c
    ensures !IsUpper(r)
  {
    if IsUpper(c) then (c as int - 'A' as int + 'a' as int) as char else c
  }

  /** `str.lower()`: every upper-case letter replaced by its lower-case form. */
  function Lower(s: string): (r: string)
    ensures |r| == |s|
    ensures forall i :: 0 <= i < |s| ==> r[i] == ToLower(s[i])
  {
    seq(|s|, i requires 0 <= i < |s| => ToLower(s[i]))
  }

  /** A string without upper-case letters is its own lower-case form. */
  lemma LowerKeeps(s: string)
    requires forall i :: 0 <= i < |s| ==> !IsUpper(s[i])
    ensures Lower(s) == s
  {
  }

  lemma LowerIdempotent(s: string)
    ensures Lower(Lower(s)) == Lower(s)
  {
  }
}
