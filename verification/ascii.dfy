/** `String.prototype.toUpperCase` on the HTTP method name, restricted to
    the ASCII letters that method names are made of. */
module Ascii {

  predicate IsLower(c: char) {
    'a' <= c <= 'z'
  }

  function UpperChar(c: char): char {
    if IsLower(c) then (c as int - 32) as char else c
  }

  function ToUpper(s: string): (r: string)
    ensures |r| == |s|
    ensures forall i :: 0 <= i < |r| ==> !IsLower(r[i])
    ensures forall i :: 0 <= i < |s| && !IsLower(s[i]) ==> r[i] == s[i]
    ensures forall i :: 0 <= i < |s| && IsLower(s[i]) ==> r[i] as int == s[i] as int - 32
  {
    if |s| == 0 then "" else [UpperChar(s[0])] + ToUpper(s[1..])
  }

  /** Upper-casing leaves a string alone exactly when it has no lower-case
      letter; in particular it is idempotent. */
  lemma ToUpperFixed(s: string)
    ensures ToUpper(s) == s <==> forall i :: 0 <= i < |s| ==> !IsLower(s[i])
    ensures ToUpper(ToUpper(s)) == ToUpper(s)
  {
    if ToUpper(s) == s {
      forall i | 0 <= i < |s| ensures !IsLower(s[i]) {
        assert ToUpper(s)[i] == s[i];
      }
    }
  }
}
