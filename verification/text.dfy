/**
 Whitespace trimming, as used on the name field and on the option field of
 the app before a value is accepted.

 The whitespace set is a small fixed one (space, the ASCII control
 whitespace, no-break space, byte-order mark and the two Unicode line
 separators); the full Unicode set that `String.prototype.trim` strips is
 not modelled.
 */
module Text {

  /** Characters that trimming removes. */
  predicate IsSpace(c: char) {
    || c == ' ' || c == '\t' || c == '\n' || c == '\r'
    || c == '\U{0B}' || c == '\U{0C}' || c == '\U{A0}' || c == '\U{FEFF}'
    || c == '\U{2028}' || c == '\U{2029}'
  }

  /** True iff every character of `s` is whitespace (vacuously for ""). */
  predicate AllSpace(s: string) {
    forall j :: 0 <= j < |s| ==> IsSpace(s[j])
  }

  /** Number of whitespace characters at the front of `s`. */
  function LeadingSpaces(s: string): (n: nat)
    ensures n <= |s|
    ensures forall j :: 0 <= j < n ==> IsSpace(s[j])
    ensures n < |s| ==> !IsSpace(s[n])
    decreases |s|
  {
    if |s| == 0 || !IsSpace(s[0]) then 0 else 1 + LeadingSpaces(s[1..])
  }

  /** Number of whitespace characters at the back of `s`. */
  function TrailingSpaces(s: string): (n: nat)
    ensures n <= |s|
    ensures forall j :: |s| - n <= j < |s| ==> IsSpace(s[j])
    ensures n < |s| ==> !IsSpace(s[|s| - 1 - n])
    decreases |s|
  {
    if |s| == 0 || !IsSpace(s[|s| - 1]) then 0 else 1 + TrailingSpaces(s[..|s| - 1])
  }

  /**
   `s` without its leading and trailing whitespace. The result is the one
   window of `s` that starts after the leading whitespace, leaves only
   whitespace outside it, and neither starts nor ends with whitespace; it is
   empty exactly when `s` is all whitespace.
   */
  function Trim(s: string): (r: string)
    ensures |r| <= |s|
    ensures r == [] <==> AllSpace(s)
    ensures r != [] ==> !IsSpace(r[0]) && !IsSpace(r[|r| - 1])
    ensures LeadingSpaces(s) + |r| <= |s|
    ensures r == s[LeadingSpaces(s)..LeadingSpaces(s) + |r|]
    ensures forall j :: 0 <= j < |s| && !(LeadingSpaces(s) <= j < LeadingSpaces(s) + |r|) ==> IsSpace(s[j])
  {
    var a := LeadingSpaces(s);
    if a == |s| then
      []
    else
      var b := |s| - TrailingSpaces(s);
      // s[a] is not whitespace, so the trailing run stops before it
      assert !IsSpace(s[a]);
      s[a..b]
  }

  /** A string already free of surrounding whitespace is its own trim. */
  lemma TrimOfTrimmed(s: string)
    requires s != [] ==> !IsSpace(s[0]) && !IsSpace(s[|s| - 1])
    ensures Trim(s) == s
  {
    if s != [] {
      assert LeadingSpaces(s) == 0;
      assert TrailingSpaces(s) == 0;
    }
  }

  /** Trimming twice is trimming once. */
  lemma TrimIdempotent(s: string)
    ensures Trim(Trim(s)) == Trim(s)
  {
    TrimOfTrimmed(Trim(s));
  }
}
