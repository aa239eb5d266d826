/** `src/lib/text.ts`. */
module Text {
  import opened JsString

  /**
   * `capitalize(str)`: the empty string for an empty input, otherwise the first
   * character upper-cased and the rest as it was.
   */
  function Capitalize(s: string): (r: string)
    ensures |r| == |s|
    ensures s == [] ==> r == []
    ensures s != [] ==> r[0] == ToUpperChar(s[0]) && r[1..] == s[1..]
    ensures r == s <==> s == [] || !IsAsciiLower(s[0])
  {
    if s == [] then "" else [ToUpperChar(s[0])] + s[1..]
  }

  /** Capitalizing a capitalized string changes nothing. */
  lemma CapitalizeIdempotent(s: string)
    ensures Capitalize(Capitalize(s)) == Capitalize(s)
  {
  }
}
