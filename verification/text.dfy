/** Text helpers shared by the compressors. */
module Text {
  /** str.rstrip(); what it strips is given as a predicate. */
  function RStrip(s: string, isSpace: char -> bool): (r: string)
    ensures |r| <= |s|
  {
    if s != "" && isSpace(s[|s| - 1]) then RStrip(s[..|s| - 1], isSpace) else s
  }

  /** It is the prefix that ends in the last character that is not stripped. */
  lemma {:induction false} RStripCutsSpace(s: string, isSpace: char -> bool)
    ensures var n := |RStrip(s, isSpace)|;
            && RStrip(s, isSpace) == s[..n]
            && (forall i :: n <= i < |s| ==> isSpace(s[i]))
            && (n > 0 ==> !isSpace(s[n - 1]))
    decreases |s|
  {
    if s != "" && isSpace(s[|s| - 1]) {
      RStripCutsSpace(s[..|s| - 1], isSpace);
    }
  }

  /** s[:n] */
  function First<T>(s: seq<T>, n: nat): seq<T> {
    if n <= |s| then s[..n] else s
  }
}
