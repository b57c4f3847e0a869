/** Decimal numerals, as f-strings and str() print them. */
module Decimal {

  const DIGITS: string := "0123456789"

  function ToString(n: nat): (s: string)
    ensures |s| > 0
  {
    if n < 10 then [DIGITS[n]] else ToString(n / 10) + [DIGITS[n % 10]]
  }

  function DigitValue(c: char): nat {
    if '0' <= c <= '9' then (c as int) - ('0' as int) else 0
  }

  function Value(s: string): nat {
    if s == "" then 0 else 10 * Value(s[..|s| - 1]) + DigitValue(s[|s| - 1])
  }

  lemma {:induction false} ValueOfToString(n: nat)
    ensures Value(ToString(n)) == n
    decreases n
  {
    if n < 10 {
      assert [DIGITS[n]][..0] == "";
    } else {
      ValueOfToString(n / 10);
      assert ToString(n)[..|ToString(n)| - 1] == ToString(n / 10);
    }
  }

  /** Numerals are digits without a leading zero. */
  lemma {:induction false} NumeralsAreDecimal(n: nat)
    ensures forall i :: 0 <= i < |ToString(n)| ==> '0' <= ToString(n)[i] <= '9'
    ensures n > 0 ==> ToString(n)[0] != '0'
    decreases n
  {
    if n >= 10 {
      NumeralsAreDecimal(n / 10);
    }
  }

  /** They are read in base ten. */
  lemma {:induction false} ValueIsPositional(s: string, c: char)
    requires '0' <= c <= '9'
    ensures Value("") == 0 && Value(s + [c]) == 10 * Value(s) + (c as int - '0' as int)
  {
    assert (s + [c])[..|s + [c]| - 1] == s;
  }
}

/** Slugs: slugification of titles (src/teamshared/memory/shared_files.py) and the search
    for a free slug, shared in two forms by files and projects
    (src/teamshared/memory/projects.py). */
module Slugs {
  import Decimal

  predicate IsSlugChar(c: char) {
    'a' <= c <= 'z' || '0' <= c <= '9'
  }

  /** str.lower() as far as slugs can tell: besides the ASCII capitals only U+212A (the Kelvin
      sign) and U+0130 (I with a dot, which becomes "i" and a combining dot) have a lower-case
      form that holds a slug character; the others stand for themselves. */
  function LowerChar(c: char): string {
    if 'A' <= c <= 'Z' then [(c as int + 32) as char]
    else if c == '\U{212A}' then "k"
    else if c == '\U{0130}' then "i\U{0307}"
    else [c]
  }

  function Lower(s: string): string {
    if s == "" then "" else LowerChar(s[0]) + Lower(s[1..])
  }

  /** Each maximal run of other characters becomes one dash. */
  function Dashed(s: string): string {
    if s == "" then ""
    else if IsSlugChar(s[0]) then [s[0]] + Dashed(s[1..])
    else if |s| > 1 && !IsSlugChar(s[1]) then Dashed(s[1..])
    else "-" + Dashed(s[1..])
  }

  function StripLeft(s: string): string {
    if s != "" && s[0] == '-' then StripLeft(s[1..]) else s
  }

  function StripRight(s: string): string {
    if s != "" && s[|s| - 1] == '-' then StripRight(s[..|s| - 1]) else s
  }

  function Slugify(title: string): string {
    StripRight(StripLeft(Dashed(Lower(title))))
  }

  /** Lower-case letters and digits in groups separated by single dashes. */
  ghost predicate Spaced(s: string) {
    && (forall i :: 0 <= i < |s| ==> IsSlugChar(s[i]) || s[i] == '-')
    && (forall i :: 0 <= i < |s| - 1 ==> s[i] != '-' || s[i + 1] != '-')
  }

  ghost predicate IsSlug(s: string) {
    Spaced(s) && (s != "" ==> s[0] != '-' && s[|s| - 1] != '-')
  }

  lemma {:induction false} DashedIsSpaced(s: string)
    ensures Spaced(Dashed(s))
    ensures s != "" ==> Dashed(s) != "" && (IsSlugChar(s[0]) <==> Dashed(s)[0] != '-')
    decreases |s|
  {
    if s != "" {
      DashedIsSpaced(s[1..]);
    }
  }

  lemma {:induction false} StripLeftIsSuffix(s: string)
    ensures |StripLeft(s)| <= |s| && StripLeft(s) == s[|s| - |StripLeft(s)|..]
    ensures StripLeft(s) != "" ==> StripLeft(s)[0] != '-'
    decreases |s|
  {
    if s != "" && s[0] == '-' {
      StripLeftIsSuffix(s[1..]);
    }
  }

  lemma {:induction false} StripRightIsPrefix(s: string)
    ensures |StripRight(s)| <= |s| && StripRight(s) == s[..|StripRight(s)|]
    ensures StripRight(s) != "" ==> StripRight(s)[|StripRight(s)| - 1] != '-'
    decreases |s|
  {
    if s != "" && s[|s| - 1] == '-' {
      StripRightIsPrefix(s[..|s| - 1]);
    }
  }

  lemma {:induction false} SlugifyIsSlug(title: string)
    ensures IsSlug(Slugify(title))
  {
    var d := Dashed(Lower(title));
    DashedIsSpaced(Lower(title));
    StripLeftIsSuffix(d);
    PartIsSpaced(d, |d| - |StripLeft(d)|, |d|);
    var e := StripLeft(d);
    StripRightIsPrefix(e);
    PartIsSpaced(e, 0, |StripRight(e)|);
  }

  lemma PartIsSpaced(d: string, i: nat, j: nat)
    requires Spaced(d) && i <= j <= |d|
    ensures Spaced(d[i..j])
  {
  }

  lemma {:induction false} DashedKeepsSpaced(s: string)
    requires Spaced(s)
    ensures Dashed(s) == s
    decreases |s|
  {
    if s != "" {
      DashedKeepsSpaced(s[1..]);
    }
  }

  lemma {:induction false} LowerKeepsSpaced(s: string)
    requires Spaced(s)
    ensures Lower(s) == s
    decreases |s|
  {
    if s != "" {
      assert IsSlugChar(s[0]) || s[0] == '-';
      LowerKeepsSpaced(s[1..]);
      assert [s[0]] + s[1..] == s;
    }
  }

  /** The slugs are exactly the fixed points of slugify. */
  lemma SlugifyFixesExactlySlugs(s: string)
    ensures Slugify(s) == s <==> IsSlug(s)
  {
    if IsSlug(s) {
      LowerKeepsSpaced(s);
      DashedKeepsSpaced(s);
    } else {
      SlugifyIsSlug(s);
    }
  }

  lemma SlugifyIsIdempotent(title: string)
    ensures Slugify(Slugify(title)) == Slugify(title)
  {
    SlugifyIsSlug(title);
    SlugifyFixesExactlySlugs(Slugify(title));
  }

  predicate IsAlnum(c: char) {
    'a' <= c <= 'z' || 'A' <= c <= 'Z' || '0' <= c <= '9'
  }

  /** A character that slugs drop; the Kelvin sign and the dotted I are not among them. */
  predicate IsSeparator(c: char) {
    !IsAlnum(c) && c != '\U{212A}' && c != '\U{0130}'
  }

  lemma {:induction false} LowerOfWord(word: string)
    requires forall i :: 0 <= i < |word| ==> IsAlnum(word[i])
    ensures |Lower(word)| == |word|
    ensures forall i :: 0 <= i < |word| ==>
              && IsSlugChar(Lower(word)[i])
              && Lower(word)[i] == if 'A' <= word[i] <= 'Z' then (word[i] as int + 32) as char else word[i]
    decreases |word|
  {
    if word != "" {
      LowerOfWord(word[1..]);
    }
  }

  lemma {:induction false} LowerJoins(a: string, b: string)
    ensures Lower(a + b) == Lower(a) + Lower(b)
    decreases |a|
  {
    if a == "" {
      assert a + b == b;
    } else {
      LowerJoins(a[1..], b);
      assert (a + b)[1..] == a[1..] + b && (a + b)[0] == a[0];
      Regrouped(LowerChar(a[0]), Lower(a[1..]), Lower(b));
    }
  }

  lemma Regrouped(x: string, y: string, z: string)
    ensures x + (y + z) == (x + y) + z
  {
  }

  lemma {:induction false} LowerOfSeparators(sep: string)
    requires forall i :: 0 <= i < |sep| ==> IsSeparator(sep[i])
    ensures Lower(sep) == sep
    decreases |sep|
  {
    if sep != "" {
      LowerOfSeparators(sep[1..]);
    }
  }

  lemma {:induction false} DashedAfterWord(word: string, t: string)
    requires forall i :: 0 <= i < |word| ==> IsSlugChar(word[i])
    ensures Dashed(word + t) == word + Dashed(t)
    decreases |word|
  {
    if word == "" {
      assert word + t == t;
    } else {
      assert (word + t)[1..] == word[1..] + t;
      DashedAfterWord(word[1..], t);
    }
  }

  lemma {:induction false} DashedAfterGap(gap: string, t: string)
    requires gap != "" && forall i :: 0 <= i < |gap| ==> !IsSlugChar(gap[i])
    requires t == "" || IsSlugChar(t[0])
    ensures Dashed(gap + t) == "-" + Dashed(t)
    decreases |gap|
  {
    if |gap| == 1 {
      assert (gap + t)[1..] == t;
    } else {
      assert (gap + t)[1..] == gap[1..] + t;
      DashedAfterGap(gap[1..], t);
    }
  }

  /** A title: words with a gap before, between and after them. */
  function Title(words: seq<string>, gaps: seq<string>): string
    requires |gaps| == |words| + 1
  {
    if words == [] then gaps[0] else gaps[0] + (words[0] + Title(words[1..], gaps[1..]))
  }

  function Joined(words: seq<string>): string {
    if words == [] then ""
    else if |words| == 1 then words[0]
    else words[0] + ("-" + Joined(words[1..]))
  }

  /** Words are letters and digits; gaps are anything else, and only the outer ones can be empty. */
  ghost predicate IsTitle(words: seq<string>, gaps: seq<string>) {
    && |gaps| == |words| + 1
    && (forall i :: 0 <= i < |words| ==> IsWord(words[i]))
    && (forall i :: 0 <= i < |gaps| ==> IsGap(gaps[i]))
    && (forall i :: 0 < i < |words| ==> gaps[i] != "")
  }

  ghost predicate IsWord(w: string) {
    w != "" && forall i :: 0 <= i < |w| ==> IsAlnum(w[i])
  }

  ghost predicate IsGap(g: string) {
    forall i :: 0 <= i < |g| ==> IsSeparator(g[i])
  }

  /** ASCII lower case of every word. */
  function LowerWords(words: seq<string>): seq<string> {
    seq(|words|, i requires 0 <= i < |words| =>
      seq(|words[i]|, j requires 0 <= j < |words[i]| =>
        if 'A' <= words[i][j] <= 'Z' then (words[i][j] as int + 32) as char else words[i][j]))
  }

  lemma LowerWord(words: seq<string>, i: nat)
    requires i < |words| && IsWord(words[i])
    ensures Lower(words[i]) == LowerWords(words)[i] && IsWord(LowerWords(words)[i])
    ensures forall j :: 0 <= j < |LowerWords(words)[i]| ==> IsSlugChar(LowerWords(words)[i][j])
  {
    LowerOfWord(words[i]);
  }

  lemma {:induction false} LowerOfTitle(words: seq<string>, gaps: seq<string>)
    requires IsTitle(words, gaps)
    ensures Lower(Title(words, gaps)) == Title(LowerWords(words), gaps)
    decreases |words|
  {
    LowerOfSeparators(gaps[0]);
    if words != [] {
      var rest := Title(words[1..], gaps[1..]);
      LowerJoins(gaps[0], words[0] + rest);
      LowerJoins(words[0], rest);
      LowerWord(words, 0);
      assert LowerWords(words)[1..] == LowerWords(words[1..]);
      LowerOfTitle(words[1..], gaps[1..]);
    }
  }

  function Edge(gap: string): string {
    if gap == "" then "" else "-"
  }

  lemma {:induction false} DashedTitle(words: seq<string>, gaps: seq<string>)
    requires IsTitle(words, gaps) && words != []
    requires forall i, j :: 0 <= i < |words| && 0 <= j < |words[i]| ==> IsSlugChar(words[i][j])
    ensures Dashed(Title(words, gaps)) == Edge(gaps[0]) + (Joined(words) + Edge(gaps[|words|]))
    decreases |words|
  {
    var tail := words[0] + Title(words[1..], gaps[1..]);
    assert Dashed(tail) == Joined(words) + Edge(gaps[|words|]) by {
      if |words| > 1 {
        DashedTitle(words[1..], gaps[1..]);
      }
      DashedFromFirstWord(words, gaps);
    }
    assert IsWord(words[0]) && tail[0] == words[0][0];
    if gaps[0] == "" {
      assert gaps[0] + tail == tail;
    } else {
      DashedAfterGap(gaps[0], tail);
    }
  }

  lemma {:induction false} DashedFromFirstWord(words: seq<string>, gaps: seq<string>)
    requires IsTitle(words, gaps) && words != [] && forall j :: 0 <= j < |words[0]| ==> IsSlugChar(words[0][j])
    requires |words| > 1 ==>
               Dashed(Title(words[1..], gaps[1..])) == Edge(gaps[1]) + (Joined(words[1..]) + Edge(gaps[|words|]))
    ensures Dashed(words[0] + Title(words[1..], gaps[1..])) == Joined(words) + Edge(gaps[|words|])
  {
    DashedAfterWord(words[0], Title(words[1..], gaps[1..]));
    if |words| == 1 {
      DashedGap(gaps[1]);
    } else {
      assert Edge(gaps[1]) == "-";
      Regrouped("-", Joined(words[1..]), Edge(gaps[|words|]));
      Regrouped(words[0], "-" + Joined(words[1..]), Edge(gaps[|words|]));
    }
  }

  lemma {:induction false} DashedGap(gap: string)
    requires forall i :: 0 <= i < |gap| ==> !IsSlugChar(gap[i])
    ensures Dashed(gap) == Edge(gap)
  {
    if gap != "" {
      DashedAfterGap(gap, "");
      assert gap + "" == gap && "-" + Dashed("") == "-";
    }
  }

  lemma {:induction false} JoinedEnds(words: seq<string>)
    requires words != [] && forall i :: 0 <= i < |words| ==> words[i] != "" && words[i][0] != '-'
    requires words[|words| - 1][|words[|words| - 1]| - 1] != '-'
    ensures Joined(words) != "" && Joined(words)[0] != '-' && Joined(words)[|Joined(words)| - 1] != '-'
    decreases |words|
  {
    if |words| > 1 {
      JoinedEnds(words[1..]);
    }
  }

  /** The slug of a title is its words in lower case, joined by single dashes, whatever stands
      around and between them. */
  lemma {:induction false} SlugOfTitle(words: seq<string>, gaps: seq<string>)
    requires IsTitle(words, gaps)
    ensures Slugify(Title(words, gaps)) == Joined(LowerWords(words))
  {
    var lower := LowerWords(words);
    LowerOfTitle(words, gaps);
    if words == [] {
      DashedGap(gaps[0]);
      assert lower == [] && "-"[1..] == "";
    } else {
      forall i | 0 <= i < |words|
        ensures IsWord(lower[i]) && forall j :: 0 <= j < |lower[i]| ==> IsSlugChar(lower[i][j])
      {
        LowerWord(words, i);
      }
      DashedTitle(lower, gaps);
      JoinedEnds(lower);
      StripsToSlug(Edge(gaps[0]), Joined(lower), Edge(gaps[|words|]));
    }
  }

  lemma {:induction false} StripsToSlug(left: string, s: string, right: string)
    requires (left == "" || left == "-") && (right == "" || right == "-")
    requires s != "" && s[0] != '-' && s[|s| - 1] != '-'
    ensures StripRight(StripLeft(left + (s + right))) == s
  {
    var t := s + right;
    assert left == "-" ==> (left + t)[1..] == t;
    assert left == "" ==> left + t == t;
    assert StripLeft(left + t) == t;
    assert right == "-" ==> t[..|t| - 1] == s;
  }

  // ---- the search ----

  /** base, base-2, base-3, ... */
  function Candidate(base: string, n: nat): string {
    if n <= 1 then base else base + "-" + Decimal.ToString(n)
  }

  lemma CandidatesDiffer(base: string, i: nat, j: nat)
    requires 1 <= i < j
    ensures Candidate(base, i) != Candidate(base, j)
  {
    Decimal.ValueOfToString(i);
    Decimal.ValueOfToString(j);
    var c := Candidate(base, j);
    assert c[|base| + 1..] == Decimal.ToString(j);
    if i > 1 {
      assert Candidate(base, i)[|base| + 1..] == Decimal.ToString(i);
    }
  }

  /** The number of the first free candidate from n on, where `taken` no longer holds
      the candidates already tried. */
  function FreeNumber(base: string, taken: set<string>, n: nat): nat
    decreases |taken|
  {
    var c := Candidate(base, n);
    if c in taken then FreeNumber(base, taken - {c}, n + 1) else n
  }

  function FirstFree(base: string, taken: set<string>): string {
    Candidate(base, FreeNumber(base, taken, 1))
  }

  lemma {:induction false} FreeNumberIsFirst(base: string, taken: set<string>, n: nat)
    requires n >= 1
    ensures n <= FreeNumber(base, taken, n) <= n + |taken|
    ensures Candidate(base, FreeNumber(base, taken, n)) !in taken
    ensures forall i :: n <= i < FreeNumber(base, taken, n) ==> Candidate(base, i) in taken
    decreases |taken|
  {
    var c := Candidate(base, n);
    if c in taken {
      FreeNumberIsFirst(base, taken - {c}, n + 1);
      CandidatesDiffer(base, n, FreeNumber(base, taken, n));
    }
  }

  /** By pigeonhole the search ends within one probe more than there are taken slugs: its
      answer is free, and every candidate before it was taken. */
  lemma FirstFreeIsFreeAndFirst(base: string, taken: set<string>)
    ensures FirstFree(base, taken) !in taken
    ensures exists n :: 1 <= n <= |taken| + 1 && FirstFree(base, taken) == Candidate(base, n)
                        && forall i :: 1 <= i < n ==> Candidate(base, i) in taken
  {
    FreeNumberIsFirst(base, taken, 1);
  }

  /** The base with suffix -n is free, and with every smaller suffix from -2 on it is taken. */
  ghost predicate IsLeastSuffix(base: string, taken: set<string>, slug: string, n: nat) {
    && n >= 2 && slug == base + "-" + Decimal.ToString(n) && slug !in taken
    && forall i :: 2 <= i < n ==> base + "-" + Decimal.ToString(i) in taken
  }

  /** The base itself when it is free; otherwise the base with the least suffix -2, -3, ... that is. */
  lemma FirstFreeCountsFromTwo(base: string, taken: set<string>)
    ensures base !in taken ==> FirstFree(base, taken) == base
    ensures base in taken ==> exists n :: IsLeastSuffix(base, taken, FirstFree(base, taken), n)
  {
    FirstFreeIsFreeAndFirst(base, taken);
    assert Candidate(base, 1) == base;
    var n :| 1 <= n <= |taken| + 1 && FirstFree(base, taken) == Candidate(base, n)
             && forall i :: 1 <= i < n ==> Candidate(base, i) in taken;
    if n >= 2 {
      forall i | 2 <= i < n ensures base + "-" + Decimal.ToString(i) in taken {
        assert Candidate(base, i) in taken;
      }
      assert IsLeastSuffix(base, taken, FirstFree(base, taken), n);
    }
  }

  /** The loop of SharedFileStore.publish; `probes` counts its queries. */
  method SearchSlug(base: string, taken: set<string>) returns (cand: string, ghost probes: nat)
    ensures cand == FirstFree(base, taken) && 1 <= probes <= |taken| + 1
  {
    cand := base;
    var n := 1;
    ghost var left := taken;
    probes := 1;
    FreeNumberIsFirst(base, taken, 1);
    while cand in taken
      invariant 1 <= n == probes && cand == Candidate(base, n)
      invariant left <= taken && |left| + n == |taken| + 1
      invariant forall i :: n <= i ==> Candidate(base, i) in taken ==> Candidate(base, i) in left
      invariant FreeNumber(base, taken, 1) == FreeNumber(base, left, n)
      decreases left
    {
      forall i | n < i ensures Candidate(base, i) != cand { CandidatesDiffer(base, n, i); }
      left := left - {cand};
      n := n + 1;
      cand := base + "-" + Decimal.ToString(n);
      probes := probes + 1;
    }
  }

  /** ProjectStore._unique_slug: the same search with its own counter. */
  method UniqueProjectSlug(base: string, taken: set<string>) returns (candidate: string, ghost probes: nat)
    ensures candidate == FirstFree(base, taken) && 1 <= probes <= |taken| + 1
  {
    candidate := base;
    var suffix := 2;
    ghost var left := taken;
    probes := 1;
    while candidate in taken
      invariant suffix == probes + 1 && probes >= 1 && candidate == Candidate(base, probes)
      invariant left <= taken && |left| + probes == |taken| + 1
      invariant forall i :: probes <= i ==> Candidate(base, i) in taken ==> Candidate(base, i) in left
      invariant FreeNumber(base, taken, 1) == FreeNumber(base, left, probes)
      decreases left
    {
      forall i | probes < i ensures Candidate(base, i) != candidate { CandidatesDiffer(base, probes, i); }
      left := left - {candidate};
      candidate := base + "-" + Decimal.ToString(suffix);
      suffix := suffix + 1;
      probes := probes + 1;
    }
  }
}
