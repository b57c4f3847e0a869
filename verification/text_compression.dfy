/** The choice of compressor for one text (compress_text in src/teamshared/compress/engine.py,
    try_compress_json_text in src/teamshared/compress/smart_crusher.py). Parsing JSON, splitting
    lines and the error patterns are given as functions; the explanatory note in front of a
    compressed body is left out. */
module TextCompression {
  import opened Wrappers
  import opened JsonSampling
  import LogCompression

  datatype Settings = Settings(minChars: int, targetRatio: real, jsonMaxItems: nat, logMaxLines: nat)

  datatype Host = Host(
    jsonArray: string -> Option<seq<Item>>,  // the items, when the text is a non-empty JSON array
    newlines: string -> nat,
    lines: string -> seq<string>,
    isError: string -> bool)

  datatype Body =
    | Unchanged
    | ArrayBody(items: seq<Item>)
    | LogBody(lines: seq<string>)
    | TruncatedBody(head: string, tail: string)

  function TargetChars(length: nat, s: Settings): nat
    requires s.targetRatio >= 0.0
  {
    assert length as real * s.targetRatio >= 0.0;
    var share := (length as real * s.targetRatio).Floor;
    if s.minChars >= share then s.minChars else share
  }

  /** content[:n] + content[-n:]; the negative slice of zero is the whole text. */
  function Truncate(content: string, target: nat): Body
    requires target < |content|
  {
    var n := target / 2;
    TruncatedBody(content[..n], if n == 0 then content else content[|content| - n..])
  }

  function PlainBody(content: string, s: Settings): Body
    requires s.targetRatio >= 0.0
  {
    var target := TargetChars(|content|, s);
    if |content| <= target then Unchanged else Truncate(content, target)
  }

  function LogOrPlainBody(content: string, s: Settings, h: Host): Body
    requires s.targetRatio >= 0.0
  {
    if h.newlines(content) >= 20 && |h.lines(content)| > s.logMaxLines
    then LogBody(LogCompression.Shrunk(h.lines(content), s.logMaxLines, h.isError))
    else PlainBody(content, s)
  }

  function CompressText(content: string, s: Settings, h: Host): Body
    requires s.targetRatio >= 0.0
  {
    if |content| < s.minChars then Unchanged
    else match h.jsonArray(content)
      case Some(items) =>
        var kept := CompressJsonArray(items, s.jsonMaxItems);
        if |kept| < |items| then ArrayBody(kept) else LogOrPlainBody(content, s, h)
      case None => LogOrPlainBody(content, s, h)
  }

  /** Sampling shortens an array exactly when it is longer than both the limit and three. */
  lemma SamplingShortensIff(items: seq<Item>, maxItems: nat)
    requires items != []
    ensures |CompressJsonArray(items, maxItems)| < |items| <==> |items| > maxItems && |items| > 3
  {
    HeadAndTailFit(maxItems);
    if |items| > maxItems {
      SampleHasExactSizeIff(items, maxItems);
    }
  }

  /** Truncation keeps the two ends, and drops text exactly when the target is at least two. */
  lemma TruncationDropsTextIff(content: string, target: nat)
    requires target < |content|
    ensures var b := Truncate(content, target);
            && b.head <= content && |b.tail| <= |content| && b.tail == content[|content| - |b.tail|..]
            && (|b.head| + |b.tail| < |content| <==> target >= 2)
            && (target >= 2 ==> |b.head| == |b.tail| == target / 2 && target - 1 <= |b.head| + |b.tail| <= target)
  {
  }

  /** The target is the minimum or the configured share of the length, whichever is larger, in whole
      characters. */
  lemma TargetIsTheLarger(length: nat, s: Settings)
    requires s.targetRatio >= 0.0
    ensures var target, share := TargetChars(length, s), length as real * s.targetRatio;
            && target >= s.minChars && share < (target + 1) as real
            && (target == s.minChars || target as real <= share)
  {
  }

  /** Which compressor a text gets: none below the minimum, sampling for an array longer than both
      the item limit and three, log shrinking for other texts of twenty newlines and more lines than
      the limit, and truncation for the rest where it is longer than its target. */
  lemma CompressorOfText(content: string, s: Settings, h: Host)
    requires s.targetRatio >= 0.0
    ensures var long := |content| >= s.minChars;
            var list := h.jsonArray(content) != None
                        && |h.jsonArray(content).value| > s.jsonMaxItems && |h.jsonArray(content).value| > 3;
            var logLike := h.newlines(content) >= 20 && |h.lines(content)| > s.logMaxLines;
            var b := CompressText(content, s, h);
            && (b.ArrayBody? <==> long && list)
            && (b.LogBody? <==> long && !list && logLike)
            && (b.TruncatedBody? <==> long && !list && !logLike && |content| > TargetChars(|content|, s))
            && (b.ArrayBody? ==> b.items == CompressJsonArray(h.jsonArray(content).value, s.jsonMaxItems))
            && (b.LogBody? ==> b.lines == LogCompression.Shrunk(h.lines(content), s.logMaxLines, h.isError))
            && (b.TruncatedBody? ==> b == Truncate(content, TargetChars(|content|, s)))
  {
    if h.jsonArray(content).Some? && h.jsonArray(content).value != [] {
      SamplingShortensIff(h.jsonArray(content).value, s.jsonMaxItems);
    }
  }

  /** A changed body is cut to the limit of its kind, and holds nothing but parts of its text. */
  ghost predicate WithinLimit(content: string, s: Settings, h: Host, b: Body)
    requires s.targetRatio >= 0.0
  {
    match b
    case Unchanged => true
    case ArrayBody(items) =>
      h.jsonArray(content).Some? && |items| == s.jsonMaxItems < |h.jsonArray(content).value|
      && forall x :: x in items ==> x in h.jsonArray(content).value
    case LogBody(lines) =>
      |lines| <= s.logMaxLines < |h.lines(content)| && forall l :: l in lines ==> l in h.lines(content)
    case TruncatedBody(head, tail) =>
      |head| + |tail| <= TargetChars(|content|, s) < |content|
  }

  ghost predicate AlwaysWithinLimits(s: Settings)
    requires s.targetRatio >= 0.0
  {
    forall content: string, h: Host :: WithinLimit(content, s, h, CompressText(content, s, h))
  }

  predicate WideLimits(s: Settings) {
    s.jsonMaxItems >= 3 && s.logMaxLines >= 7 && (s.minChars >= 2 || s.targetRatio == 1.0)
  }

  /** Which arm a changed body comes from. */
  lemma ArmOf(content: string, s: Settings, h: Host)
    requires s.targetRatio >= 0.0
    ensures match CompressText(content, s, h)
            case Unchanged => true
            case ArrayBody(kept) =>
              h.jsonArray(content).Some? && kept == CompressJsonArray(h.jsonArray(content).value, s.jsonMaxItems)
              && |kept| < |h.jsonArray(content).value|
            case LogBody(kept) =>
              kept == LogCompression.Shrunk(h.lines(content), s.logMaxLines, h.isError)
              && |h.lines(content)| > s.logMaxLines && h.newlines(content) >= 20
            case TruncatedBody(head, tail) =>
              TargetChars(|content|, s) < |content|
              && TruncatedBody(head, tail) == Truncate(content, TargetChars(|content|, s))
  {
  }

  lemma TargetIsWide(n: nat, s: Settings)
    requires 0.0 <= s.targetRatio <= 1.0 && (s.minChars >= 2 || s.targetRatio == 1.0)
    ensures TargetChars(n, s) < n ==> TargetChars(n, s) >= 2
  {
  }

  lemma SampleKeepsLimit(items: seq<Item>, maxItems: nat)
    requires maxItems >= 3 && |CompressJsonArray(items, maxItems)| < |items|
    ensures |CompressJsonArray(items, maxItems)| == maxItems < |items|
    ensures forall x :: x in CompressJsonArray(items, maxItems) ==> x in items
  {
    SampleHasExactSizeIff(items, maxItems);
    SampledItemsAreItems(items, maxItems);
  }

  lemma WideLimitsAreKept(content: string, s: Settings, h: Host)
    requires 0.0 <= s.targetRatio <= 1.0 && WideLimits(s)
    ensures WithinLimit(content, s, h, CompressText(content, s, h))
  {
    ArmOf(content, s, h);
    match CompressText(content, s, h)
    case ArrayBody(kept) =>
      SampleKeepsLimit(h.jsonArray(content).value, s.jsonMaxItems);
    case LogBody(kept) =>
      LogCompression.ShrunkKeepsHeadAndTail(h.lines(content), s.logMaxLines, h.isError);
    case TruncatedBody(head, tail) =>
      TargetIsWide(|content|, s);
      TruncationDropsTextIff(content, TargetChars(|content|, s));
    case Unchanged =>
  }

  lemma SampledItemsAreItems(items: seq<Item>, maxItems: nat)
    requires 1 <= maxItems < |items|
    ensures forall x :: x in CompressJsonArray(items, maxItems) ==> x in items
  {
    SampleIsASubsequence(items, maxItems);
  }

  function Filler(n: int): (r: string)
    ensures |r| == if n < 0 then 0 else n
  {
    seq(if n < 0 then 0 else n, i => 'x')
  }

  lemma NarrowArray(content: string, s: Settings, h: Host)
    requires s.targetRatio >= 0.0 && |content| >= s.minChars && s.jsonMaxItems < 3
    requires h.jsonArray(content).Some? && |h.jsonArray(content).value| > 3
    ensures !AlwaysWithinLimits(s)
  {
    SamplingShortensIff(h.jsonArray(content).value, s.jsonMaxItems);
    SampleHasExactSizeIff(h.jsonArray(content).value, s.jsonMaxItems);
    assert !WithinLimit(content, s, h, CompressText(content, s, h));
  }

  lemma NarrowLog(content: string, s: Settings, h: Host)
    requires s.targetRatio >= 0.0 && |content| >= s.minChars
    requires h.jsonArray(content).None? && h.newlines(content) >= 20 && |h.lines(content)| > s.logMaxLines
    requires |LogCompression.Shrunk(h.lines(content), s.logMaxLines, h.isError)| > s.logMaxLines
    ensures !AlwaysWithinLimits(s)
  {
    assert !WithinLimit(content, s, h, CompressText(content, s, h));
  }

  lemma LongArray(s: Settings) returns (content: string, h: Host)
    ensures |content| >= s.minChars && h.jsonArray(content).Some? && |h.jsonArray(content).value| > 3
  {
    var i := Item(false, 0, "");
    content, h := Filler(s.minChars), Host(t => Some([i, i, i, i]), t => 0, t => [], t => false);
  }

  lemma LongLog(s: Settings) returns (content: string, h: Host)
    requires s.logMaxLines < 7
    ensures |content| >= s.minChars && h.jsonArray(content).None? && h.newlines(content) >= 20
    ensures |h.lines(content)| > s.logMaxLines
    ensures |LogCompression.Shrunk(h.lines(content), s.logMaxLines, h.isError)| > s.logMaxLines
  {
    var isError := (l: string) => false;
    LogCompression.LimitIsRespectedIff(s.logMaxLines, isError);
    var lines: seq<string> :| |lines| > s.logMaxLines
      && |LogCompression.Shrunk(lines, s.logMaxLines, isError)| > s.logMaxLines;
    content, h := Filler(s.minChars), Host(t => None, t => 20, t => lines, isError);
  }

  lemma ShortTextsStayWhole(s: Settings)
    requires 0.0 <= s.targetRatio < 1.0 && s.minChars < 2
    ensures !AlwaysWithinLimits(s)
  {
    var h := Host(t => None, t => 0, t => [], t => false);
    var content := Filler(if s.minChars == 1 then 2 else 1);
    var target := TargetChars(|content|, s);
    assert |content| as real * s.targetRatio < |content| as real;
    assert target < |content| && target < 2;
    assert !WithinLimit(content, s, h, CompressText(content, s, h));
  }

  /** Every changed body keeps the limit of its kind, for every text and parser, exactly when
      the limits leave room: three items, seven lines, and a minimum of two characters unless
      plain text is never truncated. */
  lemma BodiesKeepTheirLimitsIff(s: Settings)
    requires 0.0 <= s.targetRatio <= 1.0
    ensures AlwaysWithinLimits(s) <==> WideLimits(s)
  {
    if WideLimits(s) {
      forall content: string, h: Host ensures WithinLimit(content, s, h, CompressText(content, s, h)) {
        WideLimitsAreKept(content, s, h);
      }
    } else if s.jsonMaxItems < 3 {
      var content, h := LongArray(s);
      NarrowArray(content, s, h);
    } else if s.logMaxLines < 7 {
      var content, h := LongLog(s);
      NarrowLog(content, s, h);
    } else {
      ShortTextsStayWhole(s);
    }
  }

  // ---- smaller than the original, at any limits ----

  /** splitlines() finds at least one line per newline. */
  ghost predicate Splits(h: Host) {
    (forall t :: |h.lines(t)| >= h.newlines(t)) && forall t :: h.jsonArray(t) != Some([])
  }

  /** A changed body holds fewer items, lines or characters than what it stands for. */
  ghost predicate Smaller(content: string, h: Host, b: Body) {
    match b
    case Unchanged => true
    case ArrayBody(items) => h.jsonArray(content).Some? && |items| < |h.jsonArray(content).value|
    case LogBody(lines) => |lines| < |h.lines(content)|
    case TruncatedBody(head, tail) => |head| + |tail| < |content|
  }

  ghost predicate AlwaysSmaller(s: Settings)
    requires s.targetRatio >= 0.0
  {
    forall content: string, h: Host :: Splits(h) ==> Smaller(content, h, CompressText(content, s, h))
  }

  lemma ShrunkIsShort(lines: seq<string>, maxLines: nat, isError: string -> bool)
    requires |lines| > maxLines && |lines| >= 20
    ensures |LogCompression.Shrunk(lines, maxLines, isError)| < |lines|
  {
    LogCompression.HeadAndTailFit(maxLines);
    if maxLines >= 7 {
      LogCompression.ShrunkKeepsHeadAndTail(lines, maxLines, isError);
    }
  }

  lemma ChangedIsSmaller(content: string, s: Settings, h: Host)
    requires 0.0 <= s.targetRatio <= 1.0 && (s.minChars >= 2 || s.targetRatio == 1.0) && Splits(h)
    ensures Smaller(content, h, CompressText(content, s, h))
  {
    ArmOf(content, s, h);
    match CompressText(content, s, h)
    case ArrayBody(_) =>
    case LogBody(_) =>
      assert |h.lines(content)| >= h.newlines(content);
      ShrunkIsShort(h.lines(content), s.logMaxLines, h.isError);
    case TruncatedBody(_, _) =>
      TargetIsWide(|content|, s);
      TruncationDropsTextIff(content, TargetChars(|content|, s));
    case Unchanged =>
  }

  lemma ShortTextIsNotSmaller(s: Settings)
    requires 0.0 <= s.targetRatio < 1.0 && s.minChars < 2
    ensures !AlwaysSmaller(s)
  {
    var h := Host(t => None, t => 0, t => [], t => false);
    var content := Filler(if s.minChars == 1 then 2 else 1);
    var target := TargetChars(|content|, s);
    assert |content| as real * s.targetRatio < |content| as real;
    assert target < |content| && target < 2;
    assert Splits(h) && !Smaller(content, h, CompressText(content, s, h));
  }

  /** Every changed body is smaller than its original, at any item and line limit, exactly when
      the minimum is at least two characters or plain text is never truncated. */
  lemma CompressionAlwaysReducesIff(s: Settings)
    requires 0.0 <= s.targetRatio <= 1.0
    ensures AlwaysSmaller(s) <==> s.minChars >= 2 || s.targetRatio == 1.0
  {
    if s.minChars >= 2 || s.targetRatio == 1.0 {
      forall content: string, h: Host | Splits(h) ensures Smaller(content, h, CompressText(content, s, h)) {
        ChangedIsSmaller(content, s, h);
      }
    } else {
      ShortTextIsNotSmaller(s);
    }
  }
}
