/** Shrinking of long logs (_compress_log_text in src/teamshared/compress/engine.py), on the
    lines of the text. The error pattern is given as a predicate; ratios are reals. */
module LogCompression {
  import opened Records
  import Text

  function AtLeast(floor: nat, n: int): nat {
    if n < floor then floor else n
  }

  function HeadCount(maxLines: nat): nat {
    AtLeast(3, (maxLines as real * 0.25).Floor)
  }

  function TailCount(maxLines: nat): nat {
    AtLeast(3, (maxLines as real * 0.15).Floor)
  }

  function Budget(maxLines: nat): nat {
    AtLeast(1, maxLines - HeadCount(maxLines) - TailCount(maxLines))
  }

  lemma HeadAndTailFit(maxLines: nat)
    ensures maxLines >= 7 ==> HeadCount(maxLines) + TailCount(maxLines) + Budget(maxLines) == maxLines
    ensures maxLines < 7 ==> HeadCount(maxLines) == TailCount(maxLines) == 3 && Budget(maxLines) == 1
  {
    assert (maxLines as real * 0.25).Floor as real <= maxLines as real * 0.25;
    assert (maxLines as real * 0.15).Floor as real <= maxLines as real * 0.15;
  }

  /** A quarter of the limit goes to the head and three twentieths to the tail, rounded down but at
      least three each, and what is left, at least one, between them; a log within the limit
      stays whole. */
  lemma LogShares(maxLines: nat, lines: seq<string>, isError: string -> bool)
    ensures HeadCount(maxLines) == if maxLines < 16 then 3 else maxLines / 4
    ensures TailCount(maxLines) == if maxLines < 27 then 3 else 3 * maxLines / 20
    ensures maxLines >= 7 ==> Budget(maxLines) == maxLines - HeadCount(maxLines) - TailCount(maxLines)
    ensures |lines| <= maxLines ==> Shrunk(lines, maxLines, isError) == lines
  {
    HeadAndTailFit(maxLines);
    FloorOfQuarters(maxLines, maxLines as real * 0.25);
    FloorOfTwentieths(3 * maxLines, maxLines as real * 0.15);
  }

  lemma FloorOfQuarters(n: nat, x: real)
    requires 4.0 * x == n as real
    ensures x.Floor == n / 4
  {
    var q := n / 4;
    assert (4 * q) as real <= 4.0 * x < (4 * q + 4) as real;
  }

  lemma FloorOfTwentieths(n: nat, x: real)
    requires 20.0 * x == n as real
    ensures x.Floor == n / 20
  {
    var q := n / 20;
    assert (20 * q) as real <= 20.0 * x < (20 * q + 20) as real;
  }

  /** lines[-n:] for positive n */
  function Last(lines: seq<string>, n: nat): seq<string> {
    if n <= |lines| then lines[|lines| - n..] else lines
  }

  function Middle(lines: seq<string>, head: nat, tail: nat): seq<string> {
    if head + tail <= |lines| then lines[head..|lines| - tail] else []
  }

  function ErrorLines(lines: seq<string>, isError: string -> bool): seq<string> {
    if lines == [] then []
    else
      var last := lines[|lines| - 1];
      ErrorLines(lines[..|lines| - 1], isError) + if isError(last) then [last] else []
  }

  lemma {:induction false} ErrorLinesAre(lines: seq<string>, isError: string -> bool, l: string)
    ensures l in ErrorLines(lines, isError) <==> l in lines && isError(l)
    decreases |lines|
  {
    if lines != [] {
      var n := |lines| - 1;
      assert lines == lines[..n] + [lines[n]];
      ErrorLinesAre(lines[..n], isError, l);
    }
  }

  /** Every line once, at its first appearance. */
  function Dedup(xs: seq<string>): seq<string> {
    if xs == [] then []
    else
      var before, last := Dedup(xs[..|xs| - 1]), xs[|xs| - 1];
      if last in before then before else before + [last]
  }

  lemma {:induction false} DedupKeeps(xs: seq<string>, x: string)
    ensures x in Dedup(xs) <==> x in xs
    decreases |xs|
  {
    if xs != [] {
      var n := |xs| - 1;
      assert xs == xs[..n] + [xs[n]];
      DedupKeeps(xs[..n], x);
    }
  }

  /** What the loop picks between head and tail. */
  function Picked(lines: seq<string>, head: nat, tail: nat, budget: nat, isError: string -> bool): seq<string> {
    Text.First(Dedup(ErrorLines(lines, isError) + Middle(lines, head, tail)), budget)
  }

  function Shrunk(lines: seq<string>, maxLines: nat, isError: string -> bool): seq<string> {
    if |lines| <= maxLines then lines
    else
      var head, tail := HeadCount(maxLines), TailCount(maxLines);
      Text.First(lines, head) + Picked(lines, head, tail, Budget(maxLines), isError) + Last(lines, tail)
  }

  method PickLines(candidates: seq<string>, budget: nat) returns (picked: seq<string>)
    requires budget >= 1
    ensures picked == Text.First(Dedup(candidates), budget)
  {
    picked := [];
    var seen: set<string> := {};
    for i := 0 to |candidates|
      invariant picked == Dedup(candidates[..i]) && |picked| < budget
      invariant forall x :: x in seen <==> x in picked
    {
      var ln := candidates[i];
      DedupOneMore(candidates, i);
      DedupOfPrefix(candidates, i + 1);
      if ln !in seen {
        seen := seen + {ln};
        picked := picked + [ln];
        if |picked| >= budget {
          return;
        }
      }
    }
    assert candidates[..|candidates|] == candidates;
  }

  lemma DedupOneMore(xs: seq<string>, i: nat)
    requires i < |xs|
    ensures Dedup(xs[..i + 1]) == if xs[i] in Dedup(xs[..i]) then Dedup(xs[..i]) else Dedup(xs[..i]) + [xs[i]]
  {
    assert xs[..i + 1][..i] == xs[..i];
  }

  lemma {:induction false} DedupOfPrefix(xs: seq<string>, n: nat)
    requires n <= |xs|
    ensures Dedup(xs[..n]) <= Dedup(xs)
  {
    Rejoined(xs, n);
    DedupGrows(xs[..n], xs[n..]);
  }

  lemma Rejoined(xs: seq<string>, n: nat)
    requires n <= |xs|
    ensures xs[..n] + xs[n..] == xs
  {
  }

  method CompressLogLines(lines: seq<string>, maxLines: nat, isError: string -> bool)
    returns (kept: seq<string>, changed: bool)
    ensures kept == Shrunk(lines, maxLines, isError)
    ensures changed <==> |lines| > maxLines
  {
    if |lines| <= maxLines {
      return lines, false;
    }
    var head, tail, budget := HeadCount(maxLines), TailCount(maxLines), Budget(maxLines);
    var picked := PickLines(ErrorLines(lines, isError) + Middle(lines, head, tail), budget);
    kept := Text.First(lines, head) + picked + Last(lines, tail);
    changed := true;
  }

  lemma {:induction false} DedupGrows(a: seq<string>, b: seq<string>)
    ensures Dedup(a) <= Dedup(a + b)
    decreases |b|
  {
    if b == [] {
      assert a + b == a;
    } else {
      assert (a + b)[..|a + b| - 1] == a + b[..|b| - 1];
      DedupGrows(a, b[..|b| - 1]);
    }
  }

  lemma {:induction false} DedupIsDistinct(xs: seq<string>)
    ensures Distinct(Dedup(xs)) && |Dedup(xs)| <= |xs|
    decreases |xs|
  {
    if xs != [] {
      DedupIsDistinct(xs[..|xs| - 1]);
    }
  }

  lemma {:induction false} DedupOfDistinct(xs: seq<string>)
    requires Distinct(xs)
    ensures Dedup(xs) == xs
    decreases |xs|
  {
    if xs != [] {
      DedupOfDistinct(xs[..|xs| - 1]);
    }
  }

  /** `out` is xs at the ascending positions `at`. */
  ghost predicate TakenAt(xs: seq<string>, at: seq<nat>, out: seq<string>) {
    && |out| == |at|
    && (forall i :: 0 <= i < |at| ==> IsAt(xs, at[i], out[i]))
    && (forall i, j :: 0 <= i < j < |at| ==> at[i] < at[j])
  }

  ghost predicate IsAt(xs: seq<string>, p: nat, x: string) {
    p < |xs| && xs[p] == x
  }

  lemma TakenSnoc(xs: seq<string>, x: string, at: seq<nat>, out: seq<string>)
    requires TakenAt(xs, at, out)
    ensures TakenAt(xs + [x], at, out) && TakenAt(xs + [x], at + [|xs|], out + [x])
  {
    forall i | 0 <= i < |at| ensures IsAt(xs + [x], at[i], out[i]) && at[i] < |xs| {
      assert IsAt(xs, at[i], out[i]);
    }
    assert IsAt(xs + [x], |xs|, x);
  }

  /** The positions of first appearance. */
  ghost function FirstAt(xs: seq<string>): seq<nat> {
    if xs == [] then []
    else
      var n := |xs| - 1;
      FirstAt(xs[..n]) + if xs[n] in xs[..n] then [] else [n]
  }

  lemma {:induction false} FirstAtAre(xs: seq<string>, p: nat)
    ensures p in FirstAt(xs) <==> p < |xs| && xs[p] !in xs[..p]
    decreases |xs|
  {
    if xs != [] {
      var n := |xs| - 1;
      FirstAtAre(xs[..n], p);
      assert p < n ==> xs[..n][..p] == xs[..p];
    }
  }

  /** Lines are picked once each, at their first appearance, in order of appearance. */
  lemma {:induction false} DedupTakesFirsts(xs: seq<string>)
    ensures TakenAt(xs, FirstAt(xs), Dedup(xs))
    decreases |xs|
  {
    if xs != [] {
      var n := |xs| - 1;
      DedupTakesFirsts(xs[..n]);
      DedupKeeps(xs[..n], xs[n]);
      TakenSnoc(xs[..n], xs[n], FirstAt(xs[..n]), Dedup(xs[..n]));
      assert xs == xs[..n] + [xs[n]];
      assert FirstAt(xs[..n]) + [] == FirstAt(xs[..n]);
    }
  }

  /** The positions of the lines that match. */
  ghost function ErrorAt(lines: seq<string>, isError: string -> bool): seq<nat> {
    if lines == [] then []
    else
      var n := |lines| - 1;
      ErrorAt(lines[..n], isError) + if isError(lines[n]) then [n] else []
  }

  lemma {:induction false} ErrorAtAre(lines: seq<string>, isError: string -> bool, p: nat)
    ensures p in ErrorAt(lines, isError) <==> p < |lines| && isError(lines[p])
    decreases |lines|
  {
    if lines != [] {
      ErrorAtAre(lines[..|lines| - 1], isError, p);
    }
  }

  /** The error lines are those that match, each as often as it stands there, in order. */
  lemma {:induction false} ErrorLinesInOrder(lines: seq<string>, isError: string -> bool)
    ensures TakenAt(lines, ErrorAt(lines, isError), ErrorLines(lines, isError))
    decreases |lines|
  {
    if lines != [] {
      var n := |lines| - 1;
      var at, out := ErrorAt(lines[..n], isError), ErrorLines(lines[..n], isError);
      ErrorLinesInOrder(lines[..n], isError);
      TakenSnoc(lines[..n], lines[n], at, out);
      assert lines == lines[..n] + [lines[n]];
      assert at + [] == at && out + [] == out;
    }
  }

  /** Distinct error lines of the whole log are picked before anything else, as many as fit. */
  lemma {:induction false} ErrorsArePickedFirst(lines: seq<string>, head: nat, tail: nat, budget: nat,
                                                isError: string -> bool)
    ensures var picked, errors := Picked(lines, head, tail, budget, isError), Dedup(ErrorLines(lines, isError));
            if budget <= |errors| then picked == errors[..budget] else errors <= picked
  {
    DedupGrows(ErrorLines(lines, isError), Middle(lines, head, tail));
  }

  /** No room is left unused: the budget is spent, or every error line and every line between head
      and tail is picked. */
  lemma TheBudgetIsSpent(lines: seq<string>, head: nat, tail: nat, budget: nat, isError: string -> bool, l: string)
    requires head + tail <= |lines| && (l in lines[head..|lines| - tail] || (l in lines && isError(l)))
    ensures var picked := Picked(lines, head, tail, budget, isError);
            |picked| <= budget && (|picked| == budget || l in picked)
  {
    DedupKeeps(ErrorLines(lines, isError) + Middle(lines, head, tail), l);
    ErrorLinesAre(lines, isError, l);
  }

  lemma {:induction false} NoErrorLines(lines: seq<string>, isError: string -> bool)
    requires forall i :: 0 <= i < |lines| ==> !isError(lines[i])
    ensures ErrorLines(lines, isError) == []
    decreases |lines|
  {
    if lines != [] {
      NoErrorLines(lines[..|lines| - 1], isError);
    }
  }

  /** In a log without error lines the distinct lines between head and tail are picked. */
  lemma WithoutErrorsTheMiddleIsPicked(lines: seq<string>, head: nat, tail: nat, budget: nat,
                                       isError: string -> bool)
    requires head + tail <= |lines| && forall i :: 0 <= i < |lines| ==> !isError(lines[i])
    ensures var middle := Dedup(lines[head..|lines| - tail]);
            Picked(lines, head, tail, budget, isError) == if budget <= |middle| then middle[..budget] else middle
  {
    NoErrorLines(lines, isError);
    assert [] + Middle(lines, head, tail) == Middle(lines, head, tail);
  }

  lemma PickedComesFromTheLines(lines: seq<string>, head: nat, tail: nat, budget: nat, isError: string -> bool)
    ensures forall l :: l in Picked(lines, head, tail, budget, isError) ==> l in lines
    ensures Distinct(Picked(lines, head, tail, budget, isError))
  {
    var candidates := ErrorLines(lines, isError) + Middle(lines, head, tail);
    DedupIsDistinct(candidates);
    forall l | l in Picked(lines, head, tail, budget, isError) ensures l in lines {
      assert l in Dedup(candidates);
      DedupKeeps(candidates, l);
      ErrorLinesAre(lines, isError, l);
    }
  }

  /** A shrunken log consists of the head, pairwise distinct lines between, and the tail,
      every one of them a line of the input. */
  lemma ShrunkKeepsHeadAndTail(lines: seq<string>, maxLines: nat, isError: string -> bool)
    requires |lines| > maxLines >= 7
    ensures var head, tail, kept := HeadCount(maxLines), TailCount(maxLines), Shrunk(lines, maxLines, isError);
            && head + tail <= |kept| <= maxLines
            && kept[..head] == lines[..head] && kept[|kept| - tail..] == lines[|lines| - tail..]
            && Distinct(kept[head..|kept| - tail])
            && forall l :: l in kept ==> l in lines
  {
    var head, tail, budget := HeadCount(maxLines), TailCount(maxLines), Budget(maxLines);
    HeadAndTailFit(maxLines);
    PartsAreKept(lines, head, tail, budget, isError);
  }

  lemma PartsAreKept(lines: seq<string>, head: nat, tail: nat, budget: nat, isError: string -> bool)
    requires head + tail <= |lines|
    ensures var kept := Text.First(lines, head) + Picked(lines, head, tail, budget, isError) + Last(lines, tail);
            && head + tail <= |kept| <= head + budget + tail
            && kept[..head] == lines[..head] && kept[|kept| - tail..] == lines[|lines| - tail..]
            && Distinct(kept[head..|kept| - tail])
            && forall l :: l in kept ==> l in lines
  {
    PickedComesFromTheLines(lines, head, tail, budget, isError);
    Sandwich(lines[..head], Picked(lines, head, tail, budget, isError), lines[|lines| - tail..]);
  }

  lemma Sandwich(a: seq<string>, m: seq<string>, b: seq<string>)
    ensures var s := a + m + b;
            s[..|a|] == a && s[|a|..|s| - |b|] == m && s[|s| - |b|..] == b
  {
  }

  ghost predicate NeverTooLong(maxLines: nat, isError: string -> bool) {
    forall lines: seq<string> :: |lines| > maxLines ==> |Shrunk(lines, maxLines, isError)| <= maxLines
  }

  /** The limit is respected on every longer log exactly when it is at least 7: head, tail
      and the one line always picked take up seven. */
  lemma LimitIsRespectedIff(maxLines: nat, isError: string -> bool)
    ensures NeverTooLong(maxLines, isError) <==> maxLines >= 7
  {
    HeadAndTailFit(maxLines);
    if maxLines >= 7 {
      forall lines: seq<string> | |lines| > maxLines ensures |Shrunk(lines, maxLines, isError)| <= maxLines {
        ShrunkKeepsHeadAndTail(lines, maxLines, isError);
      }
    } else {
      var lines := ["0", "1", "2", "3", "4", "5", "6"];
      var candidates := ErrorLines(lines, isError) + Middle(lines, 3, 3);
      assert candidates[|candidates| - 1] == "3";
      DedupKeeps(candidates, "3");
      assert |Picked(lines, 3, 3, 1, isError)| == 1;
      assert |Shrunk(lines, maxLines, isError)| == 7;
    }
  }

  /** Every error line of the log is kept when the distinct ones fit the budget. */
  lemma {:induction false} ErrorLinesSurvive(lines: seq<string>, maxLines: nat, isError: string -> bool, l: string)
    requires |lines| > maxLines
    requires |Dedup(ErrorLines(lines, isError))| <= Budget(maxLines)
    requires l in lines && isError(l)
    ensures l in Shrunk(lines, maxLines, isError)
  {
    var head, tail := HeadCount(maxLines), TailCount(maxLines);
    var errors, all := Dedup(ErrorLines(lines, isError)), Dedup(ErrorLines(lines, isError) + Middle(lines, head, tail));
    DedupGrows(ErrorLines(lines, isError), Middle(lines, head, tail));
    ErrorLinesAre(lines, isError, l);
    DedupKeeps(ErrorLines(lines, isError), l);
    var i :| 0 <= i < |errors| && errors[i] == l;
    assert Text.First(all, Budget(maxLines))[i] == l;
  }
}
