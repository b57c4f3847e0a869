/** Sampling of long JSON arrays (src/teamshared/compress/smart_crusher.py). Items are any
    values with a text; the error pattern and the text length are given as functions, and
    ratios and scores are reals. */
module JsonSampling {
  import Sort = StableSort

  /** What the scorer sees of an item: whether its text matches the error pattern, and its length. */
  datatype Item = Item(isError: bool, textLength: nat, value: string)

  function ScoreItem(item: Item): real {
    (if item.isError then 100.0 else 0.0)
    + if item.textLength as real / 200.0 < 5.0 then item.textLength as real / 200.0 else 5.0
  }

  function AtLeastOne(n: int): nat {
    if n < 1 then 1 else n
  }

  function HeadCount(maxItems: nat): nat {
    AtLeastOne((maxItems as real * 0.30).Floor)
  }

  function TailCount(maxItems: nat): nat {
    AtLeastOne((maxItems as real * 0.15).Floor)
  }

  function Budget(maxItems: nat): nat {
    AtLeastOne(maxItems - HeadCount(maxItems) - TailCount(maxItems))
  }

  lemma HeadAndTailFit(maxItems: nat)
    ensures HeadCount(maxItems) <= maxItems || maxItems == 0
    ensures TailCount(maxItems) <= maxItems || maxItems == 0
    ensures maxItems >= 3 ==> HeadCount(maxItems) + TailCount(maxItems) + Budget(maxItems) == maxItems
    ensures maxItems < 3 ==> HeadCount(maxItems) == TailCount(maxItems) == Budget(maxItems) == 1
  {
    assert (maxItems as real * 0.30).Floor <= maxItems;
    assert (maxItems as real * 0.15).Floor as real <= maxItems as real * 0.15;
    assert (maxItems as real * 0.30).Floor as real <= maxItems as real * 0.30;
  }

  /** Three tenths of the limit go to the head and three twentieths to the tail, rounded down but
      at least one each, and what is left, at least one, to the middle; an array within the limit
      stays whole. */
  lemma SampleShares(maxItems: nat, items: seq<Item>)
    ensures HeadCount(maxItems) == if maxItems < 4 then 1 else 3 * maxItems / 10
    ensures TailCount(maxItems) == if maxItems < 14 then 1 else 3 * maxItems / 20
    ensures maxItems >= 3 ==> Budget(maxItems) == maxItems - HeadCount(maxItems) - TailCount(maxItems)
    ensures |items| <= maxItems ==> CompressJsonArray(items, maxItems) == items
  {
    HeadAndTailFit(maxItems);
    FloorOfTenths(3 * maxItems, maxItems as real * 0.30);
    FloorOfTwentieths(3 * maxItems, maxItems as real * 0.15);
  }

  lemma FloorOfTenths(n: nat, x: real)
    requires 10.0 * x == n as real
    ensures x.Floor == n / 10
  {
    var q := n / 10;
    assert (10 * q) as real <= 10.0 * x < (10 * q + 10) as real;
  }

  lemma FloorOfTwentieths(n: nat, x: real)
    requires 20.0 * x == n as real
    ensures x.Floor == n / 20
  {
    var q := n / 20;
    assert (20 * q) as real <= 20.0 * x < (20 * q + 20) as real;
  }

  function Range(n: nat): (r: seq<nat>)
    ensures |r| == n && forall i :: 0 <= i < n ==> r[i] == i
  {
    seq(n, i requires 0 <= i < n => i)
  }

  function MiddleScore(middle: seq<Item>): nat -> real {
    (i: nat) => if i < |middle| then ScoreItem(middle[i]) else 0.0
  }

  /** The budget best-scoring positions of the middle, best first, ties in original order. */
  function Chosen(middle: seq<Item>, budget: nat): seq<nat> {
    Sort.TopK(Range(|middle|), MiddleScore(middle), budget)
  }

  function Ascending(positions: seq<nat>): seq<nat> {
    Sort.SortDesc(positions, (i: nat) => -(i as real))
  }

  /** The chosen positions in original order. */
  function Picked(middle: seq<Item>, budget: nat): (r: seq<nat>)
    ensures |r| == if budget < |middle| then budget else |middle|
    ensures forall i :: 0 <= i < |r| ==> r[i] < |middle|
    ensures Increasing(r)
  {
    PickedInRange(middle, budget);
    PickedAscends(middle, budget);
    Ascending(Chosen(middle, budget))
  }

  predicate Increasing(ps: seq<nat>) {
    forall i, j :: 0 <= i < j < |ps| ==> ps[i] < ps[j]
  }

  /** items[from:to] for bounds within the list */
  function Slice(items: seq<Item>, from: nat, to: int): seq<Item>
    requires from <= |items| && to <= |items|
  {
    if from <= to then items[from..to] else []
  }

  /** head + picked + tail */
  function Sample(items: seq<Item>, head: nat, tail: nat, budget: nat): seq<Item>
    requires head <= |items| && tail <= |items|
  {
    var middle := Slice(items, head, |items| - tail);
    var picked := Picked(middle, budget);
    items[..head]
    + seq(|picked|, i requires 0 <= i < |picked| => middle[picked[i]])
    + items[|items| - tail..]
  }

  function CompressJsonArray(items: seq<Item>, maxItems: nat): seq<Item> {
    if |items| <= maxItems then items
    else
      HeadAndTailFit(maxItems);
      Sample(items, HeadCount(maxItems), TailCount(maxItems), Budget(maxItems))
  }

  // ---- the chosen positions ----

  lemma {:induction false} SortedMembers(xs: seq<nat>, key: nat -> real)
    ensures forall x :: x in Sort.SortDesc(xs, key) <==> x in xs
  {
    forall x ensures x in Sort.SortDesc(xs, key) <==> x in xs {
      assert x in multiset(Sort.SortDesc(xs, key)) <==> x in multiset(xs);
    }
  }

  lemma ChosenInRange(middle: seq<Item>, budget: nat)
    ensures forall x :: x in Chosen(middle, budget) ==> 0 <= x < |middle|
  {
    var all := Sort.SortDesc(Range(|middle|), MiddleScore(middle));
    SortedMembers(Range(|middle|), MiddleScore(middle));
    forall x | x in Chosen(middle, budget) ensures 0 <= x < |middle| {
      assert x in all;
      assert x in Range(|middle|);
    }
  }

  lemma PickedIsChosen(middle: seq<Item>, budget: nat)
    ensures forall x :: x in Chosen(middle, budget) <==> x in Picked(middle, budget)
  {
    SortedMembers(Chosen(middle, budget), (i: nat) => -(i as real));
  }

  lemma PickedInRange(middle: seq<Item>, budget: nat)
    ensures forall i :: 0 <= i < |Ascending(Chosen(middle, budget))| ==> Ascending(Chosen(middle, budget))[i] < |middle|
  {
    var sorted := Ascending(Chosen(middle, budget));
    ChosenInRange(middle, budget);
    SortedMembers(Chosen(middle, budget), (i: nat) => -(i as real));
    forall i | 0 <= i < |sorted| ensures sorted[i] < |middle| {
      assert sorted[i] in sorted;
    }
  }

  lemma {:induction false} RangeIsDistinct(n: nat)
    ensures forall x :: multiset(Range(n))[x] <= 1
    decreases n
  {
    if n > 0 {
      RangeIsDistinct(n - 1);
      assert Range(n) == Range(n - 1) + [n - 1];
      assert n - 1 !in Range(n - 1);
    }
  }

  lemma ChosenOnce(middle: seq<Item>, budget: nat)
    ensures forall x :: multiset(Ascending(Chosen(middle, budget)))[x] <= 1
  {
    var chosen, all := Chosen(middle, budget), Sort.SortDesc(Range(|middle|), MiddleScore(middle));
    RangeIsDistinct(|middle|);
    assert all == chosen + all[|chosen|..];
    assert multiset(Ascending(chosen)) == multiset(chosen) <= multiset(all);
  }

  lemma PickedAscends(middle: seq<Item>, budget: nat)
    ensures Increasing(Ascending(Chosen(middle, budget)))
  {
    var key := (i: nat) => -(i as real);
    var sorted := Ascending(Chosen(middle, budget));
    Sort.SortDescends(Chosen(middle, budget), key);
    ChosenOnce(middle, budget);
    forall i, j | 0 <= i < j < |sorted| ensures sorted[i] < sorted[j] {
      assert key(sorted[i]) >= key(sorted[j]);
      if sorted[i] == sorted[j] {
        TwiceCountsTwo(sorted, i, j);
        assert false;
      }
    }
  }

  lemma TwiceCountsTwo(xs: seq<nat>, i: nat, j: nat)
    requires i < j < |xs| && xs[i] == xs[j]
    ensures multiset(xs)[xs[i]] >= 2
  {
    assert xs == xs[..i] + [xs[i]] + xs[i + 1..j] + [xs[j]] + xs[j + 1..];
  }

  // ---- what the sample keeps ----

  /** Positions of the kept items in the input. */
  function KeptPositions(items: seq<Item>, head: nat, tail: nat, budget: nat): seq<nat>
    requires head + tail <= |items|
  {
    var picked := Picked(items[head..|items| - tail], budget);
    Range(head) + Shifted(picked, head) + Shifted(Range(tail), |items| - tail)
  }

  function Shifted(ps: seq<nat>, offset: nat): (r: seq<nat>)
    ensures |r| == |ps| && forall i :: 0 <= i < |ps| ==> r[i] == ps[i] + offset
  {
    seq(|ps|, i requires 0 <= i < |ps| => ps[i] + offset)
  }

  function At(items: seq<Item>, ps: seq<nat>): (r: seq<Item>)
    requires forall i :: 0 <= i < |ps| ==> ps[i] < |items|
    ensures |r| == |ps| && forall i :: 0 <= i < |ps| ==> r[i] == items[ps[i]]
  {
    seq(|ps|, i requires 0 <= i < |ps| => items[ps[i]])
  }

  lemma PositionsAreIncreasing(items: seq<Item>, head: nat, tail: nat, budget: nat)
    requires head + tail <= |items|
    ensures Increasing(KeptPositions(items, head, tail, budget))
    ensures forall i :: 0 <= i < |KeptPositions(items, head, tail, budget)| ==>
              KeptPositions(items, head, tail, budget)[i] < |items|
  {
  }

  lemma PositionsCoverTheEnds(items: seq<Item>, head: nat, tail: nat, budget: nat, p: nat)
    requires head + tail <= |items| && (p < head || |items| - tail <= p < |items|)
    ensures p in KeptPositions(items, head, tail, budget)
  {
    var ps := KeptPositions(items, head, tail, budget);
    if p < head {
      assert ps[p] == p;
    } else {
      assert ps[|ps| - (|items| - p)] == p;
    }
  }

  lemma SampleSelects(items: seq<Item>, head: nat, tail: nat, budget: nat)
    requires head + tail <= |items|
    ensures forall i :: 0 <= i < |KeptPositions(items, head, tail, budget)| ==>
              KeptPositions(items, head, tail, budget)[i] < |items|
    ensures Sample(items, head, tail, budget) == At(items, KeptPositions(items, head, tail, budget))
  {
    PositionsAreIncreasing(items, head, tail, budget);
    var picked := Picked(items[head..|items| - tail], budget);
    var a, b, c := Range(head), Shifted(picked, head), Shifted(Range(tail), |items| - tail);
    AtAppends(items, a + b, c);
    AtAppends(items, a, b);
    assert At(items, a) == items[..head] && At(items, c) == items[|items| - tail..];
    assert At(items, b) == seq(|picked|, i requires 0 <= i < |picked| => items[head..|items| - tail][picked[i]]);
  }

  lemma AtAppends(items: seq<Item>, a: seq<nat>, b: seq<nat>)
    requires forall i :: 0 <= i < |a + b| ==> (a + b)[i] < |items|
    ensures forall i :: 0 <= i < |a| ==> a[i] < |items|
    ensures forall i :: 0 <= i < |b| ==> b[i] < |items|
    ensures At(items, a + b) == At(items, a) + At(items, b)
  {
    forall i | 0 <= i < |a| ensures a[i] < |items| {
      assert (a + b)[i] == a[i];
    }
    forall i | 0 <= i < |b| ensures b[i] < |items| {
      assert (a + b)[|a| + i] == b[i];
    }
  }

  ghost predicate CoversEnds(ps: seq<nat>, head: nat, tail: nat, n: nat) {
    forall p :: 0 <= p < n && (p < head || n - tail <= p) ==> p in ps
  }

  /** The sample is an order-preserving selection of the input that contains its head and tail. */
  lemma SampleIsASubsequence(items: seq<Item>, maxItems: nat)
    requires 1 <= maxItems < |items|
    ensures HeadCount(maxItems) + TailCount(maxItems) <= |items|
    ensures var ps := KeptPositions(items, HeadCount(maxItems), TailCount(maxItems), Budget(maxItems));
            && Increasing(ps)
            && (forall i :: 0 <= i < |ps| ==> ps[i] < |items|)
            && CompressJsonArray(items, maxItems) == At(items, ps)
            && CoversEnds(ps, HeadCount(maxItems), TailCount(maxItems), |items|)
  {
    HeadAndTailFit(maxItems);
    var head, tail, budget := HeadCount(maxItems), TailCount(maxItems), Budget(maxItems);
    SampleSelects(items, head, tail, budget);
    PositionsAreIncreasing(items, head, tail, budget);
    forall p | 0 <= p < |items| && (p < head || |items| - tail <= p)
      ensures p in KeptPositions(items, head, tail, budget)
    {
      PositionsCoverTheEnds(items, head, tail, budget, p);
    }
  }

  /** A longer array is cut to exactly max_items items if and only if max_items is at least 3. */
  lemma SampleHasExactSizeIff(items: seq<Item>, maxItems: nat)
    requires maxItems < |items|
    ensures |CompressJsonArray(items, maxItems)| == maxItems <==> maxItems >= 3
  {
    HeadAndTailFit(maxItems);
  }

  /** No item dropped from the middle outscores one that was picked. */
  lemma NothingDroppedOutscores(middle: seq<Item>, budget: nat, kept: nat, dropped: nat)
    requires kept in Picked(middle, budget) && dropped < |middle| && dropped !in Picked(middle, budget)
    ensures kept < |middle| && ScoreItem(middle[dropped]) <= ScoreItem(middle[kept])
  {
    var key := MiddleScore(middle);
    var chosen, all := Chosen(middle, budget), Sort.SortDesc(Range(|middle|), key);
    PickedIsChosen(middle, budget);
    Sort.SortDescends(Range(|middle|), key);
    SortedMembers(Range(|middle|), key);
    assert Range(|middle|)[dropped] == dropped;
    assert dropped in Range(|middle|);
    assert dropped in all;
    var i :| 0 <= i < |chosen| && chosen[i] == kept;
    var j :| 0 <= j < |all| && all[j] == dropped;
    assert all[i] == kept;
    assert |chosen| <= j;
    assert key(all[i]) >= key(all[j]);
  }

  /** Equal scores stand in their original order. */
  ghost predicate TiesAscend(ps: seq<nat>, key: nat -> real) {
    forall i, j :: 0 <= i < j < |ps| && key(ps[i]) == key(ps[j]) ==> ps[i] < ps[j]
  }

  ghost predicate AheadOfTies(x: nat, ps: seq<nat>, key: nat -> real) {
    forall i :: 0 <= i < |ps| && key(ps[i]) == key(x) ==> x < ps[i]
  }

  ghost predicate AllBelow(ps: seq<nat>, x: nat) {
    forall i :: 0 <= i < |ps| ==> ps[i] < x
  }

  lemma TiesAscendCons(head: nat, rest: seq<nat>, key: nat -> real)
    requires TiesAscend(rest, key) && AheadOfTies(head, rest, key)
    ensures TiesAscend([head] + rest, key)
  {
  }

  lemma {:induction false} InsertKeepsTies(ranked: seq<nat>, x: nat, key: nat -> real)
    requires Sort.Descending(ranked, key) && TiesAscend(ranked, key) && AllBelow(ranked, x)
    ensures TiesAscend(Sort.Insert(ranked, x, key), key)
    decreases |ranked|
  {
    if ranked != [] && key(ranked[0]) >= key(x) {
      var rest := Sort.Insert(ranked[1..], x, key);
      InsertKeepsTies(ranked[1..], x, key);
      Sort.MembersOfInsert(ranked[1..], x, key);
      forall i | 0 <= i < |rest| && key(rest[i]) == key(ranked[0]) ensures ranked[0] < rest[i] {
        assert rest[i] in rest;
      }
      TiesAscendCons(ranked[0], rest, key);
    } else {
      TiesAscendCons(x, ranked, key);
    }
  }

  lemma {:induction false} RankedRangeKeepsTies(n: nat, key: nat -> real)
    ensures TiesAscend(Sort.SortDesc(Range(n), key), key)
    decreases n
  {
    if n > 0 {
      var last: nat := n - 1;
      var ranked := Sort.SortDesc(Range(last), key);
      RankedRangeKeepsTies(last, key);
      Sort.SortDescends(Range(last), key);
      RankedRangeIsBelow(last, key);
      InsertKeepsTies(ranked, last, key);
      RankedRangeGrows(last, key);
    }
  }

  lemma RankedRangeGrows(n: nat, key: nat -> real)
    ensures Sort.SortDesc(Range(n + 1), key) == Sort.Insert(Sort.SortDesc(Range(n), key), n, key)
  {
    assert Range(n + 1) == Range(n) + [n];
    Sort.SortAppend(Range(n), n, key);
  }

  lemma RankedRangeIsBelow(n: nat, key: nat -> real)
    ensures AllBelow(Sort.SortDesc(Range(n), key), n)
  {
    var ranked := Sort.SortDesc(Range(n), key);
    SortedMembers(Range(n), key);
    forall i | 0 <= i < |ranked| ensures ranked[i] < n {
      assert ranked[i] in ranked;
    }
  }

  /** What is dropped from the middle is behind everything that is kept: errors go before other
      items, then longer texts before shorter ones up to a thousand characters, then earlier
      items before later ones. */
  lemma DroppedItemsAreBehind(middle: seq<Item>, budget: nat, kept: nat, dropped: nat)
    requires kept in Picked(middle, budget) && dropped < |middle| && dropped !in Picked(middle, budget)
    ensures kept < |middle|
    ensures var k, d := middle[kept], middle[dropped];
            var longK, longD := (if k.textLength < 1000 then k.textLength else 1000),
                                (if d.textLength < 1000 then d.textLength else 1000);
            && (d.isError ==> k.isError)
            && (d.isError == k.isError ==> longD <= longK)
            && (d.isError == k.isError && longD == longK ==> kept < dropped)
  {
    var key := MiddleScore(middle);
    var chosen, all := Chosen(middle, budget), Sort.SortDesc(Range(|middle|), key);
    PickedIsChosen(middle, budget);
    NothingDroppedOutscores(middle, budget, kept, dropped);
    SortedMembers(Range(|middle|), key);
    RankedRangeKeepsTies(|middle|, key);
    assert Range(|middle|)[dropped] == dropped;
    assert dropped in all;
    var i :| 0 <= i < |chosen| && chosen[i] == kept;
    var j :| 0 <= j < |all| && all[j] == dropped;
    assert all[i] == kept && |chosen| <= j;
  }

  ghost function Errors(middle: seq<Item>): set<nat> {
    set i: nat | i < |middle| && middle[i].isError
  }

  ghost function Members(xs: seq<nat>): set<nat> {
    set x | x in xs
  }

  lemma {:induction false} DistinctSize(xs: seq<nat>)
    requires Increasing(xs)
    ensures |Members(xs)| == |xs|
    decreases |xs|
  {
    if xs == [] {
      assert Members(xs) == {};
    } else {
      var init, last := xs[..|xs| - 1], xs[|xs| - 1];
      DistinctSize(init);
      assert xs == init + [last];
      assert Members(xs) == Members(init) + {last};
      assert last !in init;
    }
  }

  /** A strict subset of the picks cannot leave an equally good item out: an error that is
      dropped forces every pick to be an error. */
  lemma DroppedErrorMeansErrorsOnly(middle: seq<Item>, budget: nat, e: nat)
    requires e in Errors(middle) && e !in Picked(middle, budget)
    ensures Members(Picked(middle, budget)) <= Errors(middle)
  {
    forall k | k in Members(Picked(middle, budget)) ensures k in Errors(middle) {
      NothingDroppedOutscores(middle, budget, k, e);
    }
  }

  lemma {:induction false} FullPickTakesAll(middle: seq<Item>, budget: nat, e: nat)
    requires e < |middle| <= budget
    ensures e in Picked(middle, budget)
  {
    PickedIsChosen(middle, budget);
    SortedMembers(Range(|middle|), MiddleScore(middle));
    assert Range(|middle|)[e] == e;
  }

  /** Errors survive: when the error-matching items of the middle fit the budget, all are kept. */
  lemma ErrorsSurvive(middle: seq<Item>, budget: nat, e: nat)
    requires |Errors(middle)| <= budget && e in Errors(middle)
    ensures e in Picked(middle, budget)
  {
    var kept := Members(Picked(middle, budget));
    DistinctSize(Picked(middle, budget));
    if |middle| <= budget {
      FullPickTakesAll(middle, budget, e);
    } else if e !in Picked(middle, budget) {
      DroppedErrorMeansErrorsOnly(middle, budget, e);
      StrictSubsetIsSmaller(kept, Errors(middle), e);
    }
  }

  lemma StrictSubsetIsSmaller(a: set<nat>, b: set<nat>, x: nat)
    requires a <= b && x in b && x !in a
    ensures |a| < |b|
  {
    assert b == a + (b - a);
    assert b - a != {};
  }

  lemma PickedIsKept(items: seq<Item>, head: nat, tail: nat, budget: nat, q: nat)
    requires head + tail <= |items| && q in Picked(items[head..|items| - tail], budget)
    ensures head + q in KeptPositions(items, head, tail, budget)
  {
    var picked := Picked(items[head..|items| - tail], budget);
    var i :| 0 <= i < |picked| && picked[i] == q;
    assert KeptPositions(items, head, tail, budget)[head + i] == head + q;
  }

  lemma ErrorOfTheMiddle(items: seq<Item>, head: nat, tail: nat, budget: nat, q: nat)
    requires head + tail <= |items| && q < |items| - tail - head && items[head + q].isError
    requires |Errors(items[head..|items| - tail])| <= budget
    ensures q in Picked(items[head..|items| - tail], budget)
  {
    var middle := items[head..|items| - tail];
    assert middle[q] == items[head + q];
    ErrorsSurvive(middle, budget, q);
  }

  lemma ErrorsOfTheMiddleSurvive(items: seq<Item>, head: nat, tail: nat, budget: nat, q: nat)
    requires head + tail <= |items| && q < |items| - tail - head && items[head + q].isError
    requires |Errors(items[head..|items| - tail])| <= budget
    ensures head + q in KeptPositions(items, head, tail, budget)
  {
    ErrorOfTheMiddle(items, head, tail, budget, q);
    PickedIsKept(items, head, tail, budget, q);
  }

  /** So every error-matching item of the array is kept, wherever it stands, as long as those
      between head and tail fit the budget. */
  lemma ErrorItemsSurvive(items: seq<Item>, maxItems: nat, p: nat)
    requires 1 <= maxItems < |items| && p < |items| && items[p].isError
    requires HeadCount(maxItems) + TailCount(maxItems) <= |items|
    requires |Errors(items[HeadCount(maxItems)..|items| - TailCount(maxItems)])| <= Budget(maxItems)
    ensures p in KeptPositions(items, HeadCount(maxItems), TailCount(maxItems), Budget(maxItems))
  {
    var head, tail, budget := HeadCount(maxItems), TailCount(maxItems), Budget(maxItems);
    if p < head || |items| - tail <= p {
      PositionsCoverTheEnds(items, head, tail, budget, p);
    } else {
      ErrorsOfTheMiddleSurvive(items, head, tail, budget, p - head);
    }
  }
}
