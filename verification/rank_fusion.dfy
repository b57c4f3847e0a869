/** Reciprocal rank fusion (src/teamshared/memory/hybrid.py). Scores are reals. */
module RankFusion {
  import opened Wrappers
  import opened Records
  import Sort = StableSort

  const RRF_K: nat := 60

  /** One record of one ranked list, with the share 1/(k + rank) it adds to its id's score. */
  datatype Hit = Hit(rec: MemoryRecord, share: real)

  /** Share of the record at 0-based position i. */
  function Share(k: nat, i: nat): real {
    1.0 / (k + i + 1) as real
  }

  function ListHits(list: seq<MemoryRecord>, k: nat): seq<Hit> {
    seq(|list|, i requires 0 <= i < |list| => Hit(list[i], Share(k, i)))
  }

  function Hits(lists: seq<seq<MemoryRecord>>, k: nat): seq<Hit> {
    if lists == [] then [] else Hits(lists[..|lists| - 1], k) + ListHits(lists[|lists| - 1], k)
  }

  /** The exact fused score: the sum of the shares of every occurrence of id. */
  function Score(hits: seq<Hit>, id: string): real {
    if hits == [] then 0.0
    else
      var last := hits[|hits| - 1];
      Score(hits[..|hits| - 1], id) + if last.rec.id == id then last.share else 0.0
  }

  ghost predicate Occurs(hits: seq<Hit>, id: string) {
    exists i :: 0 <= i < |hits| && hits[i].rec.id == id
  }

  /** The ids in order of first appearance: the insertion order of the score dict. */
  function Ids(hits: seq<Hit>): seq<string> {
    if hits == [] then []
    else
      var before := Ids(hits[..|hits| - 1]);
      var id := hits[|hits| - 1].rec.id;
      if id in before then before else before + [id]
  }

  /** The first record of every id. */
  function FirstRecords(hits: seq<Hit>): map<string, MemoryRecord> {
    if hits == [] then map[]
    else
      var before := FirstRecords(hits[..|hits| - 1]);
      var rec := hits[|hits| - 1].rec;
      if rec.id in before then before else before[rec.id := rec]
  }

  function Rescored(rec: MemoryRecord, fused: real): MemoryRecord {
    rec.(score := Some(fused), metadata := rec.metadata["rrf_score" := fused])
  }

  /** The ids of the merged list, best first. */
  function FusedOrder(hits: seq<Hit>): seq<string> {
    Sort.SortDesc(Ids(hits), id => Score(hits, id))
  }

  ghost predicate IsFusion(hits: seq<Hit>, out: seq<MemoryRecord>) {
    var order, firsts := FusedOrder(hits), FirstRecords(hits);
    && |out| == |order|
    && forall i :: 0 <= i < |out| ==>
         order[i] in firsts && out[i] == Rescored(firsts[order[i]], Score(hits, order[i]))
  }

  /** The two dicts of the merge; `inserted` is the insertion order of `scores`. */
  datatype Dicts = Dicts(inserted: seq<string>, scores: map<string, real>, best: map<string, MemoryRecord>) {
    function Add(hit: Hit): Dicts {
      var id := hit.rec.id;
      Dicts(
        if id in scores then inserted else inserted + [id],
        scores[id := (if id in scores then scores[id] else 0.0) + hit.share],
        if id in best then best else best[id := hit.rec])
    }
  }

  /** What the dicts must hold after `hits`. */
  ghost predicate Accumulated(d: Dicts, hits: seq<Hit>) {
    && d.inserted == Ids(hits)
    && d.best == FirstRecords(hits)
    && d.scores.Keys == d.best.Keys
    && (forall id :: id in d.scores ==> d.scores[id] == Score(hits, id))
  }

  method ReciprocalRankFusion(lists: seq<seq<MemoryRecord>>, k: nat) returns (out: seq<MemoryRecord>)
    ensures IsFusion(Hits(lists, k), out)
  {
    var d := Dicts([], map[], map[]);
    for i := 0 to |lists|
      invariant Accumulated(d, Hits(lists[..i], k))
    {
      var lst := lists[i];
      ghost var before := Hits(lists[..i], k);
      assert HitsUpTo(before, lst, k, 0) == before;
      for j := 0 to |lst|
        invariant Accumulated(d, HitsUpTo(before, lst, k, j))
      {
        NextHit(d, before, lst, k, j);
        d := d.Add(Hit(lst[j], 1.0 / (k + j + 1) as real));
      }
      ListDone(lists, k, i);
    }
    assert lists[..|lists|] == lists;
    var ordered := Sort.SortDesc(d.inserted, id => if id in d.scores then d.scores[id] else 0.0);
    OrderedIdsAreKeys(d, Hits(lists, k), ordered);
    out := Rows(d, ordered);
  }

  predicate IsRow(d: Dicts, id: string, rec: MemoryRecord) {
    id in d.best && id in d.scores && rec == Rescored(d.best[id], d.scores[id])
  }

  /** The loop that builds the merged records. */
  method Rows(d: Dicts, ordered: seq<string>) returns (out: seq<MemoryRecord>)
    requires forall i :: 0 <= i < |ordered| ==> ordered[i] in d.best && ordered[i] in d.scores
    ensures |out| == |ordered| && forall i :: 0 <= i < |out| ==> IsRow(d, ordered[i], out[i])
  {
    out := [];
    for i := 0 to |ordered|
      invariant |out| == i && forall n :: 0 <= n < i ==> IsRow(d, ordered[n], out[n])
    {
      out := out + [Rescored(d.best[ordered[i]], d.scores[ordered[i]])];
      assert IsRow(d, ordered[i], out[i]);
    }
  }

  /** merge_vector_keyword */
  method MergeVectorKeyword(vector: seq<MemoryRecord>, keyword: seq<MemoryRecord>) returns (out: seq<MemoryRecord>)
    ensures IsFusion(Hits([vector, keyword], RRF_K), out)
  {
    out := ReciprocalRankFusion([vector, keyword], RRF_K);
  }

  /** The hits of the earlier lists and of the first j records of this one. */
  ghost function HitsUpTo(before: seq<Hit>, list: seq<MemoryRecord>, k: nat, j: nat): seq<Hit>
    requires j <= |list|
  {
    before + ListHits(list, k)[..j]
  }

  lemma NextHit(d: Dicts, before: seq<Hit>, list: seq<MemoryRecord>, k: nat, j: nat)
    requires j < |list| && Accumulated(d, HitsUpTo(before, list, k, j))
    ensures Accumulated(d.Add(Hit(list[j], Share(k, j))), HitsUpTo(before, list, k, j + 1))
  {
    var hit := Hit(list[j], Share(k, j));
    OneMoreHit(d, HitsUpTo(before, list, k, j), hit);
    assert HitsUpTo(before, list, k, j + 1) == HitsUpTo(before, list, k, j) + [hit];
  }

  lemma OneMoreHit(d: Dicts, hits: seq<Hit>, hit: Hit)
    requires Accumulated(d, hits)
    ensures Accumulated(d.Add(hit), hits + [hit])
  {
    assert (hits + [hit])[..|hits|] == hits;
    IdsAreTheUnion(hits);
    if !Occurs(hits, hit.rec.id) {
      AbsentScoresZero(hits, hit.rec.id);
    }
  }

  lemma {:induction false} ListDone(lists: seq<seq<MemoryRecord>>, k: nat, i: nat)
    requires i < |lists|
    ensures HitsUpTo(Hits(lists[..i], k), lists[i], k, |lists[i]|) == Hits(lists[..i + 1], k)
  {
    assert lists[..i + 1][..i] == lists[..i];
  }

  lemma OrderedIdsAreKeys(d: Dicts, hits: seq<Hit>, ordered: seq<string>)
    requires Accumulated(d, hits)
    requires ordered == Sort.SortDesc(d.inserted, id => if id in d.scores then d.scores[id] else 0.0)
    ensures ordered == FusedOrder(hits)
    ensures forall n :: 0 <= n < |ordered| ==> ordered[n] in d.best
  {
    IdsAreTheUnion(hits);
    SortDependsOnValues(d.inserted, id => if id in d.scores then d.scores[id] else 0.0, id => Score(hits, id));
    forall n | 0 <= n < |ordered| ensures ordered[n] in d.best {
      assert ordered[n] in multiset(ordered);
      assert ordered[n] in d.inserted;
    }
  }

  lemma {:induction false} AbsentScoresZero(hits: seq<Hit>, id: string)
    requires !Occurs(hits, id)
    ensures Score(hits, id) == 0.0
    decreases |hits|
  {
    if hits != [] {
      var init := hits[..|hits| - 1];
      assert forall i :: 0 <= i < |init| ==> init[i] == hits[i];
      AbsentScoresZero(init, id);
    }
  }

  /** The ids come out once each and are exactly the ids that went in. */
  lemma {:induction false} IdsAreTheUnion(hits: seq<Hit>)
    ensures Distinct(Ids(hits))
    ensures forall id :: id in Ids(hits) <==> Occurs(hits, id)
    ensures forall id :: id in FirstRecords(hits) <==> Occurs(hits, id)
    decreases |hits|
  {
    if hits != [] {
      var init, last := hits[..|hits| - 1], hits[|hits| - 1];
      IdsAreTheUnion(init);
      forall id ensures Occurs(hits, id) <==> Occurs(init, id) || last.rec.id == id {
        if Occurs(init, id) {
          var i :| 0 <= i < |init| && init[i].rec.id == id;
          assert hits[i].rec.id == id;
        }
        if last.rec.id == id {
          assert hits[|init|].rec.id == id;
        }
        if Occurs(hits, id) && last.rec.id != id {
          var i :| 0 <= i < |hits| && hits[i].rec.id == id;
          assert init[i].rec.id == id;
        }
      }
    }
  }

  lemma {:induction false} SortDependsOnValues<T>(xs: seq<T>, f: T -> real, g: T -> real)
    requires forall x :: x in xs ==> f(x) == g(x)
    ensures Sort.SortDesc(xs, f) == Sort.SortDesc(xs, g)
    decreases |xs|
  {
    if xs != [] {
      var init, last := xs[..|xs| - 1], xs[|xs| - 1];
      SortDependsOnValues(init, f, g);
      assert forall x :: x in Sort.SortDesc(init, f) ==> x in multiset(Sort.SortDesc(init, f));
      InsertDependsOnValues(Sort.SortDesc(init, f), last, f, g);
    }
  }

  lemma {:induction false} InsertDependsOnValues<T>(ranked: seq<T>, x: T, f: T -> real, g: T -> real)
    requires f(x) == g(x) && forall y :: y in ranked ==> f(y) == g(y)
    ensures Sort.Insert(ranked, x, f) == Sort.Insert(ranked, x, g)
    decreases |ranked|
  {
    if ranked != [] {
      InsertDependsOnValues(ranked[1..], x, f, g);
    }
  }

  /** Every record of every list takes part: the ids are those of the lists. */
  lemma {:induction false} EveryListTakesPart(lists: seq<seq<MemoryRecord>>, k: nat, id: string)
    ensures id in Ids(Hits(lists, k)) <==> exists n :: 0 <= n < |lists| && HasId(lists[n], id)
    decreases |lists|
  {
    var hits := Hits(lists, k);
    IdsAreTheUnion(hits);
    if Occurs(hits, id) {
      FromSomeList(lists, k, id);
    }
    if n :| 0 <= n < |lists| && HasId(lists[n], id) {
      OccursInSomeList(lists, k, n, id);
    }
  }

  lemma {:induction false} FromSomeList(lists: seq<seq<MemoryRecord>>, k: nat, id: string)
    requires Occurs(Hits(lists, k), id)
    ensures exists n :: 0 <= n < |lists| && HasId(lists[n], id)
    decreases |lists|
  {
    var init, last := lists[..|lists| - 1], lists[|lists| - 1];
    var i :| 0 <= i < |Hits(lists, k)| && Hits(lists, k)[i].rec.id == id;
    if i < |Hits(init, k)| {
      assert Hits(init, k)[i].rec.id == id;
      FromSomeList(init, k, id);
      var n :| 0 <= n < |init| && HasId(init[n], id);
      assert HasId(lists[n], id);
    } else {
      assert last[i - |Hits(init, k)|].id == id;
      assert HasId(lists[|init|], id);
    }
  }

  /** The fused score of an id adds up what it earns in each list: 1/(k + rank) in a list without
      repeats that holds it, nothing in one that does not. */
  lemma {:induction false} ScoreAddsUp(lists: seq<seq<MemoryRecord>>, last: seq<MemoryRecord>, k: nat, id: string,
                                       p: nat)
    requires DistinctIds(last) && (HasId(last, id) ==> p < |last| && last[p].id == id)
    ensures Score(Hits([], k), id) == 0.0
    ensures Score(Hits(lists + [last], k), id)
            == Score(Hits(lists, k), id) + (if HasId(last, id) then 1.0 / (k + p + 1) as real else 0.0)
  {
    assert (lists + [last])[..|lists|] == lists;
    ScoreAppends(Hits(lists, k), ListHits(last, k), id);
    if HasId(last, id) {
      ListScore(last, k, p);
    } else {
      AbsentFromList(last, k, id);
    }
  }

  /** Of several records with one id the first one met, list by list, is kept. */
  lemma {:induction false} FirstRecordWins(hits: seq<Hit>, i: nat)
    requires i < |hits| && forall j :: 0 <= j < i ==> hits[j].rec.id != hits[i].rec.id
    ensures hits[i].rec.id in FirstRecords(hits) && FirstRecords(hits)[hits[i].rec.id] == hits[i].rec
    decreases |hits|
  {
    var n := |hits| - 1;
    if i < n {
      FirstRecordWins(hits[..n], i);
    } else {
      IdsAreTheUnion(hits[..n]);
      assert forall j :: 0 <= j < n ==> hits[..n][j] == hits[j];
    }
  }

  /** A merged record is the first one of its id with its fused score, which its metadata repeats
      under "rrf_score"; everything else of it is as it came. */
  lemma {:induction false} MergedRecord(hits: seq<Hit>, out: seq<MemoryRecord>, n: nat, i: nat)
    requires IsFusion(hits, out) && n < |out| && i < |hits| && hits[i].rec.id == FusedOrder(hits)[n]
    requires forall j :: 0 <= j < i ==> hits[j].rec.id != hits[i].rec.id
    ensures out[n].score == Some(Score(hits, hits[i].rec.id))
    ensures out[n].metadata == hits[i].rec.metadata["rrf_score" := Score(hits, hits[i].rec.id)]
    ensures out[n] == hits[i].rec.(score := out[n].score, metadata := out[n].metadata)
  {
    FirstRecordWins(hits, i);
  }

  // ---- what the fused ranking promises ----

  lemma {:induction false} ScoreAppends(a: seq<Hit>, b: seq<Hit>, id: string)
    ensures Score(a + b, id) == Score(a, id) + Score(b, id)
    decreases |b|
  {
    if b == [] {
      assert a + b == a;
    } else {
      assert (a + b)[..|a + b| - 1] == a + b[..|b| - 1];
      ScoreAppends(a, b[..|b| - 1], id);
    }
  }

  /** In a list without repeats an id scores the share of its one position. */
  lemma {:induction false} ListScore(list: seq<MemoryRecord>, k: nat, p: nat)
    requires DistinctIds(list) && p < |list|
    ensures Score(ListHits(list, k), list[p].id) == Share(k, p)
  {
    var hits, id := ListHits(list, k), list[p].id;
    assert hits == (hits[..p] + [hits[p]]) + hits[p + 1..];
    ScoreAppends(hits[..p] + [hits[p]], hits[p + 1..], id);
    AbsentScoresZero(hits[..p], id);
    AbsentScoresZero(hits[p + 1..], id);
    assert (hits[..p] + [hits[p]])[..p] == hits[..p];
  }

  lemma {:induction false} AbsentFromList(list: seq<MemoryRecord>, k: nat, id: string)
    requires !HasId(list, id)
    ensures Score(ListHits(list, k), id) == 0.0
  {
    AbsentScoresZero(ListHits(list, k), id);
  }

  lemma PositiveFactor(a: real, b: real)
    requires a > 0.0 && a * b > 0.0
    ensures b > 0.0
  {
  }

  /** n/x > 1/y for positive x < n*y, by clearing the denominators. */
  lemma CompareReciprocals(n: real, x: real, y: real)
    requires x > 0.0 && y > 0.0 && x < n * y
    ensures n * (1.0 / x) > 1.0 / y > 0.0
  {
    var p, q := 1.0 / x, 1.0 / y;
    assert x * p == 1.0 && y * q == 1.0;
    calc {
      (x * y) * (n * p - q);
      n * y * (x * p) - x * (y * q);
      n * y - x;
    }
    PositiveFactor(x * y, n * p - q);
    PositiveFactor(y, q);
  }

  lemma EarlierEarnsMore(k: nat, i: nat, j: nat)
    requires i <= j
    ensures Share(k, i) >= Share(k, j) > 0.0
    ensures i < j ==> Share(k, i) > Share(k, j)
  {
    CompareReciprocals(2.0, (k + j + 1) as real, (k + j + 1) as real);
    if i < j {
      CompareReciprocals(1.0, (k + i + 1) as real, (k + j + 1) as real);
    }
  }

  /** In `order`, a comes before b. */
  ghost predicate RanksBefore(order: seq<string>, a: string, b: string) {
    exists i, j :: 0 <= i < j < |order| && order[i] == a && order[j] == b
  }

  /** The merged list holds exactly the ids of the inputs, each once, by descending exact score. */
  lemma {:induction false} FusionIsTheRankedUnion(hits: seq<Hit>)
    ensures Distinct(FusedOrder(hits))
    ensures forall id :: id in FusedOrder(hits) <==> Occurs(hits, id)
    ensures forall i, j :: 0 <= i < j < |FusedOrder(hits)| ==>
              Score(hits, FusedOrder(hits)[i]) >= Score(hits, FusedOrder(hits)[j])
  {
    var order := FusedOrder(hits);
    IdsAreTheUnion(hits);
    Sort.SortDescends(Ids(hits), id => Score(hits, id));
    SameMultisetDistinct(Ids(hits), order);
    forall i, j | 0 <= i < j < |order| ensures Score(hits, order[i]) >= Score(hits, order[j]) {
      assert (id => Score(hits, id))(order[i]) >= (id => Score(hits, id))(order[j]);
    }
    forall id ensures id in order <==> Occurs(hits, id) {
      assert id in order <==> id in multiset(order);
      assert id in Ids(hits) <==> id in multiset(Ids(hits));
    }
  }

  lemma SameMultisetDistinct(a: seq<string>, b: seq<string>)
    requires Distinct(a) && multiset(a) == multiset(b)
    ensures Distinct(b)
  {
    forall i, j | 0 <= i < j < |b| ensures b[i] != b[j] {
      if b[i] == b[j] {
        assert b == b[..i] + [b[i]] + b[i + 1..j] + [b[j]] + b[j + 1..];
        assert multiset(b)[b[i]] >= 2;
        DistinctCountsOnce(a, b[i]);
      }
    }
  }

  lemma {:induction false} DistinctCountsOnce(a: seq<string>, x: string)
    requires Distinct(a)
    ensures multiset(a)[x] <= 1
    decreases |a|
  {
    if a != [] {
      assert a == a[..|a| - 1] + [a[|a| - 1]];
      DistinctCountsOnce(a[..|a| - 1], x);
      if x == a[|a| - 1] {
        assert x !in a[..|a| - 1];
      }
    }
  }

  lemma {:induction false} HigherScoreRanksFirst(hits: seq<Hit>, a: string, b: string)
    requires Occurs(hits, a) && Occurs(hits, b) && Score(hits, a) > Score(hits, b)
    ensures RanksBefore(FusedOrder(hits), a, b)
  {
    FusionIsTheRankedUnion(hits);
    var order := FusedOrder(hits);
    assert a in order && b in order;
    var i :| 0 <= i < |order| && order[i] == a;
    var j :| 0 <= j < |order| && order[j] == b;
    assert i < j;
  }

  /** In this list, a stands ahead of b wherever b stands. */
  ghost predicate AheadIn(list: seq<MemoryRecord>, a: string, b: string) {
    forall j :: 0 <= j < |list| && list[j].id == b ==> exists i :: 0 <= i < j && list[i].id == a
  }

  lemma {:induction false} AheadScoresMore(list: seq<MemoryRecord>, k: nat, a: string, b: string)
    requires DistinctIds(list) && AheadIn(list, a, b)
    ensures Score(ListHits(list, k), a) >= Score(ListHits(list, k), b)
    ensures HasId(list, b) ==> HasId(list, a) && Score(ListHits(list, k), a) > Score(ListHits(list, k), b)
  {
    if HasId(list, b) {
      var j :| 0 <= j < |list| && list[j].id == b;
      var i :| 0 <= i < j && list[i].id == a;
      ListScore(list, k, i);
      ListScore(list, k, j);
      EarlierEarnsMore(k, i, j);
    } else {
      AbsentFromList(list, k, b);
      if HasId(list, a) {
        var i :| 0 <= i < |list| && list[i].id == a;
        ListScore(list, k, i);
        EarlierEarnsMore(k, i, i);
      } else {
        AbsentFromList(list, k, a);
      }
    }
  }

  lemma {:induction false} AheadEverywhereScoresMore(lists: seq<seq<MemoryRecord>>, k: nat, a: string, b: string)
    requires forall i :: 0 <= i < |lists| ==> DistinctIds(lists[i]) && AheadIn(lists[i], a, b)
    ensures Score(Hits(lists, k), a) >= Score(Hits(lists, k), b)
    ensures (exists i :: 0 <= i < |lists| && HasId(lists[i], b)) ==>
              Score(Hits(lists, k), a) > Score(Hits(lists, k), b)
    decreases |lists|
  {
    if lists != [] {
      var init, last := lists[..|lists| - 1], lists[|lists| - 1];
      AheadEverywhereScoresMore(init, k, a, b);
      AheadScoresMore(last, k, a, b);
      ScoreAppends(Hits(init, k), ListHits(last, k), a);
      ScoreAppends(Hits(init, k), ListHits(last, k), b);
      if i :| 0 <= i < |lists| && HasId(lists[i], b) {
        if i < |init| {
          assert HasId(init[i], b);
        }
      }
    }
  }

  lemma {:induction false} OccursInSomeList(lists: seq<seq<MemoryRecord>>, k: nat, i: nat, id: string)
    requires i < |lists| && HasId(lists[i], id)
    ensures Occurs(Hits(lists, k), id)
    decreases |lists|
  {
    var init, last := lists[..|lists| - 1], lists[|lists| - 1];
    var hits := Hits(lists, k);
    if i < |init| {
      OccursInSomeList(init, k, i, id);
      var n :| 0 <= n < |Hits(init, k)| && Hits(init, k)[n].rec.id == id;
      assert hits[n].rec.id == id;
    } else {
      var n :| 0 <= n < |last| && last[n].id == id;
      assert hits[|Hits(init, k)| + n].rec.id == id;
    }
  }

  /** A record ahead of another in every list the other appears in ends ahead of it. */
  lemma {:induction false} AheadEverywhereEndsAhead(lists: seq<seq<MemoryRecord>>, k: nat, a: string, b: string)
    requires forall i :: 0 <= i < |lists| ==> DistinctIds(lists[i]) && AheadIn(lists[i], a, b)
    requires exists i :: 0 <= i < |lists| && HasId(lists[i], b)
    ensures RanksBefore(FusedOrder(Hits(lists, k)), a, b)
  {
    AheadEverywhereScoresMore(lists, k, a, b);
    var i :| 0 <= i < |lists| && HasId(lists[i], b);
    AheadScoresMore(lists[i], k, a, b);
    OccursInSomeList(lists, k, i, a);
    OccursInSomeList(lists, k, i, b);
    HigherScoreRanksFirst(Hits(lists, k), a, b);
  }

  lemma {:induction false} TwoListScore(v: seq<MemoryRecord>, w: seq<MemoryRecord>, k: nat, id: string)
    ensures Score(Hits([v, w], k), id) == Score(ListHits(v, k), id) + Score(ListHits(w, k), id)
  {
    assert [v, w][..1] == [v] && [v][..0] == [];
    assert Hits([v], k) == ListHits(v, k);
    ScoreAppends(ListHits(v, k), ListHits(w, k), id);
  }

  /** Two last places in lists of up to k + 1 beat one first place; in lists of k + 2 they tie with it. */
  lemma TwoLastPlacesAgainstOneFirst(k: nat)
    ensures Share(k, k) + Share(k, k) > Share(k, 0)
    ensures Share(k, k + 1) + Share(k, k + 1) == Share(k, 0)
  {
    var y := (k + 1) as real;
    CompareReciprocals(2.0, (k + k + 1) as real, y);
    var p, q := Share(k, k + 1), Share(k, 0);
    assert (2.0 * y) * p == 1.0 && y * q == 1.0;
  }

  lemma {:induction false} BothScoresMore(v: seq<MemoryRecord>, w: seq<MemoryRecord>, k: nat, a: string, b: string)
    requires DistinctIds(v) && DistinctIds(w) && |v| <= k + 1 && |w| <= k + 1
    requires HasId(v, a) && HasId(w, a) && HasId(v, b) && !HasId(w, b)
    ensures Score(ListHits(v, k), a) + Score(ListHits(w, k), a) > Score(ListHits(v, k), b) + Score(ListHits(w, k), b)
  {
    AtLeastLastPlace(v, k, a);
    AtLeastLastPlace(w, k, a);
    AtMostFirstPlace(v, k, b);
    AbsentFromList(w, k, b);
    TwoLastPlacesAgainstOneFirst(k);
  }

  /** With lists of at most k + 1 distinct records, a record that both searches found
      outranks every record that only one of them found. */
  lemma {:induction false} BothOutranksOne(v: seq<MemoryRecord>, w: seq<MemoryRecord>, k: nat, a: string, b: string)
    requires DistinctIds(v) && DistinctIds(w) && |v| <= k + 1 && |w| <= k + 1
    requires HasId(v, a) && HasId(w, a) && HasId(v, b) != HasId(w, b)
    ensures RanksBefore(FusedOrder(Hits([v, w], k)), a, b)
  {
    if HasId(v, b) { BothScoresMore(v, w, k, a, b); } else { BothScoresMore(w, v, k, a, b); }
    TwoListScore(v, w, k, a);
    TwoListScore(v, w, k, b);
    OccursInSomeList([v, w], k, 0, a);
    OccursInSomeList([v, w], k, if HasId(v, b) then 0 else 1, b);
    HigherScoreRanksFirst(Hits([v, w], k), a, b);
  }

  lemma {:induction false} AtLeastLastPlace(list: seq<MemoryRecord>, k: nat, id: string)
    requires DistinctIds(list) && |list| <= k + 1 && HasId(list, id)
    ensures Score(ListHits(list, k), id) >= Share(k, k)
  {
    var i :| 0 <= i < |list| && list[i].id == id;
    ListScore(list, k, i);
    EarlierEarnsMore(k, i, k);
  }

  lemma {:induction false} AtMostFirstPlace(list: seq<MemoryRecord>, k: nat, id: string)
    requires DistinctIds(list) && HasId(list, id)
    ensures Score(ListHits(list, k), id) <= Share(k, 0)
  {
    var i :| 0 <= i < |list| && list[i].id == id;
    ListScore(list, k, i);
    EarlierEarnsMore(k, 0, i);
  }

  /** Any record in both lists outscores any record in only one of them, for lists of length up to n. */
  ghost predicate BothAlwaysWin(k: nat, n: nat) {
    forall v, w, a, b ::
      && DistinctIds(v) && DistinctIds(w) && |v| <= n && |w| <= n
      && HasId(v, a) && HasId(w, a) && HasId(v, b) && !HasId(w, b)
      ==> Score(Hits([v, w], k), a) > Score(Hits([v, w], k), b)
  }

  /** The bound k + 1 is exact: with one record more, a record last in both lists ties
      with the record that leads one of them. */
  lemma BothAlwaysWinIff(k: nat, n: nat)
    ensures BothAlwaysWin(k, n) <==> n <= k + 1
  {
    if n <= k + 1 {
      forall v, w, a, b |
        && DistinctIds(v) && DistinctIds(w) && |v| <= n && |w| <= n
        && HasId(v, a) && HasId(w, a) && HasId(v, b) && !HasId(w, b)
        ensures Score(Hits([v, w], k), a) > Score(Hits([v, w], k), b)
      {
        BothScoresMore(v, w, k, a, b);
        TwoListScore(v, w, k, a);
        TwoListScore(v, w, k, b);
      }
    } else {
      var v, w := TiedLists(k);
      var a, b := v[k + 1].id, v[0].id;
      assert HasId(v, a) && HasId(v, b) && HasId(w, a) by { assert w[k + 1].id == a; }
      TwoListScore(v, w, k, a);
      TwoListScore(v, w, k, b);
      ListScore(v, k, k + 1);
      ListScore(w, k, k + 1);
      ListScore(v, k, 0);
      AbsentFromList(w, k, b);
      TwoLastPlacesAgainstOneFirst(k);
    }
  }

  function Numbered(n: nat): MemoryRecord {
    MemoryRecord(seq(n, _ => 'x'), "semantic", "", [], None, None, None, None, None, None, map[])
  }

  lemma TiedLists(k: nat) returns (v: seq<MemoryRecord>, w: seq<MemoryRecord>)
    ensures DistinctIds(v) && DistinctIds(w) && |v| == |w| == k + 2
    ensures v[k + 1].id == w[k + 1].id && !HasId(w, v[0].id)
  {
    v := seq(k + 2, i requires 0 <= i < k + 2 => Numbered(i));
    w := seq(k + 2, i requires 0 <= i < k + 2 => Numbered(Place(k, i)));
    forall i, j | 0 <= i < j < k + 2 ensures v[i].id != v[j].id && w[i].id != w[j].id {
      assert |v[i].id| == i && |v[j].id| == j;
      assert |w[i].id| == Place(k, i) && |w[j].id| == Place(k, j);
    }
    forall i | 0 <= i < k + 2 ensures w[i].id != v[0].id {
      assert |w[i].id| == Place(k, i) && |v[0].id| == 0;
    }
  }

  function Place(k: nat, i: nat): nat {
    if i == k + 1 then i else k + 2 + i
  }
}
