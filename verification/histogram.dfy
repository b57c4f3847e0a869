/** The fixed-bucket histogram behind /metrics (src/teamshared/metrics.py:68-103).
    The object is tied to the whole history of what it was given; the exposition
    is then described from that history alone, without counters. */
module Histogram {
  import opened Wrappers

  /** Label pairs, already sorted by name. */
  type Labels = seq<(string, string)>

  datatype Observation = Observation(key: Labels, value: real)

  /** One line of the exposition; `le` None is the "+Inf" bucket. */
  datatype Sample =
    | Bucket(key: Labels, le: Option<real>, count: nat)
    | Sum(key: Labels, total: real)
    | Count(key: Labels, count: nat)

  // What the observations say, without any counters.

  /** The values observed under `key`, oldest first. */
  function Values(seen: seq<Observation>, key: Labels): (r: seq<real>) {
    if seen == [] then []
    else
      var before, last := Values(seen[..|seen| - 1], key), seen[|seen| - 1];
      if last.key == key then before + [last.value] else before
  }

  /** The labels seen, in order of first appearance. */
  function Keys(seen: seq<Observation>): (r: seq<Labels>)
    ensures forall key :: key in r <==> exists i :: 0 <= i < |seen| && seen[i].key == key
  {
    if seen == [] then []
    else
      var n := |seen| - 1;
      assert seen == seen[..n] + [seen[n]];
      var before := Keys(seen[..n]);
      if seen[n].key in before then before else before + [seen[n].key]
  }

  function AtMost(vs: seq<real>, edge: real): (n: nat)
    ensures n <= |vs|
  {
    if vs == [] then 0
    else AtMost(vs[..|vs| - 1], edge) + if vs[|vs| - 1] <= edge then 1 else 0
  }

  function Total(vs: seq<real>): real {
    if vs == [] then 0.0 else Total(vs[..|vs| - 1]) + vs[|vs| - 1]
  }

  function Highest(edges: seq<real>): (m: real)
    requires edges != []
    ensures m in edges
    ensures forall e :: e in edges ==> e <= m
  {
    if |edges| == 1 then edges[0]
    else
      var m, e := Highest(edges[..|edges| - 1]), edges[|edges| - 1];
      assert edges == edges[..|edges| - 1] + [e];
      if e <= m then m else e
  }

  /** The lines for one label set: a bucket counts the values up to the highest
      edge so far, "+Inf" and _count count everything. */
  function Exposed(buckets: seq<real>, seen: seq<Observation>, key: Labels): (r: seq<Sample>) {
    var vs := Values(seen, key);
    EdgeLines(buckets, vs, key, |buckets|)
    + [Bucket(key, None, |vs|), Sum(key, Total(vs)), Count(key, |vs|)]
  }

  function EdgeLines(buckets: seq<real>, vs: seq<real>, key: Labels, n: nat): (r: seq<Sample>)
    requires n <= |buckets|
    ensures |r| == n
  {
    if n == 0 then [] else EdgeLines(buckets, vs, key, n - 1) + [EdgeLine(buckets, vs, key, n - 1)]
  }

  function EdgeLine(buckets: seq<real>, vs: seq<real>, key: Labels, i: nat): Sample
    requires i < |buckets|
  {
    Bucket(key, Some(buckets[i]), AtMost(vs, Highest(buckets[..i + 1])))
  }

  lemma {:induction false} EdgeLineAt(buckets: seq<real>, vs: seq<real>, key: Labels, n: nat, i: nat)
    requires i < n <= |buckets|
    ensures EdgeLines(buckets, vs, key, n)[i] == EdgeLine(buckets, vs, key, i)
  {
    if i < n - 1 {
      EdgeLineAt(buckets, vs, key, n - 1, i);
    }
  }

  function Exposition(buckets: seq<real>, seen: seq<Observation>, keys: seq<Labels>): (r: seq<Sample>) {
    if keys == [] then []
    else Exposition(buckets, seen, keys[..|keys| - 1]) + Exposed(buckets, seen, keys[|keys| - 1])
  }

  // What the object stores.

  /** The slot a value is counted in: the first edge at or above it, or the last slot. */
  ghost predicate IsSlot(buckets: seq<real>, v: real, i: nat) {
    && i <= |buckets|
    && (i < |buckets| ==> v <= buckets[i])
    && forall j :: 0 <= j < i ==> v > buckets[j]
  }

  lemma SlotIsUnique(buckets: seq<real>, v: real, i: nat, j: nat)
    requires IsSlot(buckets, v, i) && IsSlot(buckets, v, j)
    ensures i == j
  {
  }

  ghost predicate InSlot(buckets: seq<real>, v: real, i: nat) {
    IsSlot(buckets, v, i)
  }

  /** How many of `vs` are counted in slot `i`. */
  ghost function Tally(buckets: seq<real>, vs: seq<real>, i: nat): (n: nat) {
    if vs == [] then 0
    else Tally(buckets, vs[..|vs| - 1], i) + if InSlot(buckets, vs[|vs| - 1], i) then 1 else 0
  }

  ghost predicate Tallies(buckets: seq<real>, vs: seq<real>, counts: seq<nat>) {
    |counts| == |buckets| + 1 && forall i :: 0 <= i < |counts| ==> counts[i] == Tally(buckets, vs, i)
  }

  function SumOf(counts: seq<nat>): nat {
    if counts == [] then 0 else SumOf(counts[..|counts| - 1]) + counts[|counts| - 1]
  }

  lemma {:induction false} LastTerm(counts: seq<nat>, n: nat)
    requires n < |counts|
    ensures SumOf(counts[..n + 1]) == SumOf(counts[..n]) + counts[n]
    ensures n + 1 == |counts| ==> SumOf(counts) == SumOf(counts[..n]) + counts[n]
  {
    assert counts[..n + 1][..n] == counts[..n];
    assert n + 1 == |counts| ==> counts[..n + 1] == counts;
  }

  /** Adding one to slot `i` adds one to every prefix sum that covers it. */
  lemma {:induction false} SumAfterPlacing(counts: seq<nat>, i: nat, n: nat)
    requires i < |counts| && n <= |counts|
    ensures SumOf(counts[i := counts[i] + 1][..n]) == SumOf(counts[..n]) + if i < n then 1 else 0
  {
    var after := counts[i := counts[i] + 1];
    if n == 0 {
    } else {
      SumAfterPlacing(counts, i, n - 1);
      assert after[..n][..n - 1] == after[..n - 1] && counts[..n][..n - 1] == counts[..n - 1];
    }
  }

  lemma SlotIsWithin(buckets: seq<real>, v: real, i: nat, n: nat)
    requires IsSlot(buckets, v, i) && 0 < n <= |buckets|
    ensures i < n <==> v <= Highest(buckets[..n])
  {
    if i < n {
      assert buckets[i] in buckets[..n];
    } else {
      var e := Highest(buckets[..n]);
      var j :| 0 <= j < n && buckets[..n][j] == e;
      assert v > buckets[j];
    }
  }

  /** Every value has a slot. */
  lemma {:induction false} SlotExists(buckets: seq<real>, v: real, from: nat) returns (i: nat)
    requires from <= |buckets|
    requires forall j :: 0 <= j < from ==> v > buckets[j]
    ensures IsSlot(buckets, v, i)
    decreases |buckets| - from
  {
    if from == |buckets| || v <= buckets[from] {
      i := from;
    } else {
      i := SlotExists(buckets, v, from + 1);
    }
  }

  ghost function TallyList(buckets: seq<real>, vs: seq<real>): (r: seq<nat>)
    ensures Tallies(buckets, vs, r)
  {
    seq(|buckets| + 1, i requires 0 <= i => Tally(buckets, vs, i))
  }

  /** One more value adds one to exactly the slot it belongs in. */
  lemma TallyGrows(buckets: seq<real>, vs: seq<real>, v: real, i: nat, counts: seq<nat>)
    requires Tallies(buckets, vs, counts) && IsSlot(buckets, v, i)
    ensures Tallies(buckets, vs + [v], counts[i := counts[i] + 1])
  {
    assert (vs + [v])[..|vs|] == vs;
    forall j | 0 <= j < |counts|
      ensures counts[i := counts[i] + 1][j] == Tally(buckets, vs + [v], j)
    {
      if j != i && IsSlot(buckets, v, j) {
        SlotIsUnique(buckets, v, i, j);
      }
    }
  }

  lemma {:induction false} EmptySums(counts: seq<nat>)
    requires forall i :: 0 <= i < |counts| ==> counts[i] == 0
    ensures SumOf(counts) == 0
  {
    if counts == [] {
    } else {
      EmptySums(counts[..|counts| - 1]);
    }
  }

  /** The running sum the renderer keeps is the number of values at or below the
      highest edge so far, for any edges and any values. */
  lemma {:induction false} RunningSumCountsValues(buckets: seq<real>, vs: seq<real>, counts: seq<nat>, n: nat)
    requires Tallies(buckets, vs, counts) && 0 < n <= |buckets|
    ensures SumOf(counts[..n]) == AtMost(vs, Highest(buckets[..n]))
  {
    if vs == [] {
      EmptySums(counts[..n]);
    } else {
      var w, v := vs[..|vs| - 1], vs[|vs| - 1];
      var before := TallyList(buckets, w);
      var i := SlotExists(buckets, v, 0);
      TallyGrows(buckets, w, v, i, before);
      assert w + [v] == vs;
      assert counts == before[i := before[i] + 1];
      RunningSumCountsValues(buckets, w, before, n);
      SumAfterPlacing(before, i, n);
      SlotIsWithin(buckets, v, i, n);
    }
  }

  /** No value is lost or counted twice. */
  lemma {:induction false} SlotsPartitionValues(buckets: seq<real>, vs: seq<real>, counts: seq<nat>)
    requires Tallies(buckets, vs, counts)
    ensures SumOf(counts) == |vs|
  {
    if vs == [] {
      EmptySums(counts);
    } else {
      var w, v := vs[..|vs| - 1], vs[|vs| - 1];
      var before := TallyList(buckets, w);
      var i := SlotExists(buckets, v, 0);
      TallyGrows(buckets, w, v, i, before);
      assert w + [v] == vs;
      assert counts == before[i := before[i] + 1];
      SlotsPartitionValues(buckets, w, before);
      SumAfterPlacing(before, i, |before|);
      assert before[..|before|] == before && counts[..|before|] == counts;
    }
  }

  class Metric {
    const buckets: seq<real>
    var keys: seq<Labels>  // insertion order of counts
    var counts: map<Labels, seq<nat>>
    var sums: map<Labels, real>
    ghost var seen: seq<Observation>

    ghost predicate Valid()
      reads this
    {
      && keys == Keys(seen)
      && forall key :: Row(buckets, seen, counts, sums, key)
    }

    constructor (buckets: seq<real>)
      ensures Valid() && seen == [] && this.buckets == buckets
    {
      this.buckets := buckets;
      keys, counts, sums, seen := [], map[], map[], [];
    }

    /** Count one value under its labels; nothing else changes. */
    method Observe(value: real, key: Labels)
      requires Valid()
      modifies this
      ensures Valid() && seen == old(seen) + [Observation(key, value)]
    {
      assert Row(buckets, seen, counts, sums, key);
      ghost var vs := Values(seen, key);
      ghost var counts0, sums0 := counts, sums;
      if key !in counts {
        UnseenHasNoValues(seen, key);
        counts := counts[key := seq(|buckets| + 1, i => 0)];
        keys := keys + [key];
      }
      var row := counts[key];
      assert Tallies(buckets, vs, row);
      sums := sums[key := (if key in sums then sums[key] else 0.0) + value];
      row := CountIn(buckets, row, value, vs);
      counts := counts[key := row];
      RowsAfter(buckets, seen, Observation(key, value), counts0, sums0, counts, sums);
      seen := seen + [Observation(key, value)];
    }

    /** Every label set seen, in order of first appearance, with its buckets, sum and count. */
    method Render() returns (out: seq<Sample>)
      requires Valid()
      ensures out == Exposition(buckets, seen, Keys(seen))
    {
      out := [];
      var k := 0;
      while k < |keys|
        invariant k <= |keys|
        invariant out == Exposition(buckets, seen, keys[..k])
      {
        var key := keys[k];
        var rows := RenderKey(key);
        out := out + rows;
        assert keys[..k + 1][..k] == keys[..k];
        k := k + 1;
      }
      assert keys[..k] == keys;
    }

    method RenderKey(key: Labels) returns (out: seq<Sample>)
      requires Valid() && key in keys
      ensures out == Exposed(buckets, seen, key)
    {
      assert Row(buckets, seen, counts, sums, key);
      var row, cumulative, i := counts[key], 0, 0;
      ghost var vs := Values(seen, key);
      out := [];
      while i < |buckets|
        invariant i <= |buckets|
        invariant cumulative == SumOf(row[..i])
        invariant out == EdgeLines(buckets, vs, key, i)
      {
        cumulative := cumulative + row[i];
        LastTerm(row, i);
        RunningSumCountsValues(buckets, vs, row, i + 1);
        out := out + [Bucket(key, Some(buckets[i]), cumulative)];
        i := i + 1;
      }
      cumulative := cumulative + row[|row| - 1];
      LastTerm(row, |buckets|);
      SlotsPartitionValues(buckets, vs, row);
      out := out + [Bucket(key, None, cumulative)];
      out := out + [Sum(key, sums[key])];
      out := out + [Count(key, cumulative)];
    }
  }

  /** The loop of observe: one more in the first slot whose edge the value does not exceed. */
  method CountIn(buckets: seq<real>, row: seq<nat>, value: real, ghost vs: seq<real>) returns (after: seq<nat>)
    requires Tallies(buckets, vs, row)
    ensures Tallies(buckets, vs + [value], after)
  {
    var placed, i := false, 0;
    while i < |buckets|
      invariant i <= |buckets| && !placed
      invariant forall j :: 0 <= j < i ==> value > buckets[j]
    {
      if value <= buckets[i] {
        placed := true;
        break;
      }
      i := i + 1;
    }
    TallyGrows(buckets, vs, value, i, row);
    if placed {
      after := row[i := row[i] + 1];
    } else {
      after := row[|row| - 1 := row[|row| - 1] + 1];
    }
  }

  /** What is stored for one label set agrees with what was observed under it. */
  ghost predicate Row(buckets: seq<real>, seen: seq<Observation>,
                      counts: map<Labels, seq<nat>>, sums: map<Labels, real>, key: Labels) {
    && (key in counts <==> key in Keys(seen))
    && (key in sums <==> key in Keys(seen))
    && (key in counts && key in sums ==>
      && Tallies(buckets, Values(seen, key), counts[key])
      && sums[key] == Total(Values(seen, key)))
  }

  lemma {:induction false} RowsAfter(buckets: seq<real>, seen: seq<Observation>, o: Observation,
                                     counts: map<Labels, seq<nat>>, sums: map<Labels, real>,
                                     counts': map<Labels, seq<nat>>, sums': map<Labels, real>)
    requires forall key :: Row(buckets, seen, counts, sums, key)
    requires o.key in counts' && counts'.Keys == counts.Keys + {o.key}
    requires forall key :: key in counts && key != o.key ==> counts'[key] == counts[key]
    requires Tallies(buckets, Values(seen, o.key) + [o.value], counts'[o.key])
    requires sums' == sums[o.key := (if o.key in sums then sums[o.key] else 0.0) + o.value]
    ensures forall key :: Row(buckets, seen + [o], counts', sums', key)
  {
    var next, vs := seen + [o], Values(seen, o.key);
    assert next[..|seen|] == seen;
    assert (vs + [o.value])[..|vs|] == vs;
    assert Row(buckets, seen, counts, sums, o.key);
    if o.key !in Keys(seen) {
      UnseenHasNoValues(seen, o.key);
    }
    forall key ensures Row(buckets, next, counts', sums', key) {
      assert Row(buckets, seen, counts, sums, key);
    }
  }

  lemma {:induction false} UnseenHasNoValues(seen: seq<Observation>, key: Labels)
    requires key !in Keys(seen)
    ensures Values(seen, key) == []
  {
    if seen == [] {
    } else {
      UnseenHasNoValues(seen[..|seen| - 1], key);
    }
  }

  // The exposition format's promises.

  ghost predicate Ascending(edges: seq<real>) {
    forall i, j :: 0 <= i < j < |edges| ==> edges[i] <= edges[j]
  }

  ghost predicate CountsUpToEdge(buckets: seq<real>, vs: seq<real>, i: nat)
    requires i < |buckets|
  {
    AtMost(vs, Highest(buckets[..i + 1])) == AtMost(vs, buckets[i])
  }

  /** Each bucket means "values at or below this edge", whatever was observed,
      exactly when the edges are listed in ascending order. */
  lemma BucketsMeanTheirEdgesIff(buckets: seq<real>)
    ensures Ascending(buckets)
       <==> forall vs, i :: 0 <= i < |buckets| ==> CountsUpToEdge(buckets, vs, i)
  {
    if Ascending(buckets) {
      forall vs, i | 0 <= i < |buckets| ensures CountsUpToEdge(buckets, vs, i) {
        var e := Highest(buckets[..i + 1]);
        var j :| 0 <= j <= i && buckets[..i + 1][j] == e;
        assert buckets[..i + 1][i] == buckets[i];
        assert buckets[j] <= buckets[i];
      }
    } else {
      var j, i :| 0 <= j < i < |buckets| && buckets[j] > buckets[i];
      assert buckets[..i + 1][j] == buckets[j];
      var vs := [buckets[j]];
      assert vs[..0] == [];
      assert AtMost(vs[..0], buckets[i]) == 0;
      assert AtMost(vs, buckets[i]) == 0;
      assert buckets[j] in buckets[..i + 1];
      assert AtMost(vs, Highest(buckets[..i + 1])) == 1;
      assert !CountsUpToEdge(buckets, vs, i);
    }
  }

  /** The values of a label set are those observed under it, in order. */
  lemma {:induction false} ValuesAppend(a: seq<Observation>, b: seq<Observation>, key: Labels)
    ensures Values(a + b, key) == Values(a, key) + Values(b, key)
    decreases |b|
  {
    if b == [] {
      assert a + b == a;
    } else {
      var init, last := b[..|b| - 1], b[|b| - 1];
      ValuesAppend(a, init, key);
      assert (a + b)[..|a + b| - 1] == a + init && (a + b)[|a + b| - 1] == last;
      if last.key == key {
        Regrouped(Values(a, key), Values(init, key), [last.value]);
      }
    }
  }

  lemma {:induction false} ValuesOfOne(o: Observation, key: Labels)
    ensures Values([o], key) == if o.key == key then [o.value] else []
  {
    assert [o][..0] == [] && Values([], key) == [];
  }

  lemma {:induction false} TotalAdds(vs: seq<real>, v: real)
    ensures Total([]) == 0.0 && Total(vs + [v]) == Total(vs) + v
  {
    assert (vs + [v])[..|vs|] == vs;
  }

  lemma {:induction false} AtMostCounts(vs: seq<real>, edge: real)
    ensures AtMost(vs, edge) == |set i | 0 <= i < |vs| && vs[i] <= edge|
    decreases |vs|
  {
    var here := set i | 0 <= i < |vs| && vs[i] <= edge;
    if vs != [] {
      var n := |vs| - 1;
      var before := set i | 0 <= i < n && vs[..n][i] <= edge;
      AtMostCounts(vs[..n], edge);
      assert here == if vs[n] <= edge then before + {n} else before;
    } else {
      assert here == {};
    }
  }

  /** With ascending edges the lines of a label set are one bucket per edge, in order, that counts
      the values at or below it, the "+Inf" bucket, the sum and the count of all values. */
  lemma {:induction false} LinesOfALabelSet(buckets: seq<real>, seen: seq<Observation>, key: Labels, i: nat)
    requires Ascending(buckets) && i < |buckets|
    ensures var lines, vs := Exposed(buckets, seen, key), Values(seen, key);
            && |lines| == |buckets| + 3
            && lines[i] == Bucket(key, Some(buckets[i]), |set n | 0 <= n < |vs| && vs[n] <= buckets[i]|)
            && lines[|buckets|] == Bucket(key, None, |vs|)
            && lines[|buckets| + 1] == Sum(key, Total(vs)) && lines[|buckets| + 2] == Count(key, |vs|)
  {
    var vs := Values(seen, key);
    EdgeLineAt(buckets, vs, key, |buckets|, i);
    BucketsMeanTheirEdgesIff(buckets);
    assert CountsUpToEdge(buckets, vs, i);
    AtMostCounts(vs, buckets[i]);
  }

  /** Label set a is observed at p, and b not up to then. */
  ghost predicate ObservedFirst(seen: seq<Observation>, p: nat, a: Labels, b: Labels)
    requires p < |seen|
  {
    seen[p].key == a && forall q :: 0 <= q <= p ==> seen[q].key != b
  }

  /** Label sets are listed in the order in which they were first observed. */
  lemma {:induction false} LabelsFollowFirstObservation(seen: seq<Observation>, i: nat, j: nat)
    requires i < j < |Keys(seen)|
    ensures exists p :: 0 <= p < |seen| && ObservedFirst(seen, p, Keys(seen)[i], Keys(seen)[j])
    decreases |seen|
  {
    var n := |seen| - 1;
    var init, before := seen[..n], Keys(seen[..n]);
    if j < |before| {
      LabelsFollowFirstObservation(init, i, j);
      var p :| 0 <= p < |init| && ObservedFirst(init, p, before[i], before[j]);
      forall q | 0 <= q <= p ensures seen[q].key != before[j] {
        assert init[q] == seen[q];
      }
      assert init[p] == seen[p] && Keys(seen)[i] == before[i] && Keys(seen)[j] == before[j];
      assert ObservedFirst(seen, p, Keys(seen)[i], Keys(seen)[j]);
    } else {
      assert before[i] in before;
      var p :| 0 <= p < |init| && init[p].key == before[i];
      forall q | 0 <= q <= p ensures seen[q].key != Keys(seen)[j] {
        assert init[q] == seen[q];
      }
      assert ObservedFirst(seen, p, Keys(seen)[i], Keys(seen)[j]);
    }
  }

  /** The exposition lists the lines of every label set whole, one label set after the other. */
  lemma {:induction false} ExpositionIsInBlocks(buckets: seq<real>, seen: seq<Observation>,
                                                a: seq<Labels>, b: seq<Labels>)
    ensures Exposition(buckets, seen, a + b) == Exposition(buckets, seen, a) + Exposition(buckets, seen, b)
    decreases |b|
  {
    if b == [] {
      assert a + b == a;
    } else {
      var init, last := b[..|b| - 1], Exposed(buckets, seen, b[|b| - 1]);
      ExpositionIsInBlocks(buckets, seen, a, init);
      assert (a + b)[..|a + b| - 1] == a + init;
      Regrouped(Exposition(buckets, seen, a), Exposition(buckets, seen, init), last);
    }
  }

  lemma Regrouped<T>(x: seq<T>, y: seq<T>, z: seq<T>)
    ensures x + (y + z) == (x + y) + z
  {
  }

  lemma {:induction false} ExpositionOfOne(buckets: seq<real>, seen: seq<Observation>, key: Labels)
    ensures Exposition(buckets, seen, [key]) == Exposed(buckets, seen, key)
  {
    assert [key][..0] == [] && Exposition(buckets, seen, []) == [];
  }

  lemma {:induction false} AtMostGrows(vs: seq<real>, a: real, b: real)
    requires a <= b
    ensures AtMost(vs, a) <= AtMost(vs, b)
  {
    if vs == [] {
    } else {
      AtMostGrows(vs[..|vs| - 1], a, b);
    }
  }

  /** The bucket values of a label set never fall, and end at _count. */
  lemma {:induction false} BucketsNeverFall(buckets: seq<real>, seen: seq<Observation>, key: Labels, i: nat, j: nat)
    requires i <= j <= |buckets|
    ensures var lines := Exposed(buckets, seen, key);
      && lines[i].Bucket? && lines[j].Bucket? && lines[i].count <= lines[j].count
      && lines[|buckets|].le == None
      && lines[|buckets| + 2] == Count(key, lines[|buckets|].count)
      && lines[|buckets|].count == |Values(seen, key)|
  {
    var vs := Values(seen, key);
    if j < |buckets| {
      EdgeLineAt(buckets, vs, key, |buckets|, i);
      EdgeLineAt(buckets, vs, key, |buckets|, j);
      var a, b := Highest(buckets[..i + 1]), Highest(buckets[..j + 1]);
      var k :| 0 <= k <= i && buckets[..i + 1][k] == a;
      assert buckets[..j + 1][k] == a;
      assert a in buckets[..j + 1];
      AtMostGrows(vs, a, b);
    } else if i < |buckets| {
      EdgeLineAt(buckets, vs, key, |buckets|, i);
    }
  }

  /** Each label set is listed once. */
  lemma {:induction false} LabelsAreListedOnce(seen: seq<Observation>, i: nat, j: nat)
    requires i < j < |Keys(seen)|
    ensures Keys(seen)[i] != Keys(seen)[j]
  {
    if seen == [] {
    } else if j < |Keys(seen[..|seen| - 1])| {
      LabelsAreListedOnce(seen[..|seen| - 1], i, j);
    } else {
      assert Keys(seen)[i] in Keys(seen[..|seen| - 1]);
    }
  }

  /** Observing under one label set leaves the lines of every other as they were. */
  lemma OtherLabelsKeepTheirLines(buckets: seq<real>, seen: seq<Observation>, o: Observation, key: Labels)
    requires key != o.key
    ensures Exposed(buckets, seen + [o], key) == Exposed(buckets, seen, key)
  {
    assert (seen + [o])[..|seen|] == seen;
    assert Values(seen + [o], key) == Values(seen, key);
  }
}
