/** The in-memory candidate cache (src/teamshared/memory/hnsw_cache.py). hnswlib's index is
    abstract: labelled vectors, lazy deletion marks, a capacity, exact nearest neighbours
    under a distance given as a function. Hydration is one atomic step. */
module HnswCache {
  import opened Wrappers

  const INITIAL_CAPACITY: nat := 1024

  type Vector = seq<real>
  type Distance = (Vector, Vector) -> real

  /** hnswlib.Index */
  datatype Index = Index(capacity: nat, vectors: map<nat, Vector>, deleted: set<nat>) {
    function Live(): set<nat> {
      vectors.Keys - deleted
    }

    /** add_items: raises when the index is full. */
    function Add(lbl: nat, v: Vector): Index
      requires |vectors| < capacity
    {
      this.(vectors := vectors[lbl := v])
    }

    /** mark_deleted: raises on an unknown or already deleted lbl. */
    function MarkDeleted(lbl: nat): Index
      requires lbl in Live()
    {
      this.(deleted := deleted + {lbl})
    }

    function Resize(newCapacity: nat): Index
      requires newCapacity >= |vectors|
    {
      this.(capacity := newCapacity)
    }
  }

  /** An answer of knn_query: n distinct live labels, nearest first, none of the others nearer. */
  ghost predicate IsKnn(index: Index, dist: Distance, q: Vector, n: nat, labels: seq<nat>) {
    && |labels| == n
    && (forall i :: 0 <= i < n ==> labels[i] in index.Live())
    && (forall i, j :: 0 <= i < j < n ==> labels[i] != labels[j])
    && (forall i, j :: 0 <= i < j < n ==> dist(q, index.vectors[labels[i]]) <= dist(q, index.vectors[labels[j]]))
    && (forall i, l :: 0 <= i < n && l in index.Live() && l !in labels ==>
          dist(q, index.vectors[labels[i]]) <= dist(q, index.vectors[l]))
  }

  ghost function Labels(n: nat): (s: set<nat>)
    ensures |s| == n
    ensures forall l :: l in s <==> 0 <= l < n
  {
    if n == 0 then {} else Labels(n - 1) + {n - 1}
  }

  /** The bookkeeping of one org: everything _OrgIndex keeps. */
  datatype State = State(
    index: Index,
    nextLabel: nat,
    labelToMemory: map<nat, string>,
    memoryToLabels: map<string, seq<nat>>,
    active: int)
  {
    /** Labels run 0, 1, 2, ... and are never reused; the resolvable ones are the live ones. */
    ghost predicate Numbered() {
      && (forall l :: l in index.vectors <==> 0 <= l < nextLabel)
      && (forall l :: l in index.deleted ==> l in index.vectors)
      && (forall l :: l in labelToMemory <==> l in index.vectors && l !in index.deleted)
    }

    ghost predicate HasOneLabel(m: string) {
      && m in memoryToLabels && |memoryToLabels[m]| == 1
      && memoryToLabels[m][0] in labelToMemory && labelToMemory[memoryToLabels[m][0]] == m
    }

    ghost predicate HasOwner(l: nat) {
      && l in labelToMemory
      && labelToMemory[l] in memoryToLabels && memoryToLabels[labelToMemory[l]] == [l]
    }

    /** The two label maps are mutually inverse, and a memory has one live label. */
    ghost predicate Inverse() {
      && (forall m {:trigger HasOneLabel(m)} :: m in memoryToLabels ==> HasOneLabel(m))
      && (forall l {:trigger HasOwner(l)} :: l in labelToMemory ==> HasOwner(l))
    }

    ghost predicate Sized() {
      && active == |labelToMemory|
      && INITIAL_CAPACITY <= index.capacity
      && nextLabel <= index.capacity
      && (index.capacity == INITIAL_CAPACITY || index.capacity <= 2 * nextLabel)
    }

    ghost predicate Valid() {
      Numbered() && Inverse() && Sized()
    }

    /** The live label of a memory. */
    ghost function LabelOf(m: string): nat
      requires HasOneLabel(m)
    {
      memoryToLabels[m][0]
    }

    ghost function VectorOf(m: string): Vector {
      if HasOneLabel(m) && LabelOf(m) in index.vectors then index.vectors[LabelOf(m)] else []
    }

    /** The plain map the index stands for. */
    ghost function Contents(): map<string, Vector> {
      map m | m in memoryToLabels :: VectorOf(m)
    }
  }

  const EMPTY: State := State(Index(INITIAL_CAPACITY, map[], {}), 0, map[], map[], 0)

  /** Mark labels deleted and forget their owners, one by one. */
  ghost function Unlabelled(s: State, lbls: seq<nat>): State {
    if lbls == [] then s
    else
      var t, l := Unlabelled(s, lbls[..|lbls| - 1]), lbls[|lbls| - 1];
      State(t.index.(deleted := t.index.deleted + {l}), t.nextLabel,
            t.labelToMemory - {l}, t.memoryToLabels, t.active - 1)
  }

  function LabelsOf(s: State, m: string): seq<nat> {
    if m in s.memoryToLabels then s.memoryToLabels[m] else []
  }

  ghost function Removed(s: State, m: string): State {
    Unlabelled(s.(memoryToLabels := s.memoryToLabels - {m}), LabelsOf(s, m))
  }

  /** With one label per memory, removal drops that label or changes nothing. */
  lemma RemovedForm(s: State, m: string)
    requires s.Valid()
    ensures m in s.memoryToLabels ==> s.HasOneLabel(m) && LabelsOf(s, m) == [s.LabelOf(m)]
    ensures Removed(s, m) ==
            if m in s.memoryToLabels
            then State(s.index.(deleted := s.index.deleted + {s.LabelOf(m)}), s.nextLabel,
                       s.labelToMemory - {s.LabelOf(m)}, s.memoryToLabels - {m}, s.active - 1)
            else s
  {
    if m in s.memoryToLabels {
      assert s.HasOneLabel(m);
      var lbls := LabelsOf(s, m);
      assert lbls == [s.LabelOf(m)] && lbls[..|lbls| - 1] == [];
      var unlisted := s.(memoryToLabels := s.memoryToLabels - {m});
      assert Unlabelled(unlisted, []) == unlisted;
    } else {
      assert s.memoryToLabels - {m} == s.memoryToLabels;
    }
  }

  lemma LabelsAreCounted(s: State)
    requires s.Numbered()
    ensures |s.index.vectors| == s.nextLabel
  {
    assert s.index.vectors.Keys == Labels(s.nextLabel);
    assert |s.index.vectors| == |s.index.vectors.Keys|;
  }

  lemma MapWithout<T>(m: map<nat, T>, l: nat)
    requires l in m
    ensures |m - {l}| == |m| - 1
  {
    assert m.Keys == (m - {l}).Keys + {l};
    assert |m| == |m.Keys| && |m - {l}| == |(m - {l}).Keys|;
  }

  lemma MapWith<T>(m: map<nat, T>, l: nat, x: T)
    requires l !in m
    ensures |m[l := x]| == |m| + 1
  {
    assert m[l := x].Keys == m.Keys + {l};
    assert |m| == |m.Keys| && |m[l := x]| == |m[l := x].Keys|;
  }

  lemma RemovedIsValid(s: State, m: string)
    requires s.Valid()
    ensures Removed(s, m).Valid()
    ensures Removed(s, m).memoryToLabels.Keys == s.memoryToLabels.Keys - {m}
  {
    var after := Removed(s, m);
    RemovedForm(s, m);
    if m in s.memoryToLabels {
      MapWithout(s.labelToMemory, s.LabelOf(m));
      forall x | x in after.memoryToLabels ensures after.HasOneLabel(x) {
        assert s.HasOneLabel(x);
      }
      forall l | l in after.labelToMemory ensures after.HasOwner(l) {
        assert s.HasOwner(l);
      }
    }
  }

  lemma ContentsWithout(s: State, after: State, m: string)
    requires after.memoryToLabels == s.memoryToLabels - {m}
    requires forall x :: x in after.memoryToLabels ==> after.VectorOf(x) == s.VectorOf(x)
    ensures after.Contents() == s.Contents() - {m}
  {
  }

  lemma RemovedContents(s: State, m: string)
    requires s.Valid()
    ensures Removed(s, m).Contents() == s.Contents() - {m}
  {
    var after := Removed(s, m);
    RemovedForm(s, m);
    assert after.memoryToLabels == s.memoryToLabels - {m};
    forall x | x in after.memoryToLabels ensures after.VectorOf(x) == s.VectorOf(x) {
      assert s.HasOneLabel(x);
    }
    ContentsWithout(s, after, m);
  }

  lemma RemovedWell(s: State, m: string) returns (after: State)
    requires s.Valid()
    ensures after == Removed(s, m) && after.Valid() && after.Contents() == s.Contents() - {m}
  {
    after := Removed(s, m);
    RemovedIsValid(s, m);
    RemovedContents(s, m);
  }

  function DoubledIfFull(s: State): nat {
    if s.nextLabel >= s.index.capacity then s.index.capacity * 2 else s.index.capacity
  }

  /** Give a memory without a label the next one, doubling a full index first. */
  ghost function Appended(s: State, m: string, v: Vector): State {
    State(s.index.(capacity := DoubledIfFull(s), vectors := s.index.vectors[s.nextLabel := v]),
          s.nextLabel + 1, s.labelToMemory[s.nextLabel := m],
          s.memoryToLabels[m := LabelsOf(s, m) + [s.nextLabel]], s.active + 1)
  }

  ghost function Added(s: State, m: string, v: Vector): State {
    Appended(Removed(s, m), m, v)
  }

  lemma AppendedIsInverse(s: State, m: string, v: Vector)
    requires s.Numbered() && s.Inverse() && m !in s.memoryToLabels
    ensures Appended(s, m, v).Inverse()
  {
    var after := Appended(s, m, v);
    assert LabelsOf(s, m) + [s.nextLabel] == [s.nextLabel];
    forall x | x in after.memoryToLabels ensures after.HasOneLabel(x) {
      assert x in s.memoryToLabels ==> s.HasOneLabel(x);
    }
    forall l | l in after.labelToMemory ensures after.HasOwner(l) {
      assert l in s.labelToMemory ==> s.HasOwner(l);
    }
  }

  lemma AppendedIsValid(s: State, m: string, v: Vector)
    requires s.Valid() && m !in s.memoryToLabels
    ensures Appended(s, m, v).Valid()
  {
    AppendedIsInverse(s, m, v);
    MapWith(s.labelToMemory, s.nextLabel, m);
  }

  lemma ContentsWith(s: State, after: State, m: string, v: Vector, lbls: seq<nat>)
    requires after.memoryToLabels == s.memoryToLabels[m := lbls]
    requires forall x :: x in after.memoryToLabels ==> after.VectorOf(x) == if x == m then v else s.VectorOf(x)
    ensures after.Contents() == s.Contents()[m := v]
  {
  }

  lemma AppendedContents(s: State, m: string, v: Vector)
    requires s.Numbered() && s.Inverse() && m !in s.memoryToLabels
    ensures Appended(s, m, v).Contents() == s.Contents()[m := v]
  {
    var after := Appended(s, m, v);
    assert LabelsOf(s, m) + [s.nextLabel] == [s.nextLabel];
    forall x | x in after.memoryToLabels ensures after.VectorOf(x) == if x == m then v else s.VectorOf(x) {
      assert x != m ==> s.HasOneLabel(x);
    }
    ContentsWith(s, after, m, v, [s.nextLabel]);
  }

  lemma AddedIsValid(s: State, m: string, v: Vector)
    requires s.Valid()
    ensures Added(s, m, v).Valid()
  {
    RemovedIsValid(s, m);
    AppendedIsValid(Removed(s, m), m, v);
  }

  lemma ReplaceKey<V>(c: map<string, V>, m: string, v: V)
    ensures (c - {m})[m := v] == c[m := v]
  {
  }

  lemma AddedContents(s: State, m: string, v: Vector)
    requires s.Valid()
    ensures Added(s, m, v).Contents() == s.Contents()[m := v]
  {
    RemovedIsValid(s, m);
    var bare := Removed(s, m);
    RemovedContents(s, m);
    ReplaceKey(s.Contents(), m, v);
    AppendedContents(bare, m, v);
  }

  lemma SizeOfContents(s: State)
    requires s.Valid()
    ensures s.active == |s.Contents()| == |s.index.Live()|
  {
    assert forall m :: m in s.memoryToLabels ==> s.HasOneLabel(m);
    var image := set m | m in s.memoryToLabels :: s.LabelOf(m);
    assert image == s.labelToMemory.Keys by {
      forall l | l in s.labelToMemory ensures l in image {
        assert s.HasOwner(l);
        assert s.LabelOf(s.labelToMemory[l]) == l;
      }
    }
    InjectiveImage(s, s.memoryToLabels.Keys);
    assert s.labelToMemory.Keys == s.index.Live();
    assert s.Contents().Keys == s.memoryToLabels.Keys;
    assert |s.Contents()| == |s.Contents().Keys| && |s.labelToMemory| == |s.labelToMemory.Keys|;
  }

  lemma {:induction false} InjectiveImage(s: State, ms: set<string>)
    requires forall m :: m in ms ==> s.HasOneLabel(m)
    ensures |set m | m in ms :: s.LabelOf(m)| == |ms|
    decreases |ms|
  {
    if ms == {} {
      assert (set m | m in ms :: s.LabelOf(m)) == {};
    } else {
      var m :| m in ms;
      var rest := set x | x in ms - {m} :: s.LabelOf(x);
      InjectiveImage(s, ms - {m});
      assert (set x | x in ms :: s.LabelOf(x)) == rest + {s.LabelOf(m)};
      assert s.LabelOf(m) !in rest;
    }
  }

  // ---- runs of writes, and a search among them ----

  datatype Op = AddOp(memory: string, vector: Vector) | RemoveOp(memory: string)

  ghost function Step(s: State, op: Op): (r: State)
    requires s.Valid()
    ensures r.Valid()
  {
    match op
    case AddOp(m, v) => AddedIsValid(s, m, v); Added(s, m, v)
    case RemoveOp(m) => RemovedIsValid(s, m); Removed(s, m)
  }

  ghost function Run(s: State, ops: seq<Op>): (r: State)
    requires s.Valid()
    ensures r.Valid()
  {
    if ops == [] then s else Step(Run(s, ops[..|ops| - 1]), ops[|ops| - 1])
  }

  function Written(c: map<string, Vector>, op: Op): map<string, Vector> {
    match op
    case AddOp(m, v) => c[m := v]
    case RemoveOp(m) => c - {m}
  }

  function WrittenAll(c: map<string, Vector>, ops: seq<Op>): map<string, Vector> {
    if ops == [] then c else Written(WrittenAll(c, ops[..|ops| - 1]), ops[|ops| - 1])
  }

  /** Over any run the index is the plain map with the same writes. */
  lemma {:induction false} RunRefinesTheMap(s: State, ops: seq<Op>)
    requires s.Valid()
    ensures Run(s, ops).Contents() == WrittenAll(s.Contents(), ops)
    decreases |ops|
  {
    if ops != [] {
      var before, op := Run(s, ops[..|ops| - 1]), ops[|ops| - 1];
      RunRefinesTheMap(s, ops[..|ops| - 1]);
      RemovedIsValid(before, op.memory);
      match op
      case AddOp(m, v) => AddedIsValid(before, m, v); AddedContents(before, m, v);
      case RemoveOp(m) => RemovedContents(before, m);
    }
  }

  lemma EmptyIsValid()
    ensures EMPTY.Valid() && EMPTY.Contents() == map[]
  {
  }

  /** Every reachable index is the plain map of its writes, counts its live labels, and
      has a capacity that fits its labels and is never more than doubled past them. */
  lemma {:induction false} EveryRunIsSound(ops: seq<Op>)
    ensures EMPTY.Valid()
    ensures var s := Run(EMPTY, ops);
            && s.Contents() == WrittenAll(map[], ops)
            && s.active == |s.Contents()| == |s.index.Live()|
            && s.nextLabel <= s.index.capacity
            && s.index.capacity <= (if 2 * s.nextLabel > 1024 then 2 * s.nextLabel else 1024)
  {
    EmptyIsValid();
    RunRefinesTheMap(EMPTY, ops);
    SizeOfContents(Run(EMPTY, ops));
  }

  function Targets(ops: seq<Op>): set<string> {
    set i | 0 <= i < |ops| :: ops[i].memory
  }

  /** Label l keeps its vector, and resolves in `after` exactly when it did before and its
      memory is not among those written, and then to that same memory. */
  ghost predicate KeepsLabel(before: State, after: State, l: nat, written: set<string>) {
    && before.nextLabel <= after.nextLabel
    && l in before.index.vectors && l in after.index.vectors
    && after.index.vectors[l] == before.index.vectors[l]
    && (l in after.labelToMemory <==> l in before.labelToMemory && before.labelToMemory[l] !in written)
    && (l in after.labelToMemory ==> after.labelToMemory[l] == before.labelToMemory[l])
  }

  /** One write keeps every label that was ever handed out. */
  lemma StepKeepsLabels(s: State, op: Op, l: nat)
    requires s.Valid() && l < s.nextLabel
    ensures KeepsLabel(s, Step(s, op), l, {op.memory})
  {
    RemovedForm(s, op.memory);
    RemovedIsValid(s, op.memory);
    if l in s.labelToMemory {
      assert s.HasOwner(l);
    }
  }

  lemma KeepsLabelTwice(a: State, b: State, c: State, l: nat, v: set<string>, w: set<string>)
    requires KeepsLabel(a, b, l, v) && KeepsLabel(b, c, l, w)
    ensures KeepsLabel(a, c, l, v + w)
  {
  }

  lemma TargetsOneMore(ops: seq<Op>)
    requires ops != []
    ensures Targets(ops) == Targets(ops[..|ops| - 1]) + {ops[|ops| - 1].memory}
  {
    TargetsAppend(ops[..|ops| - 1], [ops[|ops| - 1]]);
    assert ops[..|ops| - 1] + [ops[|ops| - 1]] == ops;
    assert Targets([ops[|ops| - 1]]) == {ops[|ops| - 1].memory};
  }

  /** So does a run: a label is never used for another memory. */
  lemma {:induction false} RunKeepsLabels(s: State, ops: seq<Op>, l: nat)
    requires s.Valid() && l < s.nextLabel
    ensures KeepsLabel(s, Run(s, ops), l, Targets(ops))
    decreases |ops|
  {
    if ops == [] {
      assert Targets(ops) == {};
      assert s.Numbered();
    } else {
      var init, last := ops[..|ops| - 1], ops[|ops| - 1];
      RunKeepsLabels(s, init, l);
      StepKeepsLabels(Run(s, init), last, l);
      KeepsLabelTwice(s, Run(s, init), Run(s, ops), l, Targets(init), {last.memory});
      TargetsOneMore(ops);
    }
  }

  ghost predicate AllLive(s: State, labels: seq<nat>) {
    forall i :: 0 <= i < |labels| ==> labels[i] in s.labelToMemory && labels[i] in s.index.vectors
  }

  /** The answer as of the lock: the owner of each label, with the distance scored for it. */
  ghost function Snapshot(s: State, dist: Distance, q: Vector, labels: seq<nat>): seq<(string, real)>
    requires AllLive(s, labels)
  {
    seq(|labels|, i requires 0 <= i < |labels| => (s.labelToMemory[labels[i]], dist(q, s.index.vectors[labels[i]])))
  }

  /** The writes of the first n rounds, in order. */
  ghost function Flat(schedule: seq<seq<Op>>, n: nat): seq<Op>
    requires n <= |schedule|
  {
    if n == 0 then [] else Flat(schedule, n - 1) + schedule[n - 1]
  }

  ghost function Found(owners: map<nat, string>, l: nat, distance: real): seq<(string, real)> {
    if l in owners then [(owners[l], distance)] else []
  }

  /** The label map as each lookup finds it: before lookup i the writes schedule[i] happen. */
  ghost function Views(s: State, schedule: seq<seq<Op>>): seq<map<nat, string>>
    requires s.Valid()
  {
    seq(|schedule|, i requires 0 <= i < |schedule| => Run(s, Flat(schedule, i + 1)).labelToMemory)
  }

  /** The unlocked loop of search, over the label map that each lookup finds. */
  ghost function Unlocked(views: seq<map<nat, string>>, labels: seq<nat>, distances: seq<real>, n: nat)
    : seq<(string, real)>
    requires n <= |labels| == |distances| && n <= |views|
  {
    if n == 0 then []
    else Unlocked(views, labels, distances, n - 1) + Found(views[n - 1], labels[n - 1], distances[n - 1])
  }

  lemma TargetsAppend(a: seq<Op>, b: seq<Op>)
    ensures Targets(a + b) == Targets(a) + Targets(b)
  {
    forall m | m in Targets(a) + Targets(b) ensures m in Targets(a + b) {
      if m in Targets(a) {
        var i :| 0 <= i < |a| && a[i].memory == m;
        assert (a + b)[i].memory == m;
      } else {
        var i :| 0 <= i < |b| && b[i].memory == m;
        assert (a + b)[|a| + i].memory == m;
      }
    }
  }

  lemma {:induction false} RunTwice(s: State, a: seq<Op>, b: seq<Op>)
    requires s.Valid()
    ensures Run(Run(s, a), b) == Run(s, a + b)
    decreases |b|
  {
    if b == [] {
      assert a + b == a;
    } else {
      assert (a + b)[..|a + b| - 1] == a + b[..|b| - 1];
      RunTwice(s, a, b[..|b| - 1]);
    }
  }

  ghost predicate Ascending(at: seq<nat>, n: nat) {
    && (forall i :: 0 <= i < |at| ==> at[i] < n)
    && (forall i, j :: 0 <= i < j < |at| ==> at[i] < at[j])
  }

  ghost predicate TakenFrom(scored: seq<(string, real)>, p: nat, pair: (string, real)) {
    p < |scored| && pair == scored[p]
  }

  /** `out` is the first n scored pairs at the ascending positions `at`, which are exactly those
      whose memory has not been written by the time its label is looked up. */
  ghost predicate LeavesOutWritten(scored: seq<(string, real)>, schedule: seq<seq<Op>>, n: nat,
                                   at: seq<nat>, out: seq<(string, real)>)
    requires n <= |scored| && n <= |schedule|
  {
    && |out| == |at| && Ascending(at, n)
    && (forall i :: 0 <= i < |at| ==> TakenFrom(scored, at[i], out[i]))
    && (forall p :: 0 <= p < n ==> (p in at <==> !WrittenBefore(schedule, p + 1, scored[p].0)))
  }

  /** One of the first n rounds of writes names this memory. */
  ghost predicate WrittenBefore(schedule: seq<seq<Op>>, n: nat, m: string)
    requires n <= |schedule|
  {
    exists r :: 0 <= r < n && m in Targets(schedule[r])
  }

  lemma {:induction false} FlatTargets(schedule: seq<seq<Op>>, n: nat, m: string)
    requires n <= |schedule|
    ensures m in Targets(Flat(schedule, n)) <==> WrittenBefore(schedule, n, m)
  {
    if n > 0 {
      FlatTargets(schedule, n - 1, m);
      TargetsAppend(Flat(schedule, n - 1), schedule[n - 1]);
    }
  }

  lemma AscendingSnoc(at: seq<nat>, n: nat)
    requires Ascending(at, n)
    ensures Ascending(at, n + 1) && Ascending(at + [n], n + 1)
    ensures n !in at && forall p :: p in at + [n] <==> p in at || p == n
  {
  }

  lemma {:induction false} AscendingIsShort(at: seq<nat>, n: nat)
    requires Ascending(at, n)
    ensures |at| <= n
    decreases |at|
  {
    if at != [] {
      AscendingIsShort(at[..|at| - 1], at[|at| - 1]);
    }
  }

  lemma OneMoreLeftOut(owners: map<nat, string>, scored: seq<(string, real)>, schedule: seq<seq<Op>>, n: nat,
                       l: nat, at: seq<nat>, out: seq<(string, real)>)
    requires n < |scored| && n < |schedule| && LeavesOutWritten(scored, schedule, n, at, out)
    requires l in owners <==> !WrittenBefore(schedule, n + 1, scored[n].0)
    requires l in owners ==> owners[l] == scored[n].0
    ensures LeavesOutWritten(scored, schedule, n + 1,
                             if WrittenBefore(schedule, n + 1, scored[n].0) then at else at + [n],
                             out + Found(owners, l, scored[n].1))
  {
    if l in owners {
      KeepOne(scored, schedule, n, at, out);
      assert Found(owners, l, scored[n].1) == [scored[n]];
    } else {
      LeaveOne(scored, schedule, n, at, out);
      assert out + Found(owners, l, scored[n].1) == out;
    }
  }

  lemma KeepOne(scored: seq<(string, real)>, schedule: seq<seq<Op>>, n: nat, at: seq<nat>, out: seq<(string, real)>)
    requires n < |scored| && n < |schedule| && LeavesOutWritten(scored, schedule, n, at, out)
    requires !WrittenBefore(schedule, n + 1, scored[n].0)
    ensures LeavesOutWritten(scored, schedule, n + 1, at + [n], out + [scored[n]])
  {
    AscendingSnoc(at, n);
    assert TakenFrom(scored, n, scored[n]);
  }

  lemma LeaveOne(scored: seq<(string, real)>, schedule: seq<seq<Op>>, n: nat, at: seq<nat>, out: seq<(string, real)>)
    requires n < |scored| && n < |schedule| && LeavesOutWritten(scored, schedule, n, at, out)
    requires WrittenBefore(schedule, n + 1, scored[n].0)
    ensures LeavesOutWritten(scored, schedule, n + 1, at, out)
  {
    AscendingSnoc(at, n);
  }

  /** What the lookup of a scored label finds: its memory, unless that is gone. */
  ghost predicate LooksUp(owners: map<nat, string>, l: nat, distance: real, pair: (string, real), gone: bool) {
    && (l in owners <==> !gone)
    && (l in owners ==> owners[l] == pair.0)
    && distance == pair.1
  }

  /** A label looked up after n rounds: its owner at the lock, or nothing once that was written. */
  lemma {:induction false} LookUpAfter(s: State, schedule: seq<seq<Op>>, n: nat, l: nat, distance: real)
    requires s.Valid() && n <= |schedule| && l in s.labelToMemory
    ensures LooksUp(Run(s, Flat(schedule, n)).labelToMemory, l, distance, (s.labelToMemory[l], distance),
                    WrittenBefore(schedule, n, s.labelToMemory[l]))
  {
    FlatTargets(schedule, n, s.labelToMemory[l]);
    RunKeepsLabels(s, Flat(schedule, n), l);
  }

  /** The positions whose memory is not written before their turn. */
  ghost function KeptAt(scored: seq<(string, real)>, schedule: seq<seq<Op>>, n: nat): seq<nat>
    requires n <= |scored| && n <= |schedule|
  {
    if n == 0 then []
    else if WrittenBefore(schedule, n, scored[n - 1].0) then KeptAt(scored, schedule, n - 1)
    else KeptAt(scored, schedule, n - 1) + [n - 1]
  }

  lemma {:induction false} UnlockedLeavesOutWritten(views: seq<map<nat, string>>, labels: seq<nat>,
                                                    scored: seq<(string, real)>, distances: seq<real>,
                                                    schedule: seq<seq<Op>>, n: nat)
    requires n <= |labels| == |scored| == |distances| && n <= |schedule| == |views|
    requires forall i :: 0 <= i < n ==>
               LooksUp(views[i], labels[i], distances[i], scored[i], WrittenBefore(schedule, i + 1, scored[i].0))
    ensures LeavesOutWritten(scored, schedule, n, KeptAt(scored, schedule, n), Unlocked(views, labels, distances, n))
  {
    if n > 0 {
      UnlockedLeavesOutWritten(views, labels, scored, distances, schedule, n - 1);
      assert LooksUp(views[n - 1], labels[n - 1], distances[n - 1], scored[n - 1],
                     WrittenBefore(schedule, n, scored[n - 1].0));
      OneMoreLeftOut(views[n - 1], scored, schedule, n - 1, labels[n - 1],
                     KeptAt(scored, schedule, n - 1), Unlocked(views, labels, distances, n - 1));
    }
  }

  lemma {:induction false} ViewAt(s: State, schedule: seq<seq<Op>>, i: nat)
    requires s.Valid() && i < |schedule|
    ensures Views(s, schedule)[i] == Run(s, Flat(schedule, i + 1)).labelToMemory
  {
  }

  lemma EachLooksUp(s: State, schedule: seq<seq<Op>>, i: nat, l: nat, distance: real, pair: (string, real))
    requires s.Valid() && i < |schedule| && l in s.labelToMemory && pair == (s.labelToMemory[l], distance)
    ensures LooksUp(Views(s, schedule)[i], l, distance, pair, WrittenBefore(schedule, i + 1, pair.0))
  {
    LookUpAfter(s, schedule, i + 1, l, distance);
    ViewAt(s, schedule, i);
  }

  /** Whatever is written while a search resolves its labels, it returns the answer it
      scored under the lock, less exactly the memories written before their turn: no label
      ever resolves to another memory. */
  lemma {:induction false} InterleavedSearchNeverMixesMemories(s: State, dist: Distance, q: Vector, labels: seq<nat>,
                                                               distances: seq<real>, schedule: seq<seq<Op>>)
    requires s.Valid() && |labels| == |distances| <= |schedule|
    requires IsKnn(s.index, dist, q, |labels|, labels)
    requires forall i :: 0 <= i < |labels| ==> distances[i] == dist(q, s.index.vectors[labels[i]])
    ensures AllLive(s, labels)
    ensures var scored := Snapshot(s, dist, q, labels);
            LeavesOutWritten(scored, schedule, |scored|, KeptAt(scored, schedule, |scored|),
                             Unlocked(Views(s, schedule), labels, distances, |labels|))
  {
    KnnIsLive(s, dist, q, labels);
    var scored, views := Snapshot(s, dist, q, labels), Views(s, schedule);
    forall i | 0 <= i < |labels|
      ensures LooksUp(views[i], labels[i], distances[i], scored[i], WrittenBefore(schedule, i + 1, scored[i].0))
    {
      EachLooksUp(s, schedule, i, labels[i], distances[i], scored[i]);
    }
    UnlockedLeavesOutWritten(views, labels, scored, distances, schedule, |labels|);
  }

  lemma KnnIsLive(s: State, dist: Distance, q: Vector, labels: seq<nat>)
    requires s.Valid() && IsKnn(s.index, dist, q, |labels|, labels)
    ensures AllLive(s, labels)
  {
  }

  /** A pair that is returned is true of the index at that moment, not only of the snapshot. */
  lemma {:induction false} ResolvedLabelIsCurrent(s: State, ops: seq<Op>, l: nat)
    requires s.Valid() && l in s.labelToMemory && l in Run(s, ops).labelToMemory
    ensures l < s.nextLabel && l in s.index.vectors
    ensures var m := Run(s, ops).labelToMemory[l];
            && m == s.labelToMemory[l] && m in s.Contents() && m in Run(s, ops).Contents()
            && Run(s, ops).Contents()[m] == s.Contents()[m] == s.index.vectors[l]
  {
    RunKeepsLabels(s, ops, l);
    assert s.HasOwner(l) && Run(s, ops).HasOwner(l);
    assert s.HasOneLabel(s.labelToMemory[l]) && Run(s, ops).HasOneLabel(s.labelToMemory[l]);
  }

  // ---- an undisturbed search ----

  /** Answer of k nearest members of a plain map: distinct, exact distances, none left out is nearer. */
  ghost predicate IsNearest(c: map<string, Vector>, dist: Distance, q: Vector, k: nat, out: seq<(string, real)>) {
    && |out| == (if k <= |c| then k else |c|)
    && (forall i :: 0 <= i < |out| ==> out[i].0 in c && out[i].1 == dist(q, c[out[i].0]))
    && (forall i, j :: 0 <= i < j < |out| ==> out[i].0 != out[j].0 && out[i].1 <= out[j].1)
    && (forall i, m :: 0 <= i < |out| && m in c && (forall j :: 0 <= j < |out| ==> out[j].0 != m)
          ==> out[i].1 <= dist(q, c[m]))
  }

  lemma SnapshotIsNearest(s: State, dist: Distance, q: Vector, k: nat, labels: seq<nat>)
    requires s.Valid() && IsKnn(s.index, dist, q, if k <= s.active then k else s.active, labels)
    ensures AllLive(s, labels)
    ensures IsNearest(s.Contents(), dist, q, k, Snapshot(s, dist, q, labels))
  {
    KnnIsLive(s, dist, q, labels);
    SizeOfContents(s);
    var c, out := s.Contents(), Snapshot(s, dist, q, labels);
    forall i | 0 <= i < |labels| ensures Scored(s, dist, q, labels[i], out[i]) {
      OwnerHasVector(s, dist, q, labels[i]);
    }
    forall m | m in c
      ensures s.HasOneLabel(m) && s.LabelOf(m) in s.index.Live() && c[m] == s.index.vectors[s.LabelOf(m)]
    {
      assert s.HasOneLabel(m);
    }
  }

  /** The pair belongs to this label: its owner, and the distance of its owner's vector. */
  ghost predicate Scored(s: State, dist: Distance, q: Vector, l: nat, pair: (string, real)) {
    && pair.0 in s.Contents() && pair.1 == dist(q, s.Contents()[pair.0])
    && s.HasOneLabel(pair.0) && s.LabelOf(pair.0) == l
  }

  lemma OwnerHasVector(s: State, dist: Distance, q: Vector, l: nat)
    requires s.Valid() && l in s.labelToMemory
    ensures l in s.index.vectors && Scored(s, dist, q, l, (s.labelToMemory[l], dist(q, s.index.vectors[l])))
  {
    assert s.HasOwner(l) && s.HasOneLabel(s.labelToMemory[l]);
  }

  // ---- the classes ----

  /** Exact k nearest live labels, picked one by one. */
  method KnnQuery(index: Index, dist: Distance, q: Vector, n: nat) returns (labels: seq<nat>)
    requires n <= |index.Live()|
    ensures IsKnn(index, dist, q, n, labels)
  {
    labels := [];
    var rest := index.Live();
    while |labels| < n
      invariant |labels| <= n && |labels| + |rest| == |index.Live()|
      invariant forall l :: l in index.Live() <==> l in rest || l in labels
      invariant forall l :: l in rest ==> l !in labels
      invariant IsKnn(index, dist, q, |labels|, labels)
    {
      var nearest := Nearest(index, dist, q, rest);
      rest := rest - {nearest};
      labels := labels + [nearest];
    }
  }

  method Nearest(index: Index, dist: Distance, q: Vector, ls: set<nat>) returns (best: nat)
    requires ls != {} && ls <= index.Live()
    ensures best in ls && forall l :: l in ls ==> dist(q, index.vectors[best]) <= dist(q, index.vectors[l])
  {
    best :| best in ls;
    var todo := ls - {best};
    while todo != {}
      invariant best in ls && todo <= ls
      invariant forall l :: l in ls - todo ==> dist(q, index.vectors[best]) <= dist(q, index.vectors[l])
      decreases |todo|
    {
      var l :| l in todo;
      if dist(q, index.vectors[l]) < dist(q, index.vectors[best]) {
        best := l;
      }
      todo := todo - {l};
    }
  }

  class OrgIndex {
    const distance: Distance
    var index: Index
    var nextLabel: nat
    var labelToMemory: map<nat, string>
    var memoryToLabels: map<string, seq<nat>>
    var active: int
    ghost var contents: map<string, Vector>

    ghost function AsState(): State
      reads this
    {
      State(index, nextLabel, labelToMemory, memoryToLabels, active)
    }

    ghost predicate Valid()
      reads this
    {
      AsState().Valid() && contents == AsState().Contents()
    }

    constructor (distance: Distance)
      ensures Valid() && AsState() == EMPTY && contents == map[] && this.distance == distance
    {
      this.distance, contents := distance, map[];
      index, nextLabel, labelToMemory, memoryToLabels, active := Index(INITIAL_CAPACITY, map[], {}), 0, map[], map[], 0;
    }

    /** _remove_locked; marking never raises: every label it pops is live. */
    method RemoveLocked(memory: string)
      requires AsState().Valid()
      modifies `index, `labelToMemory, `memoryToLabels, `active
      ensures AsState() == Removed(old(AsState()), memory)
    {
      ghost var s := AsState();
      RemovedForm(s, memory);
      var labels := if memory in memoryToLabels then memoryToLabels[memory] else [];
      memoryToLabels := memoryToLabels - {memory};
      ghost var unlisted := AsState();
      for i := 0 to |labels|
        invariant AsState() == Unlabelled(unlisted, labels[..i])
      {
        assert labels[..i + 1][..i] == labels[..i] && labels[..0] == [];
        assert labels == [s.LabelOf(memory)];
        index := index.MarkDeleted(labels[i]);
        labelToMemory := labelToMemory - {labels[i]};
        active := active - 1;
      }
      assert labels[..|labels|] == labels;
    }

    /** add */
    method Add(memory: string, vector: Vector)
      requires Valid()
      modifies this
      ensures Valid() && AsState() == Added(old(AsState()), memory, vector)
      ensures contents == old(contents)[memory := vector]
    {
      RemovedIsValid(AsState(), memory);
      AddedIsValid(AsState(), memory, vector);
      AddedContents(AsState(), memory, vector);
      RemoveLocked(memory);
      LabelsAreCounted(AsState());
      AppendLocked(memory, vector);
      contents := contents[memory := vector];
    }

    /** The rest of add; add_items never raises: there is always room for the next label. */
    method AppendLocked(memory: string, vector: Vector)
      requires |index.vectors| == nextLabel <= index.capacity && index.capacity > 0
      modifies `index, `nextLabel, `labelToMemory, `memoryToLabels, `active
      ensures AsState() == Appended(old(AsState()), memory, vector)
    {
      if nextLabel >= index.capacity {
        index := index.Resize(index.capacity * 2);
      }
      var lbl := nextLabel;
      nextLabel := nextLabel + 1;
      index := index.Add(lbl, vector);
      labelToMemory := labelToMemory[lbl := memory];
      var labels := if memory in memoryToLabels then memoryToLabels[memory] else [];
      memoryToLabels := memoryToLabels[memory := labels + [lbl]];
      active := active + 1;
    }

    method Remove(memory: string)
      requires Valid()
      modifies this
      ensures Valid() && AsState() == Removed(old(AsState()), memory)
      ensures contents == old(contents) - {memory}
    {
      ghost var after := RemovedWell(AsState(), memory);
      RemoveLocked(memory);
      assert AsState() == after;
      contents := contents - {memory};
    }

    /** The locked phase of search: the nearest labels and their distances. */
    method LockedPhase(q: Vector, k: nat)
      returns (labels: seq<nat>, distances: seq<real>, ghost scored: seq<(string, real)>)
      requires Valid()
      ensures IsKnn(index, distance, q, |labels|, labels)
      ensures AllLive(AsState(), labels) && scored == Snapshot(AsState(), distance, q, labels)
      ensures |distances| == |scored| && forall i :: 0 <= i < |scored| ==> distances[i] == scored[i].1
      ensures IsNearest(contents, distance, q, k, scored)
    {
      SizeOfContents(AsState());
      labels, distances := [], [];
      if active > 0 {
        labels := KnnQuery(index, distance, q, if k <= active then k else active);
        KnnIsLive(AsState(), distance, q, labels);
        var vectors, found := index.vectors, labels;
        distances := seq(|found|, i requires 0 <= i < |found| && found[i] in vectors => distance(q, vectors[found[i]]));
      }
      SnapshotIsNearest(AsState(), distance, q, k, labels);
      scored := Snapshot(AsState(), distance, q, labels);
    }

    /** One round of the unlocked loop of search: a label that no longer resolves is skipped. */
    method LookUpLabel(lbl: nat, distance: real) returns (found: seq<(string, real)>)
      ensures found == Found(labelToMemory, lbl, distance)
    {
      found := if lbl in labelToMemory then [(labelToMemory[lbl], distance)] else [];
    }

    /** The unlocked loop of search, in a state that stays: exactly the labels that resolve are
        answered, in order, by their owners with the distances scored for them. */
    method UnlockedPhase(labels: seq<nat>, distances: seq<real>) returns (out: seq<(string, real)>)
      requires |labels| == |distances|
      ensures ResolvesExactly(labelToMemory, labels, distances, |labels|,
                              ResolvingAt(labelToMemory, labels, |labels|), out)
    {
      out := [];
      for i := 0 to |labels|
        invariant out == Resolved(labelToMemory, labels, distances, i)
      {
        var found := LookUpLabel(labels[i], distances[i]);
        out := out + found;
      }
      ResolvedIsExact(labelToMemory, labels, distances, |labels|);
    }

    /** search, when nothing is written between its two phases. */
    method Search(q: Vector, k: nat) returns (out: seq<(string, real)>)
      requires Valid()
      ensures IsNearest(contents, distance, q, k, out)
    {
      var labels, distances;
      ghost var scored;
      labels, distances, scored := LockedPhase(q, k);
      out := UnlockedPhase(labels, distances);
      UndisturbedIsAll(AsState(), distance, q, labels, distances, out);
    }

    /** One write of another thread. */
    method Write(op: Op)
      requires Valid()
      modifies this
      ensures Valid() && AsState() == Step(old(AsState()), op)
    {
      match op {
        case AddOp(m, v) => Add(m, v);
        case RemoveOp(m) => Remove(m);
      }
    }

    method WriteAll(ops: seq<Op>)
      requires Valid()
      modifies this
      ensures Valid() && AsState() == Run(old(AsState()), ops)
    {
      for i := 0 to |ops|
        invariant Valid() && AsState() == Run(old(AsState()), ops[..i])
      {
        assert ops[..i + 1][..i] == ops[..i];
        Write(ops[i]);
      }
      assert ops[..|ops|] == ops;
    }

    /** search, when other threads write schedule[i] before label i is looked up: the answer
        scored under the lock, less exactly the memories written before their turn. */
    method SearchAmongWrites(q: Vector, k: nat, schedule: seq<seq<Op>>)
      returns (out: seq<(string, real)>, ghost scored: seq<(string, real)>)
      requires Valid() && |schedule| == |contents|
      modifies this
      ensures IsNearest(old(contents), distance, q, k, scored)
      ensures |scored| <= |schedule|
      ensures LeavesOutWritten(scored, schedule, |scored|, KeptAt(scored, schedule, |scored|), out)
    {
      var labels, distances;
      labels, distances, scored := LockedPhase(q, k);
      InterleavedSearchNeverMixesMemories(AsState(), distance, q, labels, distances, schedule);
      out := ResolveAmongWrites(labels, distances, schedule);
    }

    /** The unlocked loop of search among those writes. */
    method ResolveAmongWrites(labels: seq<nat>, distances: seq<real>, schedule: seq<seq<Op>>)
      returns (out: seq<(string, real)>)
      requires Valid() && |labels| == |distances| <= |schedule|
      modifies this
      ensures out == Unlocked(Views(old(AsState()), schedule), labels, distances, |labels|)
    {
      ghost var s, views := AsState(), Views(AsState(), schedule);
      out := [];
      for i := 0 to |labels|
        invariant Valid() && AsState() == Run(s, Flat(schedule, i))
        invariant out == Unlocked(views, labels, distances, i)
      {
        ViewAt(s, schedule, i);
        RunTwice(s, Flat(schedule, i), schedule[i]);
        WriteAll(schedule[i]);
        var found := LookUpLabel(labels[i], distances[i]);
        out := out + found;
      }
    }
  }

  /** Among the first n labels exactly those at the ascending positions `at` resolve, and `out`
      lists their owners with their distances. */
  ghost predicate ResolvesExactly(owners: map<nat, string>, labels: seq<nat>, distances: seq<real>, n: nat,
                                  at: seq<nat>, out: seq<(string, real)>)
    requires |labels| == |distances| && n <= |labels|
  {
    && |out| == |at| && Ascending(at, n)
    && (forall i :: 0 <= i < |at| ==> ResolvesTo(owners, labels, distances, at[i], out[i]))
    && (forall p :: 0 <= p < n && labels[p] in owners ==> p in at)
  }

  ghost predicate ResolvesTo(owners: map<nat, string>, labels: seq<nat>, distances: seq<real>, p: nat,
                             pair: (string, real))
    requires |labels| == |distances|
  {
    p < |labels| && labels[p] in owners && pair == (owners[labels[p]], distances[p])
  }

  ghost function Resolved(owners: map<nat, string>, labels: seq<nat>, distances: seq<real>, n: nat)
    : seq<(string, real)>
    requires |labels| == |distances| && n <= |labels|
  {
    if n == 0 then []
    else Resolved(owners, labels, distances, n - 1) + Found(owners, labels[n - 1], distances[n - 1])
  }

  lemma OneMoreResolves(owners: map<nat, string>, labels: seq<nat>, distances: seq<real>, n: nat,
                        at: seq<nat>, out: seq<(string, real)>)
    requires |labels| == |distances| && n < |labels|
    requires ResolvesExactly(owners, labels, distances, n, at, out)
    ensures ResolvesExactly(owners, labels, distances, n + 1, at + if labels[n] in owners then [n] else [],
                            out + Found(owners, labels[n], distances[n]))
  {
    AscendingSnoc(at, n);
    if labels[n] in owners {
      assert ResolvesTo(owners, labels, distances, n, (owners[labels[n]], distances[n]));
    } else {
      assert out + Found(owners, labels[n], distances[n]) == out && at + [] == at;
    }
  }

  /** The positions of the labels that resolve. */
  ghost function ResolvingAt(owners: map<nat, string>, labels: seq<nat>, n: nat): seq<nat>
    requires n <= |labels|
  {
    if n == 0 then []
    else ResolvingAt(owners, labels, n - 1) + if labels[n - 1] in owners then [n - 1] else []
  }

  lemma {:induction false} ResolvedIsExact(owners: map<nat, string>, labels: seq<nat>, distances: seq<real>, n: nat)
    requires |labels| == |distances| && n <= |labels|
    ensures ResolvesExactly(owners, labels, distances, n, ResolvingAt(owners, labels, n),
                            Resolved(owners, labels, distances, n))
  {
    if n > 0 {
      ResolvedIsExact(owners, labels, distances, n - 1);
      OneMoreResolves(owners, labels, distances, n - 1, ResolvingAt(owners, labels, n - 1),
                      Resolved(owners, labels, distances, n - 1));
    }
  }

  lemma {:induction false} AscendingAll(at: seq<nat>, n: nat)
    requires Ascending(at, n) && forall p :: 0 <= p < n ==> p in at
    ensures |at| == n && forall i :: 0 <= i < n ==> at[i] == i
  {
    if n == 0 {
      AscendingIsShort(at, n);
    } else {
      assert n - 1 in at;
      var init := at[..|at| - 1];
      assert at[|at| - 1] == n - 1;
      forall p | 0 <= p < n - 1 ensures p in init {
        assert p in at;
        var i :| 0 <= i < |at| && at[i] == p;
        assert init[i] == p;
      }
      AscendingAll(init, n - 1);
    }
  }

  /** Without writes every label still resolves, so the whole locked answer comes back. */
  lemma {:induction false} UndisturbedIsAll(s: State, dist: Distance, q: Vector, labels: seq<nat>, distances: seq<real>,
                                            out: seq<(string, real)>)
    requires AllLive(s, labels) && |distances| == |labels|
    requires forall i :: 0 <= i < |labels| ==> distances[i] == Snapshot(s, dist, q, labels)[i].1
    requires ResolvesExactly(s.labelToMemory, labels, distances, |labels|,
                             ResolvingAt(s.labelToMemory, labels, |labels|), out)
    ensures out == Snapshot(s, dist, q, labels)
  {
    AscendingAll(ResolvingAt(s.labelToMemory, labels, |labels|), |labels|);
  }

  /** When `ops` are written between the two phases, what the unlocked one returns is the
      locked answer, less exactly the pairs of the memories among them. */
  lemma {:induction false} WritesBetweenThePhases(s: State, dist: Distance, q: Vector, labels: seq<nat>,
                                                  distances: seq<real>, ops: seq<Op>, at: seq<nat>,
                                                  out: seq<(string, real)>)
    requires s.Valid() && IsKnn(s.index, dist, q, |labels|, labels) && |distances| == |labels|
    requires forall i :: 0 <= i < |labels| ==> distances[i] == dist(q, s.index.vectors[labels[i]])
    requires ResolvesExactly(Run(s, ops).labelToMemory, labels, distances, |labels|, at, out)
    ensures AllLive(s, labels) && |out| == |at|
    ensures forall i :: 0 <= i < |at| ==> at[i] < |labels| && out[i] == Snapshot(s, dist, q, labels)[at[i]]
    ensures forall i, j :: 0 <= i < j < |at| ==> at[i] < at[j]
    ensures forall p :: 0 <= p < |labels| ==>
              (p in at <==> forall o :: 0 <= o < |ops| ==> ops[o].memory != s.labelToMemory[labels[p]])
  {
    KnnIsLive(s, dist, q, labels);
    assert forall i :: 0 <= i < |at| ==> ResolvesTo(Run(s, ops).labelToMemory, labels, distances, at[i], out[i]);
    forall p | 0 <= p < |labels|
      ensures KeepsLabel(s, Run(s, ops), labels[p], Targets(ops))
    {
      RunKeepsLabels(s, ops, labels[p]);
    }
  }

  /** The rows of the hydration query, loaded in order. */
  function Loaded(rows: seq<(string, Vector)>): map<string, Vector> {
    if rows == [] then map[] else Loaded(rows[..|rows| - 1])[rows[|rows| - 1].0 := rows[|rows| - 1].1]
  }

  /** A memory embedded in several chunks keeps only the vector of its last row. */
  lemma {:induction false} LastRowWins(rows: seq<(string, Vector)>, m: string)
    ensures m in Loaded(rows) <==> exists i :: 0 <= i < |rows| && rows[i].0 == m
    ensures forall i :: 0 <= i < |rows| && rows[i].0 == m && (forall j :: i < j < |rows| ==> rows[j].0 != m)
              ==> m in Loaded(rows) && Loaded(rows)[m] == rows[i].1
    decreases |rows|
  {
    if rows != [] {
      var init, last := rows[..|rows| - 1], rows[|rows| - 1];
      LastRowWins(init, m);
      assert forall i :: 0 <= i < |init| ==> init[i] == rows[i];
      assert last.0 == m ==> rows[|init|].0 == m;
    }
  }

  /** The per-org caches; `available` is the enabled flag together with hnswlib being importable. */
  class Cache {
    const distance: Distance
    const available: bool
    var orgs: map<string, OrgIndex>
    var models: map<string, string>

    /** What is cached: per hydrated org the model and the plain map. */
    ghost var view: map<string, (string, map<string, Vector>)>

    ghost predicate ValidAt(o: string)
      requires o in orgs
      reads this, orgs.Values
    {
      && orgs[o].Valid() && orgs[o].distance == distance
      && o in models && o in view && view[o] == (models[o], orgs[o].contents)
    }

    ghost predicate Valid()
      reads this, orgs.Values
    {
      && orgs.Keys == models.Keys == view.Keys
      && (forall o :: o in orgs ==> ValidAt(o))
      && (forall o, p :: o in orgs && p in orgs && o != p ==> orgs[o] != orgs[p])
    }

    constructor (distance: Distance, available: bool)
      ensures Valid() && view == map[] && this.distance == distance && this.available == available
    {
      this.distance, this.available := distance, available;
      orgs, models, view := map[], map[], map[];
    }

    /** Drop the org's index. */
    method Invalidate(org: string)
      requires Valid()
      modifies this
      ensures Valid() && view == old(view) - {org} && orgs.Values <= old(orgs.Values)
    {
      assert forall o :: o in orgs && o != org ==> ValidAt(o);
      orgs := orgs - {org};
      models := models - {org};
      view := view - {org};
    }

    /** The index that hydration builds from the selected rows. */
    method Hydrated(rows: seq<(string, Vector)>) returns (index: OrgIndex)
      ensures fresh(index) && index.Valid() && index.distance == distance
      ensures index.contents == Loaded(rows)
    {
      index := new OrgIndex(distance);
      for i := 0 to |rows|
        invariant fresh(index) && index.Valid() && index.distance == distance
        invariant index.contents == Loaded(rows[..i])
      {
        assert rows[..i + 1][..i] == rows[..i];
        index.Add(rows[i].0, rows[i].1);
      }
      assert rows[..|rows|] == rows;
    }

    method Install(org: string, model: string, index: OrgIndex)
      requires Valid() && index.Valid() && index.distance == distance
      requires org !in orgs && index !in orgs.Values
      modifies this
      ensures Valid() && view == old(view)[org := (model, index.contents)]
    {
      assert forall o :: o in orgs ==> ValidAt(o);
      orgs := orgs[org := index];
      models := models[org := model];
      view := view[org := (model, index.contents)];
    }

    /** Build and install the index of an org that has none. */
    method Hydrate(org: string, model: string, rows: seq<(string, Vector)>)
      requires Valid() && org !in orgs
      modifies this
      ensures Valid() && view == old(view)[org := (model, Loaded(rows))]
    {
      var index := Hydrated(rows);
      assert forall o :: o in orgs ==> old(ValidAt(o)) && ValidAt(o);
      Install(org, model, index);
    }

    /** ensure_hydrated; `rows` is what the query returns if it is run. */
    method EnsureHydrated(org: string, model: string, rows: seq<(string, Vector)>)
      requires Valid()
      modifies this
      ensures Valid()
      ensures view == if !available || (org in old(view) && old(view)[org].0 == model)
                      then old(view)
                      else old(view)[org := (model, Loaded(rows))]
    {
      if available {
        ReplaceKey(view, org, (model, Loaded(rows)));
        assert org in orgs ==> ValidAt(org);
        if org in models && models[org] != model {
          Invalidate(org);
        }
        if org !in orgs {
          Hydrate(org, model, rows);
        }
      }
    }

    // What the cache needs to know of an index it writes to.

    static method WriteTo(index: OrgIndex, memory: string, vector: Vector)
      requires index.Valid()
      modifies index
      ensures index.Valid() && index.contents == old(index.contents)[memory := vector]
    {
      index.Add(memory, vector);
    }

    static method EraseFrom(index: OrgIndex, memory: string)
      requires index.Valid()
      modifies index
      ensures index.Valid() && index.contents == old(index.contents) - {memory}
    {
      index.Remove(memory);
    }

    /** Writing one index soundly keeps the cache sound. */
    twostate lemma OneIndexWritten(org: string)
      requires old(Valid()) && orgs == old(orgs) && models == old(models)
      requires org in orgs && orgs[org].Valid() && unchanged(set o | o in orgs && o != org :: orgs[o])
      requires view == old(view)[org := (models[org], orgs[org].contents)]
      ensures Valid()
    {
      forall o | o in orgs && o != org ensures ValidAt(o) {
        assert old(orgs[o] != orgs[org]);
        OtherIndexStays(o);
      }
      assert old(ValidAt(org));
    }

    twostate lemma OtherIndexStays(o: string)
      requires orgs == old(orgs) && models == old(models) && o in orgs && old(ValidAt(o))
      requires unchanged(orgs[o]) && o in view && view[o] == old(view)[o]
      ensures ValidAt(o)
    {
    }

    /** Write-through insert or replace; nothing for an org that is not hydrated. */
    method Add(org: string, memory: string, vector: Vector)
      requires Valid()
      modifies `view, if org in orgs then {orgs[org]} else {}
      ensures Valid()
      ensures view == if org in old(view)
                      then old(view)[org := (old(view)[org].0, old(view)[org].1[memory := vector])]
                      else old(view)
    {
      if org in orgs {
        assert ValidAt(org);
        WriteTo(orgs[org], memory, vector);
        view := view[org := (models[org], orgs[org].contents)];
        OneIndexWritten(org);
      }
    }

    method Remove(org: string, memory: string)
      requires Valid()
      modifies `view, if org in orgs then {orgs[org]} else {}
      ensures Valid()
      ensures view == if org in old(view)
                      then old(view)[org := (old(view)[org].0, old(view)[org].1 - {memory})]
                      else old(view)
    {
      if org in orgs {
        assert ValidAt(org);
        EraseFrom(orgs[org], memory);
        view := view[org := (models[org], orgs[org].contents)];
        OneIndexWritten(org);
      }
    }

    /** Candidates of the org itself and of no other, or None when there is no index. */
    method Search(org: string, q: Vector, k: nat) returns (out: Option<seq<(string, real)>>)
      requires Valid()
      ensures out.Some? <==> available && org in view
      ensures out.Some? ==> IsNearest(view[org].1, distance, q, k, out.value)
    {
      if !available || org !in orgs {
        return None;
      }
      assert ValidAt(org);
      var found := orgs[org].Search(q, k);
      out := Some(found);
    }
  }
}
