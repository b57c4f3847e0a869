/** Retention enforcement (src/teamshared/admin/retention.py): a list of age and
    top-N policies soft-deletes the active rows of one table, one policy after
    another, so that the ranks a policy sees depend on what earlier ones deleted. */
module Retention {
  import opened Wrappers
  import Sets

  const DAY: int := 86_400_000_000  // microseconds

  datatype Status = Active | PendingApproval | Quarantined | SoftDeleted

  datatype Row = Row(createdAt: int, kind: string, status: Status, deletedAt: Option<int>, updatedAt: int)

  type Table = map<nat, Row>

  datatype Policy = Policy(
    id: string, name: string, maxAgeDays: Option<int>, maxItems: Option<int>, kinds: seq<string>)

  datatype PolicyResult = PolicyResult(policyId: string, name: string, matched: nat)

  function ActiveIds(t: Table): set<nat> {
    set i | i in t && t[i].status == Active
  }

  /** The rows one policy looks at: active, and of its kinds (all kinds when it lists none). */
  function Eligible(t: Table, p: Policy): set<nat> {
    set i | i in t && t[i].status == Active && (p.kinds == [] || t[i].kind in p.kinds)
  }

  /** ORDER BY created_at DESC, id DESC */
  predicate Newer(t: Table, a: nat, b: nat)
    requires a in t && b in t
  {
    t[a].createdAt > t[b].createdAt || (t[a].createdAt == t[b].createdAt && a > b)
  }

  /** The rows of s numbered up to and including i. */
  function Ahead(t: Table, s: set<nat>, i: nat): set<nat>
    requires s <= t.Keys && i in s
  {
    set j | j in s && (j == i || Newer(t, j, i))
  }

  /** row_number() of i among the rows of s. */
  function Rank(t: Table, s: set<nat>, i: nat): nat
    requires s <= t.Keys && i in s
  {
    |Ahead(t, s, i)|
  }

  predicate TooOld(t: Table, p: Policy, now: int, i: nat)
    requires i in t
  {
    p.maxAgeDays.Some? && t[i].createdAt < now - p.maxAgeDays.value * DAY
  }

  predicate OverRank(t: Table, p: Policy, i: nat)
    requires i in Eligible(t, p)
  {
    p.maxItems.Some? && Rank(t, Eligible(t, p), i) > p.maxItems.value
  }

  /** The UNION of the two candidate queries; empty when the policy has neither limit. */
  function Candidates(t: Table, p: Policy, now: int): set<nat> {
    set i | i in Eligible(t, p) && (TooOld(t, p, now, i) || OverRank(t, p, i))
  }

  function SoftDelete(t: Table, ids: set<nat>, now: int): Table {
    map i | i in t ::
      if i in ids && t[i].status == Active
      then t[i].(status := SoftDeleted, deletedAt := Some(now), updatedAt := now)
      else t[i]
  }

  function ApplyAll(t: Table, ps: seq<Policy>, now: int): Table {
    if ps == [] then t
    else
      var before := ApplyAll(t, ps[..|ps| - 1], now);
      SoftDelete(before, Candidates(before, ps[|ps| - 1], now), now)
  }

  /** What one policy reports: in a dry run against the untouched table, otherwise
      against the table its predecessors left behind. */
  function Matched(t: Table, ps: seq<Policy>, now: int, dryRun: bool, i: nat): nat
    requires i < |ps|
  {
    |Candidates(if dryRun then t else ApplyAll(t, ps[..i], now), ps[i], now)|
  }

  function Sum(xs: seq<nat>): nat {
    if xs == [] then 0 else Sum(xs[..|xs| - 1]) + xs[|xs| - 1]
  }

  /** What a policy promises about a table. */
  ghost predicate Holds(t: Table, p: Policy, now: int) {
    && (p.maxAgeDays.Some? ==> forall i :: i in Eligible(t, p) ==> t[i].createdAt >= now - p.maxAgeDays.value * DAY)
    && (p.maxItems.Some? ==> |Eligible(t, p)| <= if p.maxItems.value < 0 then 0 else p.maxItems.value)
  }

  /** `after` is `before` with some active rows deactivated. */
  ghost predicate Shrunk(before: Table, after: Table) {
    && before.Keys == after.Keys
    && forall i :: i in before ==>
         && after[i].createdAt == before[i].createdAt && after[i].kind == before[i].kind
         && (after[i].status == Active ==> before[i].status == Active)
  }

  class MemoryItems {
    var table: Table

    constructor (rows: Table)
      ensures table == rows
    {
      table := rows;
    }

    /** enforce_retention; the sum of the matched counts is the `soft_deleted` or
        `would_soft_delete` of the report. */
    method EnforceRetention(policies: seq<Policy>, now: int, dryRun: bool)
      returns (softDeleted: nat, wouldSoftDelete: nat, results: seq<PolicyResult>)
      modifies this
      ensures table == if dryRun then old(table) else ApplyAll(old(table), policies, now)
      ensures results == Results(old(table), policies, now, dryRun, |policies|)
      ensures softDeleted == if dryRun then 0 else Sum(Report(old(table), policies, now, dryRun))
      ensures wouldSoftDelete == if dryRun then Sum(Report(old(table), policies, now, dryRun)) else 0
    {
      results := [];
      var total := 0;
      ghost var report := Report(table, policies, now, dryRun);
      for n := 0 to |policies|
        invariant table == if dryRun then old(table) else ApplyAll(old(table), policies[..n], now)
        invariant results == Results(old(table), policies, now, dryRun, n)
        invariant total == Sum(report[..n])
      {
        var p := policies[n];
        OneMorePolicy(old(table), policies, now, n);
        SumOfPrefix(report, n);
        var matched := EnforceOne(p, now, dryRun);
        results := results + [PolicyResult(p.id, p.name, matched)];
        total := total + matched;
      }
      WholePrefix(policies);
      WholePrefix(report);
      softDeleted := if dryRun then 0 else total;
      wouldSoftDelete := if dryRun then total else 0;
    }

    /** The body of the loop: one policy on the table as it stands. */
    method EnforceOne(p: Policy, now: int, dryRun: bool) returns (matched: nat)
      modifies this
      ensures matched == |Candidates(old(table), p, now)|
      ensures table == if dryRun then old(table) else SoftDelete(old(table), Candidates(old(table), p, now), now)
    {
      if p.maxAgeDays.None? && p.maxItems.None? {
        UnlimitedPolicyMatchesNothing(table, p, now);
        return 0;
      }
      var candidates := Candidates(table, p, now);
      matched := |candidates|;
      if !dryRun {
        table := SoftDelete(table, candidates, now);
      }
    }
  }

  lemma WholePrefix<T>(xs: seq<T>)
    ensures xs[..|xs|] == xs
  {
  }

  lemma {:induction false} OneMorePolicy(t: Table, ps: seq<Policy>, now: int, n: nat)
    requires n < |ps|
    ensures var u := ApplyAll(t, ps[..n], now);
            ApplyAll(t, ps[..n + 1], now) == SoftDelete(u, Candidates(u, ps[n], now), now)
  {
    assert ps[..n + 1][..n] == ps[..n];
  }

  /** The entries of the report for the first n policies. */
  function Results(t: Table, ps: seq<Policy>, now: int, dryRun: bool, n: nat): seq<PolicyResult>
    requires n <= |ps|
  {
    if n == 0 then []
    else Results(t, ps, now, dryRun, n - 1) + [ResultOf(t, ps, now, dryRun, n - 1)]
  }

  function ResultOf(t: Table, ps: seq<Policy>, now: int, dryRun: bool, i: nat): PolicyResult
    requires i < |ps|
  {
    PolicyResult(ps[i].id, ps[i].name, Matched(t, ps, now, dryRun, i))
  }

  lemma {:induction false} ResultAt(t: Table, ps: seq<Policy>, now: int, dryRun: bool, n: nat, i: nat)
    requires i < n <= |ps|
    ensures |Results(t, ps, now, dryRun, n)| == n
    ensures Results(t, ps, now, dryRun, n)[i] == ResultOf(t, ps, now, dryRun, i)
    decreases n
  {
    if n > 1 {
      ResultAt(t, ps, now, dryRun, n - 1, if i < n - 1 then i else 0);
    }
  }

  /** The report has one entry per policy, in their order, with its id, its name and its count. */
  lemma {:induction false} ResultsNamePolicies(t: Table, ps: seq<Policy>, now: int, dryRun: bool, i: nat)
    requires i < |ps|
    ensures var results := Results(t, ps, now, dryRun, |ps|);
            && |results| == |ps|
            && results[i].policyId == ps[i].id && results[i].name == ps[i].name
            && results[i].matched == Report(t, ps, now, dryRun)[i]
  {
    ResultAt(t, ps, now, dryRun, |ps|, i);
  }

  lemma SumOfPrefix(xs: seq<nat>, n: nat)
    requires n < |xs|
    ensures Sum(xs[..n + 1]) == Sum(xs[..n]) + xs[n]
  {
    assert xs[..n + 1][..n] == xs[..n];
  }

  lemma UnlimitedPolicyMatchesNothing(t: Table, p: Policy, now: int)
    requires p.maxAgeDays.None? && p.maxItems.None?
    ensures Candidates(t, p, now) == {} && SoftDelete(t, {}, now) == t
  {
  }

  // ---- one policy ----

  lemma SoftDeleteShrinks(t: Table, ids: set<nat>, now: int)
    ensures Shrunk(t, SoftDelete(t, ids, now))
    ensures ActiveIds(SoftDelete(t, ids, now)) == ActiveIds(t) - ids
  {
  }

  /** What one policy selects: an active row of its kinds that is past the age limit, or that
      has at least as many newer rows of those kinds as the policy lets live. */
  lemma SelectedIff(t: Table, p: Policy, now: int, i: nat)
    ensures i in Candidates(t, p, now) <==>
            && i in t && t[i].status == Active && (p.kinds == [] || t[i].kind in p.kinds)
            && ((p.maxAgeDays.Some? && t[i].createdAt < now - p.maxAgeDays.value * 86_400_000_000)
                || (p.maxItems.Some? && p.maxItems.value <=
                      |set j | j in t && t[j].status == Active && (p.kinds == [] || t[j].kind in p.kinds)
                        && (t[j].createdAt > t[i].createdAt || (t[j].createdAt == t[i].createdAt && j > i))|))
  {
    if i in Eligible(t, p) {
      var newer := set j | j in t && t[j].status == Active && (p.kinds == [] || t[j].kind in p.kinds)
        && (t[j].createdAt > t[i].createdAt || (t[j].createdAt == t[i].createdAt && j > i));
      assert Ahead(t, Eligible(t, p), i) == newer + {i};
    }
  }

  /** Rows are deactivated in place: one that was active and no longer is has been soft-deleted
      at `now` with its other fields as before, and every other row is as it was. */
  ghost predicate SoftDeletedInPlace(before: Table, after: Table, now: int) {
    && after.Keys == before.Keys
    && forall i :: i in before ==>
         after[i] == if before[i].status == Active && after[i].status != Active
                     then Row(before[i].createdAt, before[i].kind, SoftDeleted, Some(now), now)
                     else before[i]
  }

  /** An applied run does nothing to a row but soft-delete it. */
  lemma {:induction false} RunSoftDeletesInPlace(t: Table, ps: seq<Policy>, now: int)
    ensures SoftDeletedInPlace(t, ApplyAll(t, ps, now), now)
    decreases |ps|
  {
    if ps != [] {
      RunSoftDeletesInPlace(t, ps[..|ps| - 1], now);
    }
  }

  /** Rank only falls as rows vanish, so whatever is a candidate later was one from the start. */
  lemma CandidatesOnlyShrink(before: Table, after: Table, p: Policy, now: int)
    requires Shrunk(before, after)
    ensures Eligible(after, p) <= Eligible(before, p)
    ensures Candidates(after, p, now) <= Candidates(before, p, now)
  {
    forall i | i in Candidates(after, p, now)
      ensures i in Candidates(before, p, now)
    {
      Sets.SubsetSize(Ahead(after, Eligible(after, p), i), Ahead(before, Eligible(before, p), i));
    }
  }

  lemma HoldsIsKept(before: Table, after: Table, p: Policy, now: int)
    requires Shrunk(before, after) && Holds(before, p, now)
    ensures Holds(after, p, now)
  {
    CandidatesOnlyShrink(before, after, p, now);
    Sets.SubsetSize(Eligible(after, p), Eligible(before, p));
  }

  lemma HasNewest(t: Table, s: set<nat>) returns (top: nat)
    requires s != {} && s <= t.Keys
    ensures top in s && forall j :: j in s && j != top ==> Newer(t, top, j)
  {
    var first :| first in s;
    top := first;
    if s == {first} {
    } else {
      var best := HasNewest(t, s - {first});
      top := if Newer(t, best, first) then best else first;
      forall j | j in s && j != top ensures Newer(t, top, j) {
        if j != first {
          assert j in s - {first};
        }
      }
    }
  }

  ghost function TopRanked(t: Table, s: set<nat>, n: int): set<nat>
    requires s <= t.Keys
  {
    set i | i in s && Rank(t, s, i) <= n
  }

  /** The newest row has rank 1 and leaving it out lowers every other rank by one. */
  lemma NewestShiftsRanks(t: Table, s: set<nat>, top: nat, n: int)
    requires s <= t.Keys && top in s && n >= 1
    requires forall j :: j in s && j != top ==> Newer(t, top, j)
    ensures TopRanked(t, s, n) == TopRanked(t, s - {top}, n - 1) + {top}
  {
    var rest := s - {top};
    assert Ahead(t, s, top) == {top};
    forall i | i in rest ensures Rank(t, s, i) == Rank(t, rest, i) + 1 {
      assert Ahead(t, s, i) == Ahead(t, rest, i) + {top};
    }
  }

  /** row_number() numbers s from 1 to |s|: exactly min(n, |s|) rows have rank at most n. */
  lemma {:induction false} RankCounts(t: Table, s: set<nat>, n: int)
    requires s <= t.Keys
    ensures |TopRanked(t, s, n)| == if n < 0 then 0 else if n < |s| then n else |s|
    decreases |s|
  {
    if s == {} || n <= 0 {
      forall i | i in s ensures Rank(t, s, i) > 0 {
        assert i in Ahead(t, s, i);
      }
      assert TopRanked(t, s, n) == {};
    } else {
      var top := HasNewest(t, s);
      NewestShiftsRanks(t, s, top, n);
      RankCounts(t, s - {top}, n - 1);
    }
  }

  /** A table has no candidates for a policy exactly when the policy holds of it. */
  lemma {:induction false} NoCandidatesIffHolds(t: Table, p: Policy, now: int)
    ensures Candidates(t, p, now) == {} <==> Holds(t, p, now)
  {
    var s := Eligible(t, p);
    if Holds(t, p, now) {
      forall i | i in s ensures i !in Candidates(t, p, now) {
        Sets.SubsetSize(Ahead(t, s, i), s);
      }
    } else if Candidates(t, p, now) == {} {
      forall i | i in s ensures !TooOld(t, p, now, i) && !OverRank(t, p, i) {
        assert i !in Candidates(t, p, now);
      }
      if p.maxItems.Some? {
        assert TopRanked(t, s, p.maxItems.value) == s;
        RankCounts(t, s, p.maxItems.value);
      }
    }
  }

  /** Each policy deletes from the old end: whatever it keeps is newer than whatever it deletes. */
  lemma KeepsTheNewest(t: Table, p: Policy, now: int, kept: nat, deleted: nat)
    requires kept in Eligible(t, p) - Candidates(t, p, now)
    requires deleted in Candidates(t, p, now)
    ensures Newer(t, kept, deleted)
  {
    if !Newer(t, kept, deleted) {
      var s := Eligible(t, p);
      Sets.SubsetSize(Ahead(t, s, deleted), Ahead(t, s, kept));
      assert false;
    }
  }

  /** Applying a policy makes it hold, whatever the table. */
  lemma {:induction false} ApplyingEstablishes(t: Table, p: Policy, now: int)
    ensures Holds(SoftDelete(t, Candidates(t, p, now), now), p, now)
  {
    var dead := Candidates(t, p, now);
    var after := SoftDelete(t, dead, now);
    var s := Eligible(t, p);
    SoftDeleteShrinks(t, dead, now);
    assert Eligible(after, p) == s - dead;
    if p.maxItems.Some? {
      RankCounts(t, s, p.maxItems.value);
      Sets.SubsetSize(s - dead, TopRanked(t, s, p.maxItems.value));
    }
  }

  // ---- the whole run ----

  lemma {:induction false} ApplyAllShrinks(t: Table, ps: seq<Policy>, now: int)
    ensures Shrunk(t, ApplyAll(t, ps, now))
    decreases |ps|
  {
    if ps != [] {
      ApplyAllShrinks(t, ps[..|ps| - 1], now);
    }
  }

  /** After an applied run every policy holds at once, the ones processed first included. */
  lemma {:induction false} EveryPolicyHoldsAfterARun(t: Table, ps: seq<Policy>, now: int)
    ensures forall p :: p in ps ==> Holds(ApplyAll(t, ps, now), p, now)
    decreases |ps|
  {
    if ps != [] {
      var init, last := ps[..|ps| - 1], ps[|ps| - 1];
      var before := ApplyAll(t, init, now);
      EveryPolicyHoldsAfterARun(t, init, now);
      ApplyingEstablishes(before, last, now);
      SoftDeleteShrinks(before, Candidates(before, last, now), now);
      forall p | p in init ensures Holds(ApplyAll(t, ps, now), p, now) {
        HoldsIsKept(before, ApplyAll(t, ps, now), p, now);
      }
      assert ps == init + [last];
    }
  }

  lemma {:induction false} RunIsIdleIffAllHold(t: Table, ps: seq<Policy>, now: int)
    ensures (forall p :: p in ps ==> Holds(t, p, now)) <==> ApplyAll(t, ps, now) == t
    ensures (forall p :: p in ps ==> Holds(t, p, now)) ==>
              forall i :: 0 <= i < |ps| ==> Matched(t, ps, now, false, i) == 0
    decreases |ps|
  {
    EveryPolicyHoldsAfterARun(t, ps, now);
    if ps != [] && forall p :: p in ps ==> Holds(t, p, now) {
      var init, last := ps[..|ps| - 1], ps[|ps| - 1];
      RunIsIdleIffAllHold(t, init, now);
      NoCandidatesIffHolds(t, last, now);
      forall i | 0 <= i < |ps| ensures Matched(t, ps, now, false, i) == 0 {
        if i < |init| {
          assert init[..i] == ps[..i];
          assert Matched(t, init, now, false, i) == 0;
        }
      }
    }
  }

  /** A second run at the same instant matches nothing and changes nothing. */
  lemma {:induction false} SecondRunDeletesNothing(t: Table, ps: seq<Policy>, now: int)
    ensures var once := ApplyAll(t, ps, now);
            && ApplyAll(once, ps, now) == once
            && forall i :: 0 <= i < |ps| ==> Matched(once, ps, now, false, i) == 0
  {
    EveryPolicyHoldsAfterARun(t, ps, now);
    RunIsIdleIffAllHold(ApplyAll(t, ps, now), ps, now);
  }

  /** The dry run bounds the applied run, policy by policy. */
  lemma {:induction false} DryRunBoundsApply(t: Table, ps: seq<Policy>, now: int, i: nat)
    requires i < |ps|
    ensures Candidates(ApplyAll(t, ps[..i], now), ps[i], now) <= Candidates(t, ps[i], now)
    ensures Matched(t, ps, now, false, i) <= Matched(t, ps, now, true, i)
  {
    ApplyAllShrinks(t, ps[..i], now);
    CandidatesOnlyShrink(t, ApplyAll(t, ps[..i], now), ps[i], now);
    Sets.SubsetSize(Candidates(ApplyAll(t, ps[..i], now), ps[i], now), Candidates(t, ps[i], now));
  }

  lemma {:induction false} SumIsMonotone(a: seq<nat>, b: seq<nat>)
    requires |a| == |b| && forall i :: 0 <= i < |a| ==> a[i] <= b[i]
    ensures Sum(a) <= Sum(b)
    decreases |a|
  {
    if a != [] {
      SumIsMonotone(a[..|a| - 1], b[..|b| - 1]);
    }
  }

  function Report(t: Table, ps: seq<Policy>, now: int, dryRun: bool): (r: seq<nat>)
    ensures |r| == |ps| && forall i :: 0 <= i < |ps| ==> r[i] == Matched(t, ps, now, dryRun, i)
  {
    seq(|ps|, i requires 0 <= i < |ps| => Matched(t, ps, now, dryRun, i))
  }

  lemma {:induction false} DryRunTotalBoundsApply(t: Table, ps: seq<Policy>, now: int)
    ensures Sum(Report(t, ps, now, false)) <= Sum(Report(t, ps, now, true))
  {
    forall i | 0 <= i < |ps| ensures Matched(t, ps, now, false, i) <= Matched(t, ps, now, true, i) {
      DryRunBoundsApply(t, ps, now, i);
    }
    SumIsMonotone(Report(t, ps, now, false), Report(t, ps, now, true));
  }

  /** Conservation: the total an applied run reports is the number of rows it
      deactivated, so no row is counted by two policies. */
  lemma {:induction false} AppliedTotalIsTheLoss(t: Table, ps: seq<Policy>, now: int)
    ensures ActiveIds(ApplyAll(t, ps, now)) <= ActiveIds(t)
    ensures Sum(Report(t, ps, now, false)) == |ActiveIds(t)| - |ActiveIds(ApplyAll(t, ps, now))|
    decreases |ps|
  {
    if ps != [] {
      var init, last := ps[..|ps| - 1], ps[|ps| - 1];
      var before := ApplyAll(t, init, now);
      var dead := Candidates(before, last, now);
      AppliedTotalIsTheLoss(t, init, now);
      SoftDeleteShrinks(before, dead, now);
      assert dead <= ActiveIds(before);
      assert ActiveIds(before) == (ActiveIds(before) - dead) + dead;
      ReportOfPrefix(t, ps, now);
    }
  }

  /** The count of a policy is the number of rows its own turn deactivated in an applied run,
      and in a dry run the number it would deactivate if it were the only policy. */
  lemma {:induction false} CountsAreLosses(t: Table, ps: seq<Policy>, now: int, i: nat)
    requires i < |ps|
    ensures var before, after := ApplyAll(t, ps[..i], now), ApplyAll(t, ps[..i + 1], now);
            Matched(t, ps, now, false, i) == |ActiveIds(before) - ActiveIds(after)|
    ensures Matched(t, ps, now, true, i) == |ActiveIds(t) - ActiveIds(ApplyAll(t, [ps[i]], now))|
  {
    var before := ApplyAll(t, ps[..i], now);
    OneMorePolicy(t, ps, now, i);
    LossOfOne(before, ps[i], now);
    assert [ps[i]][..0] == [] && ApplyAll(t, [], now) == t;
    LossOfOne(t, ps[i], now);
  }

  lemma LossOfOne(t: Table, p: Policy, now: int)
    ensures ActiveIds(t) - ActiveIds(SoftDelete(t, Candidates(t, p, now), now)) == Candidates(t, p, now)
  {
    SoftDeleteShrinks(t, Candidates(t, p, now), now);
    CandidatesAreActive(t, p, now);
  }

  lemma ReportOfPrefix(t: Table, ps: seq<Policy>, now: int)
    requires ps != []
    ensures Report(t, ps, now, false)[..|ps| - 1] == Report(t, ps[..|ps| - 1], now, false)
  {
    var init := ps[..|ps| - 1];
    forall i | 0 <= i < |init| ensures Matched(t, init, now, false, i) == Matched(t, ps, now, false, i) {
      assert init[..i] == ps[..i];
    }
  }

  /** Every row an applied run deletes was announced by the dry run. */
  lemma {:induction false} DeletedRowsWereAnnounced(t: Table, ps: seq<Policy>, now: int, i: nat)
    requires i in ActiveIds(t) - ActiveIds(ApplyAll(t, ps, now))
    ensures exists p :: p in ps && i in Candidates(t, p, now)
    decreases |ps|
  {
    if ps != [] {
      var init, last := ps[..|ps| - 1], ps[|ps| - 1];
      var before := ApplyAll(t, init, now);
      SoftDeleteShrinks(before, Candidates(before, last, now), now);
      if i in ActiveIds(before) {
        DryRunBoundsApply(t, ps, now, |init|);
        assert last in ps;
      } else {
        DeletedRowsWereAnnounced(t, init, now, i);
      }
    }
  }

  // ---- when the dry run is exact ----

  ghost predicate NoneAnnouncedTwice(t: Table, ps: seq<Policy>, now: int) {
    forall i, j :: 0 <= i < j < |ps| ==> Candidates(t, ps[i], now) !! Candidates(t, ps[j], now)
  }

  /** Every row a policy announces that is still there when its turn comes is still selected. */
  ghost predicate NoneSpared(t: Table, ps: seq<Policy>, now: int) {
    forall i :: 0 <= i < |ps| ==> NoneSparedAt(t, ps, now, i)
  }

  ghost predicate NoneSparedAt(t: Table, ps: seq<Policy>, now: int, i: nat)
    requires i < |ps|
  {
    var left := ApplyAll(t, ps[..i], now);
    Candidates(t, ps[i], now) * ActiveIds(left) <= Candidates(left, ps[i], now)
  }

  ghost predicate SelectsTheSame(t: Table, ps: seq<Policy>, now: int, i: nat)
    requires i < |ps|
  {
    Candidates(ApplyAll(t, ps[..i], now), ps[i], now) == Candidates(t, ps[i], now)
  }

  lemma {:induction false} EqualSumsIff(a: seq<nat>, b: seq<nat>)
    requires |a| == |b| && forall i :: 0 <= i < |a| ==> a[i] <= b[i]
    ensures Sum(a) <= Sum(b) && (Sum(a) == Sum(b) <==> a == b)
    decreases |a|
  {
    if a != [] {
      var n := |a| - 1;
      EqualSumsIff(a[..n], b[..n]);
      assert a == a[..n] + [a[n]] && b == b[..n] + [b[n]];
    }
  }

  lemma SameCountIff(t: Table, ps: seq<Policy>, now: int, i: nat)
    requires i < |ps|
    ensures Matched(t, ps, now, false, i) == Matched(t, ps, now, true, i) <==> SelectsTheSame(t, ps, now, i)
  {
    DryRunBoundsApply(t, ps, now, i);
    Sets.SubsetSize(Candidates(ApplyAll(t, ps[..i], now), ps[i], now), Candidates(t, ps[i], now));
  }

  /** A row selected by policy i is gone by the turn of any later one. */
  lemma {:induction false} SelectedIsGone(t: Table, ps: seq<Policy>, now: int, i: nat, j: nat)
    requires i < j <= |ps|
    ensures Candidates(ApplyAll(t, ps[..i], now), ps[i], now) !! ActiveIds(ApplyAll(t, ps[..j], now))
    decreases j
  {
    var before := ApplyAll(t, ps[..j - 1], now);
    assert ps[..j][..j - 1] == ps[..j - 1];
    SoftDeleteShrinks(before, Candidates(before, ps[j - 1], now), now);
    if i < j - 1 {
      SelectedIsGone(t, ps, now, i, j - 1);
    }
  }

  lemma SameSelectionIff(t: Table, ps: seq<Policy>, now: int)
    ensures (forall i :: 0 <= i < |ps| ==> SelectsTheSame(t, ps, now, i))
            <==> NoneAnnouncedTwice(t, ps, now) && NoneSpared(t, ps, now)
  {
    if forall i :: 0 <= i < |ps| ==> SelectsTheSame(t, ps, now, i) {
      forall i, j | 0 <= i < j < |ps| ensures Candidates(t, ps[i], now) !! Candidates(t, ps[j], now) {
        SelectedIsGone(t, ps, now, i, j);
        assert SelectsTheSame(t, ps, now, i) && SelectsTheSame(t, ps, now, j);
      }
      forall i | 0 <= i < |ps| ensures NoneSparedAt(t, ps, now, i) {
        assert SelectsTheSame(t, ps, now, i);
      }
    }
    if NoneAnnouncedTwice(t, ps, now) && NoneSpared(t, ps, now) {
      forall i | 0 <= i < |ps| ensures SelectsTheSame(t, ps, now, i) {
        AnnouncedIsStillThere(t, ps, now, i);
        DryRunBoundsApply(t, ps, now, i);
        assert NoneSparedAt(t, ps, now, i);
      }
    }
  }

  lemma {:induction false} AnnouncedIsStillThere(t: Table, ps: seq<Policy>, now: int, i: nat)
    requires i < |ps| && NoneAnnouncedTwice(t, ps, now)
    ensures Candidates(t, ps[i], now) <= ActiveIds(ApplyAll(t, ps[..i], now))
  {
    forall r | r in Candidates(t, ps[i], now)
      ensures r in ActiveIds(ApplyAll(t, ps[..i], now)) || exists j :: 0 <= j < i && r in Candidates(t, ps[j], now)
    {
      if r !in ActiveIds(ApplyAll(t, ps[..i], now)) {
        GoneWasAnnouncedBefore(t, ps, now, i, r);
      }
    }
  }

  lemma {:induction false} GoneWasAnnouncedBefore(t: Table, ps: seq<Policy>, now: int, i: nat, r: nat)
    requires i <= |ps| && r in ActiveIds(t) - ActiveIds(ApplyAll(t, ps[..i], now))
    ensures exists j :: 0 <= j < i && r in Candidates(t, ps[j], now)
  {
    DeletedRowsWereAnnounced(t, ps[..i], now, r);
    var p :| p in ps[..i] && r in Candidates(t, p, now);
    var j :| 0 <= j < i && ps[..i][j] == p;
    assert ps[j] == p;
  }

  /** The dry run predicts the applied total exactly when no row is announced by two policies
      and no policy spares a row it announced. */
  lemma DryRunTotalIsExactIff(t: Table, ps: seq<Policy>, now: int)
    ensures Sum(Report(t, ps, now, false)) == Sum(Report(t, ps, now, true))
            <==> NoneAnnouncedTwice(t, ps, now) && NoneSpared(t, ps, now)
  {
    var a, b := Report(t, ps, now, false), Report(t, ps, now, true);
    forall i | 0 <= i < |ps| ensures a[i] <= b[i] && (a[i] == b[i] <==> SelectsTheSame(t, ps, now, i)) {
      SameCountIff(t, ps, now, i);
      DryRunBoundsApply(t, ps, now, i);
    }
    EqualSumsIff(a, b);
    SameSelectionIff(t, ps, now);
  }

  // ---- when the order of policies is immaterial ----

  /** Running p first leaves selected every row that q would select and p would not. */
  ghost predicate NoneRescued(t: Table, p: Policy, q: Policy, now: int) {
    Candidates(t, q, now) - Candidates(t, p, now)
      <= Candidates(SoftDelete(t, Candidates(t, p, now), now), q, now)
  }

  lemma SoftDeleteTwice(t: Table, a: set<nat>, b: set<nat>, now: int)
    ensures SoftDelete(SoftDelete(t, a, now), b, now) == SoftDelete(t, a + b, now)
  {
  }

  lemma DeletionsDiffer(t: Table, a: set<nat>, b: set<nat>, now: int)
    requires a <= ActiveIds(t) && b <= ActiveIds(t)
    ensures SoftDelete(t, a, now) == SoftDelete(t, b, now) <==> a == b
  {
    SoftDeleteShrinks(t, a, now);
    SoftDeleteShrinks(t, b, now);
    assert a == ActiveIds(t) - (ActiveIds(t) - a) && b == ActiveIds(t) - (ActiveIds(t) - b);
  }

  lemma CandidatesAreActive(t: Table, p: Policy, now: int)
    ensures Candidates(t, p, now) <= ActiveIds(t)
  {
  }

  /** What the second of two policies adds. */
  lemma {:induction false} SecondAdds(t: Table, p: Policy, q: Policy, now: int)
    ensures var a := Candidates(t, p, now);
            var b := Candidates(SoftDelete(t, a, now), q, now);
            && ApplyAll(t, [p, q], now) == SoftDelete(t, a + b, now)
            && a <= ActiveIds(t) && b <= Candidates(t, q, now) <= ActiveIds(t)
  {
    var a := Candidates(t, p, now);
    TwoStepRun(t, p, q, now);
    SoftDeleteTwice(t, a, Candidates(SoftDelete(t, a, now), q, now), now);
    SoftDeleteShrinks(t, a, now);
    CandidatesOnlyShrink(t, SoftDelete(t, a, now), q, now);
    CandidatesAreActive(t, p, now);
    CandidatesAreActive(t, q, now);
  }

  /** Two policies can be swapped exactly when neither rescues a row announced for the other. */
  lemma {:induction false} SwapIsImmaterialIff(t: Table, p: Policy, q: Policy, now: int)
    ensures ApplyAll(t, [p, q], now) == ApplyAll(t, [q, p], now)
            <==> NoneRescued(t, p, q, now) && NoneRescued(t, q, p, now)
  {
    var a, b := Candidates(t, p, now), Candidates(t, q, now);
    var b', a' := Candidates(SoftDelete(t, a, now), q, now), Candidates(SoftDelete(t, b, now), p, now);
    SecondAdds(t, p, q, now);
    SecondAdds(t, q, p, now);
    DeletionsDiffer(t, a + b', b + a', now);
    EqualUnionsIff(a, b, a', b');
  }

  lemma EqualUnionsIff(a: set<nat>, b: set<nat>, a': set<nat>, b': set<nat>)
    requires a' <= a && b' <= b
    ensures a + b' == b + a' <==> b - a <= b' && a - b <= a'
  {
    if a + b' == b + a' {
      assert forall x :: x in b - a ==> x in a + b';
      assert forall x :: x in a - b ==> x in b + a';
    }
  }

  lemma {:induction false} ApplyAllSnoc(t: Table, ps: seq<Policy>, p: Policy, now: int)
    ensures var u := ApplyAll(t, ps, now);
            ApplyAll(t, ps + [p], now) == SoftDelete(u, Candidates(u, p, now), now)
  {
    assert (ps + [p])[..|ps|] == ps;
  }

  lemma {:induction false} ApplyAllAppends(t: Table, ps: seq<Policy>, qs: seq<Policy>, now: int)
    ensures ApplyAll(t, ps + qs, now) == ApplyAll(ApplyAll(t, ps, now), qs, now)
    decreases |qs|
  {
    if qs == [] {
      assert ps + qs == ps;
    } else {
      var init, last := qs[..|qs| - 1], qs[|qs| - 1];
      ApplyAllAppends(t, ps, init, now);
      ApplyAllSnoc(t, ps + init, last, now);
      ApplyAllSnoc(ApplyAll(t, ps, now), init, last, now);
      assert ps + qs == (ps + init) + [last] && qs == init + [last];
    }
  }

  ghost predicate SwapsFreely(t: Table, before: seq<Policy>, p: Policy, q: Policy, now: int) {
    forall after :: ApplyAll(t, before + [p, q] + after, now) == ApplyAll(t, before + [q, p] + after, now)
  }

  /** In a list of policies two neighbours can be swapped, whatever policies follow, exactly
      when neither rescues a row for the other on the table their predecessors leave. */
  lemma {:induction false} NeighboursSwapIff(t: Table, before: seq<Policy>, p: Policy, q: Policy, now: int)
    ensures SwapsFreely(t, before, p, q, now)
            <==> var u := ApplyAll(t, before, now); NoneRescued(u, p, q, now) && NoneRescued(u, q, p, now)
  {
    var u := ApplyAll(t, before, now);
    SwapIsImmaterialIff(u, p, q, now);
    forall after ensures ApplyAll(t, before + [p, q] + after, now) == ApplyAll(ApplyAll(u, [p, q], now), after, now)
                 ensures ApplyAll(t, before + [q, p] + after, now) == ApplyAll(ApplyAll(u, [q, p], now), after, now)
    {
      ApplyAllAppends(t, before + [p, q], after, now);
      ApplyAllAppends(t, before + [q, p], after, now);
      ApplyAllAppends(t, before, [p, q], now);
      ApplyAllAppends(t, before, [q, p], now);
    }
    var none: seq<Policy> := [];
    assert ApplyAll(ApplyAll(u, [p, q], now), none, now) == ApplyAll(u, [p, q], now);
    assert ApplyAll(ApplyAll(u, [q, p], now), none, now) == ApplyAll(u, [q, p], now);
    assert SwapsFreely(t, before, p, q, now) ==>
      ApplyAll(t, before + [p, q] + none, now) == ApplyAll(t, before + [q, p] + none, now);
  }

  /** An age limit alone is never rescued from, and neither is a policy over other kinds: so
      only an item limit over shared kinds can make the order matter. */
  lemma OnlySharedItemLimitsRescue(t: Table, p: Policy, q: Policy, now: int)
    requires q.maxItems.None?
      || (p.kinds != [] && q.kinds != [] && forall k :: k in p.kinds ==> k !in q.kinds)
    ensures NoneRescued(t, p, q, now)
  {
    var a := Candidates(t, p, now);
    var one := SoftDelete(t, a, now);
    if q.maxItems.Some? {
      assert Eligible(one, q) == Eligible(t, q);
      forall i | i in Eligible(t, q) ensures Ahead(one, Eligible(one, q), i) == Ahead(t, Eligible(t, q), i) {
      }
    }
  }

  lemma {:induction false} TwoStepRun(t: Table, p: Policy, q: Policy, now: int)
    ensures var one := SoftDelete(t, Candidates(t, p, now), now);
            ApplyAll(t, [p, q], now) == SoftDelete(one, Candidates(one, q, now), now)
  {
    assert [p, q][..1] == [p] && [p][..0] == [];
    assert ApplyAll(t, [], now) == t;
  }

  /** The order of the policies matters: a newer row of kind "a" pushes an older row
      over the one-item limit only when the policy that bans "a" comes second. */
  lemma {:induction false} OrderMatters(t: Table, noneOfA: Policy, newestOnly: Policy)
    requires t == map[1 := Row(1, "b", Active, None, 0), 2 := Row(2, "a", Active, None, 0)]
    requires noneOfA == Policy("", "", None, Some(0), ["a"]) && newestOnly == Policy("", "", None, Some(1), [])
    ensures 1 in ActiveIds(ApplyAll(t, [noneOfA, newestOnly], 9))
    ensures 1 !in ActiveIds(ApplyAll(t, [newestOnly, noneOfA], 9))
  {
    BanFirst(t, noneOfA, newestOnly);
    TrimFirst(t, noneOfA, newestOnly);
  }

  lemma {:induction false} TrimFirst(t: Table, noneOfA: Policy, newestOnly: Policy)
    requires t == map[1 := Row(1, "b", Active, None, 0), 2 := Row(2, "a", Active, None, 0)]
    requires noneOfA == Policy("", "", None, Some(0), ["a"]) && newestOnly == Policy("", "", None, Some(1), [])
    ensures 1 !in ActiveIds(ApplyAll(t, [newestOnly, noneOfA], 9))
  {
    TwoStepRun(t, newestOnly, noneOfA, 9);
    var one := SoftDelete(t, Candidates(t, newestOnly, 9), 9);
    assert 1 in Candidates(t, newestOnly, 9) by {
      assert Eligible(t, newestOnly) == {1, 2};
      assert Ahead(t, {1, 2}, 1) == {1, 2};
    }
    SoftDeleteShrinks(t, Candidates(t, newestOnly, 9), 9);
    SoftDeleteShrinks(one, Candidates(one, noneOfA, 9), 9);
  }

  lemma {:induction false} BanFirst(t: Table, noneOfA: Policy, newestOnly: Policy)
    requires t == map[1 := Row(1, "b", Active, None, 0), 2 := Row(2, "a", Active, None, 0)]
    requires noneOfA == Policy("", "", None, Some(0), ["a"]) && newestOnly == Policy("", "", None, Some(1), [])
    ensures 1 in ActiveIds(ApplyAll(t, [noneOfA, newestOnly], 9))
  {
    TwoStepRun(t, noneOfA, newestOnly, 9);
    var one := SoftDelete(t, Candidates(t, noneOfA, 9), 9);
    assert 1 !in Eligible(t, noneOfA);
    assert Eligible(one, newestOnly) <= {1} by {
      ApplyingEstablishes(t, noneOfA, 9);
      assert Eligible(one, noneOfA) == {};
      assert 2 !in Eligible(one, noneOfA);
    }
    Sets.SubsetSize(Eligible(one, newestOnly), {1});
    NoCandidatesIffHolds(one, newestOnly, 9);
  }
}
