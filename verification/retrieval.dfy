/** The recall pipeline: SecureRetrieval.search ranks the durable candidates, cuts them
    to k and rechecks their scope (src/teamshared/memory/retrieval.py); MemoryFacade.recall
    then adds working memory, ranks again and cuts again (src/teamshared/memory/facade.py).
    Scores are reals, and each stage reads its own clock. */
module Retrieval {
  import opened Wrappers
  import opened Records
  import Sort = StableSort
  import RankFusion

  const BOOST: real := 1.3  // _REPO_BOOST and _GITHUB_BOOST

  function PillarWeight(pillar: string): real {
    match pillar
    case "semantic" => 1.0
    case "strategic" => 0.95
    case "work" => 0.92
    case "episodic" => 0.9
    case "procedural" => 0.85
    case "skill" => 0.88
    case "working" => 0.7
    case _ => 0.5
  }

  function Max(a: real, b: real): real {
    if a >= b then a else b
  }

  function RecencyBonus(r: MemoryRecord, now: real): real {
    if r.createdAt.Some? && r.pillar in {"episodic", "working"} then
      var ageHours := Max((now - r.createdAt.value) / 3600.0, 0.0);
      Max(0.0, 0.2 * (1.0 / (1.0 + ageHours / 24.0)))
    else 0.0
  }

  function ImportanceBonus(r: MemoryRecord): real {
    if r.importance.Some? then 0.1 * r.importance.value else 0.0
  }

  function BaseScore(r: MemoryRecord): real {
    if r.score.Some? then r.score.value else 0.5
  }

  /** score_of in SecureRetrieval. */
  function DurableScore(r: MemoryRecord, now: real): real {
    BaseScore(r) * PillarWeight(r.pillar) + RecencyBonus(r, now) + ImportanceBonus(r)
  }

  /** score_of in MemoryFacade, with the tags of the caller's repo and github item. */
  function RecallScore(r: MemoryRecord, now: real, repo: Option<string>, github: Option<string>): real {
    var weighted := BaseScore(r) * PillarWeight(r.pillar);
    var forRepo := if repo.Some? && repo.value in r.tags then weighted * BOOST else weighted;
    var boosted := if github.Some? && github.value in r.tags then forRepo * BOOST else forRepo;
    boosted + RecencyBonus(r, now) + ImportanceBonus(r)
  }

  // ---- lexical hits join the scale of the fused ones ----

  function Normalized(records: seq<MemoryRecord>): seq<MemoryRecord> {
    seq(|records|, i requires 0 <= i < |records| =>
      records[i].(
        score := Some(RankFusion.Share(RankFusion.RRF_K, i)),
        metadata := if records[i].score.Some?
                    then records[i].metadata["fts_rank" := records[i].score.value]
                    else records[i].metadata))
  }

  method NormalizeFtsScores(records: array<MemoryRecord>)
    modifies records
    ensures records[..] == Normalized(old(records[..]))
  {
    for i := 0 to records.Length
      invariant records[..i] == Normalized(old(records[..]))[..i]
      invariant records[i..] == old(records[..])[i..]
    {
      var rec := records[i];
      assert rec == old(records[..])[i];
      var meta := if rec.score.Some? then rec.metadata["fts_rank" := rec.score.value] else rec.metadata;
      records[i] := rec.(score := Some(1.0 / (RankFusion.RRF_K + i + 1) as real), metadata := meta);
    }
  }

  /** Normalizing gives each hit the score fusing that one list would have given it. */
  lemma NormalizedIsTheFusionScale(records: seq<MemoryRecord>, i: nat)
    requires DistinctIds(records) && i < |records|
    ensures Normalized(records)[i].score ==
            Some(RankFusion.Score(RankFusion.Hits([records], RankFusion.RRF_K), records[i].id))
  {
    assert [records][..0] == [];
    assert RankFusion.Hits([records], RankFusion.RRF_K) == RankFusion.ListHits(records, RankFusion.RRF_K);
    RankFusion.ListScore(records, RankFusion.RRF_K, i);
  }

  /** A normalized hit scores 1/(60 + rank) and keeps its raw rank, if it had one, under
      "fts_rank"; the rest of it, and of its metadata, is as it was. */
  lemma NormalizedKeepsTheRest(records: seq<MemoryRecord>, i: nat)
    requires i < |records|
    ensures var before, after := records[i], Normalized(records)[i];
            && |Normalized(records)| == |records|
            && after.score == Some(1.0 / (61 + i) as real)
            && after == before.(score := after.score, metadata := after.metadata)
            && (before.score == None ==> after.metadata == before.metadata)
            && (before.score != None ==> after.metadata == before.metadata["fts_rank" := before.score.value])
  {
  }

  // ---- the score ----

  /** The weight of each pillar, on a record without bonuses; a missing score counts as 0.5. */
  lemma PillarTable(r: MemoryRecord, now: real, score: real)
    requires r.createdAt == None && r.importance == None
    requires r.score == Some(score) || (r.score == None && score == 0.5)
    ensures r.pillar == "semantic" ==> DurableScore(r, now) == score
    ensures r.pillar == "strategic" ==> DurableScore(r, now) == 0.95 * score
    ensures r.pillar == "work" ==> DurableScore(r, now) == 0.92 * score
    ensures r.pillar == "episodic" ==> DurableScore(r, now) == 0.9 * score
    ensures r.pillar == "skill" ==> DurableScore(r, now) == 0.88 * score
    ensures r.pillar == "procedural" ==> DurableScore(r, now) == 0.85 * score
    ensures r.pillar == "working" ==> DurableScore(r, now) == 0.7 * score
    ensures r.pillar !in {"semantic", "strategic", "work", "episodic", "skill", "procedural", "working"} ==>
              DurableScore(r, now) == 0.5 * score
  {
  }

  /** Bonuses are added to that: a tenth of the importance, and for dated episodic and working
      records 4.8/(24 + age in hours), where a creation time in the future is age zero. */
  lemma BonusesAdd(r: MemoryRecord, now: real, hours: real)
    requires r.createdAt != None ==> hours == (now - r.createdAt.value) / 3600.0
    ensures var bare := DurableScore(r.(createdAt := None, importance := None), now);
            var recency := DurableScore(r.(importance := None), now) - bare;
            && DurableScore(r, now)
               == bare + recency + (if r.importance == None then 0.0 else r.importance.value / 10.0)
            && (r.createdAt == None || (r.pillar != "episodic" && r.pillar != "working") ==> recency == 0.0)
            && (r.createdAt != None && (r.pillar == "episodic" || r.pillar == "working") ==>
                  recency * (24.0 + if hours > 0.0 then hours else 0.0) == 4.8)
  {
    if r.createdAt != None {
      RecencyTimesAge(if hours > 0.0 then hours else 0.0);
    }
  }

  lemma RecencyTimesAge(hours: real)
    requires hours >= 0.0
    ensures 0.2 * (1.0 / (1.0 + hours / 24.0)) * (24.0 + hours) == 4.8
    ensures 0.2 * (1.0 / (1.0 + hours / 24.0)) >= 0.0
  {
    var x := 1.0 + hours / 24.0;
    var y := 1.0 / x;
    assert y * x == 1.0;
    assert 24.0 + hours == 24.0 * x;
    assert 0.2 * y * (24.0 * x) == 4.8 * (y * x);
  }

  /** Recall multiplies the weighted score, and not the bonuses, by 1.3 for each of the caller's
      two tags that the record carries. */
  lemma TagsBoost(r: MemoryRecord, now: real, repo: Option<string>, github: Option<string>)
    ensures var bare := DurableScore(r.(createdAt := None, importance := None), now);
            var factor := (if repo != None && repo.value in r.tags then 1.3 else 1.0)
                          * (if github != None && github.value in r.tags then 1.3 else 1.0);
            RecallScore(r, now, repo, github) == DurableScore(r, now) - bare + bare * factor
  {
  }

  // ---- recency against relevance ----

  predicate IsTimed(r: MemoryRecord) {
    r.createdAt.Some? && r.pillar in {"episodic", "working"}
  }

  function AgeHours(r: MemoryRecord, now: real): real
    requires r.createdAt.Some?
  {
    (now - r.createdAt.value) / 3600.0
  }

  lemma ReciprocalExceedsIff(x: real, c: real)
    requires x > 0.0 && c > 0.0
    ensures 1.0 / x > c <==> x * c < 1.0
    ensures 1.0 / x > 0.0 && (x >= 1.0 ==> 1.0 / x <= 1.0)
  {
    var y := 1.0 / x;
    assert y * x == 1.0;
    if y > c {
      calc {
        0.0;
        < (y - c) * x;
        == y * x - c * x;
        == 1.0 - x * c;
      }
    } else {
      calc {
        0.0;
        <= (c - y) * x;
        == c * x - y * x;
        == x * c - 1.0;
      }
    }
  }

  /** The recency bonus alone exceeds the score of a record that leads both fused lists
      exactly while the record is younger than 122.4 hours; a creation time in the future
      counts as age zero. */
  lemma RecencyOutweighsRelevanceIff(r: MemoryRecord, now: real)
    requires IsTimed(r)
    ensures RecencyBonus(r, now) > 2.0 * RankFusion.Share(RankFusion.RRF_K, 0) <==> AgeHours(r, now) < 122.4
    ensures 0.0 < RecencyBonus(r, now) <= 0.2
  {
    var days := 1.0 + Max(AgeHours(r, now), 0.0) / 24.0;
    ReciprocalExceedsIff(days, 10.0 / 61.0);
    assert RecencyBonus(r, now) == 0.2 * (1.0 / days);
  }

  lemma {:induction false} FusedScoreIsAtMostTwoFirstPlaces(v: seq<MemoryRecord>, w: seq<MemoryRecord>, k: nat,
                                                            id: string)
    requires DistinctIds(v) && DistinctIds(w)
    ensures RankFusion.Score(RankFusion.Hits([v, w], k), id) <= 2.0 * RankFusion.Share(k, 0)
  {
    RankFusion.TwoListScore(v, w, k, id);
    OneListScoreIsAtMostFirstPlace(v, k, id);
    OneListScoreIsAtMostFirstPlace(w, k, id);
  }

  lemma {:induction false} OneListScoreIsAtMostFirstPlace(v: seq<MemoryRecord>, k: nat, id: string)
    requires DistinctIds(v)
    ensures RankFusion.Score(RankFusion.ListHits(v, k), id) <= RankFusion.Share(k, 0)
  {
    RankFusion.EarlierEarnsMore(k, 0, 0);
    if HasId(v, id) {
      RankFusion.AtMostFirstPlace(v, k, id);
    } else {
      RankFusion.AbsentFromList(v, k, id);
    }
  }

  /** A dated record younger than 122.4 hours outranks every fused hit that carries no
      bonus of its own, however well that hit matched and however poorly it matched itself. */
  lemma RecentRecordsOutrankFusedHits(r: MemoryRecord, hit: MemoryRecord,
                                      v: seq<MemoryRecord>, w: seq<MemoryRecord>, now: real)
    requires IsTimed(r) && AgeHours(r, now) < 122.4
    requires BaseScore(r) >= 0.0 && ImportanceBonus(r) >= 0.0
    requires !IsTimed(hit) && hit.importance.None? && DistinctIds(v) && DistinctIds(w)
    requires hit.score == Some(RankFusion.Score(RankFusion.Hits([v, w], RankFusion.RRF_K), hit.id))
    ensures DurableScore(r, now) > DurableScore(hit, now)
  {
    RecencyOutweighsRelevanceIff(r, now);
    FusedScoreIsAtMostTwoFirstPlaces(v, w, RankFusion.RRF_K, hit.id);
    WeightBounds(BaseScore(r), r.pillar);
    WeightBounds(hit.score.value, hit.pillar);
    assert DurableScore(hit, now) == hit.score.value * PillarWeight(hit.pillar);
  }

  lemma WeightBounds(score: real, pillar: string)
    ensures score >= 0.0 ==> score * PillarWeight(pillar) >= 0.0
    ensures score * PillarWeight(pillar) <= Max(score, 0.0)
  {
  }

  // ---- scope recheck ----

  datatype ScopeFilter = ScopeFilter(
    includeOrg: bool, includeShared: bool,
    userId: Option<string>, agentId: Option<string>,
    teamIds: set<string>, projectIds: set<string>)

  predicate Allowed(r: MemoryRecord, f: ScopeFilter) {
    || r.scope.None?
    || (r.scope.value == "org" && f.includeOrg)
    || (r.visibility == Some("shared") && f.includeShared)
    || (r.scope.value == "user" && f.userId.Some? && r.scopeRef == f.userId)
    || (r.scope.value == "agent" && f.agentId.Some? && r.scopeRef == f.agentId)
    || (r.scope.value == "team" && r.scopeRef.Some? && r.scopeRef.value in f.teamIds)
    || (r.scope.value == "project" && r.scopeRef.Some? && r.scopeRef.value in f.projectIds)
  }

  function Permitted(records: seq<MemoryRecord>, f: ScopeFilter): seq<MemoryRecord> {
    Sort.Filter(records, r => Allowed(r, f))
  }

  method RecheckScope(records: seq<MemoryRecord>, f: ScopeFilter) returns (safe: seq<MemoryRecord>)
    ensures safe == Permitted(records, f)
    ensures forall r :: r in safe <==> r in records && Allowed(r, f)
  {
    safe := [];
    for i := 0 to |records|
      invariant safe == Permitted(records[..i], f)
    {
      assert records[..i + 1] == records[..i] + [records[i]];
      Sort.FilterSnoc(records[..i], records[i], r => Allowed(r, f));
      if Allowed(records[i], f) {
        safe := safe + [records[i]];
      }
    }
    assert records[..|records|] == records;
  }

  /** The recheck keeps a record exactly when it has no scope, or is shared with callers who
      include shared records, or belongs to the caller: to their org, to them as user or agent,
      or to one of their teams or projects. A record of any other scope passes only as shared. */
  lemma RecheckKeepsExactly(records: seq<MemoryRecord>, f: ScopeFilter, r: MemoryRecord)
    requires r in records
    ensures r.scope == None || (r.visibility == Some("shared") && f.includeShared) ==> r in Permitted(records, f)
    ensures r.visibility != Some("shared") || !f.includeShared ==>
              && (r.scope == Some("org") ==> (r in Permitted(records, f) <==> f.includeOrg))
              && (r.scope == Some("user") ==>
                    (r in Permitted(records, f) <==> f.userId != None && r.scopeRef == f.userId))
              && (r.scope == Some("agent") ==>
                    (r in Permitted(records, f) <==> f.agentId != None && r.scopeRef == f.agentId))
              && (r.scope == Some("team") ==>
                    (r in Permitted(records, f) <==> r.scopeRef != None && r.scopeRef.value in f.teamIds))
              && (r.scope == Some("project") ==>
                    (r in Permitted(records, f) <==> r.scopeRef != None && r.scopeRef.value in f.projectIds))
              && (r.scope != None && r.scope.value !in {"org", "user", "agent", "team", "project"} ==>
                    r !in Permitted(records, f))
  {
  }

  lemma {:induction false} PermittedDependsOnAllowed(records: seq<MemoryRecord>, f: ScopeFilter, g: ScopeFilter)
    requires forall r :: r in records ==> (Allowed(r, f) <==> Allowed(r, g))
    ensures Permitted(records, f) == Permitted(records, g)
    decreases |records|
  {
    if records != [] {
      PermittedDependsOnAllowed(records[1..], f, g);
    }
  }

  // ---- the two stages ----

  function Durable(now: real): MemoryRecord -> real {
    (r: MemoryRecord) => DurableScore(r, now)
  }

  function Recalled(now: real, repo: Option<string>, github: Option<string>): MemoryRecord -> real {
    (r: MemoryRecord) => RecallScore(r, now, repo, github)
  }

  /** What the durable search returns for its assembled candidates. */
  function SearchResult(candidates: seq<MemoryRecord>, f: ScopeFilter, k: nat, now: real): seq<MemoryRecord> {
    Permitted(Sort.TopK(candidates, Durable(now), k), f)
  }

  /** What recall returns: search at time `first`, add working memory, rank and cut again at
      time `second`. */
  function TwoStage(candidates: seq<MemoryRecord>, working: seq<MemoryRecord>, f: ScopeFilter, k: nat,
                    first: real, second: real, repo: Option<string>, github: Option<string>): seq<MemoryRecord>
  {
    Sort.TopK(SearchResult(candidates, f, k, first) + working, Recalled(second, repo, github), k)
  }

  /** The reference: one ranking of every permitted durable candidate and all of working memory. */
  function OneStage(candidates: seq<MemoryRecord>, working: seq<MemoryRecord>, f: ScopeFilter, k: nat,
                    second: real, repo: Option<string>, github: Option<string>): seq<MemoryRecord>
  {
    Sort.TopK(Permitted(candidates, f) + working, Recalled(second, repo, github), k)
  }

  /** The durable pillars; None when a pillar was not asked for or its query failed. */
  datatype Pillars = Pillars(
    semanticEpisodic: Option<(seq<MemoryRecord>, seq<MemoryRecord>)>,  // vector and keyword hits
    procedural: Option<seq<MemoryRecord>>,
    skill: Option<seq<MemoryRecord>>,
    strategic: Option<seq<MemoryRecord>>,
    work: Option<seq<MemoryRecord>>)

  method NormalizedHits(hits: Option<seq<MemoryRecord>>) returns (out: seq<MemoryRecord>)
    ensures out == if hits.Some? then Normalized(hits.value) else []
  {
    if hits.None? {
      return [];
    }
    var records := new MemoryRecord[|hits.value|](i requires 0 <= i < |hits.value| => hits.value[i]);
    assert records[..] == hits.value;
    NormalizeFtsScores(records);
    out := records[..];
  }

  /** The fused vector and keyword hits, if they were asked for. */
  ghost predicate IsFusedPart(p: Pillars, fused: seq<MemoryRecord>) {
    match p.semanticEpisodic
    case Some(hits) => RankFusion.IsFusion(RankFusion.Hits([hits.0, hits.1], RankFusion.RRF_K), fused)
    case None => fused == []
  }

  /** The candidate list of search: the fused part, then the lexical pillars. */
  method Candidates(p: Pillars) returns (records: seq<MemoryRecord>)
    ensures |records| >= |LexicalHits(p)|
    ensures records[|records| - |LexicalHits(p)|..] == LexicalHits(p)
    ensures IsFusedPart(p, records[..|records| - |LexicalHits(p)|])
  {
    records := [];
    if p.semanticEpisodic.Some? {
      records := RankFusion.MergeVectorKeyword(p.semanticEpisodic.value.0, p.semanticEpisodic.value.1);
    }
    ghost var fused := records;
    assert IsFusedPart(p, fused);
    var procedural := NormalizedHits(p.procedural);
    var skill := NormalizedHits(p.skill);
    var strategic := NormalizedHits(p.strategic);
    var work := NormalizedHits(p.work);
    records := records + (procedural + skill + strategic + work);
    assert records == fused + LexicalHits(p);
    assert records[..|fused|] == fused;
  }

  function LexicalHits(p: Pillars): seq<MemoryRecord> {
    (if p.procedural.Some? then Normalized(p.procedural.value) else [])
    + (if p.skill.Some? then Normalized(p.skill.value) else [])
    + (if p.strategic.Some? then Normalized(p.strategic.value) else [])
    + (if p.work.Some? then Normalized(p.work.value) else [])
  }

  /** These are the normalized hits of a pillar: none when it was not asked for or failed. */
  ghost predicate IsShare(hits: Option<seq<MemoryRecord>>, share: seq<MemoryRecord>) {
    match hits
    case None => share == []
    case Some(records) => share == Normalized(records)
  }

  /** The lexical pillars come in a fixed order, procedures, skills, strategic and work items, each
      whole and in its own order. */
  lemma LexicalPillarsInOrder(p: Pillars, a: seq<MemoryRecord>, b: seq<MemoryRecord>,
                              c: seq<MemoryRecord>, d: seq<MemoryRecord>)
    requires IsShare(p.procedural, a) && IsShare(p.skill, b) && IsShare(p.strategic, c) && IsShare(p.work, d)
    ensures var hits := LexicalHits(p);
            && |hits| == |a| + |b| + |c| + |d|
            && (forall i :: 0 <= i < |a| ==> hits[i] == a[i])
            && (forall i :: 0 <= i < |b| ==> hits[|a| + i] == b[i])
            && (forall i :: 0 <= i < |c| ==> hits[|a| + |b| + i] == c[i])
            && (forall i :: 0 <= i < |d| ==> hits[|a| + |b| + |c| + i] == d[i])
  {
    assert LexicalHits(p) == a + b + c + d;
    FourParts(a, b, c, d);
  }

  lemma FourParts<T>(a: seq<T>, b: seq<T>, c: seq<T>, d: seq<T>)
    ensures var s := a + b + c + d;
            && |s| == |a| + |b| + |c| + |d|
            && (forall i :: 0 <= i < |a| ==> s[i] == a[i])
            && (forall i :: 0 <= i < |b| ==> s[|a| + i] == b[i])
            && (forall i :: 0 <= i < |c| ==> s[|a| + |b| + i] == c[i])
            && (forall i :: 0 <= i < |d| ==> s[|a| + |b| + |c| + i] == d[i])
  {
  }

  method Search(candidates: seq<MemoryRecord>, f: ScopeFilter, k: nat, now: real) returns (safe: seq<MemoryRecord>)
    ensures safe == SearchResult(candidates, f, k, now)
  {
    var ranked := Sort.TopK(candidates, r => DurableScore(r, now), k);
    RankFusion.SortDependsOnValues(candidates, r => DurableScore(r, now), Durable(now));
    safe := RecheckScope(ranked, f);
  }

  method Recall(candidates: seq<MemoryRecord>, working: seq<MemoryRecord>, f: ScopeFilter, k: nat,
                first: real, second: real, repo: Option<string>, github: Option<string>)
    returns (ranked: seq<MemoryRecord>)
    ensures ranked == TwoStage(candidates, working, f, k, first, second, repo, github)
  {
    var records := Search(candidates, f, k, first);
    records := records + working;
    ranked := Sort.TopK(records, Recalled(second, repo, github), k);
  }

  /** Both stages give each of these records the same score. */
  ghost predicate SameScores(records: seq<MemoryRecord>, first: real, second: real,
                             repo: Option<string>, github: Option<string>) {
    forall r :: r in records ==> DurableScore(r, first) == RecallScore(r, second, repo, github)
  }

  /** The tags of the caller's repo and github item mark none of these records. */
  ghost predicate Untagged(records: seq<MemoryRecord>, repo: Option<string>, github: Option<string>) {
    forall r :: r in records ==>
      (repo.Some? ==> repo.value !in r.tags) && (github.Some? ==> github.value !in r.tags)
  }

  /** They do for untagged records when the clock stands still between the stages, or when no
      record has a recency bonus. */
  lemma UntaggedScoresAreTheSame(records: seq<MemoryRecord>, first: real, second: real,
                                 repo: Option<string>, github: Option<string>)
    requires Untagged(records, repo, github)
    requires first == second || forall r :: r in records ==> !IsTimed(r)
    ensures SameScores(records, first, second, repo, github)
  {
    forall r | r in records ensures DurableScore(r, first) == RecallScore(r, second, repo, github) {
      assert first == second || !IsTimed(r);
    }
  }

  lemma {:induction false} SameScoresSortTheSame(records: seq<MemoryRecord>, first: real, second: real,
                                                 repo: Option<string>, github: Option<string>)
    requires SameScores(records, first, second, repo, github)
    ensures Sort.SortDesc(records, Durable(first)) == Sort.SortDesc(records, Recalled(second, repo, github))
  {
    RankFusion.SortDependsOnValues(records, Durable(first), Recalled(second, repo, github));
  }

  /** With the same scores in both stages and nothing dropped by the recheck, recall equals one
      ranking of everything: same records, same order, ties included. */
  lemma TwoStageIsOneStage(candidates: seq<MemoryRecord>, working: seq<MemoryRecord>, f: ScopeFilter, k: nat,
                           first: real, second: real, repo: Option<string>, github: Option<string>)
    requires SameScores(candidates, first, second, repo, github)
    requires forall r :: r in candidates ==> Allowed(r, f)
    ensures TwoStage(candidates, working, f, k, first, second, repo, github)
            == Sort.TopK(candidates + working, Recalled(second, repo, github), k)
  {
    var key := Recalled(second, repo, github);
    SameScoresSortTheSame(candidates, first, second, repo, github);
    var cut := Sort.TopK(candidates, key, k);
    forall r | r in cut ensures Allowed(r, f) {
      assert r in Sort.SortDesc(candidates, key);
      assert r in multiset(Sort.SortDesc(candidates, key));
    }
    FilterKeepsAll(cut, f);
    Sort.TopKAbsorbs(candidates, working, key, k);
  }

  lemma {:induction false} FilterKeepsAll(records: seq<MemoryRecord>, f: ScopeFilter)
    requires forall r :: r in records ==> Allowed(r, f)
    ensures Permitted(records, f) == records
    decreases |records|
  {
    if records != [] {
      FilterKeepsAll(records[1..], f);
    }
  }

  /** Either the recheck drops nothing from the cut, or nothing permitted was cut off. */
  ghost predicate RecheckIsHarmless(candidates: seq<MemoryRecord>, f: ScopeFilter, k: nat, now: real) {
    var ranked := Sort.SortDesc(candidates, Durable(now));
    || (forall r :: r in Sort.Take(ranked, k) ==> Allowed(r, f))
    || (forall i :: k <= i < |ranked| ==> !Allowed(ranked[i], f))
  }

  /** Rechecking after the cut can cost permitted records their place. Recall returns what
      one ranking of the permitted records would, whatever working memory holds, exactly
      when the recheck is harmless. */
  lemma RecheckAfterCutIffHarmless(candidates: seq<MemoryRecord>, f: ScopeFilter, k: nat,
                                   first: real, second: real, repo: Option<string>, github: Option<string>)
    requires SameScores(candidates, first, second, repo, github)
    ensures StagesAgree(candidates, f, k, first, second, repo, github)
            <==> RecheckIsHarmless(candidates, f, k, first)
  {
    var key, permitted := Recalled(second, repo, github), Permitted(candidates, f);
    CutThenRecheck(candidates, f, k, first);
    SameScoresSortTheSame(permitted, first, second, repo, github);
    SearchIsRanked(candidates, f, k, first, second, repo, github);
    StagesAreTops(candidates, f, k, first, second, repo, github);
    TopsStayEqual(SearchResult(candidates, f, k, first), permitted, key, k);
  }

  /** Ranking again does not reorder a search result. */
  lemma SearchIsRanked(candidates: seq<MemoryRecord>, f: ScopeFilter, k: nat,
                       first: real, second: real, repo: Option<string>, github: Option<string>)
    requires SameScores(candidates, first, second, repo, github)
    ensures Sort.TopK(SearchResult(candidates, f, k, first), Recalled(second, repo, github), k)
            == SearchResult(candidates, f, k, first)
  {
    var key := Recalled(second, repo, github);
    SameScoresSortTheSame(candidates, first, second, repo, github);
    Sort.SortDescends(candidates, key);
    PermittedCutIsSorted(Sort.SortDesc(candidates, key), f, k, key);
  }

  lemma PermittedCutIsSorted(ranked: seq<MemoryRecord>, f: ScopeFilter, k: nat, key: MemoryRecord -> real)
    requires Sort.Descending(ranked, key)
    ensures Sort.TopK(Permitted(Sort.Take(ranked, k), f), key, k) == Permitted(Sort.Take(ranked, k), f)
  {
    var cut := Sort.Take(ranked, k);
    Sort.SortOfDescending(cut, key);
    Sort.SortCommutesWithFilter(cut, key, r => Allowed(r, f));
    assert Sort.SortDesc(Permitted(cut, f), key) == Permitted(cut, f);
  }

  /** Cut-then-recheck agrees with recheck-then-cut exactly when the recheck is harmless. */
  lemma CutThenRecheck(candidates: seq<MemoryRecord>, f: ScopeFilter, k: nat, now: real)
    ensures SearchResult(candidates, f, k, now) == Sort.TopK(Permitted(candidates, f), Durable(now), k)
            <==> RecheckIsHarmless(candidates, f, k, now)
  {
    Sort.SortCommutesWithFilter(candidates, Durable(now), r => Allowed(r, f));
    PermittedPrefix(Sort.SortDesc(candidates, Durable(now)), f, k);
  }

  lemma PermittedPrefix(ranked: seq<MemoryRecord>, f: ScopeFilter, k: nat)
    ensures Permitted(Sort.Take(ranked, k), f) == Sort.Take(Permitted(ranked, f), k)
            <==> ((forall r :: r in Sort.Take(ranked, k) ==> Allowed(r, f))
                  || (forall i :: k <= i < |ranked| ==> !Allowed(ranked[i], f)))
  {
    var cut := Sort.Take(ranked, k);
    var rest := ranked[|cut|..];
    SplitPermitted(cut, rest, f);
    assert ranked == cut + rest;
    FilterLength(cut, f);
    FilterLength(rest, f);
    TakeIsPrefix(Permitted(cut, f), Permitted(rest, f), k);
    RestIsTail(ranked, k, f);
  }

  lemma SplitPermitted(cut: seq<MemoryRecord>, rest: seq<MemoryRecord>, f: ScopeFilter)
    ensures Permitted(cut + rest, f) == Permitted(cut, f) + Permitted(rest, f)
  {
    Sort.FilterAppends(cut, rest, r => Allowed(r, f));
  }

  lemma TakeIsPrefix(a: seq<MemoryRecord>, b: seq<MemoryRecord>, k: nat)
    requires |a| <= k
    ensures a == Sort.Take(a + b, k) <==> |a| == k || b == []
  {
    if |a| == k {
      assert (a + b)[..k] == a;
    }
    if b == [] {
      assert a + b == a;
    }
    if a == Sort.Take(a + b, k) && |a| < k {
      assert |Sort.Take(a + b, k)| == |a|;
    }
  }

  lemma RestIsTail(ranked: seq<MemoryRecord>, k: nat, f: ScopeFilter)
    ensures (forall r :: r in ranked[|Sort.Take(ranked, k)|..] ==> !Allowed(r, f))
            <==> forall i :: k <= i < |ranked| ==> !Allowed(ranked[i], f)
  {
    var rest := ranked[|Sort.Take(ranked, k)|..];
    assert forall i :: k <= i < |ranked| ==> ranked[i] == rest[i - k];
  }

  lemma {:induction false} FilterLength(records: seq<MemoryRecord>, f: ScopeFilter)
    ensures |Permitted(records, f)| == |records| <==> forall r :: r in records ==> Allowed(r, f)
    ensures Permitted(records, f) == [] <==> forall r :: r in records ==> !Allowed(r, f)
    decreases |records|
  {
    if records != [] {
      FilterLength(records[1..], f);
      assert forall r :: r in records <==> r == records[0] || r in records[1..];
    }
  }

  /** Nothing leaves the search that its caller may not see, and nothing is invented. */
  lemma SearchIsSafe(candidates: seq<MemoryRecord>, f: ScopeFilter, k: nat, now: real)
    ensures |SearchResult(candidates, f, k, now)| <= k
    ensures forall r :: r in SearchResult(candidates, f, k, now) ==> r in candidates && Allowed(r, f)
  {
    forall r | r in SearchResult(candidates, f, k, now) ensures r in candidates {
      assert r in multiset(Sort.SortDesc(candidates, Durable(now)));
    }
  }

  lemma ResultIsPermitted(candidates: seq<MemoryRecord>, f: ScopeFilter, k: nat, now: real, r: MemoryRecord)
    requires r in SearchResult(candidates, f, k, now)
    ensures r in candidates && r in Permitted(candidates, f)
  {
    SearchIsSafe(candidates, f, k, now);
  }

  /** A private record of a user, an agent, a team or a project leaves the search only for a caller
      it belongs to, one of an org only for callers who include it, and one of any other scope
      never: whatever the candidates were. */
  lemma SearchReturnsOnlyTheCallers(candidates: seq<MemoryRecord>, f: ScopeFilter, k: nat, now: real, r: MemoryRecord)
    requires r in SearchResult(candidates, f, k, now)
    requires r.visibility != Some("shared") || !f.includeShared
    ensures r in candidates
    ensures r.scope == Some("user") ==> f.userId != None && r.scopeRef == f.userId
    ensures r.scope == Some("agent") ==> f.agentId != None && r.scopeRef == f.agentId
    ensures r.scope == Some("team") ==> r.scopeRef != None && r.scopeRef.value in f.teamIds
    ensures r.scope == Some("project") ==> r.scopeRef != None && r.scopeRef.value in f.projectIds
    ensures r.scope == Some("org") ==> f.includeOrg
    ensures r.scope == None || r.scope.value in {"org", "user", "agent", "team", "project"}
  {
    ResultIsPermitted(candidates, f, k, now, r);
    RecheckKeepsExactly(candidates, f, r);
  }

  ghost predicate BelongsToUser(r: MemoryRecord, user: Option<string>) {
    r.scope == Some("user") && user != None && r.scopeRef == user
  }

  /** Callers who differ only in who they are get the same answer from candidates of which none
      belongs to either. */
  lemma OtherUsersDoNotMatter(candidates: seq<MemoryRecord>, f: ScopeFilter, u: Option<string>, v: Option<string>,
                              k: nat, now: real)
    requires forall r :: r in candidates ==> !BelongsToUser(r, u) && !BelongsToUser(r, v)
    ensures Permitted(candidates, f.(userId := u)) == Permitted(candidates, f.(userId := v))
    ensures SearchResult(candidates, f.(userId := u), k, now) == SearchResult(candidates, f.(userId := v), k, now)
  {
    var cut := Sort.TopK(candidates, Durable(now), k);
    Sort.SameMembers(Sort.SortDesc(candidates, Durable(now)), candidates);
    PermittedDependsOnAllowed(candidates, f.(userId := u), f.(userId := v));
    PermittedDependsOnAllowed(cut, f.(userId := u), f.(userId := v));
  }

  /** The permitted candidates that the first cut to k leaves out. */
  function LostToCut(candidates: seq<MemoryRecord>, f: ScopeFilter, k: nat, now: real): seq<MemoryRecord> {
    var ranked := Sort.SortDesc(candidates, Durable(now));
    Permitted(ranked[|Sort.Take(ranked, k)|..], f)
  }

  /** The first stage keeps k permitted records or all of them, keeps none that recall would
      rank below one it loses, and keeps the first of each tie in candidate order. */
  ghost predicate CutIsHarmless(candidates: seq<MemoryRecord>, f: ScopeFilter, k: nat,
                                first: real, second: real, repo: Option<string>, github: Option<string>) {
    var kept, lost := SearchResult(candidates, f, k, first), LostToCut(candidates, f, k, first);
    && (|kept| == k || lost == [])
    && Sort.NoneOutranked(kept, lost, Recalled(second, repo, github))
    && Sort.TiesInOrder(kept, Permitted(candidates, f), Recalled(second, repo, github))
  }

  lemma CutSplits(candidates: seq<MemoryRecord>, f: ScopeFilter, k: nat, first: real)
    ensures multiset(Permitted(candidates, f))
            == multiset(SearchResult(candidates, f, k, first)) + multiset(LostToCut(candidates, f, k, first))
    ensures |SearchResult(candidates, f, k, first)| <= k
  {
    var ranked := Sort.SortDesc(candidates, Durable(first));
    var cut := Sort.Take(ranked, k);
    assert ranked == cut + ranked[|cut|..];
    Sort.SplitFilters(candidates, cut, ranked[|cut|..], r => Allowed(r, f));
  }

  ghost predicate TopsAgree(a: seq<MemoryRecord>, b: seq<MemoryRecord>, key: MemoryRecord -> real, k: nat) {
    forall w :: Sort.TopK(a + w, key, k) == Sort.TopK(b + w, key, k)
  }

  /** Equal tops stay equal whatever is added to both. */
  lemma TopsStayEqual(a: seq<MemoryRecord>, b: seq<MemoryRecord>, key: MemoryRecord -> real, k: nat)
    ensures TopsAgree(a, b, key, k) <==> Sort.TopK(a, key, k) == Sort.TopK(b, key, k)
  {
    if Sort.TopK(a, key, k) == Sort.TopK(b, key, k) {
      forall w ensures Sort.TopK(a + w, key, k) == Sort.TopK(b + w, key, k) {
        Sort.TopKAbsorbs(a, w, key, k);
        Sort.TopKAbsorbs(b, w, key, k);
      }
    } else {
      var none: seq<MemoryRecord> := [];
      assert a + none == a && b + none == b;
      assert Sort.TopK(a + none, key, k) != Sort.TopK(b + none, key, k);
    }
  }

  ghost predicate StagesAgree(candidates: seq<MemoryRecord>, f: ScopeFilter, k: nat,
                              first: real, second: real, repo: Option<string>, github: Option<string>) {
    forall working :: TwoStage(candidates, working, f, k, first, second, repo, github)
                      == OneStage(candidates, working, f, k, second, repo, github)
  }

  lemma StagesAreTops(candidates: seq<MemoryRecord>, f: ScopeFilter, k: nat,
                      first: real, second: real, repo: Option<string>, github: Option<string>)
    ensures StagesAgree(candidates, f, k, first, second, repo, github)
            <==> TopsAgree(SearchResult(candidates, f, k, first), Permitted(candidates, f),
                           Recalled(second, repo, github), k)
  {
    var a, b, key := SearchResult(candidates, f, k, first), Permitted(candidates, f), Recalled(second, repo, github);
    forall w ensures TwoStage(candidates, w, f, k, first, second, repo, github) == Sort.TopK(a + w, key, k)
             ensures OneStage(candidates, w, f, k, second, repo, github) == Sort.TopK(b + w, key, k)
    {
    }
  }

  /** Recall returns what one ranking of everything permitted would, whatever working memory
      holds, exactly when the first cut is harmless: boosts, scopes and ties included. */
  lemma StagesAgreeIff(candidates: seq<MemoryRecord>, f: ScopeFilter, k: nat,
                       first: real, second: real, repo: Option<string>, github: Option<string>)
    ensures StagesAgree(candidates, f, k, first, second, repo, github)
            <==> CutIsHarmless(candidates, f, k, first, second, repo, github)
  {
    var key := Recalled(second, repo, github);
    var kept, lost := SearchResult(candidates, f, k, first), LostToCut(candidates, f, k, first);
    CutSplits(candidates, f, k, first);
    StagesAreTops(candidates, f, k, first, second, repo, github);
    TopsStayEqual(kept, Permitted(candidates, f), key, k);
    Sort.SortedCutIsTopIff(Permitted(candidates, f), kept, lost, key, k);
    assert Sort.TopK(kept, key, k) == Sort.SortDesc(kept, key);
  }

  /** No record beyond the first k under the durable score is scored above one of those k by
      recall, and equal recall scores keep candidate order. */
  ghost predicate BoostIsHarmless(candidates: seq<MemoryRecord>, k: nat,
                                  first: real, second: real, repo: Option<string>, github: Option<string>) {
    var ranked, key := Sort.SortDesc(candidates, Durable(first)), Recalled(second, repo, github);
    && (forall i, j :: 0 <= i < k <= j < |ranked| ==> key(ranked[i]) >= key(ranked[j]))
    && Sort.TiesInOrder(Sort.Take(ranked, k), candidates, key)
  }

  /** With every candidate permitted, what a boost earns survives the early cut exactly when
      it would not have lifted a record over the cut. */
  lemma BoostSurvivesCutIff(candidates: seq<MemoryRecord>, f: ScopeFilter, k: nat,
                            first: real, second: real, repo: Option<string>, github: Option<string>)
    requires forall r :: r in candidates ==> Allowed(r, f)
    ensures StagesAgree(candidates, f, k, first, second, repo, github)
            <==> BoostIsHarmless(candidates, k, first, second, repo, github)
  {
    var ranked, key := Sort.SortDesc(candidates, Durable(first)), Recalled(second, repo, github);
    var cut := Sort.Take(ranked, k);
    var rest := ranked[|cut|..];
    Sort.SameMembers(ranked, candidates);
    FilterKeepsAll(candidates, f);
    FilterKeepsAll(cut, f);
    FilterKeepsAll(rest, f);
    StagesAgreeIff(candidates, f, k, first, second, repo, github);
    RanksAroundCut(ranked, k, key);
  }

  lemma RanksAroundCut(ranked: seq<MemoryRecord>, k: nat, key: MemoryRecord -> real)
    ensures var cut := Sort.Take(ranked, k);
            Sort.NoneOutranked(cut, ranked[|cut|..], key)
            <==> forall i, j :: 0 <= i < k <= j < |ranked| ==> key(ranked[i]) >= key(ranked[j])
  {
    var cut := Sort.Take(ranked, k);
    var rest := ranked[|cut|..];
    if Sort.NoneOutranked(cut, rest, key) {
      forall i, j | 0 <= i < k <= j < |ranked| ensures key(ranked[i]) >= key(ranked[j]) {
        assert cut[i] in cut && rest[j - k] in rest;
      }
    } else {
      var x, y :| x in cut && y in rest && key(x) < key(y);
      var i :| 0 <= i < |cut| && cut[i] == x;
      var j :| 0 <= j < |rest| && rest[j] == y;
      assert key(ranked[i]) < key(ranked[k + j]);
    }
  }

  /** A boosted record that the first stage cut off is lost, though one ranking would put it first. */
  lemma BoostComesTooLate(first: MemoryRecord, second: MemoryRecord, f: ScopeFilter, now: real)
    requires first.pillar == second.pillar == "semantic"
    requires first.importance == second.importance == None && first.scope == second.scope == None
    requires first.tags == [] && second.tags == ["repo:r"]
    requires first.score == Some(1.0) && second.score == Some(0.9)
    ensures TwoStage([first, second], [], f, 1, now, now, Some("repo:r"), None) == [first]
    ensures OneStage([first, second], [], f, 1, now, Some("repo:r"), None) == [second]
  {
    var key := Recalled(now, Some("repo:r"), None);
    assert DurableScore(first, now) == 1.0 && DurableScore(second, now) == 0.9;
    assert key(second) == 1.17 && key(first) == 1.0;
    SortOfTwo(first, second, Durable(now));
    SortOfTwo(first, second, key);
    FilterKeepsAll([first], f);
    FilterKeepsAll([first, second], f);
    assert [first] + [] == [first] && [first, second] + [] == [first, second];
    Sort.SortOfDescending([first], key);
  }

  lemma SortOfTwo(a: MemoryRecord, b: MemoryRecord, key: MemoryRecord -> real)
    ensures Sort.SortDesc([a, b], key) == if key(a) >= key(b) then [a, b] else [b, a]
  {
    assert [a, b] == [a] + [b] && [a] == [] + [a];
    Sort.SortAppend([], a, key);
    Sort.SortAppend([a], b, key);
    assert [a][1..] == [];
  }
}
