/** A retrievable memory snippet (src/teamshared/memory/types.py), reduced to the
    fields that ranking, scope checks and packing read or write. */
module Records {
  import opened Wrappers

  datatype MemoryRecord = MemoryRecord(
    id: string,
    pillar: string,
    content: string,
    tags: seq<string>,
    score: Option<real>,
    createdAt: Option<real>,  // seconds
    importance: Option<real>,
    scope: Option<string>,
    scopeRef: Option<string>,
    visibility: Option<string>,
    metadata: map<string, real>)

  ghost predicate DistinctIds(records: seq<MemoryRecord>) {
    forall i, j :: 0 <= i < j < |records| ==> records[i].id != records[j].id
  }

  ghost predicate Distinct<T>(xs: seq<T>) {
    forall i, j :: 0 <= i < j < |xs| ==> xs[i] != xs[j]
  }

  ghost predicate HasId(records: seq<MemoryRecord>, id: string) {
    exists i :: 0 <= i < |records| && records[i].id == id
  }

  lemma OneMore<T>(xs: seq<T>, i: nat)
    requires i < |xs|
    ensures xs[..i] + [xs[i]] == xs[..i + 1]
  {
  }
}
