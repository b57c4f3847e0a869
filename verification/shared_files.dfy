/** Versioned shared files (src/teamshared/memory/shared_files.py): the tables shared_files
    and shared_file_versions under row-level security, so that an operation sees only the
    files of its own org, while slugs are unique over all orgs (infra/migrations). */
module SharedFiles {
  import opened Wrappers
  import Slugs

  datatype File = File(
    org: nat, title: string, format: string, published: bool,
    token: Option<nat>, slug: Option<string>, current: nat, active: bool)

  datatype Version = Version(content: string, format: string)

  datatype Tables = Tables(files: map<nat, File>, versions: map<nat, map<nat, Version>>)

  const NO_FILES: Tables := Tables(map[], map[])

  /** The row the org's connection can see. */
  predicate Visible(t: Tables, org: nat, id: nat) {
    id in t.files && t.files[id].org == org
  }

  predicate ActiveIn(t: Tables, org: nat, id: nat) {
    Visible(t, org, id) && t.files[id].active
  }

  function History(t: Tables, id: nat): map<nat, Version> {
    if id in t.versions then t.versions[id] else map[]
  }

  // ---- the operations ----

  function Created(t: Tables, id: nat, org: nat, title: string, content: string, format: string): Tables {
    Tables(t.files[id := File(org, title, format, false, None, None, 1, true)],
           t.versions[id := map[1 := Version(content, format)]])
  }

  /** content_format or the file's own: an empty format counts as none. */
  function ChosenFormat(format: Option<string>, file: File): string {
    if format.Some? && format.value != "" then format.value else file.format
  }

  function Updated(t: Tables, org: nat, id: nat, content: string, format: Option<string>): Tables {
    if Visible(t, org, id) then
      var file := t.files[id];
      var fmt := ChosenFormat(format, file);
      Tables(t.files[id := file.(current := file.current + 1, format := fmt)],
             t.versions[id := History(t, id)[file.current + 1 := Version(content, fmt)]])
    else t
  }

  /** An active file, with the content of its current version if that row exists. */
  function Get(t: Tables, org: nat, id: nat): Option<(File, Option<Version>)> {
    if ActiveIn(t, org, id) then
      var file := t.files[id];
      Some((file, if file.current in History(t, id) then Some(History(t, id)[file.current]) else None))
    else None
  }

  /** Slugs of the other files of the org, archived ones included. */
  function TakenInOrg(t: Tables, org: nat, id: nat): set<string> {
    set f | f in t.files && f != id && t.files[f].org == org && t.files[f].slug.Some? :: t.files[f].slug.value
  }

  function NewSlug(t: Tables, org: nat, id: nat): string
    requires Visible(t, org, id)
  {
    var base := Slugs.Slugify(t.files[id].title);
    Slugs.FirstFree(if base == "" then "file" else base, TakenInOrg(t, org, id))
  }

  function SlugAfterPublish(t: Tables, org: nat, id: nat): string
    requires Visible(t, org, id)
  {
    if t.files[id].slug.Some? then t.files[id].slug.value else NewSlug(t, org, id)
  }

  /** The unique index over all orgs already holds the slug. */
  predicate SlugTakenElsewhere(t: Tables, id: nat, slug: string) {
    exists f :: f in t.files && f != id && t.files[f].slug == Some(slug)
  }

  /** Publishing raises: its slug passed the search in the org but violates the unique index. */
  predicate PublishRaises(t: Tables, org: nat, id: nat) {
    ActiveIn(t, org, id) && t.files[id].slug.None? && SlugTakenElsewhere(t, id, NewSlug(t, org, id))
  }

  predicate PublishSucceeds(t: Tables, org: nat, id: nat) {
    ActiveIn(t, org, id) && !PublishRaises(t, org, id)
  }

  /** `newToken` is the random token, used when the file has none yet. */
  function Published(t: Tables, org: nat, id: nat, newToken: nat): Tables {
    if PublishSucceeds(t, org, id) then
      var file := t.files[id];
      t.(files := t.files[id := file.(
        published := true,
        token := if file.token.Some? then file.token else Some(newToken),
        slug := Some(SlugAfterPublish(t, org, id)))])
    else t
  }

  function Unpublished(t: Tables, org: nat, id: nat): Tables {
    if Visible(t, org, id) then t.(files := t.files[id := t.files[id].(published := false)]) else t
  }

  function Archived(t: Tables, org: nat, id: nat): Tables {
    if ActiveIn(t, org, id) then t.(files := t.files[id := t.files[id].(active := false)]) else t
  }

  datatype DeleteReason = Deleted | NotFound | OnlyVersion | VersionNotFound

  function DeleteOutcome(t: Tables, org: nat, id: nat, v: nat): DeleteReason {
    if !ActiveIn(t, org, id) then NotFound
    else if |History(t, id)| <= 1 then OnlyVersion
    else if v in History(t, id) then Deleted
    else VersionNotFound
  }

  /** SELECT COALESCE(MAX(version), 1) */
  function MaxVersion(h: map<nat, Version>): (m: nat)
    ensures h == map[] ==> m == 1
    ensures h != map[] ==> m in h && forall v :: v in h ==> v <= m
  {
    if h == map[] then 1
    else
      assert h.Keys != {} by { var v :| v in h; }
      HasMax(h.Keys);
      var m :| m in h && forall v :: v in h ==> v <= m;
      m
  }

  lemma HasMax(s: set<nat>)
    requires s != {}
    ensures exists m :: m in s && forall v :: v in s ==> v <= m
    decreases |s|
  {
    var x :| x in s;
    if s != {x} {
      HasMax(s - {x});
      var m :| m in s - {x} && forall v :: v in s - {x} ==> v <= m;
      var top := if x > m then x else m;
      forall v | v in s ensures v <= top {
        assert v == x || v in s - {x};
      }
      assert top in s;
    } else {
      assert x in s && forall v :: v in s ==> v <= x;
    }
  }

  function VersionDeleted(t: Tables, org: nat, id: nat, v: nat): Tables {
    if DeleteOutcome(t, org, id, v).Deleted? then
      var rest := History(t, id) - {v};
      var file := t.files[id];
      Tables(t.files[id := file.(current := if v == file.current then MaxVersion(rest) else file.current)],
             t.versions[id := rest])
    else t
  }

  /** The public read path by share token: published and active, at its current version. */
  ghost predicate ServedPublicly(t: Tables, token: nat, f: nat) {
    f in t.files && t.files[f].token == Some(token) && t.files[f].published && t.files[f].active
  }

  // ---- the store ----

  class SharedFileStore {
    var files: map<nat, File>
    var versions: map<nat, map<nat, Version>>

    function AsTables(): Tables
      reads this
    {
      Tables(files, versions)
    }

    constructor ()
      ensures AsTables() == NO_FILES
    {
      files, versions := map[], map[];
    }

    method Create(org: nat, title: string, content: string, format: string, newId: nat)
      requires newId !in files
      modifies this
      ensures AsTables() == Created(old(AsTables()), newId, org, title, content, format)
    {
      files := files[newId := File(org, title, format, false, None, None, 1, true)];
      versions := versions[newId := map[1 := Version(content, format)]];
    }

    method Update(org: nat, id: nat, content: string, format: Option<string>) returns (file: Option<File>)
      modifies this
      ensures AsTables() == Updated(old(AsTables()), org, id, content, format)
      ensures file == if Visible(AsTables(), org, id) then Some(files[id]) else None
    {
      if !Visible(AsTables(), org, id) {
        return None;
      }
      var prior := files[id];
      var next := prior.current + 1;
      var fmt := ChosenFormat(format, prior);
      versions := versions[id := History(AsTables(), id)[next := Version(content, fmt)]];
      files := files[id := prior.(current := next, format := fmt)];
      file := Some(files[id]);
    }

    /** get */
    method Fetch(org: nat, id: nat) returns (found: Option<(File, Option<Version>)>)
      ensures found == Get(AsTables(), org, id)
    {
      if !ActiveIn(AsTables(), org, id) {
        return None;
      }
      var file, history := files[id], History(AsTables(), id);
      found := Some((file, if file.current in history then Some(history[file.current]) else None));
    }

    /** publish; `raised` is the unique violation of the slug index, which rolls everything back. */
    method Publish(org: nat, id: nat, newToken: nat) returns (file: Option<File>, raised: bool)
      modifies this
      ensures AsTables() == Published(old(AsTables()), org, id, newToken)
      ensures raised == PublishRaises(old(AsTables()), org, id)
      ensures file == if PublishSucceeds(old(AsTables()), org, id) then Some(files[id]) else None
    {
      if !ActiveIn(AsTables(), org, id) {
        return None, false;
      }
      var row := files[id];
      var slug := row.slug;
      if slug.None? {
        var base := Slugs.Slugify(row.title);
        var cand, probes := Slugs.SearchSlug(if base == "" then "file" else base, TakenInOrg(AsTables(), org, id));
        if exists f :: f in files && f != id && files[f].slug == Some(cand) {
          return None, true;
        }
        slug := Some(cand);
      }
      files := files[id := row.(published := true, slug := slug,
                                token := if row.token.None? then Some(newToken) else row.token)];
      file, raised := Some(files[id]), false;
    }

    method Unpublish(org: nat, id: nat) returns (file: Option<File>)
      modifies this
      ensures AsTables() == Unpublished(old(AsTables()), org, id)
      ensures file == if Visible(AsTables(), org, id) then Some(files[id]) else None
    {
      if !Visible(AsTables(), org, id) {
        return None;
      }
      files := files[id := files[id].(published := false)];
      file := Some(files[id]);
    }

    method Archive(org: nat, id: nat) returns (changed: bool)
      modifies this
      ensures AsTables() == Archived(old(AsTables()), org, id)
      ensures changed == ActiveIn(old(AsTables()), org, id)
    {
      changed := ActiveIn(AsTables(), org, id);
      if changed {
        files := files[id := files[id].(active := false)];
      }
    }

    method DeleteVersion(org: nat, id: nat, v: nat) returns (outcome: DeleteReason, currentChanged: bool)
      modifies this
      ensures AsTables() == VersionDeleted(old(AsTables()), org, id, v)
      ensures outcome == DeleteOutcome(old(AsTables()), org, id, v)
      ensures currentChanged <==> outcome.Deleted? && v == old(AsTables()).files[id].current
    {
      if !ActiveIn(AsTables(), org, id) {
        return NotFound, false;
      }
      var row, history := files[id], History(AsTables(), id);
      if |history| <= 1 {
        return OnlyVersion, false;
      }
      if v !in history {
        return VersionNotFound, false;
      }
      versions := versions[id := history - {v}];
      currentChanged := v == row.current;
      if currentChanged {
        files := files[id := row.(current := MaxVersion(history - {v}))];
      } else {
        files := files[id := row.(current := row.current)];
      }
      outcome := Deleted;
    }
  }

  // ---- runs ----

  datatype Op =
    | Create(org: nat, id: nat, title: string, content: string, format: string)
    | Update(org: nat, id: nat, text: string, choice: Option<string>)
    | Publish(org: nat, id: nat, newToken: nat)
    | Unpublish(org: nat, id: nat)
    | Archive(org: nat, id: nat)
    | DeleteVersion(org: nat, id: nat, v: nat)

  function Step(t: Tables, op: Op): Tables {
    match op
    case Create(org, id, title, content, format) => Created(t, id, org, title, content, format)
    case Update(org, id, text, choice) => Updated(t, org, id, text, choice)
    case Publish(org, id, newToken) => Published(t, org, id, newToken)
    case Unpublish(org, id) => Unpublished(t, org, id)
    case Archive(org, id) => Archived(t, org, id)
    case DeleteVersion(org, id, v) => VersionDeleted(t, org, id, v)
  }

  /** Generated ids and tokens are new. */
  ghost predicate Generated(t: Tables, op: Op) {
    && (op.Create? ==> op.id !in t.files)
    && (op.Publish? ==> forall f :: f in t.files ==> t.files[f].token != Some(op.newToken))
  }

  /** A history is not empty and the current version is its maximum, so the version number
      an update inserts is free. */
  ghost predicate HistoryOk(t: Tables, f: nat) {
    && f in t.versions && f in t.files
    && t.files[f].current in t.versions[f]
    && forall v :: v in t.versions[f] ==> 1 <= v <= t.files[f].current
  }

  ghost predicate Handled(file: File) {
    (file.published ==> file.token.Some? && file.slug.Some?) && (file.token.Some? <==> file.slug.Some?)
  }

  ghost predicate Apart(a: File, b: File) {
    && (a.token.Some? ==> a.token != b.token)
    && (a.slug.Some? ==> a.slug != b.slug)
  }

  /** Histories are sound and belong to a file; tokens and slugs are not shared. */
  ghost predicate Valid(t: Tables) {
    && t.versions.Keys <= t.files.Keys
    && (forall f :: f in t.files ==> HistoryOk(t, f) && Handled(t.files[f]))
    && (forall f, g :: f in t.files && g in t.files && f != g ==> Apart(t.files[f], t.files[g]))
  }

  lemma DeletedHistory(t: Tables, org: nat, id: nat, v: nat)
    requires Valid(t) && DeleteOutcome(t, org, id, v).Deleted?
    ensures HistoryOk(VersionDeleted(t, org, id, v), id)
    ensures VersionDeleted(t, org, id, v).files[id].current <= t.files[id].current
  {
    var h := t.versions[id];
    var rest := h - {v};
    assert HistoryOk(t, id);
    assert h.Keys == rest.Keys + {v};
    assert |h| == |h.Keys| && |rest| == |rest.Keys|;
    assert rest != map[];
  }

  lemma StepKeepsHistories(t: Tables, op: Op, f: nat)
    requires Valid(t) && Generated(t, op) && f in Step(t, op).files
    ensures HistoryOk(Step(t, op), f) && Handled(Step(t, op).files[f])
  {
    if f in t.files {
      assert HistoryOk(t, f) && Handled(t.files[f]);
    }
    if op.DeleteVersion? && DeleteOutcome(t, op.org, op.id, op.v).Deleted? {
      DeletedHistory(t, op.org, op.id, op.v);
    }
  }

  lemma NewSlugIsFreeInOrg(t: Tables, org: nat, id: nat)
    requires Visible(t, org, id)
    ensures NewSlug(t, org, id) !in TakenInOrg(t, org, id)
  {
    var base := Slugs.Slugify(t.files[id].title);
    Slugs.FirstFreeIsFreeAndFirst(if base == "" then "file" else base, TakenInOrg(t, org, id));
  }

  /** The row of f after an operation on another file is the row before. */
  lemma OtherRowsStay(t: Tables, op: Op, f: nat)
    requires f in Step(t, op).files && f != op.id
    ensures f in t.files && Step(t, op).files[f] == t.files[f]
  {
  }

  /** The handles of the file an operation is about: kept, or new and free. */
  lemma OwnHandles(t: Tables, op: Op)
    requires Generated(t, op) && op.id in Step(t, op).files
    ensures var file := Step(t, op).files[op.id];
            && (file.token.None? || (op.id in t.files && file.token == t.files[op.id].token)
                || forall g :: g in t.files ==> t.files[g].token != file.token)
            && (file.slug.None? || (op.id in t.files && file.slug == t.files[op.id].slug)
                || forall g :: g in t.files && g != op.id ==> t.files[g].slug != file.slug)
  {
  }

  lemma StepKeepsApart(t: Tables, op: Op, f: nat, g: nat)
    requires Valid(t) && Generated(t, op) && f in Step(t, op).files && g in Step(t, op).files && f != g
    ensures Apart(Step(t, op).files[f], Step(t, op).files[g])
  {
    if f != op.id {
      OtherRowsStay(t, op, f);
    } else {
      OwnHandles(t, op);
    }
    if g != op.id {
      OtherRowsStay(t, op, g);
    } else {
      OwnHandles(t, op);
    }
    if f in t.files && g in t.files {
      assert Apart(t.files[f], t.files[g]) && Apart(t.files[g], t.files[f]);
    }
  }

  /** Every operation keeps every history sound and owned and all tokens and slugs apart. */
  lemma StepKeepsValid(t: Tables, op: Op)
    requires Valid(t) && Generated(t, op)
    ensures Valid(Step(t, op))
  {
    forall f | f in Step(t, op).files ensures HistoryOk(Step(t, op), f) && Handled(Step(t, op).files[f]) {
      StepKeepsHistories(t, op, f);
    }
    forall f, g | f in Step(t, op).files && g in Step(t, op).files && f != g
      ensures Apart(Step(t, op).files[f], Step(t, op).files[g])
    {
      StepKeepsApart(t, op, f, g);
    }
  }

  function After(t: Tables, ops: seq<Op>): Tables {
    if ops == [] then t else Step(After(t, ops[..|ops| - 1]), ops[|ops| - 1])
  }

  /** A run: ids and tokens are new when they are generated. */
  ghost predicate Runs(t: Tables, ops: seq<Op>) {
    ops != [] ==>
      Runs(t, ops[..|ops| - 1]) && Generated(After(t, ops[..|ops| - 1]), ops[|ops| - 1])
  }

  /** In every reachable state every history is non-empty with the current version as its
      maximum, so the next insert cannot collide, get finds the content of exactly the
      active files of the org, and no two files share a slug or a token. */
  lemma {:induction false} EveryRunIsSound(t: Tables, ops: seq<Op>)
    requires Valid(t) && Runs(t, ops)
    ensures Valid(After(t, ops)) && Valid(NO_FILES)
    ensures var u := After(t, ops); forall f :: f in u.files ==> u.files[f].current + 1 !in History(u, f)
    ensures var u := After(t, ops); forall org, f :: Get(u, org, f).Some? <==> ActiveIn(u, org, f)
    ensures var u := After(t, ops); forall org, f :: Get(u, org, f).Some? ==> Get(u, org, f).value.1.Some?
    decreases |ops|
  {
    if ops != [] {
      EveryRunIsSound(t, ops[..|ops| - 1]);
      StepKeepsValid(After(t, ops[..|ops| - 1]), ops[|ops| - 1]);
    }
    var u := After(t, ops);
    forall f | f in u.files ensures u.files[f].current + 1 !in History(u, f) && u.files[f].current in History(u, f) {
      assert HistoryOk(u, f);
    }
  }

  // ---- what was put in comes out ----

  /** Only the org that owns an active file gets it, with the version its row names. */
  lemma GetIsScoped(t: Tables, org: nat, f: nat)
    requires Valid(t)
    ensures Get(t, org, f).Some? <==> f in t.files && t.files[f].org == org && t.files[f].active
    ensures Get(t, org, f).Some? ==>
              && f in t.versions && t.files[f].current in t.versions[f]
              && Get(t, org, f) == Some((t.files[f], Some(t.versions[f][t.files[f].current])))
  {
    if f in t.files {
      assert HistoryOk(t, f);
    }
  }

  /** A created file reads back as an active private file of its org, without a token or a slug,
      whose first version holds exactly the given content and format; no other org sees it. */
  lemma CreatedReadsBack(t: Tables, id: nat, org: nat, title: string, content: string, format: string, other: nat)
    ensures Get(Step(t, Create(org, id, title, content, format)), other, id)
            == if other == org
               then Some((File(org, title, format, false, None, None, 1, true), Some(Version(content, format))))
               else None
  {
  }

  /** The version of f that an operation issues: the first by its creation, the next by an
      update, whose empty or missing format stands for the one on the file row. */
  ghost function Writes(t: Tables, op: Op, f: nat): Option<(nat, Version)> {
    match op
    case Create(org, id, title, content, format) => if id == f then Some((1, Version(content, format))) else None
    case Update(org, id, text, choice) =>
      if id == f && f in t.files && t.files[f].org == org
      then Some((t.files[f].current + 1,
                 Version(text, if choice == None || choice == Some("") then t.files[f].format else choice.value)))
      else None
    case _ => None
  }

  /** An issued version is stored and becomes the current one; the others keep what they hold. */
  lemma WritesAreStored(t: Tables, op: Op, f: nat)
    requires Valid(t) && Generated(t, op)
    ensures var w, u := Writes(t, op, f), Step(t, op);
            w.Some? ==>
              && f in u.files && u.files[f].current == w.value.0 && u.files[f].format == w.value.1.format
              && w.value.0 in History(u, f) && History(u, f)[w.value.0] == w.value.1
    ensures forall v :: v in History(Step(t, op), f) && (Writes(t, op, f) == None || Writes(t, op, f).value.0 != v) ==>
              v in History(t, f) && History(t, f)[v] == History(Step(t, op), f)[v]
  {
    if f in t.files {
      assert HistoryOk(t, f);
    }
  }

  /** Operation i issued version v of f with what it holds, and no later one issued that number. */
  ghost predicate IssuedLastBy(ops: seq<Op>, i: nat, f: nat, v: nat, x: Version)
    requires i < |ops|
  {
    && Writes(After(NO_FILES, ops[..i]), ops[i], f) == Some((v, x))
    && forall j :: i < j < |ops| ==> !IssuesNumber(After(NO_FILES, ops[..j]), ops[j], f, v)
  }

  ghost predicate IssuesNumber(t: Tables, op: Op, f: nat, v: nat) {
    Writes(t, op, f).Some? && Writes(t, op, f).value.0 == v
  }

  lemma IssuedStill(ops: seq<Op>, i: nat, f: nat, v: nat, x: Version)
    requires i < |ops| - 1 && IssuedLastBy(ops[..|ops| - 1], i, f, v, x)
    requires !IssuesNumber(After(NO_FILES, ops[..|ops| - 1]), ops[|ops| - 1], f, v)
    ensures IssuedLastBy(ops, i, f, v, x)
  {
    var init := ops[..|ops| - 1];
    assert ops[..i] == init[..i];
    forall j | i < j < |ops| ensures !IssuesNumber(After(NO_FILES, ops[..j]), ops[j], f, v) {
      if j < |init| {
        assert ops[..j] == init[..j];
        assert !IssuesNumber(After(NO_FILES, init[..j]), init[j], f, v);
      }
    }
  }

  /** The version the last operation stores or leaves. */
  lemma StoredByTheLast(t: Tables, op: Op, f: nat, v: nat)
    requires Valid(t) && Generated(t, op) && v in History(Step(t, op), f)
    ensures IssuesNumber(t, op, f, v) ==> Writes(t, op, f) == Some((v, History(Step(t, op), f)[v]))
    ensures !IssuesNumber(t, op, f, v) ==> v in History(t, f) && History(t, f)[v] == History(Step(t, op), f)[v]
  {
    WritesAreStored(t, op, f);
  }

  /** Over any run: every stored version, and so the one that get returns, holds exactly the text
      and format of the create or update that issued its number last. */
  lemma {:induction false} StoredVersionsAreTheIssuedOnes(ops: seq<Op>, f: nat, v: nat)
    requires Runs(NO_FILES, ops) && v in History(After(NO_FILES, ops), f)
    ensures exists i :: 0 <= i < |ops| && IssuedLastBy(ops, i, f, v, History(After(NO_FILES, ops), f)[v])
    decreases |ops|
  {
    if ops != [] {
      var init, op := ops[..|ops| - 1], ops[|ops| - 1];
      var t, x := After(NO_FILES, init), History(After(NO_FILES, ops), f)[v];
      EveryRunIsSound(NO_FILES, init);
      StoredByTheLast(t, op, f, v);
      if IssuesNumber(t, op, f, v) {
        assert IssuedLastBy(ops, |init|, f, v, x);
      } else {
        StoredVersionsAreTheIssuedOnes(init, f, v);
        var i :| 0 <= i < |init| && IssuedLastBy(init, i, f, v, x);
        IssuedStill(ops, i, f, v, x);
      }
    }
  }

  // ---- what each operation does to its row ----

  /** Operations of one org leave the files of another as they are. */
  lemma OtherOrgsAreUntouched(t: Tables, op: Op, f: nat)
    requires Valid(t) && Generated(t, op) && f in t.files && t.files[f].org != op.org
    ensures f in Step(t, op).files && Step(t, op).files[f] == t.files[f]
    ensures History(Step(t, op), f) == History(t, f)
  {
  }

  /** Publishing marks an active file as published, gives it the new token unless it has one and
      the new slug unless it has one, and changes nothing else; when it raises nothing changes. */
  lemma PublishOutcome(t: Tables, org: nat, id: nat, newToken: nat)
    requires id in t.files && t.files[id].org == org && t.files[id].active
    ensures PublishSucceeds(t, org, id) <==> !PublishRaises(t, org, id)
    ensures PublishRaises(t, org, id) ==> Step(t, Publish(org, id, newToken)) == t
    ensures var u, row := Step(t, Publish(org, id, newToken)), t.files[id];
            !PublishRaises(t, org, id) ==>
              && u.versions == t.versions && u.files.Keys == t.files.Keys
              && u.files[id] == File(row.org, row.title, row.format, true,
                                     if row.token == None then Some(newToken) else row.token,
                                     if row.slug == None then Some(NewSlug(t, org, id)) else row.slug,
                                     row.current, true)
  {
  }

  /** The new slug is the slugified title, or "file" when that is empty, and takes the least free
      suffix -2, -3, ... when another file of the org has it. */
  lemma NewSlugCountsUp(t: Tables, org: nat, id: nat, base: string)
    requires id in t.files && t.files[id].org == org
    requires base == if Slugs.Slugify(t.files[id].title) == "" then "file" else Slugs.Slugify(t.files[id].title)
    ensures var taken := TakenInOrg(t, org, id);
            if base in taken then exists n :: Slugs.IsLeastSuffix(base, taken, NewSlug(t, org, id), n)
            else NewSlug(t, org, id) == base
  {
    var taken := TakenInOrg(t, org, id);
    assert NewSlug(t, org, id) == Slugs.FirstFree(base, taken);
    Slugs.FirstFreeCountsFromTwo(base, taken);
    if base in taken {
      var n :| Slugs.IsLeastSuffix(base, taken, Slugs.FirstFree(base, taken), n);
      assert Slugs.IsLeastSuffix(base, taken, NewSlug(t, org, id), n);
    }
  }

  /** The slugs of the other files of the org, archived and private ones included. */
  lemma TakenIsHeldInOrg(t: Tables, org: nat, id: nat, slug: string)
    ensures slug in TakenInOrg(t, org, id) <==>
            exists f :: f in t.files && f != id && t.files[f].org == org && t.files[f].slug == Some(slug)
  {
    if f :| f in t.files && f != id && t.files[f].org == org && t.files[f].slug == Some(slug) {
      assert t.files[f].slug.value in TakenInOrg(t, org, id);
    }
  }

  /** Unpublishing marks a file of the org as private, archived or not, and archiving marks an
      active one as archived; neither changes anything else. */
  lemma MarksOnlyItsMark(t: Tables, org: nat, id: nat)
    ensures var u := Step(t, Unpublish(org, id));
            if id in t.files && t.files[id].org == org
            then u == Tables(t.files[id := u.files[id]], t.versions) && SameBut(t.files[id], u.files[id], false, true)
            else u == t
    ensures var u := Step(t, Archive(org, id));
            if id in t.files && t.files[id].org == org && t.files[id].active
            then u == Tables(t.files[id := u.files[id]], t.versions) && SameBut(t.files[id], u.files[id], true, false)
            else u == t
  {
  }

  /** The rows agree but for the marks that are not kept, which are off. */
  ghost predicate SameBut(a: File, b: File, keepsPublished: bool, keepsActive: bool) {
    && b.org == a.org && b.title == a.title && b.format == a.format && b.token == a.token && b.slug == a.slug
    && b.current == a.current
    && b.published == (keepsPublished && a.published) && b.active == (keepsActive && a.active)
  }

  /** A version is deleted exactly when it is one of several of an active file of the org; each
      refusal has its own reason and changes nothing. Only deleting the current version moves the
      file, to the highest version left. */
  lemma DeletionOutcome(t: Tables, org: nat, id: nat, v: nat)
    requires Valid(t)
    ensures var o := DeleteOutcome(t, org, id, v);
            && (o == NotFound <==> !(id in t.files && t.files[id].org == org && t.files[id].active))
            && (o == Deleted || o == VersionNotFound ==> |t.versions[id]| >= 2)
            && (o == OnlyVersion ==> |t.versions[id]| == 1)
            && (o == Deleted ==> v in t.versions[id]) && (o == VersionNotFound ==> v !in t.versions[id])
    ensures var o, u := DeleteOutcome(t, org, id, v), Step(t, DeleteVersion(org, id, v));
            if o == Deleted
            then && u.versions == t.versions[id := t.versions[id] - {v}]
                 && u.files == t.files[id := t.files[id].(current := u.files[id].current)]
                 && (v != t.files[id].current ==> u.files[id].current == t.files[id].current)
                 && u.files[id].current in u.versions[id]
                 && forall w :: w in u.versions[id] ==> w <= u.files[id].current
            else u == t
  {
    if id in t.files {
      assert HistoryOk(t, id);
      assert t.versions[id] != map[];
      assert |t.versions[id]| >= 1;
    }
    if DeleteOutcome(t, org, id, v) == Deleted {
      DeletedHistory(t, org, id, v);
    }
  }

  predicate Deletes(t: Tables, op: Op, f: nat, v: nat) {
    op.DeleteVersion? && op.id == f && op.v == v && DeleteOutcome(t, op.org, f, v).Deleted?
  }

  /** A stored version survives an operation unchanged unless it is that version's deletion. */
  lemma StepKeepsVersions(t: Tables, op: Op, f: nat, v: nat)
    requires Valid(t) && Generated(t, op) && f in t.files && v in History(t, f)
    ensures (v in History(Step(t, op), f) && History(Step(t, op), f)[v] == History(t, f)[v])
            <==> !Deletes(t, op, f, v)
  {
    assert HistoryOk(t, f);
  }

  /** A file keeps its org and title, and its slug and token once it has them. */
  lemma StepKeepsHandles(t: Tables, op: Op, f: nat)
    requires Generated(t, op) && f in t.files
    ensures f in Step(t, op).files && KeepsHandles(t.files[f], Step(t, op).files[f])
  {
  }

  ghost predicate KeepsHandles(before: File, after: File) {
    && after.org == before.org && after.title == before.title
    && (before.slug.Some? ==> after.slug == before.slug)
    && (before.token.Some? ==> after.token == before.token)
  }

  /** Over any run, republishing included, slug and token never change once set. */
  lemma {:induction false} HandlesArePermanent(t: Tables, ops: seq<Op>, f: nat)
    requires Runs(t, ops) && f in t.files
    ensures f in After(t, ops).files && KeepsHandles(t.files[f], After(t, ops).files[f])
    decreases |ops|
  {
    if ops != [] {
      HandlesArePermanent(t, ops[..|ops| - 1], f);
      StepKeepsHandles(After(t, ops[..|ops| - 1]), ops[|ops| - 1], f);
    }
  }

  /** Over any run that does not delete it, a version keeps its content. */
  lemma {:induction false} VersionsAreImmutable(t: Tables, ops: seq<Op>, f: nat, v: nat)
    requires Valid(t) && Runs(t, ops) && f in t.files && v in History(t, f)
    requires forall i :: 0 <= i < |ops| ==> !Deletes(After(t, ops[..i]), ops[i], f, v)
    ensures f in After(t, ops).files
    ensures v in History(After(t, ops), f) && History(After(t, ops), f)[v] == History(t, f)[v]
    decreases |ops|
  {
    if ops != [] {
      var init := ops[..|ops| - 1];
      forall i | 0 <= i < |init| ensures !Deletes(After(t, init[..i]), init[i], f, v) {
        assert init[..i] == ops[..i];
      }
      VersionsAreImmutable(t, init, f, v);
      EveryRunIsSound(t, init);
      assert ops[..|init|] == init;
      StepKeepsVersions(After(t, init), ops[|init|], f, v);
      StepKeepsHandles(After(t, init), ops[|init|], f);
    }
  }

  // ---- version numbers ever issued ----

  /** The numbers a file's versions have had at any time in a run from the empty store. */
  ghost function Issued(ops: seq<Op>, f: nat): set<nat> {
    if ops == [] then {}
    else Issued(ops[..|ops| - 1], f) + History(After(NO_FILES, ops), f).Keys
  }

  /** The number the next update of f will use was never used before. */
  ghost predicate NextIsFresh(ops: seq<Op>, f: nat)
    requires f in After(NO_FILES, ops).files
  {
    After(NO_FILES, ops).files[f].current + 1 !in Issued(ops, f)
  }

  ghost predicate Contiguous(s: set<nat>) {
    forall v :: v in s ==> 1 <= v && forall u :: 1 <= u <= v ==> u in s
  }

  /** The number an operation may add to a history. */
  function NumberToAdd(t: Tables, f: nat): nat {
    if f in t.files then t.files[f].current + 1 else 1
  }

  lemma NewNumber(t: Tables, op: Op, f: nat)
    requires Valid(t) && Generated(t, op)
    ensures History(Step(t, op), f).Keys <= History(t, f).Keys + {NumberToAdd(t, f)}
  {
    if f in t.files {
      assert HistoryOk(t, f);
    }
  }

  lemma ContiguousGrows(issued: set<nat>, h: set<nat>, n: nat)
    requires Contiguous(issued) && n >= 1 && (n > 1 ==> n - 1 in issued) && h <= issued + {n}
    ensures Contiguous(issued + h)
  {
  }

  lemma {:induction false} IssuedIsContiguous(ops: seq<Op>, f: nat)
    requires Runs(NO_FILES, ops)
    ensures Contiguous(Issued(ops, f))
    ensures History(After(NO_FILES, ops), f).Keys <= Issued(ops, f)
    ensures f in After(NO_FILES, ops).files ==> After(NO_FILES, ops).files[f].current in Issued(ops, f)
    decreases |ops|
  {
    EveryRunIsSound(NO_FILES, ops);
    var t' := After(NO_FILES, ops);
    if f in t'.files {
      assert HistoryOk(t', f);
    }
    if ops != [] {
      var init := ops[..|ops| - 1];
      var t := After(NO_FILES, init);
      IssuedIsContiguous(init, f);
      EveryRunIsSound(NO_FILES, init);
      NewNumber(t, ops[|ops| - 1], f);
      ContiguousGrows(Issued(init, f), History(t', f).Keys, NumberToAdd(t, f));
    }
  }

  ghost predicate Bounds(s: set<nat>, top: nat) {
    forall v :: v in s ==> v <= top
  }

  /** In every run the next version number is new exactly when the current version is the
      highest ever issued. */
  lemma {:induction false} NextIsFreshIff(ops: seq<Op>, f: nat)
    requires Runs(NO_FILES, ops) && f in After(NO_FILES, ops).files
    ensures NextIsFresh(ops, f) <==> Bounds(Issued(ops, f), After(NO_FILES, ops).files[f].current)
  {
    IssuedIsContiguous(ops, f);
    FreshAboveIff(Issued(ops, f), After(NO_FILES, ops).files[f].current);
  }

  lemma FreshAboveIff(s: set<nat>, top: nat)
    requires Contiguous(s)
    ensures top + 1 !in s <==> Bounds(s, top)
  {
    assert forall v :: v in s && v >= top + 1 ==> top + 1 in s;
  }

  /** The operation deletes the version that is current. */
  predicate DeletesCurrent(t: Tables, op: Op, f: nat) {
    f in t.files && Deletes(t, op, f, t.files[f].current)
  }

  lemma DeletionLowersCurrent(t: Tables, op: Op, f: nat)
    requires Valid(t) && DeletesCurrent(t, op, f)
    ensures f in Step(t, op).files && Step(t, op).files[f].current < t.files[f].current
  {
    DeletedHistory(t, op.org, f, op.v);
    assert Step(t, op).files[f].current in t.versions[f] - {op.v};
  }

  /** Right after the current version is deleted the next number is one that was used. */
  lemma {:induction false} DeletingCurrentSpoilsNext(ops: seq<Op>, op: Op, f: nat)
    requires Runs(NO_FILES, ops + [op]) && DeletesCurrent(After(NO_FILES, ops), op, f)
    ensures f in After(NO_FILES, ops + [op]).files && !NextIsFresh(ops + [op], f)
  {
    var t, all := After(NO_FILES, ops), ops + [op];
    assert all[..|ops|] == ops;
    EveryRunIsSound(NO_FILES, ops);
    IssuedIsContiguous(ops, f);
    DeletionLowersCurrent(t, op, f);
    NextIsFreshIff(all, f);
    assert t.files[f].current in Issued(all, f);
  }

  /** A run that never deletes the version that is current hands out new numbers only. */
  lemma {:induction false} FreshWithoutSuchDeletions(ops: seq<Op>, f: nat)
    requires Runs(NO_FILES, ops) && f in After(NO_FILES, ops).files
    requires forall i :: 0 <= i < |ops| ==> !DeletesCurrent(After(NO_FILES, ops[..i]), ops[i], f)
    ensures NextIsFresh(ops, f)
    decreases |ops|
  {
    var init, op := ops[..|ops| - 1], ops[|ops| - 1];
    var t := After(NO_FILES, init);
    assert ops[..|init|] == init;
    EveryRunIsSound(NO_FILES, init);
    NextIsFreshIff(ops, f);
    if f in t.files {
      forall i | 0 <= i < |init| ensures !DeletesCurrent(After(NO_FILES, init[..i]), init[i], f) {
        assert init[..i] == ops[..i];
      }
      FreshWithoutSuchDeletions(init, f);
      NextIsFreshIff(init, f);
      IssuedIsContiguous(init, f);
      CurrentMoves(t, op, f, Issued(init, f));
    } else {
      UnknownFileHasNoNumbers(init, f);
      NewNumber(t, op, f);
      assert History(t, f) == map[];
      assert HistoryOk(After(NO_FILES, ops), f) by { EveryRunIsSound(NO_FILES, ops); }
    }
  }

  lemma CurrentMoves(t: Tables, op: Op, f: nat, issued: set<nat>)
    requires Valid(t) && Generated(t, op) && f in t.files && !DeletesCurrent(t, op, f)
    requires History(t, f).Keys <= issued && Bounds(issued, t.files[f].current)
    ensures f in Step(t, op).files
    ensures Bounds(issued + History(Step(t, op), f).Keys, Step(t, op).files[f].current)
  {
    assert HistoryOk(t, f);
  }

  lemma {:induction false} UnknownFileHasNoNumbers(ops: seq<Op>, f: nat)
    requires Runs(NO_FILES, ops) && f !in After(NO_FILES, ops).files
    ensures Issued(ops, f) == {}
    decreases |ops|
  {
    if ops != [] {
      var init := ops[..|ops| - 1];
      EveryRunIsSound(NO_FILES, ops);
      if f in After(NO_FILES, init).files {
        StepKeepsHandles(After(NO_FILES, init), ops[|ops| - 1], f);
      }
      UnknownFileHasNoNumbers(init, f);
    }
  }

  /** Deleting the current version and updating stores `text` under a number of `issued`. */
  ghost predicate Reuses(t: Tables, org: nat, id: nat, text: string, choice: Option<string>, issued: set<nat>)
    requires id in t.files
  {
    var u := VersionDeleted(t, org, id, t.files[id].current);
    var w := Updated(u, org, id, text, choice);
    && id in w.files && w.files[id].current in issued && w.files[id].current <= t.files[id].current
    && w.files[id].current in History(w, id) && History(w, id)[w.files[id].current].content == text
  }

  lemma DeletionThenUpdateReuses(t: Tables, org: nat, id: nat, text: string, choice: Option<string>, issued: set<nat>)
    requires Valid(t) && ActiveIn(t, org, id) && |History(t, id)| >= 2
    requires Contiguous(issued) && t.files[id].current in issued
    ensures Reuses(t, org, id, text, choice, issued)
  {
    var op := Op.DeleteVersion(org, id, t.files[id].current);
    assert HistoryOk(t, id);
    DeletionLowersCurrent(t, op, id);
    UpdateStores(Step(t, op), org, id, text, choice);
  }

  /** So the history is not append-only: after deleting the current version, whatever is left
      of the history, the next update stores its content under a number used before. */
  lemma {:induction false} NumbersAreReused(ops: seq<Op>, org: nat, id: nat, text: string, choice: Option<string>)
    requires Runs(NO_FILES, ops) && ActiveIn(After(NO_FILES, ops), org, id)
    requires |History(After(NO_FILES, ops), id)| >= 2
    ensures Reuses(After(NO_FILES, ops), org, id, text, choice, Issued(ops, id))
  {
    EveryRunIsSound(NO_FILES, ops);
    IssuedIsContiguous(ops, id);
    DeletionThenUpdateReuses(After(NO_FILES, ops), org, id, text, choice, Issued(ops, id));
  }

  lemma UpdateStores(t: Tables, org: nat, id: nat, text: string, choice: Option<string>)
    requires Visible(t, org, id)
    ensures var n, w := t.files[id].current + 1, Updated(t, org, id, text, choice);
            w.files[id].current == n && n in History(w, id) && History(w, id)[n].content == text
  {
  }

  // ---- publishing across orgs ----

  /** Publishing an active file fails exactly when the slug its search settles on already
      belongs to a file the search cannot see, one of another org. */
  lemma PublishFailsIffSlugIsHiddenElsewhere(t: Tables, org: nat, id: nat)
    requires ActiveIn(t, org, id) && t.files[id].slug.None?
    ensures PublishRaises(t, org, id) <==>
            exists f :: f in t.files && t.files[f].org != org && t.files[f].slug == Some(NewSlug(t, org, id))
  {
    NewSlugIsFreeInOrg(t, org, id);
    if PublishRaises(t, org, id) {
      var f :| f in t.files && f != id && t.files[f].slug == Some(NewSlug(t, org, id));
      assert t.files[f].org != org;
    }
  }

  /** So the first file of a title in one org blocks that title in another org. */
  lemma SameTitleElsewhereRaises(t: Tables, org: nat, id: nat, other: nat)
    requires ActiveIn(t, org, id) && t.files[id].slug.None?
    requires other in t.files && t.files[other].org != org
    requires Slugs.Slugify(t.files[id].title) != "" && t.files[other].slug == Some(Slugs.Slugify(t.files[id].title))
    requires Slugs.Slugify(t.files[id].title) !in TakenInOrg(t, org, id)
    ensures PublishRaises(t, org, id)
  {
    assert NewSlug(t, org, id) == Slugs.Candidate(Slugs.Slugify(t.files[id].title), 1);
  }

  /** While all files belong to one org, publishing an active file always succeeds. */
  lemma OneOrgNeverRaises(t: Tables, org: nat, id: nat)
    requires forall f :: f in t.files ==> t.files[f].org == org
    ensures PublishSucceeds(t, org, id) <==> ActiveIn(t, org, id)
  {
    if PublishRaises(t, org, id) {
      PublishFailsIffSlugIsHiddenElsewhere(t, org, id);
      assert false;
    }
  }

  // ---- the format kept on the file row ----

  /** The file row names the format of its current version. */
  ghost predicate FormatInStep(t: Tables, f: nat)
    requires f in t.files && t.files[f].current in History(t, f)
  {
    t.files[f].format == History(t, f)[t.files[f].current].format
  }

  /** Deleting the current version moves current_version back but not the row's format, so
      the two agree afterwards only when the deleted version was not the current one or the
      version behind it has the same format. Every other operation keeps them agreeing. */
  lemma FormatDriftsOnlyByDeletion(t: Tables, op: Op, f: nat)
    requires Valid(t) && Generated(t, op) && f in t.files && HistoryOk(t, f) && FormatInStep(t, f)
    requires HistoryOk(Step(t, op), f)
    ensures FormatInStep(Step(t, op), f) <==>
            (Deletes(t, op, f, t.files[f].current) ==>
               var rest := History(t, f) - {t.files[f].current};
               rest != map[] && rest[MaxVersion(rest)].format == t.files[f].format)
  {
    if Deletes(t, op, f, t.files[f].current) {
      DeletedHistory(t, op.org, f, op.v);
    }
  }
}
