/** The file operations of MemoryFacade (src/teamshared/memory/facade.py) drive the store
    and mirror published files into a bucket (src/teamshared/storage/bucket.py): per share
    token the latest page, index.html, and one snapshot v{n}.html per mirrored version. */
module FileMirror {
  import opened Wrappers
  import opened SharedFiles

  /** The objects under one token; a publication that failed half-way leaves no new page. */
  datatype Mirror = Mirror(index: Option<string>, snapshots: map<nat, string>)

  /** What becomes of the bucket calls of one operation: all done, none, or some. Publishing
      writes the snapshot and then the page, so some is the snapshot; removing deletes the
      objects in portions, so some leaves any of them. */
  datatype Link = Up | Down | Partly(keptPage: bool, kept: set<nat>)

  type Bucket = map<nat, Mirror>

  datatype World = World(t: Tables, bucket: Bucket)

  /** render_markdown_safe, any function of the text. */
  type Renderer = string -> string

  /** Author HTML goes out verbatim; everything else is rendered. */
  function Html(v: Version, md: Renderer): string {
    if v.format == "html" then v.content else md(v.content)
  }

  function Snapshots(b: Bucket, token: nat): map<nat, string> {
    if token in b then b[token].snapshots else map[]
  }

  function Page(b: Bucket, token: nat): Option<string> {
    if token in b then b[token].index else None
  }

  /** publish_html */
  function Put(b: Bucket, token: nat, version: nat, html: string, link: Link): Bucket {
    match link
    case Up => b[token := Mirror(Some(html), Snapshots(b, token)[version := html])]
    case Down => b
    case Partly(_, _) => b[token := Mirror(Page(b, token), Snapshots(b, token)[version := html])]
  }

  /** unpublish */
  function Drop(b: Bucket, token: nat, link: Link): Bucket {
    match link
    case Up => b - {token}
    case Down => b
    case Partly(keptPage, kept) =>
      var left := Mirror(if keptPage then Page(b, token) else None,
                         map v | v in Snapshots(b, token) && v in kept :: Snapshots(b, token)[v]);
      if left == Mirror(None, map[]) then b - {token} else b[token := left]
  }

  /** What a file shows: its current version, or an empty text if that row is missing. */
  function Shown(t: Tables, id: nat): Version
    requires id in t.files
  {
    if t.files[id].current in History(t, id) then History(t, id)[t.files[id].current]
    else Version("", t.files[id].format)
  }

  /** Mirror the current version of a file, as it stands in the tables. */
  function PutCurrent(t: Tables, b: Bucket, id: nat, md: Renderer, link: Link): Bucket {
    if id in t.files && t.files[id].token.Some? then
      Put(b, t.files[id].token.value, t.files[id].current, Html(Shown(t, id), md), link)
    else b
  }

  function DropFile(b: Bucket, t: Tables, id: nat, link: Link): Bucket {
    if id in t.files && t.files[id].token.Some? then Drop(b, t.files[id].token.value, link) else b
  }

  /** Whether the operation changed the tables in a way the facade mirrors; an operation
      that publishing raised out of, or that found no row, does not. */
  function BucketAfter(w: World, op: Op, link: Link, md: Renderer): Bucket {
    var u := Step(w.t, op);
    match op
    case Create(_, _, _, _, _) => w.bucket
    case Update(org, id, _, _) =>
      if Visible(w.t, org, id) && u.files[id].published then PutCurrent(u, w.bucket, id, md, link) else w.bucket
    case Publish(org, id, _) =>
      if PublishSucceeds(w.t, org, id) then PutCurrent(u, w.bucket, id, md, link) else w.bucket
    case Unpublish(org, id) => if Visible(w.t, org, id) then DropFile(w.bucket, u, id, link) else w.bucket
    case Archive(org, id) => if ActiveIn(w.t, org, id) then DropFile(w.bucket, w.t, id, link) else w.bucket
    case DeleteVersion(org, id, v) =>
      if DeleteOutcome(w.t, org, id, v).Deleted? && v == w.t.files[id].current && u.files[id].published
      then PutCurrent(u, w.bucket, id, md, link)
      else w.bucket
  }

  /** One facade operation; what the publisher fails at is only logged. */
  function FacadeStep(w: World, op: Op, link: Link, md: Renderer): World {
    World(Step(w.t, op), BucketAfter(w, op, link, md))
  }

  class Facade {
    const store: SharedFileStore
    const md: Renderer
    var bucket: Bucket

    function AsWorld(): World
      reads this, store
    {
      World(store.AsTables(), bucket)
    }

    constructor (store: SharedFileStore, md: Renderer)
      ensures this.store == store && this.md == md && bucket == map[]
    {
      this.store, this.md, bucket := store, md, map[];
    }

    /** _publish_to_bucket for a row and the content to show. */
    method PublishToBucket(file: File, content: Version, link: Link)
      modifies `bucket
      ensures bucket == if file.token.Some?
                        then Put(old(bucket), file.token.value, file.current, Html(content, md), link)
                        else old(bucket)
    {
      if file.token.Some? && !link.Down? {
        var token, version := file.token.value, file.current;
        var html := if content.format == "html" then content.content else md(content.content);
        bucket := bucket[token := Mirror(Page(bucket, token), Snapshots(bucket, token)[version := html])];
        if link.Up? {
          bucket := bucket[token := Mirror(Some(html), Snapshots(bucket, token))];
        }
      }
    }

    method RemoveFromBucket(token: Option<nat>, link: Link)
      modifies `bucket
      ensures bucket == if token.Some? then Drop(old(bucket), token.value, link) else old(bucket)
    {
      if token.Some? {
        bucket := Drop(bucket, token.value, link);
      }
    }

    method FileCreate(org: nat, title: string, content: string, format: string, newId: nat, link: Link)
      requires newId !in store.files
      modifies this, store
      ensures AsWorld() == FacadeStep(old(AsWorld()), Op.Create(org, newId, title, content, format), link, md)
    {
      store.Create(org, title, content, format, newId);
    }

    method FileUpdate(org: nat, id: nat, content: string, format: Option<string>, link: Link)
      modifies this, store
      ensures AsWorld() == FacadeStep(old(AsWorld()), Op.Update(org, id, content, format), link, md)
    {
      var row := store.Update(org, id, content, format);
      if row.Some? && row.value.published && row.value.token.Some? {
        var fmt := if format.Some? && format.value != "" then format.value else row.value.format;
        PublishToBucket(row.value, Version(content, fmt), link);
      }
    }

    /** The content and format of what the store's get returned. */
    function Content(found: (File, Option<Version>)): Version {
      if found.1.Some? then found.1.value else Version("", found.0.format)
    }

    method FilePublish(org: nat, id: nat, newToken: nat, link: Link) returns (raised: bool)
      modifies this, store
      ensures AsWorld() == FacadeStep(old(AsWorld()), Op.Publish(org, id, newToken), link, md)
      ensures raised == PublishRaises(old(store.AsTables()), org, id)
    {
      var row;
      row, raised := store.Publish(org, id, newToken);
      if row.Some? {
        var latest := store.Fetch(org, id);
        if latest.Some? && row.value.token.Some? {
          PublishToBucket(row.value, Content(latest.value), link);
        }
      }
    }

    method FileUnpublish(org: nat, id: nat, link: Link)
      modifies this, store
      ensures AsWorld() == FacadeStep(old(AsWorld()), Op.Unpublish(org, id), link, md)
    {
      var row := store.Unpublish(org, id);
      if row.Some? {
        RemoveFromBucket(row.value.token, link);
      }
    }

    method FileArchive(org: nat, id: nat, link: Link) returns (archived: bool)
      modifies this, store
      ensures AsWorld() == FacadeStep(old(AsWorld()), Op.Archive(org, id), link, md)
      ensures archived == ActiveIn(old(store.AsTables()), org, id)
    {
      var existing := store.Fetch(org, id);
      archived := store.Archive(org, id);
      if archived {
        RemoveFromBucket(if existing.Some? then existing.value.0.token else None, link);
      }
    }

    method FileVersionDelete(org: nat, id: nat, v: nat, link: Link) returns (outcome: DeleteReason)
      modifies this, store
      ensures AsWorld() == FacadeStep(old(AsWorld()), Op.DeleteVersion(org, id, v), link, md)
      ensures outcome == DeleteOutcome(old(store.AsTables()), org, id, v)
    {
      var currentChanged;
      outcome, currentChanged := store.DeleteVersion(org, id, v);
      if outcome.Deleted? && currentChanged && store.files[id].published {
        var latest := store.Fetch(org, id);
        if latest.Some? {
          PublishToBucket(latest.value.0, Content(latest.value), link);
        }
      }
    }
  }

  // ---- agreement of the mirror with the store ----

  /** What the bucket holds for one file: nothing unless it is published; for an active
      published file its page; and a page that is there shows the current version, with a
      snapshot of it, and no snapshot contradicts a stored version. */
  ghost predicate Mirrored(w: World, f: nat, md: Renderer)
    requires f in w.t.files
  {
    var file, h := w.t.files[f], History(w.t, f);
    && (file.active && file.published ==> file.token.Some? && file.token.value in w.bucket)
    && (file.token.Some? && file.token.value in w.bucket ==>
          && file.published
          && ShowsCurrent(w, f, md)
          && forall v :: v in h && v in w.bucket[file.token.value].snapshots ==>
               w.bucket[file.token.value].snapshots[v] == Html(h[v], md))
  }

  ghost predicate ShowsCurrent(w: World, f: nat, md: Renderer)
    requires f in w.t.files
  {
    var file, h := w.t.files[f], History(w.t, f);
    && file.token.Some? && file.token.value in w.bucket && file.current in h
    && w.bucket[file.token.value].index == Some(Html(h[file.current], md))
    && file.current in w.bucket[file.token.value].snapshots
    && w.bucket[file.token.value].snapshots[file.current] == Html(h[file.current], md)
  }

  ghost predicate AllMirrored(w: World, md: Renderer) {
    AllOwned(w) && forall f :: f in w.t.files ==> Mirrored(w, f, md)
  }

  ghost predicate Owned(t: Tables, token: nat) {
    exists f :: f in t.files && t.files[f].token == Some(token)
  }

  /** An operation touches the rows of its own file only ... */
  lemma TablesFrame(t: Tables, op: Op, f: nat)
    requires f in t.files && f != op.id
    ensures f in Step(t, op).files && Step(t, op).files[f] == t.files[f] && History(Step(t, op), f) == History(t, f)
  {
  }

  /** The objects under token k are the same in both buckets. */
  ghost predicate SameAt(b: Bucket, c: Bucket, k: nat) {
    (k in c <==> k in b) && (k in b ==> c[k] == b[k])
  }

  lemma PutFrame(t: Tables, b: Bucket, id: nat, md: Renderer, link: Link, k: nat)
    requires id in t.files ==> t.files[id].token != Some(k)
    ensures SameAt(b, PutCurrent(t, b, id, md, link), k)
  {
  }

  lemma DropFrame(t: Tables, b: Bucket, id: nat, link: Link, k: nat)
    requires id in t.files ==> t.files[id].token != Some(k)
    ensures SameAt(b, DropFile(b, t, id, link), k)
  {
  }

  /** ... and the objects under its own file's token only. */
  lemma BucketFrame(w: World, op: Op, link: Link, md: Renderer, k: nat)
    requires op.id in Step(w.t, op).files ==> Step(w.t, op).files[op.id].token != Some(k)
    ensures k in FacadeStep(w, op, link, md).bucket <==> k in w.bucket
    ensures k in w.bucket ==> FacadeStep(w, op, link, md).bucket[k] == w.bucket[k]
  {
    PutFrame(Step(w.t, op), w.bucket, op.id, md, link, k);
    DropFrame(Step(w.t, op), w.bucket, op.id, link, k);
    if op.Archive? && ActiveIn(w.t, op.org, op.id) {
      DropFrame(w.t, w.bucket, op.id, link, k);
    }
    assert SameAt(w.bucket, BucketAfter(w, op, link, md), k);
  }

  lemma StepKeepsOthersMirrored(w: World, op: Op, md: Renderer, f: nat)
    requires Valid(Step(w.t, op)) && f in w.t.files && f != op.id && Mirrored(w, f, md)
    ensures f in Step(w.t, op).files && Mirrored(FacadeStep(w, op, Up, md), f, md)
  {
    TablesFrame(w.t, op, f);
    if op.id in Step(w.t, op).files {
      assert Apart(Step(w.t, op).files[f], Step(w.t, op).files[op.id]);
    }
    if w.t.files[f].token.Some? {
      BucketFrame(w, op, Up, md, w.t.files[f].token.value);
    }
  }

  /** Mirroring the current version makes the page right if the older snapshots were. */
  lemma PutCurrentMirrors(t: Tables, b: Bucket, id: nat, md: Renderer)
    requires id in t.files && HistoryOk(t, id) && t.files[id].published && t.files[id].token.Some?
    requires forall v ::
               v in History(t, id) && v in Snapshots(b, t.files[id].token.value) && v != t.files[id].current ==>
               Snapshots(b, t.files[id].token.value)[v] == Html(History(t, id)[v], md)
    ensures Mirrored(World(t, PutCurrent(t, b, id, md, Up)), id, md)
  {
  }

  lemma UpdateMirrors(w: World, op: Op, md: Renderer)
    requires op.Update? && op.id in w.t.files && HistoryOk(w.t, op.id) && Handled(w.t.files[op.id])
    requires Mirrored(w, op.id, md) && HistoryOk(Step(w.t, op), op.id)
    ensures Mirrored(FacadeStep(w, op, Up, md), op.id, md)
  {
    var u := Step(w.t, op);
    if Visible(w.t, op.org, op.id) && u.files[op.id].published {
      var h, now := History(w.t, op.id), History(u, op.id);
      assert forall v :: v in now && v != u.files[op.id].current ==> v in h && now[v] == h[v];
      PutCurrentMirrors(u, w.bucket, op.id, md);
    }
  }

  lemma PublishMirrors(w: World, op: Op, md: Renderer)
    requires op.Publish? && op.id in w.t.files && HistoryOk(w.t, op.id) && Handled(w.t.files[op.id])
    requires Mirrored(w, op.id, md) && (w.t.files[op.id].token.None? ==> op.newToken !in w.bucket)
    ensures Mirrored(FacadeStep(w, op, Up, md), op.id, md)
  {
    if PublishSucceeds(w.t, op.org, op.id) {
      var u := Step(w.t, op);
      assert HistoryOk(u, op.id);
      PutCurrentMirrors(u, w.bucket, op.id, md);
    }
  }

  lemma DeleteMirrors(w: World, op: Op, md: Renderer)
    requires op.DeleteVersion? && op.id in w.t.files && HistoryOk(w.t, op.id) && Handled(w.t.files[op.id])
    requires Mirrored(w, op.id, md) && HistoryOk(Step(w.t, op), op.id)
    ensures Mirrored(FacadeStep(w, op, Up, md), op.id, md)
  {
    var u := Step(w.t, op);
    if DeleteOutcome(w.t, op.org, op.id, op.v).Deleted? && op.v == w.t.files[op.id].current
       && u.files[op.id].published {
      PutCurrentMirrors(u, w.bucket, op.id, md);
    }
  }

  lemma StepKeepsOwnMirrored(w: World, op: Op, md: Renderer)
    requires Valid(w.t) && Generated(w.t, op) && AllMirrored(w, md)
    requires op.id in Step(w.t, op).files
    ensures Mirrored(FacadeStep(w, op, Up, md), op.id, md)
  {
    StepKeepsHistories(w.t, op, op.id);
    if op.id in w.t.files {
      assert HistoryOk(w.t, op.id) && Mirrored(w, op.id, md) && Handled(w.t.files[op.id]);
      match op
      case Create(_, _, _, _, _) =>
      case Update(_, _, _, _) => UpdateMirrors(w, op, md);
      case Publish(_, _, newToken) =>
        assert newToken in w.bucket ==> Owned(w.t, newToken);
        PublishMirrors(w, op, md);
      case Unpublish(_, _) =>
      case Archive(_, _) =>
      case DeleteVersion(_, _, _) => DeleteMirrors(w, op, md);
    }
  }

  /** Every object belongs to a file. */
  ghost predicate AllOwned(w: World) {
    forall k :: k in w.bucket ==> Owned(w.t, k)
  }

  lemma StepKeepsOwned(w: World, op: Op, link: Link, md: Renderer)
    requires Generated(w.t, op) && AllOwned(w)
    ensures AllOwned(FacadeStep(w, op, link, md))
  {
    var after := FacadeStep(w, op, link, md);
    forall k | k in after.bucket ensures Owned(after.t, k) {
      if k in w.bucket {
        assert Owned(w.t, k);
        var f :| f in w.t.files && w.t.files[f].token == Some(k);
        StepKeepsHandles(w.t, op, f);
      } else {
        NewKeyIsOwn(w, op, link, md, k);
      }
    }
  }

  lemma NewKeyIsOwn(w: World, op: Op, link: Link, md: Renderer, k: nat)
    requires k !in w.bucket && k in FacadeStep(w, op, link, md).bucket
    ensures op.id in Step(w.t, op).files && Step(w.t, op).files[op.id].token == Some(k)
  {
  }

  lemma StepKeepsMirrored(w: World, op: Op, md: Renderer)
    requires Valid(w.t) && Generated(w.t, op) && AllMirrored(w, md)
    ensures AllMirrored(FacadeStep(w, op, Up, md), md)
  {
    var after := FacadeStep(w, op, Up, md);
    StepKeepsValid(w.t, op);
    forall f | f in after.t.files ensures Mirrored(after, f, md) {
      if f == op.id {
        StepKeepsOwnMirrored(w, op, md);
      } else {
        assert Mirrored(w, f, md);
        StepKeepsOthersMirrored(w, op, md, f);
      }
    }
    StepKeepsOwned(w, op, Up, md);
  }

  /** A facade operation with the state of the publisher at that moment. */
  datatype Call = Call(op: Op, link: Link)

  function AfterCalls(w: World, calls: seq<Call>, md: Renderer): World {
    if calls == [] then w
    else
      var last := calls[|calls| - 1];
      FacadeStep(AfterCalls(w, calls[..|calls| - 1], md), last.op, last.link, md)
  }

  ghost predicate CallsRun(w: World, calls: seq<Call>, md: Renderer) {
    calls != [] ==>
      CallsRun(w, calls[..|calls| - 1], md)
      && Generated(AfterCalls(w, calls[..|calls| - 1], md).t, calls[|calls| - 1].op)
  }

  const NOTHING: World := World(NO_FILES, map[])

  lemma {:induction false} TablesStayValid(calls: seq<Call>, md: Renderer)
    requires CallsRun(NOTHING, calls, md)
    ensures Valid(AfterCalls(NOTHING, calls, md).t)
    decreases |calls|
  {
    if calls != [] {
      TablesStayValid(calls[..|calls| - 1], md);
      StepKeepsValid(AfterCalls(NOTHING, calls[..|calls| - 1], md).t, calls[|calls| - 1].op);
    }
  }

  /** After every sequence of facade operations with a working publisher the bucket agrees
      with the store, file by file. */
  lemma {:induction false} MirrorAgreesAfterEveryRun(calls: seq<Call>, md: Renderer)
    requires CallsRun(NOTHING, calls, md)
    requires forall i :: 0 <= i < |calls| ==> calls[i].link.Up?
    ensures AllMirrored(AfterCalls(NOTHING, calls, md), md)
    decreases |calls|
  {
    if calls != [] {
      var init := calls[..|calls| - 1];
      MirrorAgreesAfterEveryRun(init, md);
      TablesStayValid(init, md);
      StepKeepsMirrored(AfterCalls(NOTHING, init, md), calls[|calls| - 1].op, md);
    }
  }

  /** In particular an active file has a page in the bucket exactly when it is published,
      and the page is what the public route would serve for the same token. */
  lemma {:induction false} PageIsThePublicContent(calls: seq<Call>, md: Renderer, f: nat)
    requires CallsRun(NOTHING, calls, md)
    requires forall i :: 0 <= i < |calls| ==> calls[i].link.Up?
    requires f in AfterCalls(NOTHING, calls, md).t.files && AfterCalls(NOTHING, calls, md).t.files[f].active
    ensures var w := AfterCalls(NOTHING, calls, md);
            var file := w.t.files[f];
            && (file.published <==> file.token.Some? && file.token.value in w.bucket)
            && (file.published ==>
                  && ServedPublicly(w.t, file.token.value, f) && file.current in History(w.t, f)
                  && Get(w.t, file.org, f) == Some((file, Some(History(w.t, f)[file.current])))
                  && var v := History(w.t, f)[file.current];
                     w.bucket[file.token.value].index == Some(if v.format == "html" then v.content else md(v.content)))
  {
    var w := AfterCalls(NOTHING, calls, md);
    MirrorAgreesAfterEveryRun(calls, md);
    TablesStayValid(calls, md);
    assert Mirrored(w, f, md) && HistoryOk(w.t, f);
  }

  /** Author HTML is shown as it is stored, and every other format rendered: in the page, and in
      the snapshot of every stored version that was mirrored. */
  lemma {:induction false} HtmlIsVerbatim(calls: seq<Call>, md: Renderer, f: nat, v: nat)
    requires CallsRun(NOTHING, calls, md)
    requires forall i :: 0 <= i < |calls| ==> calls[i].link.Up?
    requires var w := AfterCalls(NOTHING, calls, md);
             && f in w.t.files && w.t.files[f].token.Some? && w.t.files[f].token.value in w.bucket
             && v in History(w.t, f) && v in w.bucket[w.t.files[f].token.value].snapshots
    ensures var w := AfterCalls(NOTHING, calls, md);
            var mirror, version := w.bucket[w.t.files[f].token.value], History(w.t, f)[v];
            && (version.format == "html" ==> mirror.snapshots[v] == version.content)
            && (version.format != "html" ==> mirror.snapshots[v] == md(version.content))
            && (v == w.t.files[f].current ==> mirror.index == Some(mirror.snapshots[v]))
  {
    var w := AfterCalls(NOTHING, calls, md);
    MirrorAgreesAfterEveryRun(calls, md);
    assert Mirrored(w, f, md);
  }

  /** An outage never reaches the tables. While the bucket is down it stays as it is; a
      publication that breaks off leaves the old page and the new snapshot. */
  lemma OutagesStayInTheBucket(w: World, op: Op, link: Link, md: Renderer)
    ensures FacadeStep(w, op, link, md).t == Step(w.t, op)
    ensures FacadeStep(w, op, Down, md).bucket == w.bucket
  {
    DownLeavesAll(Step(w.t, op), w.bucket, op.id, md);
    DownLeavesAll(w.t, w.bucket, op.id, md);
  }

  lemma DownLeavesAll(t: Tables, b: Bucket, id: nat, md: Renderer)
    ensures PutCurrent(t, b, id, md, Down) == b && DropFile(b, t, id, Down) == b
  {
  }

  lemma WriteOutcomes(b: Bucket, token: nat, version: nat, html: string, keptPage: bool, kept: set<nat>, v: nat)
    ensures var half, full := Put(b, token, version, html, Partly(keptPage, kept)), Put(b, token, version, html, Up);
            && half.Keys == full.Keys == b.Keys + {token}
            && half[token].index == (if token in b then b[token].index else None) && full[token].index == Some(html)
            && half[token].snapshots == full[token].snapshots
            && version in full[token].snapshots && full[token].snapshots[version] == html
            && (v != version ==>
                  (v in full[token].snapshots <==> token in b && v in b[token].snapshots)
                  && (v in full[token].snapshots ==> full[token].snapshots[v] == b[token].snapshots[v]))
  {
  }

  /** A removal that breaks off leaves some of what was there, as it was. */
  lemma RemovalOutcomes(b: Bucket, token: nat, keptPage: bool, kept: set<nat>, v: nat)
    requires token in b
    ensures token !in Drop(b, token, Up)
    ensures var left := Drop(b, token, Partly(keptPage, kept));
            && Page(left, token) == (if keptPage then b[token].index else None)
            && (v in Snapshots(left, token) <==> v in b[token].snapshots && v in kept)
            && (v in Snapshots(left, token) ==> Snapshots(left, token)[v] == b[token].snapshots[v])
  {
  }

  /** Publishing again repairs a page, whatever outages came before. */
  lemma {:induction false} PublishingHeals(calls: seq<Call>, md: Renderer, op: Op)
    requires CallsRun(NOTHING, calls, md)
    requires op.Publish? && Generated(AfterCalls(NOTHING, calls, md).t, op)
    requires PublishSucceeds(AfterCalls(NOTHING, calls, md).t, op.org, op.id)
    ensures var after := FacadeStep(AfterCalls(NOTHING, calls, md), op, Up, md);
            after.t.files[op.id].published && ShowsCurrent(after, op.id, md)
  {
    var w := AfterCalls(NOTHING, calls, md);
    TablesStayValid(calls, md);
    assert HistoryOk(w.t, op.id) && Handled(w.t.files[op.id]);
  }

  // ---- repairing after outages ----

  lemma {:induction false} ObjectsStayOwned(calls: seq<Call>, md: Renderer)
    requires CallsRun(NOTHING, calls, md)
    ensures AllOwned(AfterCalls(NOTHING, calls, md))
    decreases |calls|
  {
    if calls != [] {
      var last := calls[|calls| - 1];
      ObjectsStayOwned(calls[..|calls| - 1], md);
      StepKeepsOwned(AfterCalls(NOTHING, calls[..|calls| - 1], md), last.op, last.link, md);
    }
  }

  /** The operation removes the objects of its file. */
  predicate Removes(t: Tables, op: Op) {
    || (op.Unpublish? && Visible(t, op.org, op.id))
    || (op.Archive? && ActiveIn(t, op.org, op.id))
  }

  /** The operation mirrors the current version of its file. */
  predicate Republishes(t: Tables, op: Op) {
    || (op.Update? && Visible(t, op.org, op.id) && t.files[op.id].published)
    || (op.Publish? && PublishSucceeds(t, op.org, op.id))
    || (op.DeleteVersion? && DeleteOutcome(t, op.org, op.id, op.v).Deleted?
        && op.v == t.files[op.id].current && t.files[op.id].published)
  }

  /** Snapshots of other versions that are still stored show what those versions hold. */
  ghost predicate NoStaleSnapshots(t: Tables, b: Bucket, f: nat, md: Renderer)
    requires f in t.files && t.files[f].token.Some?
  {
    var snapshots, h := Snapshots(b, t.files[f].token.value), History(t, f);
    forall v :: v in snapshots && v in h && v != t.files[f].current ==> snapshots[v] == Html(h[v], md)
  }

  /** Removing repairs everything, whatever outages left behind: unpublishing always, also
      when it is repeated; archiving once, because archiving an archived file does nothing. */
  lemma RemovingRepairs(w: World, op: Op, md: Renderer)
    requires Generated(w.t, op) && op.id in w.t.files && Removes(w.t, op)
    ensures Mirrored(FacadeStep(w, op, Up, md), op.id, md)
  {
  }

  lemma ArchivingDoesNotRetry(w: World, op: Op, link: Link, md: Renderer)
    requires op.Archive? && !Removes(w.t, op)
    ensures FacadeStep(w, op, link, md) == w
  {
  }

  /** Mirroring again always shows the current version, and repairs the file completely
      exactly when no outage left a stale snapshot of another stored version. */
  lemma RepublishingRepairsIff(w: World, op: Op, md: Renderer)
    requires Valid(w.t) && Generated(w.t, op) && AllOwned(w) && Republishes(w.t, op)
    ensures op.id in Step(w.t, op).files && Step(w.t, op).files[op.id].token.Some?
    ensures ShowsCurrent(FacadeStep(w, op, Up, md), op.id, md)
    ensures Mirrored(FacadeStep(w, op, Up, md), op.id, md)
            <==> NoStaleSnapshots(Step(w.t, op), w.bucket, op.id, md)
  {
    var u := Step(w.t, op);
    assert HistoryOk(w.t, op.id) && Handled(w.t.files[op.id]);
    StepKeepsHistories(w.t, op, op.id);
    PutRepairsIff(u, w.bucket, op.id, md);
  }

  lemma PutRepairsIff(t: Tables, b: Bucket, id: nat, md: Renderer)
    requires id in t.files && HistoryOk(t, id) && t.files[id].published && t.files[id].token.Some?
    ensures var w := World(t, PutCurrent(t, b, id, md, Up));
            ShowsCurrent(w, id, md) && (Mirrored(w, id, md) <==> NoStaleSnapshots(t, b, id, md))
  {
    var k := t.files[id].token.value;
    var after := PutCurrent(t, b, id, md, Up);
    assert after[k].snapshots == Snapshots(b, k)[t.files[id].current := Html(Shown(t, id), md)];
  }

  lemma SameSlugsTaken(t: Tables, u: Tables, org: nat, id: nat)
    requires forall f :: f in t.files && f != id ==> f in u.files && u.files[f] == t.files[f]
    ensures TakenInOrg(t, org, id) <= TakenInOrg(u, org, id)
  {
    forall s | s in TakenInOrg(t, org, id) ensures s in TakenInOrg(u, org, id) {
      var f :| f in t.files && f != id && t.files[f].org == org && t.files[f].slug == Some(s);
      assert u.files[f].slug.value == s;
    }
  }

  lemma UnpublishedCanBePublished(t: Tables, org: nat, id: nat)
    requires PublishSucceeds(t, org, id)
    ensures PublishSucceeds(Unpublished(t, org, id), org, id)
  {
    var u := Unpublished(t, org, id);
    SameSlugsTaken(t, u, org, id);
    SameSlugsTaken(u, t, org, id);
    assert TakenInOrg(u, org, id) == TakenInOrg(t, org, id);
    assert NewSlug(u, org, id) == NewSlug(t, org, id);
  }

  lemma NoSnapshotsNoneStale(t: Tables, b: Bucket, f: nat, md: Renderer)
    requires f in t.files && t.files[f].token.Some? && t.files[f].token.value !in b
    ensures NoStaleSnapshots(t, b, f, md)
  {
  }

  /** Publishing a file whose token has no objects mirrors it. */
  lemma PublishingAnewMirrors(w: World, md: Renderer, org: nat, id: nat, newToken: nat)
    requires Valid(w.t) && Generated(w.t, Op.Publish(org, id, newToken)) && AllOwned(w)
    requires PublishSucceeds(w.t, org, id) && NoPage(w, id)
    ensures var shown := FacadeStep(w, Op.Publish(org, id, newToken), Up, md);
            id in shown.t.files && shown.t.files[id].published && Mirrored(shown, id, md)
  {
    var op := Op.Publish(org, id, newToken);
    RepublishingRepairsIff(w, op, md);
    assert newToken in w.bucket ==> Owned(w.t, newToken);
    NoSnapshotsNoneStale(Step(w.t, op), w.bucket, id, md);
  }

  /** Unpublishing and publishing again repairs a file after any history of outages. */
  lemma {:induction false} UnpublishThenPublishRepairs(calls: seq<Call>, md: Renderer, org: nat, id: nat, newToken: nat)
    requires CallsRun(NOTHING, calls, md)
    requires PublishSucceeds(AfterCalls(NOTHING, calls, md).t, org, id)
    requires Generated(AfterCalls(NOTHING, calls, md).t, Op.Publish(org, id, newToken))
    ensures var hidden := FacadeStep(AfterCalls(NOTHING, calls, md), Op.Unpublish(org, id), Up, md);
            var shown := FacadeStep(hidden, Op.Publish(org, id, newToken), Up, md);
            id in shown.t.files && shown.t.files[id].published && Mirrored(shown, id, md)
  {
    var w, op := AfterCalls(NOTHING, calls, md), Op.Unpublish(org, id);
    TablesStayValid(calls, md);
    ObjectsStayOwned(calls, md);
    StepKeepsValid(w.t, op);
    StepKeepsOwned(w, op, Up, md);
    UnpublishedCanBePublished(w.t, org, id);
    PublishingAnewMirrors(FacadeStep(w, op, Up, md), md, org, id, newToken);
  }

  // ---- where the mirror holds more than the store ----

  ghost predicate NoArchivedPages(w: World) {
    forall f :: f in w.t.files && !w.t.files[f].active ==> NoPage(w, f)
  }

  ghost predicate NoPage(w: World, f: nat)
    requires f in w.t.files
  {
    w.t.files[f].token.Some? ==> w.t.files[f].token.value !in w.bucket
  }

  /** The update path does not look at the status: an archived file that is still marked
      published gets a page again when it is updated, and only then. */
  lemma ArchivedPagesComeOnlyFromUpdates(w: World, op: Op, md: Renderer)
    requires Valid(w.t) && Generated(w.t, op) && NoArchivedPages(w)
    ensures NoArchivedPages(FacadeStep(w, op, Up, md)) <==> !RevivesArchived(w, op)
  {
    var after := FacadeStep(w, op, Up, md);
    forall f | f in after.t.files && !after.t.files[f].active
      ensures NoPage(after, f) <==> !(f == op.id && RevivesArchived(w, op))
    {
      PageOfArchived(w, op, md, f);
    }
    assert RevivesArchived(w, op) ==> op.id in after.t.files && !after.t.files[op.id].active;
  }

  lemma PageOfArchived(w: World, op: Op, md: Renderer, f: nat)
    requires Valid(w.t) && Generated(w.t, op) && NoArchivedPages(w)
    requires f in Step(w.t, op).files && !Step(w.t, op).files[f].active
    ensures NoPage(FacadeStep(w, op, Up, md), f) <==> !(f == op.id && RevivesArchived(w, op))
  {
    StepKeepsValid(w.t, op);
    if f == op.id {
      StepKeepsHistories(w.t, op, f);
      assert HistoryOk(w.t, f) && Handled(w.t.files[f]);
      OwnPage(w, op, md);
    } else {
      assert f in w.t.files && Step(w.t, op).files[f] == w.t.files[f];
      OthersStayUnpaged(w, op, md, f);
    }
  }

  lemma OthersStayUnpaged(w: World, op: Op, md: Renderer, f: nat)
    requires Valid(Step(w.t, op)) && f in w.t.files && f != op.id && NoPage(w, f)
    ensures f in Step(w.t, op).files && Step(w.t, op).files[f] == w.t.files[f]
    ensures NoPage(FacadeStep(w, op, Up, md), f)
  {
    TablesFrame(w.t, op, f);
    if op.id in Step(w.t, op).files {
      assert Apart(Step(w.t, op).files[f], Step(w.t, op).files[op.id]);
    }
    if w.t.files[f].token.Some? {
      BucketFrame(w, op, Up, md, w.t.files[f].token.value);
    }
  }

  predicate RevivesArchived(w: World, op: Op) {
    op.Update? && Visible(w.t, op.org, op.id) && !w.t.files[op.id].active && w.t.files[op.id].published
  }

  lemma OwnPage(w: World, op: Op, md: Renderer)
    requires Generated(w.t, op) && op.id in Step(w.t, op).files && !Step(w.t, op).files[op.id].active
    requires op.id in w.t.files && HistoryOk(w.t, op.id) && Handled(w.t.files[op.id]) && HistoryOk(Step(w.t, op), op.id)
    requires !w.t.files[op.id].active ==> NoPage(w, op.id)
    ensures NoPage(FacadeStep(w, op, Up, md), op.id) <==> !RevivesArchived(w, op)
  {
  }

  /** Every snapshot in the bucket is of a version its file still has. */
  ghost predicate SnapshotsStored(w: World, f: nat)
    requires f in w.t.files
  {
    w.t.files[f].token.Some? ==>
      forall v :: v in Snapshots(w.bucket, w.t.files[f].token.value) ==> v in History(w.t, f)
  }

  /** Deleting a version leaves its snapshot behind: the bucket keeps only stored versions
      of a file exactly until a version is deleted that had been mirrored. */
  lemma DeletionLeavesItsSnapshot(w: World, op: Op, md: Renderer, f: nat)
    requires Valid(w.t) && Generated(w.t, op) && AllMirrored(w, md)
    requires f in w.t.files && SnapshotsStored(w, f)
    ensures f in Step(w.t, op).files
    ensures SnapshotsStored(FacadeStep(w, op, Up, md), f) <==>
            !(op.DeleteVersion? && Deletes(w.t, op, f, op.v)
              && w.t.files[f].token.Some? && op.v in Snapshots(w.bucket, w.t.files[f].token.value))
  {
    StepKeepsValid(w.t, op);
    if f != op.id {
      TablesFrame(w.t, op, f);
      if op.id in Step(w.t, op).files {
        assert Apart(Step(w.t, op).files[f], Step(w.t, op).files[op.id]);
      }
      if w.t.files[f].token.Some? {
        BucketFrame(w, op, Up, md, w.t.files[f].token.value);
      }
    } else {
      assert HistoryOk(w.t, f) && HistoryOk(Step(w.t, op), f) && Handled(w.t.files[f]);
      assert op.Publish? && op.newToken in w.bucket ==> Owned(w.t, op.newToken);
      OwnSnapshots(w, op, md);
    }
  }

  lemma OwnSnapshots(w: World, op: Op, md: Renderer)
    requires Generated(w.t, op) && op.id in w.t.files && SnapshotsStored(w, op.id)
    requires HistoryOk(w.t, op.id) && HistoryOk(Step(w.t, op), op.id) && Handled(w.t.files[op.id])
    requires op.Publish? && w.t.files[op.id].token.None? ==> op.newToken !in w.bucket
    ensures SnapshotsStored(FacadeStep(w, op, Up, md), op.id) <==>
            !(op.DeleteVersion? && Deletes(w.t, op, op.id, op.v)
              && w.t.files[op.id].token.Some? && op.v in Snapshots(w.bucket, w.t.files[op.id].token.value))
  {
    var after := FacadeStep(w, op, Up, md);
    var file := w.t.files[op.id];
    if file.token.Some? {
      var k := file.token.value;
      assert forall v :: v in Snapshots(after.bucket, k) ==>
               v in Snapshots(w.bucket, k) || v == after.t.files[op.id].current;
      if op.DeleteVersion? && Deletes(w.t, op, op.id, op.v) {
        assert op.v in Snapshots(w.bucket, k) ==> op.v in Snapshots(after.bucket, k);
      }
    }
  }
}
