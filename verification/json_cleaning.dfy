/** Cleaning of tool payloads (src/teamshared/compress/tool_output.py). A JSON object is its
    fields in order; the keys of one object are distinct in the original, so an operation
    on the field named k is written as one on every field named k. */
module JsonCleaning {
  import Text

  datatype Json = Null | Bool(b: bool) | Num(n: real) | Str(s: string) | Arr(items: seq<Json>) | Obj(fields: seq<Field>)

  datatype Field = Field(key: string, value: Json)

  // ---- _strip_empty ----

  predicate IsEmpty(j: Json) {
    j == Obj([]) || j == Arr([])
  }

  function StripEmpty(j: Json): Json {
    match j
    case Obj(fields) => Obj(StripFields(fields))
    case Arr(items) => Arr(StripItems(items))
    case _ => j
  }

  function StripFields(fields: seq<Field>): seq<Field> {
    if fields == [] then []
    else
      var rest := StripFields(fields[1..]);
      if fields[0].value.Null? then rest
      else
        var v := StripEmpty(fields[0].value);
        if IsEmpty(v) then rest else [Field(fields[0].key, v)] + rest
  }

  function StripItems(items: seq<Json>): seq<Json> {
    if items == [] then []
    else if items[0].Null? then StripItems(items[1..])
    else [StripEmpty(items[0])] + StripItems(items[1..])
  }

  /** No null in a list, no null and no empty container as a dict value, at any depth. */
  predicate Normal(j: Json) {
    match j
    case Obj(fields) => NormalFields(fields)
    case Arr(items) => NormalItems(items)
    case _ => true
  }

  predicate NormalFields(fields: seq<Field>) {
    fields == [] ||
    (var v := fields[0].value; !v.Null? && !IsEmpty(v) && Normal(v) && NormalFields(fields[1..]))
  }

  predicate NormalItems(items: seq<Json>) {
    items == [] || (!items[0].Null? && Normal(items[0]) && NormalItems(items[1..]))
  }

  lemma {:induction false} StripIsNormal(j: Json)
    ensures Normal(StripEmpty(j)) && (StripEmpty(j).Null? <==> j.Null?)
    decreases j, 1
  {
    match j
    case Obj(fields) => StripFieldsNormal(fields);
    case Arr(items) => StripItemsNormal(items);
    case _ =>
  }

  lemma {:induction false} StripFieldsNormal(fields: seq<Field>)
    ensures NormalFields(StripFields(fields))
    decreases fields, 0
  {
    if fields != [] {
      StripFieldsNormal(fields[1..]);
      StripIsNormal(fields[0].value);
    }
  }

  lemma {:induction false} StripItemsNormal(items: seq<Json>)
    ensures NormalItems(StripItems(items))
    decreases items, 0
  {
    if items != [] {
      StripItemsNormal(items[1..]);
      StripIsNormal(items[0]);
    }
  }

  lemma {:induction false} StripFixesNormal(j: Json)
    requires Normal(j)
    ensures StripEmpty(j) == j
    decreases j, 1
  {
    match j
    case Obj(fields) => StripFixesNormalFields(fields);
    case Arr(items) => StripFixesNormalItems(items);
    case _ =>
  }

  lemma {:induction false} StripFixesNormalFields(fields: seq<Field>)
    requires NormalFields(fields)
    ensures StripFields(fields) == fields
    decreases fields, 0
  {
    if fields != [] {
      StripFixesNormal(fields[0].value);
      StripFixesNormalFields(fields[1..]);
    }
  }

  lemma {:induction false} StripFixesNormalItems(items: seq<Json>)
    requires NormalItems(items)
    ensures StripItems(items) == items
    decreases items, 0
  {
    if items != [] {
      StripFixesNormal(items[0]);
      StripFixesNormalItems(items[1..]);
    }
  }

  /** Stripping reaches the normal form, and leaves alone exactly what is in it already. */
  lemma {:induction false} StripReachesNormalForm(j: Json)
    ensures Normal(StripEmpty(j))
    ensures StripEmpty(j) == j <==> Normal(j)
    ensures StripEmpty(StripEmpty(j)) == StripEmpty(j)
  {
    StripIsNormal(j);
    StripFixesNormal(StripEmpty(j));
    if Normal(j) {
      StripFixesNormal(j);
    }
  }

  /** The non-null scalars, in order. */
  function Leaves(j: Json): seq<Json> {
    match j
    case Null => []
    case Obj(fields) => FieldLeaves(fields)
    case Arr(items) => ItemLeaves(items)
    case _ => [j]
  }

  function FieldLeaves(fields: seq<Field>): seq<Json> {
    if fields == [] then [] else Leaves(fields[0].value) + FieldLeaves(fields[1..])
  }

  function ItemLeaves(items: seq<Json>): seq<Json> {
    if items == [] then [] else Leaves(items[0]) + ItemLeaves(items[1..])
  }

  /** Stripping loses no scalar and reorders none. */
  lemma {:induction false} StripKeepsLeaves(j: Json)
    ensures Leaves(StripEmpty(j)) == Leaves(j)
    decreases j, 1
  {
    match j
    case Obj(fields) => StripKeepsFieldLeaves(fields);
    case Arr(items) => StripKeepsItemLeaves(items);
    case _ =>
  }

  lemma {:induction false} StripKeepsFieldLeaves(fields: seq<Field>)
    ensures FieldLeaves(StripFields(fields)) == FieldLeaves(fields)
    decreases fields, 0
  {
    if fields != [] {
      StripKeepsLeaves(fields[0].value);
      StripKeepsFieldLeaves(fields[1..]);
    }
  }

  lemma {:induction false} StripKeepsItemLeaves(items: seq<Json>)
    ensures ItemLeaves(StripItems(items)) == ItemLeaves(items)
    decreases items, 0
  {
    if items != [] {
      StripKeepsLeaves(items[0]);
      StripKeepsItemLeaves(items[1..]);
    }
  }

  // ---- truncation and record cleaning ----

  /** What str.rstrip() strips is given as a predicate; maxChars is mcp_tool_output_max_record_chars. */
  datatype Settings = Settings(maxChars: nat, isSpace: char -> bool)

  predicate Ok(c: Settings) {
    c.maxChars >= 1
  }

  function Truncate(s: string, limit: nat, c: Settings): (r: string)
    requires limit >= 1
    ensures |r| <= limit
    ensures |s| <= limit ==> r == s
  {
    if |s| <= limit then s else Text.RStrip(s[..limit - 1], c.isSpace) + "\U{2026}"
  }

  /** A longer string is cut one short of the limit, the space at that end is dropped, and an
      ellipsis is put there: as much of the beginning stays as that leaves. */
  lemma TruncationKeepsTheBeginning(s: string, limit: nat, c: Settings)
    requires 1 <= limit < |s|
    ensures var n := |Truncate(s, limit, c)| - 1;
            && 0 <= n < limit && Truncate(s, limit, c) == s[..n] + "\U{2026}"
            && (forall i :: n <= i < limit - 1 ==> c.isSpace(s[i]))
            && (n > 0 ==> !c.isSpace(s[n - 1]))
  {
    Text.RStripCutsSpace(s[..limit - 1], c.isSpace);
  }

  function TruncateStr(j: Json, limit: nat, c: Settings): Json
    requires limit >= 1
  {
    if j.Str? then Str(Truncate(j.s, limit, c)) else j
  }

  predicate Dropped(key: string) {
    key == "embedding" || key == "vector" || key == "raw_payload" || key == "payload"
  }

  predicate Bounded(key: string) {
    key == "content" || key == "body_md" || key == "steps_md"
  }

  function CleanFields(fields: seq<Field>, c: Settings): seq<Field>
    requires Ok(c)
  {
    if fields == [] then []
    else
      var f, rest := fields[0], CleanFields(fields[1..], c);
      if Dropped(f.key) then rest
      else [Field(f.key, if Bounded(f.key) then TruncateStr(f.value, c.maxChars, c) else f.value)] + rest
  }

  /** _clean_record */
  function CleanRecord(j: Json, c: Settings): Json
    requires Ok(c)
  {
    if j.Obj? then Obj(CleanFields(j.fields, c)) else j
  }

  function CleanRecords(items: seq<Json>, c: Settings): seq<Json>
    requires Ok(c)
  {
    if items == [] then [] else [CleanRecord(items[0], c)] + CleanRecords(items[1..], c)
  }

  predicate ListsRecords(key: string) {
    key == "records" || key == "episodes"
  }

  function CleanRecallValue(key: string, v: Json, c: Settings): Json
    requires Ok(c)
  {
    if ListsRecords(key) && v.Arr? then Arr(CleanRecords(v.items, c))
    else if key == "rendered" then TruncateStr(v, c.maxChars * 2, c)
    else if key == "answer" then TruncateStr(v, c.maxChars * 3, c)
    else v
  }

  /** _clean_recall_like */
  function CleanRecallLike(fields: seq<Field>, c: Settings): seq<Field>
    requires Ok(c)
  {
    if fields == [] then []
    else [Field(fields[0].key, CleanRecallValue(fields[0].key, fields[0].value, c))] + CleanRecallLike(fields[1..], c)
  }

  /** tool_name.split(":")[-1] */
  function BaseName(name: string): string {
    if ':' in name then BaseName(name[1..]) else name
  }

  predicate IsRecallTool(baseName: string) {
    baseName in {"memory_recall", "memory_think", "memory_assemble_context",
                 "memory_episodes_list", "memory_entity_view"}
  }

  predicate HasKey(fields: seq<Field>, key: string) {
    exists i :: 0 <= i < |fields| && fields[i].key == key
  }

  predicate IsRecallLike(name: string, fields: seq<Field>) {
    IsRecallTool(BaseName(name)) || HasKey(fields, "records") || HasKey(fields, "episodes")
  }

  function Trimmed(name: string, fields: seq<Field>, c: Settings): seq<Field>
    requires Ok(c)
  {
    if IsRecallLike(name, fields) then CleanRecallLike(fields, c) else fields
  }

  lemma {:induction false} CleanFieldsJoin(a: seq<Field>, b: seq<Field>, c: Settings)
    requires Ok(c)
    ensures CleanFields(a + b, c) == CleanFields(a, c) + CleanFields(b, c)
    decreases |a|
  {
    if a == [] {
      assert a + b == b;
    } else {
      assert (a + b)[1..] == a[1..] + b;
      CleanFieldsJoin(a[1..], b, c);
    }
  }

  /** A record is cleaned field by field: vectors and raw payloads go, the three text fields are
      truncated to the record limit when they are longer, and every other field stays as it is. */
  lemma {:induction false} RecordsAreCleanedFieldByField(before: seq<Field>, f: Field, after: seq<Field>, c: Settings)
    requires Ok(c)
    ensures CleanRecord(Obj(before + [f] + after), c)
            == Obj(CleanFields(before, c) + CleanFields([f], c) + CleanFields(after, c))
    ensures CleanFields([f], c) ==
            if f.key in {"embedding", "vector", "raw_payload", "payload"} then []
            else if f.key in {"content", "body_md", "steps_md"} && f.value.Str? && |f.value.s| > c.maxChars
            then [Field(f.key, Str(Truncate(f.value.s, c.maxChars, c)))]
            else [f]
  {
    CleanFieldsJoin(before + [f], after, c);
    CleanFieldsJoin(before, [f], c);
    assert [f][1..] == [];
    assert CleanFields([], c) == [];
  }

  lemma {:induction false} EachRecordIsCleaned(items: seq<Json>, c: Settings)
    requires Ok(c)
    ensures |CleanRecords(items, c)| == |items|
    ensures forall i :: 0 <= i < |items| ==> CleanRecords(items, c)[i] == CleanRecord(items[i], c)
    decreases |items|
  {
    if items != [] {
      EachRecordIsCleaned(items[1..], c);
    }
  }

  /** Which fields of a recall result are rewritten. */
  predicate Rewritten(f: Field, c: Settings) {
    || (f.key in {"records", "episodes"} && f.value.Arr?)
    || (f.key == "rendered" && f.value.Str? && |f.value.s| > 2 * c.maxChars)
    || (f.key == "answer" && f.value.Str? && |f.value.s| > 3 * c.maxChars)
  }

  /** A recall result keeps all its fields in order; the records and episodes in it are cleaned one
      by one, "rendered" and "answer" are truncated to twice and three times the record limit when
      they are longer, and everything else stays. */
  lemma {:induction false} RecallResultsAreCleanedFieldByField(fields: seq<Field>, c: Settings, i: nat)
    requires Ok(c) && i < |fields|
    ensures |CleanRecallLike(fields, c)| == |fields|
    ensures var f, g := fields[i], CleanRecallLike(fields, c)[i];
            && g.key == f.key && (!Rewritten(f, c) ==> g == f)
            && (f.key in {"records", "episodes"} && f.value.Arr? ==>
                  && g.value.Arr? && |g.value.items| == |f.value.items|
                  && forall n :: 0 <= n < |f.value.items| ==> g.value.items[n] == CleanRecord(f.value.items[n], c))
            && (f.key == "rendered" && Rewritten(f, c) ==> g.value == Str(Truncate(f.value.s, 2 * c.maxChars, c)))
            && (f.key == "answer" && Rewritten(f, c) ==> g.value == Str(Truncate(f.value.s, 3 * c.maxChars, c)))
    decreases |fields|
  {
    TrimmingKeepsKeys(fields, c);
    if i > 0 {
      RecallResultsAreCleanedFieldByField(fields[1..], c, i - 1);
    } else if fields[0].value.Arr? {
      EachRecordIsCleaned(fields[0].value.items, c);
    }
  }

  lemma {:induction false} BaseNameIsLast(prefix: string, base: string)
    requires ':' !in base
    ensures BaseName(prefix + ":" + base) == base && BaseName(base) == base
    decreases |prefix|
  {
    var name := prefix + ":" + base;
    assert name[|prefix|] == ':';
    if prefix == "" {
      assert name[1..] == base;
    } else {
      assert name[1..] == prefix[1..] + ":" + base;
      BaseNameIsLast(prefix[1..], base);
    }
  }

  /** A recall result is what a recall tool returns, under whatever server prefix, and anything that
      lists records or episodes. */
  lemma WhatCountsAsRecall(prefix: string, base: string, fields: seq<Field>)
    requires ':' !in base
    ensures IsRecallLike(prefix + ":" + base, fields) <==> IsRecallLike(base, fields)
    ensures IsRecallLike(base, fields) <==>
            || base in {"memory_recall", "memory_think", "memory_assemble_context",
                        "memory_episodes_list", "memory_entity_view"}
            || exists i :: 0 <= i < |fields| && (fields[i].key == "records" || fields[i].key == "episodes")
  {
    BaseNameIsLast(prefix, base);
    if i :| 0 <= i < |fields| && (fields[i].key == "records" || fields[i].key == "episodes") {
      assert HasKey(fields, fields[i].key);
    }
  }

  lemma {:induction false} StripFieldsJoin(a: seq<Field>, b: seq<Field>)
    ensures StripFields(a + b) == StripFields(a) + StripFields(b)
    decreases |a|
  {
    if a == [] {
      assert a + b == b;
    } else {
      assert (a + b)[1..] == a[1..] + b;
      StripFieldsJoin(a[1..], b);
    }
  }

  /** Stripping goes field by field, and a value that stays keeps its key: a field is left out
      exactly when its value is null or is stripped to an empty container. */
  lemma {:induction false} FieldsAreStrippedOneByOne(before: seq<Field>, f: Field, after: seq<Field>)
    ensures StripEmpty(Obj(before + [f] + after))
            == Obj(StripFields(before) + StripFields([f]) + StripFields(after))
    ensures StripFields([f]) ==
            if f.value == Null || StripEmpty(f.value) == Obj([]) || StripEmpty(f.value) == Arr([]) then []
            else [Field(f.key, StripEmpty(f.value))]
  {
    StripFieldsJoin(before + [f], after);
    StripFieldsJoin(before, [f]);
    assert [f][1..] == [];
    assert StripFields([]) == [];
  }

  lemma {:induction false} StripItemsJoin(a: seq<Json>, b: seq<Json>)
    ensures StripItems(a + b) == StripItems(a) + StripItems(b)
    decreases |a|
  {
    if a == [] {
      assert a + b == b;
    } else {
      assert (a + b)[1..] == a[1..] + b;
      StripItemsJoin(a[1..], b);
    }
  }

  /** In a list only nulls are left out; empty containers stay. Scalars stay as they are. */
  lemma {:induction false} ItemsAreStrippedOneByOne(before: seq<Json>, j: Json, after: seq<Json>)
    ensures StripEmpty(Arr(before + [j] + after)) == Arr(StripItems(before) + StripItems([j]) + StripItems(after))
    ensures StripItems([j]) == if j == Null then [] else [StripEmpty(j)]
    ensures !j.Obj? && !j.Arr? ==> StripEmpty(j) == j
  {
    StripItemsJoin(before + [j], after);
    StripItemsJoin(before, [j]);
    assert [j][1..] == [];
    assert StripItems([]) == [];
  }

  /** clean_tool_payload: the cleaned payload, and whether it reports a change. */
  function Cleaned(name: string, payload: Json, c: Settings): (Json, bool)
    requires Ok(c)
  {
    match payload
    case Obj(fields) =>
      var body := Obj(StripFields(Trimmed(name, fields, c)));
      (body, Trimmed(name, fields, c) != fields || body != Obj(Trimmed(name, fields, c)))
    case Str(s) => if |s| > c.maxChars then (Str(Truncate(s, c.maxChars * 2, c)), true) else (payload, false)
    case _ => (payload, false)
  }

  method CleanToolPayload(name: string, payload: Json, c: Settings) returns (body: Json, changed: bool)
    requires Ok(c)
    ensures (body, changed) == Cleaned(name, payload, c)
  {
    changed := false;
    body := payload;
    if payload.Null? {
      return;
    }
    if body.Obj? {
      if IsRecallLike(name, body.fields) {
        var trimmed := Obj(CleanRecallLike(body.fields, c));
        if trimmed != body {
          body := trimmed;
          changed := true;
        }
      }
      var stripped := StripEmpty(body);
      if stripped != body {
        body := stripped;
        changed := true;
      }
    } else if body.Str? && |body.s| > c.maxChars {
      body := Str(Truncate(body.s, c.maxChars * 2, c));
      changed := true;
    }
  }

  // ---- cleaning twice ----

  predicate FieldClean(f: Field, c: Settings) {
    !Dropped(f.key) && (Bounded(f.key) && f.value.Str? ==> |f.value.s| <= c.maxChars)
  }

  predicate RecordClean(j: Json, c: Settings) {
    j.Obj? ==> forall i :: 0 <= i < |j.fields| ==> FieldClean(j.fields[i], c)
  }

  predicate RecallFieldClean(f: Field, c: Settings) {
    && (ListsRecords(f.key) && f.value.Arr? ==>
          forall i :: 0 <= i < |f.value.items| ==> RecordClean(f.value.items[i], c))
    && (f.key == "rendered" && f.value.Str? ==> |f.value.s| <= c.maxChars * 2)
    && (f.key == "answer" && f.value.Str? ==> |f.value.s| <= c.maxChars * 3)
  }

  predicate RecallClean(fields: seq<Field>, c: Settings) {
    forall i :: 0 <= i < |fields| ==> RecallFieldClean(fields[i], c)
  }

  lemma {:induction false} CleanFieldsCleans(fields: seq<Field>, c: Settings)
    requires Ok(c)
    ensures RecordClean(Obj(CleanFields(fields, c)), c)
    decreases |fields|
  {
    if fields != [] {
      CleanFieldsCleans(fields[1..], c);
    }
  }

  lemma {:induction false} CleanFieldsFixesClean(fields: seq<Field>, c: Settings)
    requires Ok(c) && RecordClean(Obj(fields), c)
    ensures CleanFields(fields, c) == fields
    decreases |fields|
  {
    if fields != [] {
      assert FieldClean(fields[0], c);
      assert forall i :: 0 <= i < |fields[1..]| ==> FieldClean(fields[1..][i], c);
      CleanFieldsFixesClean(fields[1..], c);
    }
  }

  lemma {:induction false} CleanRecordsCleans(items: seq<Json>, c: Settings)
    requires Ok(c)
    ensures forall i :: 0 <= i < |CleanRecords(items, c)| ==> RecordClean(CleanRecords(items, c)[i], c)
    decreases |items|
  {
    if items != [] {
      CleanRecordsCleans(items[1..], c);
      if items[0].Obj? {
        CleanFieldsCleans(items[0].fields, c);
      }
    }
  }

  lemma {:induction false} CleanRecordsFixesClean(items: seq<Json>, c: Settings)
    requires Ok(c) && forall i :: 0 <= i < |items| ==> RecordClean(items[i], c)
    ensures CleanRecords(items, c) == items
    decreases |items|
  {
    if items != [] {
      CleanRecordsFixesClean(items[1..], c);
      if items[0].Obj? {
        CleanFieldsFixesClean(items[0].fields, c);
      }
    }
  }

  lemma {:induction false} RecallLikeCleans(fields: seq<Field>, c: Settings)
    requires Ok(c)
    ensures RecallClean(CleanRecallLike(fields, c), c)
    decreases |fields|
  {
    if fields != [] {
      RecallLikeCleans(fields[1..], c);
      if fields[0].value.Arr? {
        CleanRecordsCleans(fields[0].value.items, c);
      }
    }
  }

  lemma {:induction false} RecallLikeFixesClean(fields: seq<Field>, c: Settings)
    requires Ok(c) && RecallClean(fields, c)
    ensures CleanRecallLike(fields, c) == fields
    decreases |fields|
  {
    if fields != [] {
      assert RecallFieldClean(fields[0], c);
      assert forall i :: 0 <= i < |fields[1..]| ==> RecallFieldClean(fields[1..][i], c);
      RecallLikeFixesClean(fields[1..], c);
      if fields[0].value.Arr? && ListsRecords(fields[0].key) {
        CleanRecordsFixesClean(fields[0].value.items, c);
      }
    }
  }

  /** Stripping never turns a value into a string or a list. */
  lemma {:induction false} StripKeepsKind(j: Json)
    ensures StripEmpty(j).Str? <==> j.Str?
    ensures j.Str? ==> StripEmpty(j) == j
    ensures StripEmpty(j).Arr? <==> j.Arr?
    ensures StripEmpty(j).Obj? <==> j.Obj?
  {
  }

  lemma {:induction false} StripKeepsRecordClean(fields: seq<Field>, c: Settings)
    requires RecordClean(Obj(fields), c)
    ensures RecordClean(Obj(StripFields(fields)), c)
    decreases |fields|
  {
    if fields != [] {
      assert FieldClean(fields[0], c);
      assert forall i :: 0 <= i < |fields[1..]| ==> FieldClean(fields[1..][i], c);
      StripKeepsRecordClean(fields[1..], c);
      StripKeepsKind(fields[0].value);
    }
  }

  lemma {:induction false} StripKeepsRecordsClean(items: seq<Json>, c: Settings)
    requires forall i :: 0 <= i < |items| ==> RecordClean(items[i], c)
    ensures forall i :: 0 <= i < |StripItems(items)| ==> RecordClean(StripItems(items)[i], c)
    decreases |items|
  {
    if items != [] {
      StripKeepsRecordsClean(items[1..], c);
      StripKeepsKind(items[0]);
      if items[0].Obj? {
        StripKeepsRecordClean(items[0].fields, c);
      }
    }
  }

  lemma {:induction false} StripKeepsRecallClean(fields: seq<Field>, c: Settings)
    requires RecallClean(fields, c)
    ensures RecallClean(StripFields(fields), c)
    decreases |fields|
  {
    if fields != [] {
      assert RecallFieldClean(fields[0], c);
      assert forall i :: 0 <= i < |fields[1..]| ==> RecallFieldClean(fields[1..][i], c);
      StripKeepsRecallClean(fields[1..], c);
      StripKeepsKind(fields[0].value);
      if fields[0].value.Arr? && ListsRecords(fields[0].key) {
        StripKeepsRecordsClean(fields[0].value.items, c);
      }
    }
  }

  lemma {:induction false} StripAddsNoKey(fields: seq<Field>, key: string)
    requires HasKey(StripFields(fields), key)
    ensures HasKey(fields, key)
    decreases |fields|
  {
    if fields != [] {
      var stripped, rest := StripFields(fields), StripFields(fields[1..]);
      var i :| 0 <= i < |stripped| && stripped[i].key == key;
      if stripped != rest && i == 0 {
        assert fields[0].key == key;
      } else {
        var j := if stripped == rest then i else i - 1;
        assert rest[j].key == key;
        StripAddsNoKey(fields[1..], key);
        var n :| 0 <= n < |fields[1..]| && fields[1..][n].key == key;
        assert fields[n + 1].key == key;
      }
    }
  }

  lemma {:induction false} TrimmingKeepsKeys(fields: seq<Field>, c: Settings)
    requires Ok(c)
    ensures |CleanRecallLike(fields, c)| == |fields|
    ensures forall i :: 0 <= i < |fields| ==> CleanRecallLike(fields, c)[i].key == fields[i].key
    decreases |fields|
  {
    if fields != [] {
      TrimmingKeepsKeys(fields[1..], c);
    }
  }

  /** Cleaning an object twice is cleaning it once, and the second call reports no change. */
  lemma CleaningObjectsIsIdempotent(name: string, fields: seq<Field>, c: Settings)
    requires Ok(c)
    ensures var once := Cleaned(name, Obj(fields), c).0;
            Normal(once) && Cleaned(name, once, c) == (once, false)
  {
    var trimmed := Trimmed(name, fields, c);
    var stripped := StripFields(trimmed);
    StripFieldsNormal(trimmed);
    StripFixesNormalFields(stripped);
    if IsRecallLike(name, fields) {
      RecallLikeCleans(fields, c);
      StripKeepsRecallClean(trimmed, c);
      RecallLikeFixesClean(stripped, c);
    } else {
      if HasKey(stripped, "records") { StripAddsNoKey(trimmed, "records"); }
      if HasKey(stripped, "episodes") { StripAddsNoKey(trimmed, "episodes"); }
    }
  }

  /** What happens to a payload of each kind: an object is stripped, after its recall fields have
      been cleaned if it counts as a recall result; a text above the record limit is truncated to
      twice that; anything else passes. */
  lemma {:induction false} CleaningByKind(name: string, payload: Json, c: Settings)
    requires Ok(c)
    ensures payload.Obj? && !IsRecallLike(name, payload.fields) ==>
              Cleaned(name, payload, c).0 == StripEmpty(payload)
    ensures payload.Obj? && IsRecallLike(name, payload.fields) ==>
              Cleaned(name, payload, c).0 == StripEmpty(Obj(CleanRecallLike(payload.fields, c)))
    ensures payload.Str? && |payload.s| > c.maxChars ==>
              Cleaned(name, payload, c) == (Str(Truncate(payload.s, 2 * c.maxChars, c)), true)
    ensures !payload.Obj? && (payload.Str? ==> |payload.s| <= c.maxChars) ==>
              Cleaned(name, payload, c) == (payload, false)
  {
  }

  /** For an object a change is reported exactly when there is one: what trimming changes stripping
      never restores. */
  lemma ObjectsReportTheirChanges(name: string, fields: seq<Field>, c: Settings)
    requires Ok(c)
    ensures Cleaned(name, Obj(fields), c).1 <==> Cleaned(name, Obj(fields), c).0 != Obj(fields)
  {
    var trimmed := Trimmed(name, fields, c);
    if trimmed != fields && StripFields(trimmed) == fields {
      RecallLikeCleans(fields, c);
      StripKeepsRecallClean(trimmed, c);
      RecallLikeFixesClean(fields, c);
      assert false;
    }
  }

  /** A cleaned text stays as it is, but cleaning it again still reports a change exactly
      when it is longer than the limit that triggers truncation. */
  lemma CleanedTextReportsChangesAgain(name: string, s: string, c: Settings)
    requires Ok(c)
    ensures var once := Cleaned(name, Str(s), c).0;
            once.Str? && Cleaned(name, once, c) == (once, |once.s| > c.maxChars)
    ensures Cleaned(name, Str(s), c) == (Str(s), true) <==> c.maxChars < |s| <= c.maxChars * 2
  {
  }

  /** Outside recall payloads cleaning only strips: it keeps every scalar in order. */
  lemma PlainPayloadsKeepLeaves(name: string, fields: seq<Field>, c: Settings)
    requires Ok(c) && !IsRecallLike(name, fields)
    ensures Leaves(Cleaned(name, Obj(fields), c).0) == Leaves(Obj(fields))
  {
    StripKeepsFieldLeaves(fields);
  }
}
