/** Budgeted packing and rendering of recalled records
    (src/teamshared/memory/context_assembler.py:74-166). */
module ContextPack {
  import opened Records
  import Text
  import opened Wrappers

  const CHARS_PER_TOKEN := 4
  const SNIPPET_MAX_CHARS := 240
  const PILLAR_ORDER: seq<string> :=
    ["procedural", "skill", "semantic", "graph", "strategic", "work", "episodic", "working"]

  /** What the host language decides: which characters strip() drops, what
      capitalize() returns and the provenance suffix of a record. */
  datatype Host = Host(
    isSpace: char -> bool,
    capitalize: string -> string,
    suffix: MemoryRecord -> string)

  function EstimateTokens(text: string): (n: nat)
    ensures n >= 1 && |text| <= 4 * n
    ensures n == 1 || 4 * (n - 1) < |text|
  {
    if text == "" then 1 else (|text| + CHARS_PER_TOKEN - 1) / CHARS_PER_TOKEN
  }

  function LStrip(s: string, isSpace: char -> bool): string {
    if s != "" && isSpace(s[0]) then LStrip(s[1..], isSpace) else s
  }

  function NewlinesToSpaces(s: string): string {
    seq(|s|, i requires 0 <= i < |s| => if s[i] == '\n' then ' ' else s[i])
  }

  /** One bullet: stripped, flattened and truncated content plus its suffix. */
  function Snippet(h: Host, r: MemoryRecord): string {
    var content := NewlinesToSpaces(Text.RStrip(LStrip(r.content, h.isSpace), h.isSpace));
    var shown :=
      if |content| <= SNIPPET_MAX_CHARS then content
      else Text.RStrip(content[..SNIPPET_MAX_CHARS - 1], h.isSpace) + "\U{2026}";
    "- " + shown + h.suffix(r)
  }

  predicate IsGraphId(id: string) {
    |id| >= 6 && id[..6] == "graph:"
  }

  function SectionKey(r: MemoryRecord): string {
    if IsGraphId(r.id) then "graph" else r.pillar
  }

  lemma {:induction false} StripDropsBothEnds(a: string, body: string, b: string, isSpace: char -> bool)
    requires forall i :: 0 <= i < |a| ==> isSpace(a[i])
    requires forall i :: 0 <= i < |b| ==> isSpace(b[i])
    requires body != "" ==> !isSpace(body[0]) && !isSpace(body[|body| - 1])
    ensures Text.RStrip(LStrip(a + body + b, isSpace), isSpace) == body
    decreases |a| + |b|
  {
    var s := a + body + b;
    if a != "" {
      assert s[1..] == a[1..] + body + b;
      StripDropsBothEnds(a[1..], body, b, isSpace);
    } else if body == "" {
      assert s == b;
      SpaceIsStripped(b, isSpace);
    } else {
      assert s[0] == body[0];
      EndIsStripped(body, b, isSpace);
      assert s == body + b;
    }
  }

  lemma {:induction false} SpaceIsStripped(b: string, isSpace: char -> bool)
    requires forall i :: 0 <= i < |b| ==> isSpace(b[i])
    ensures LStrip(b, isSpace) == ""
    decreases |b|
  {
    if b != "" {
      SpaceIsStripped(b[1..], isSpace);
    }
  }

  lemma {:induction false} EndIsStripped(body: string, b: string, isSpace: char -> bool)
    requires forall i :: 0 <= i < |b| ==> isSpace(b[i])
    requires body != "" && !isSpace(body[|body| - 1])
    ensures Text.RStrip(body + b, isSpace) == body
    decreases |b|
  {
    if b == "" {
      assert body + b == body;
    } else {
      assert (body + b)[..|body + b| - 1] == body + b[..|b| - 1];
      EndIsStripped(body, b[..|b| - 1], isSpace);
    }
  }

  /** The content within the space around it. */
  ghost predicate IsStripped(content: string, body: string, isSpace: char -> bool) {
    && (body != "" ==> !isSpace(body[0]) && !isSpace(body[|body| - 1]))
    && exists a, b :: IsPadded(content, a, body, b, isSpace)
  }

  ghost predicate IsPadded(content: string, a: string, body: string, b: string, isSpace: char -> bool) {
    && content == a + body + b
    && (forall i :: 0 <= i < |a| ==> isSpace(a[i]))
    && (forall i :: 0 <= i < |b| ==> isSpace(b[i]))
  }

  lemma {:induction false} StrippedIsBody(content: string, body: string, isSpace: char -> bool)
    requires IsStripped(content, body, isSpace)
    ensures Text.RStrip(LStrip(content, isSpace), isSpace) == body
  {
    var a, b :| IsPadded(content, a, body, b, isSpace);
    StripDropsBothEnds(a, body, b, isSpace);
  }

  /** What a bullet shows: stripped content of up to 240 characters whole, with its newlines as
      spaces, and then the provenance. */
  lemma ShortContentIsShownWhole(h: Host, r: MemoryRecord, body: string)
    requires IsStripped(r.content, body, h.isSpace) && |body| <= 240
    ensures var s := Snippet(h, r);
            && |s| == 2 + |body| + |h.suffix(r)| && s[..2] == "- " && s[2 + |body|..] == h.suffix(r)
            && forall i :: 0 <= i < |body| ==> s[2 + i] == if body[i] == '\n' then ' ' else body[i]
  {
    StrippedIsBody(r.content, body, h.isSpace);
  }

  /** Longer content is cut at 239 characters, loses the space at that end, and gains an ellipsis. */
  lemma LongContentIsCut(h: Host, r: MemoryRecord, body: string)
    requires IsStripped(r.content, body, h.isSpace) && |body| > 240
    ensures var s, flat := Snippet(h, r), (i: int) => if 0 <= i < |body| && body[i] != '\n' then body[i] else ' ';
            var n := |s| - |h.suffix(r)| - 3;
            && 0 <= n <= 239 && s[..2] == "- " && s[2 + n] == '\U{2026}' && s[3 + n..] == h.suffix(r)
            && (forall i :: 0 <= i < n ==> s[2 + i] == flat(i))
            && (forall i :: n <= i < 239 ==> h.isSpace(flat(i)))
            && (n > 0 ==> !h.isSpace(flat(n - 1)))
  {
    var cut := NewlinesToSpaces(body)[..239];
    StrippedIsBody(r.content, body, h.isSpace);
    Text.RStripCutsSpace(cut, h.isSpace);
    assert Snippet(h, r) == "- " + (Text.RStrip(cut, h.isSpace) + "\U{2026}") + h.suffix(r);
    BulletParts(Text.RStrip(cut, h.isSpace), h.suffix(r));
    assert forall i :: 0 <= i < 239 ==> cut[i] == if body[i] == '\n' then ' ' else body[i];
  }

  lemma BulletParts(kept: string, suffix: string)
    ensures var s, n := "- " + (kept + "\U{2026}") + suffix, |kept|;
            && |s| == n + 3 + |suffix| && s[..2] == "- " && s[2 + n] == '\U{2026}' && s[3 + n..] == suffix
            && forall i :: 0 <= i < n ==> s[2 + i] == kept[i]
  {
  }

  /** Records of the graph have ids that start with "graph:"; all others go by their pillar. */
  lemma SectionOfRecord(r: MemoryRecord, node: string)
    ensures r.id == "graph:" + node ==> SectionKey(r) == "graph"
    ensures |r.id| < 6 || r.id[..6] != "graph:" ==> SectionKey(r) == r.pillar
  {
  }

  // Packing.

  function SnippetCost(h: Host, r: MemoryRecord): (n: nat)
    ensures n >= 1
  {
    EstimateTokens(Snippet(h, r))
  }

  function Costs(h: Host, records: seq<MemoryRecord>): (costs: seq<nat>)
    ensures |costs| == |records|
    ensures forall i :: 0 <= i < |costs| ==> costs[i] == SnippetCost(h, records[i])
    ensures AllPositive(costs)
  {
    seq(|records|, i requires 0 <= i < |records| => SnippetCost(h, records[i]))
  }

  ghost predicate AllPositive(costs: seq<nat>) {
    forall i :: 0 <= i < |costs| ==> costs[i] >= 1
  }

  /** The cost of the first `n`. */
  function Used(costs: seq<nat>, n: nat): nat
    requires n <= |costs|
  {
    if n == 0 then 0 else Used(costs, n - 1) + costs[n - 1]
  }

  /** The first `n` fit, or are the first alone. */
  ghost predicate Fits(costs: seq<nat>, budget: int, n: nat)
    requires n <= |costs|
  {
    n <= 1 || Used(costs, n) <= budget
  }

  /** `n` is the longest prefix that fits. */
  ghost predicate IsPack(costs: seq<nat>, budget: int, n: nat) {
    n <= |costs| && forall m :: 0 <= m <= |costs| ==> (Fits(costs, budget, m) <==> m <= n)
  }

  lemma {:induction false} CostGrows(costs: seq<nat>, m: nat, n: nat)
    requires m <= n <= |costs| && AllPositive(costs)
    ensures Used(costs, m) + (n - m) <= Used(costs, n)
  {
    if m < n {
      CostGrows(costs, m, n - 1);
    }
  }

  lemma {:induction false} UsedAddsUp(a: seq<nat>, b: seq<nat>)
    ensures Used(a + b, |a| + |b|) == Used(a, |a|) + Used(b, |b|)
    ensures a == [] ==> Used(a, |a|) == 0
    ensures |a| == 1 ==> Used(a, 1) == a[0]
    decreases |b|
  {
    var all, m := a + b, |a| + |b|;
    if b == [] {
      assert all == a;
    } else {
      var init := b[..|b| - 1];
      UsedAddsUp(a, init);
      SameCosts(all, a + init, m - 1);
      SameCosts(b, init, |b| - 1);
    }
  }

  lemma {:induction false} LongestPrefix(costs: seq<nat>, budget: int, n: nat)
    requires n <= |costs| && AllPositive(costs) && Fits(costs, budget, n)
    requires n < |costs| ==> n > 0 && Used(costs, n + 1) > budget
    ensures IsPack(costs, budget, n)
  {
    forall m | 0 <= m <= |costs| ensures Fits(costs, budget, m) <==> m <= n {
      if m <= n {
        CostGrows(costs, m, n);
      } else {
        CostGrows(costs, n + 1, m);
      }
    }
  }

  /** Keep records in rank order until the next one no longer fits. */
  method PackRecords(h: Host, records: seq<MemoryRecord>, budget: int)
      returns (kept: seq<MemoryRecord>, used: nat)
    ensures kept <= records && IsPack(Costs(h, records), budget, |kept|)
    ensures used == Used(Costs(h, records), |kept|)
  {
    kept, used := [], 0;
    ghost var costs := Costs(h, records);
    var i := 0;
    while i < |records|
      invariant i <= |records| && kept == records[..i] && used == Used(costs, i)
      invariant i <= 1 || used <= budget
    {
      var cost := SnippetCost(h, records[i]);
      if kept != [] && used + cost > budget {
        break;
      }
      Records.OneMore(records, i);
      kept := kept + [records[i]];
      used := used + cost;
      i := i + 1;
    }
    LongestPrefix(costs, budget, i);
  }

  /** The kept prefix is determined by the budget, a larger budget only extends it, and it
      holds at most one record per token unless it is a single record. */
  lemma LargerBudgetExtends(h: Host, records: seq<MemoryRecord>, small: int, large: int, m: nat, n: nat)
    requires small <= large
    requires IsPack(Costs(h, records), small, m) && IsPack(Costs(h, records), large, n)
    ensures records[..m] <= records[..n]
    ensures small == large ==> m == n
    ensures records != [] ==> m >= 1
    ensures m <= 1 || m <= small
  {
    var costs := Costs(h, records);
    assert Fits(costs, small, m) && Fits(costs, large, m);
    if small == large {
      assert Fits(costs, large, n);
    }
    if records != [] {
      assert Fits(costs, small, 1);
    }
    CostGrows(costs, 0, m);
  }

  lemma {:induction false} SameCosts(a: seq<nat>, b: seq<nat>, n: nat)
    requires n <= |a| && n <= |b| && a[..n] == b[..n]
    ensures Used(a, n) == Used(b, n)
  {
    if n > 0 {
      assert a[..n - 1] == a[..n][..n - 1] && b[..n - 1] == b[..n][..n - 1];
      assert a[n - 1] == a[..n][n - 1] && b[n - 1] == b[..n][n - 1];
      SameCosts(a, b, n - 1);
    }
  }

  /** Packing what a pack kept keeps all of it. */
  lemma PackingAgainKeepsAll(h: Host, records: seq<MemoryRecord>, budget: int, n: nat)
    requires IsPack(Costs(h, records), budget, n)
    ensures IsPack(Costs(h, records[..n]), budget, n)
  {
    var a, b := Costs(h, records), Costs(h, records[..n]);
    forall m | 0 <= m <= n ensures Fits(b, budget, m) {
      assert Fits(a, budget, m);
      assert a[..m] == b[..m];
      SameCosts(a, b, m);
    }
  }

  // Rendering.

  datatype Line = Header(task: string) | Heading(section: string) | Bullet(record: MemoryRecord) | Blank | NoneFound

  /** The sections dict: keys in insertion order with their records. */
  datatype Sections = Sections(keys: seq<string>, items: map<string, seq<MemoryRecord>>)

  /** The records of one section, in rank order. */
  function Section(records: seq<MemoryRecord>, key: string): (r: seq<MemoryRecord>) {
    if records == [] then []
    else
      var before, last := Section(records[..|records| - 1], key), records[|records| - 1];
      if SectionKey(last) == key then before + [last] else before
  }

  /** The sections in use, by first appearance. */
  function Keys(records: seq<MemoryRecord>): (r: seq<string>) {
    if records == [] then []
    else
      var before, key := Keys(records[..|records| - 1]), SectionKey(records[|records| - 1]);
      if key in before then before else before + [key]
  }

  predicate Known(key: string) {
    key in PILLAR_ORDER
  }

  function Present(candidates: seq<string>, keys: seq<string>): (r: seq<string>) {
    if candidates == [] then []
    else
      var before, last := Present(candidates[..|candidates| - 1], keys), candidates[|candidates| - 1];
      if last in keys then before + [last] else before
  }

  function Others(keys: seq<string>, pillars: seq<string>): (r: seq<string>) {
    if keys == [] then []
    else
      var before, last := Others(keys[..|keys| - 1], pillars), keys[|keys| - 1];
      if last in pillars then before else before + [last]
  }

  /** Section order: known pillars in their fixed order, then the others as they appeared. */
  function SectionOrder(records: seq<MemoryRecord>): (r: seq<string>) {
    Present(PILLAR_ORDER, Keys(records)) + Others(Keys(records), PILLAR_ORDER)
  }

  function Bullets(records: seq<MemoryRecord>): (r: seq<Line>)
    ensures |r| == |records|
    ensures forall i :: 0 <= i < |r| ==> r[i] == Bullet(records[i])
  {
    seq(|records|, i requires 0 <= i < |records| => Bullet(records[i]))
  }

  function SectionLines(records: seq<MemoryRecord>, key: string): seq<Line> {
    [Heading(key)] + Bullets(Section(records, key)) + [Blank]
  }

  function Body(records: seq<MemoryRecord>, order: seq<string>): seq<Line> {
    if order == [] then []
    else Body(records, order[..|order| - 1]) + SectionLines(records, order[|order| - 1])
  }

  function Lines(task: string, records: seq<MemoryRecord>): seq<Line> {
    if records == [] then [Header(task), Blank, NoneFound]
    else [Header(task), Blank] + Body(records, SectionOrder(records))
  }

  ghost predicate Grouped(s: Sections, records: seq<MemoryRecord>) {
    && s.keys == Keys(records)
    && (forall key :: key in s.keys <==> key in s.items)
    && forall key :: key in s.items ==> s.items[key] == Section(records, key)
  }

  lemma {:induction false} NoSection(records: seq<MemoryRecord>, key: string)
    requires key !in Keys(records)
    ensures Section(records, key) == []
  {
    if records == [] {
    } else {
      NoSection(records[..|records| - 1], key);
    }
  }

  /** The keys of the sections dict after one more record. */
  function Grow(s: Sections, r: MemoryRecord): Sections {
    var key := SectionKey(r);
    if key in s.items then s.(items := s.items[key := s.items[key] + [r]])
    else Sections(s.keys + [key], s.items[key := [r]])
  }

  lemma GroupOneMore(s: Sections, records: seq<MemoryRecord>, n: nat)
    requires n < |records| && Grouped(s, records[..n])
    ensures Grouped(Grow(s, records[n]), records[..n + 1])
  {
    assert records[..n + 1][..n] == records[..n];
    if SectionKey(records[n]) !in s.keys {
      NoSection(records[..n], SectionKey(records[n]));
    }
  }

  method GroupBySection(records: seq<MemoryRecord>) returns (s: Sections)
    ensures Grouped(s, records)
  {
    s := Sections([], map[]);
    var i := 0;
    while i < |records|
      invariant i <= |records| && Grouped(s, records[..i])
    {
      GroupOneMore(s, records, i);
      s := Grow(s, records[i]);
      i := i + 1;
    }
    assert records[..i] == records;
  }

  method RenderPack(task: string, records: seq<MemoryRecord>) returns (lines: seq<Line>)
    ensures lines == Lines(task, records)
  {
    if records == [] {
      return [Header(task), Blank, NoneFound];
    }
    var s := GroupBySection(records);
    var done;
    lines, done := KnownSections(records, s, PILLAR_ORDER, [Header(task), Blank]);
    lines := OtherSections(records, s, PILLAR_ORDER, done, [Header(task), Blank], lines);
  }

  function SectionOf(s: Sections, key: string): seq<Line>
    requires key in s.items
  {
    [Heading(key)] + Bullets(s.items[key]) + [Blank]
  }

  /** The first loop of the renderer: the pillars in their fixed order. */
  method KnownSections(records: seq<MemoryRecord>, s: Sections, pillars: seq<string>, top: seq<Line>)
      returns (lines: seq<Line>, done: set<string>)
    requires Grouped(s, records)
    ensures lines == top + Body(records, Present(pillars, s.keys))
    ensures forall key :: key in s.keys ==> (key in done <==> key in pillars)
  {
    lines, done := top, {};
    ghost var order: seq<string> := [];
    var i := 0;
    while i < |pillars|
      invariant i <= |pillars|
      invariant order == Present(pillars[..i], s.keys)
      invariant forall key :: key in s.keys ==> (key in done <==> key in pillars[..i])
      invariant lines == top + Body(records, order)
    {
      var key := pillars[i];
      assert pillars[..i + 1][..i] == pillars[..i];
      assert pillars[..i + 1] == pillars[..i] + [key];
      if key in s.items {
        LinesOneMore(top, s, records, order, key);
        lines := lines + SectionOf(s, key);
        done := done + {key};
        order := order + [key];
        assert order == Present(pillars[..i + 1], s.keys);
      }
      i := i + 1;
    }
    assert pillars[..i] == pillars;
  }

  /** The last loop of the renderer: sections that are no known pillar. */
  method OtherSections(records: seq<MemoryRecord>, s: Sections, ghost pillars: seq<string>, done: set<string>,
                       ghost top: seq<Line>, above: seq<Line>)
      returns (lines: seq<Line>)
    requires Grouped(s, records) && above == top + Body(records, Present(pillars, s.keys))
    requires forall key :: key in s.keys ==> (key in done <==> key in pillars)
    ensures lines == top + Body(records, Present(pillars, s.keys) + Others(s.keys, pillars))
  {
    lines := above;
    var j := 0;
    ghost var known := Present(pillars, s.keys);
    ghost var order := known;
    while j < |s.keys|
      invariant j <= |s.keys|
      invariant order == known + Others(s.keys[..j], pillars)
      invariant lines == top + Body(records, order)
    {
      var key := s.keys[j];
      OthersOneMore(known, s.keys, pillars, j);
      assert key in s.keys;
      if key !in done {
        LinesOneMore(top, s, records, order, key);
        lines := lines + SectionOf(s, key);
        order := order + [key];
      }
      j := j + 1;
    }
    assert s.keys[..j] == s.keys;
  }

  lemma {:induction false} OthersOneMore(known: seq<string>, keys: seq<string>, pillars: seq<string>, j: nat)
    requires j < |keys|
    ensures known + Others(keys[..j + 1], pillars)
            == if keys[j] in pillars then known + Others(keys[..j], pillars)
               else known + Others(keys[..j], pillars) + [keys[j]]
  {
    assert keys[..j + 1][..j] == keys[..j];
  }

  lemma {:induction false} LinesOneMore(top: seq<Line>, s: Sections, records: seq<MemoryRecord>, order: seq<string>,
                                        key: string)
    requires Grouped(s, records) && key in s.items
    ensures (top + Body(records, order)) + SectionOf(s, key) == top + Body(records, order + [key])
  {
    assert (order + [key])[..|order|] == order;
    assert SectionOf(s, key) == SectionLines(records, key);
  }

  // What a reader of the lines finds.

  /** The records listed under `key`, reading from the top below heading `above`. */
  function ListedUnder(lines: seq<Line>, key: string, above: Option<string>): (r: seq<MemoryRecord>) {
    if lines == [] then []
    else match lines[0]
      case Heading(section) => ListedUnder(lines[1..], key, Some(section))
      case Bullet(record) =>
        var rest := ListedUnder(lines[1..], key, above);
        if above == Some(key) then [record] + rest else rest
      case _ => ListedUnder(lines[1..], key, above)
  }

  function Headings(lines: seq<Line>): (r: seq<string>) {
    if lines == [] then []
    else
      var before := Headings(lines[..|lines| - 1]);
      match lines[|lines| - 1]
      case Heading(section) => before + [section]
      case _ => before
  }

  lemma {:induction false} ListingSplitsAtHeadings(a: seq<Line>, b: seq<Line>, key: string, above: Option<string>)
    requires b != [] ==> b[0].Heading?
    ensures ListedUnder(a + b, key, above) == ListedUnder(a, key, above) + ListedUnder(b, key, None)
  {
    if a == [] {
      assert a + b == b;
    } else {
      assert (a + b)[1..] == a[1..] + b;
      ListingSplitsAtHeadings(a[1..], b, key,
        match a[0] case Heading(section) => Some(section) case _ => above);
    }
  }

  lemma {:induction false} ListedBullets(rs: seq<MemoryRecord>, key: string, above: Option<string>)
    ensures ListedUnder(Bullets(rs) + [Blank], key, above) == if above == Some(key) then rs else []
  {
    var lines := Bullets(rs) + [Blank];
    if rs == [] {
      assert lines == [Blank];
    } else {
      ListedBullets(rs[1..], key, above);
      assert lines[1..] == Bullets(rs[1..]) + [Blank];
      assert [rs[0]] + rs[1..] == rs;
    }
  }

  lemma {:induction false} ListedSection(records: seq<MemoryRecord>, section: string, key: string)
    ensures ListedUnder(SectionLines(records, section), key, None)
      == if section == key then Section(records, key) else []
  {
    var lines := SectionLines(records, section);
    assert lines[1..] == Bullets(Section(records, section)) + [Blank];
    ListedBullets(Section(records, section), key, Some(section));
  }

  lemma {:induction false} ListedInBody(records: seq<MemoryRecord>, order: seq<string>, key: string)
    requires Distinct(order)
    ensures ListedUnder(Body(records, order), key, None) == if key in order then Section(records, key) else []
  {
    if order == [] {
    } else {
      var before, last := order[..|order| - 1], order[|order| - 1];
      assert order == before + [last];
      ListedInBody(records, before, key);
      ListingSplitsAtHeadings(Body(records, before), SectionLines(records, last), key, None);
      ListedSection(records, last, key);
    }
  }

  lemma {:induction false} PresentKeys(candidates: seq<string>, keys: seq<string>)
    requires Distinct(candidates)
    ensures Distinct(Present(candidates, keys))
    ensures forall key :: key in Present(candidates, keys) <==> key in candidates && key in keys
  {
    if candidates == [] {
    } else {
      var n := |candidates| - 1;
      assert candidates == candidates[..n] + [candidates[n]];
      PresentKeys(candidates[..n], keys);
    }
  }

  lemma {:induction false} OtherKeys(keys: seq<string>, pillars: seq<string>)
    requires Distinct(keys)
    ensures Distinct(Others(keys, pillars))
    ensures forall key :: key in Others(keys, pillars) <==> key in keys && key !in pillars
  {
    if keys == [] {
    } else {
      var n := |keys| - 1;
      assert keys == keys[..n] + [keys[n]];
      OtherKeys(keys[..n], pillars);
    }
  }

  lemma {:induction false} KeysAreDistinct(records: seq<MemoryRecord>)
    ensures Distinct(Keys(records))
  {
    if records == [] {
    } else {
      KeysAreDistinct(records[..|records| - 1]);
    }
  }

  /** A section holds its records in rank order. */
  lemma {:induction false} SectionAppends(a: seq<MemoryRecord>, b: seq<MemoryRecord>, key: string)
    ensures Section(a + b, key) == Section(a, key) + Section(b, key)
    decreases |b|
  {
    if b == [] {
      assert a + b == a;
    } else {
      var init, last := b[..|b| - 1], b[|b| - 1];
      SectionAppends(a, init, key);
      assert (a + b)[..|a + b| - 1] == a + init && (a + b)[|a + b| - 1] == last;
      if SectionKey(last) == key {
        Regrouped(Section(a, key), Section(init, key), [last]);
      }
    }
  }

  lemma Regrouped<T>(x: seq<T>, y: seq<T>, z: seq<T>)
    ensures x + (y + z) == (x + y) + z
  {
  }

  lemma {:induction false} SectionOfOne(r: MemoryRecord, key: string)
    ensures Section([r], key) == if SectionKey(r) == key then [r] else []
  {
    assert [r][..0] == [] && Section([], key) == [];
  }

  lemma {:induction false} KeysAreInUse(records: seq<MemoryRecord>, key: string)
    ensures key in Keys(records) <==> exists p :: 0 <= p < |records| && SectionKey(records[p]) == key
    decreases |records|
  {
    if records != [] {
      var n := |records| - 1;
      KeysAreInUse(records[..n], key);
      assert forall p :: 0 <= p < n ==> records[..n][p] == records[p];
    }
  }

  /** A section listed before another in the dictionary had a record before the other had any. */
  lemma {:induction false} KeysFollowFirstAppearance(records: seq<MemoryRecord>, i: nat, j: nat)
    requires i < j < |Keys(records)|
    ensures exists p :: 0 <= p < |records| && AppearsFirst(records, p, Keys(records)[i], Keys(records)[j])
    decreases |records|
  {
    var n := |records| - 1;
    var init, before := records[..n], Keys(records[..n]);
    if j < |before| {
      KeysFollowFirstAppearance(init, i, j);
      var p :| 0 <= p < |init| && AppearsFirst(init, p, before[i], before[j]);
      forall q | 0 <= q <= p ensures SectionKey(records[q]) != before[j] {
        assert init[q] == records[q];
      }
      assert init[p] == records[p] && Keys(records)[i] == before[i] && Keys(records)[j] == before[j];
      assert AppearsFirst(records, p, Keys(records)[i], Keys(records)[j]);
    } else {
      KeysAreInUse(init, Keys(records)[j]);
      KeysAreInUse(init, before[i]);
      assert before[i] in before;
      var p :| 0 <= p < |init| && SectionKey(init[p]) == before[i];
      forall q | 0 <= q <= p ensures SectionKey(records[q]) != Keys(records)[j] {
        assert init[q] == records[q];
      }
      assert AppearsFirst(records, p, Keys(records)[i], Keys(records)[j]);
    }
  }

  /** Record p is of section a, and none up to it is of section b. */
  ghost predicate AppearsFirst(records: seq<MemoryRecord>, p: nat, a: string, b: string)
    requires p < |records|
  {
    SectionKey(records[p]) == a && forall q :: 0 <= q <= p ==> SectionKey(records[q]) != b
  }

  lemma {:induction false} OthersFollowOrder(keys: seq<string>, pillars: seq<string>, i: nat, j: nat)
    requires i < j < |Others(keys, pillars)|
    ensures InOrder(keys, Others(keys, pillars)[i], Others(keys, pillars)[j])
    decreases |keys|
  {
    var n := |keys| - 1;
    var before := Others(keys[..n], pillars);
    if j < |before| {
      OthersFollowOrder(keys[..n], pillars, i, j);
      var k, l :| 0 <= k < l < n && keys[..n][k] == before[i] && keys[..n][l] == before[j];
      assert keys[k] == before[i] && keys[l] == before[j];
    } else {
      OthersAreKeys(keys[..n], pillars, before[i]);
      var k :| 0 <= k < n && keys[..n][k] == before[i];
      assert keys[k] == before[i] && keys[n] == Others(keys, pillars)[j];
    }
  }

  lemma {:induction false} OthersAreKeys(keys: seq<string>, pillars: seq<string>, key: string)
    ensures key in Others(keys, pillars) ==> key in keys && key !in pillars
    decreases |keys|
  {
    if keys != [] {
      var n := |keys| - 1;
      OthersAreKeys(keys[..n], pillars, key);
      assert keys == keys[..n] + [keys[n]];
    }
  }

  lemma {:induction false} OthersFollowAppearance(records: seq<MemoryRecord>, i: nat, j: nat)
    requires i < j < |Others(Keys(records), PILLAR_ORDER)|
    ensures var others := Others(Keys(records), PILLAR_ORDER);
            exists p :: 0 <= p < |records| && AppearsFirst(records, p, others[i], others[j])
  {
    var others, keys := Others(Keys(records), PILLAR_ORDER), Keys(records);
    OthersFollowOrder(keys, PILLAR_ORDER, i, j);
    var k, l :| 0 <= k < l < |keys| && keys[k] == others[i] && keys[l] == others[j];
    KeysFollowFirstAppearance(records, k, l);
  }

  /** Sections of other names follow in the order in which their first records were kept. */
  lemma OtherSectionsFollowAppearance(records: seq<MemoryRecord>, i: nat, j: nat)
    requires i < j < |SectionOrder(records)| && !Known(SectionOrder(records)[i])
    ensures exists p :: 0 <= p < |records|
              && AppearsFirst(records, p, SectionOrder(records)[i], SectionOrder(records)[j])
  {
    var n := |Present(PILLAR_ORDER, Keys(records))|;
    var others := Others(Keys(records), PILLAR_ORDER);
    KnownPart(records, i);
    KnownPart(records, j);
    OthersFollowAppearance(records, i - n, j - n);
    var p :| 0 <= p < |records| && AppearsFirst(records, p, others[i - n], others[j - n]);
    assert AppearsFirst(records, p, SectionOrder(records)[i], SectionOrder(records)[j]);
  }

  /** Section i is a known pillar, or one of the others. */
  lemma {:induction false} KnownPart(records: seq<MemoryRecord>, i: nat)
    requires i < |SectionOrder(records)|
    ensures var n := |Present(PILLAR_ORDER, Keys(records))|;
            if i < n then Known(SectionOrder(records)[i])
            else SectionOrder(records)[i] == Others(Keys(records), PILLAR_ORDER)[i - n]
  {
    PresentAreCandidates(PILLAR_ORDER, Keys(records));
  }

  lemma {:induction false} PresentAreCandidates(candidates: seq<string>, keys: seq<string>)
    requires Distinct(candidates)
    ensures forall i :: 0 <= i < |Present(candidates, keys)| ==> Present(candidates, keys)[i] in candidates
  {
    PresentKeys(candidates, keys);
    forall i | 0 <= i < |Present(candidates, keys)| ensures Present(candidates, keys)[i] in candidates {
      assert Present(candidates, keys)[i] in Present(candidates, keys);
    }
  }

  /** Every section in use is rendered once. */
  lemma {:induction false} SectionsAreRenderedOnce(records: seq<MemoryRecord>)
    ensures Distinct(SectionOrder(records))
    ensures forall key :: key in SectionOrder(records) <==> key in Keys(records)
  {
    var a, b := Present(PILLAR_ORDER, Keys(records)), Others(Keys(records), PILLAR_ORDER);
    PresentKeys(PILLAR_ORDER, Keys(records));
    KeysAreDistinct(records);
    OtherKeys(Keys(records), PILLAR_ORDER);
    forall i, j | 0 <= i < j < |a + b| ensures (a + b)[i] != (a + b)[j] {
      if i < |a| <= j {
        assert a[i] in a && b[j - |a|] in b;
      }
    }
  }

  lemma {:induction false} ListedSkip(line: Line, rest: seq<Line>, key: string, above: Option<string>)
    requires !line.Heading? && !line.Bullet?
    ensures ListedUnder([line] + rest, key, above) == ListedUnder(rest, key, above)
  {
    assert ([line] + rest)[1..] == rest;
  }

  lemma {:induction false} ListedBelowHeader(task: string, body: seq<Line>, key: string)
    ensures ListedUnder([Header(task), Blank] + body, key, None) == ListedUnder(body, key, None)
  {
    ListedSkip(Blank, body, key, None);
    ListedSkip(Header(task), [Blank] + body, key, None);
    assert [Header(task)] + ([Blank] + body) == [Header(task), Blank] + body;
  }

  /** Reading the rendered pack under any heading gives exactly the kept records of
      that section, in rank order: each record is shown once, in one section. */
  lemma {:induction false} EachRecordIsListedInItsSection(task: string, records: seq<MemoryRecord>, key: string)
    ensures ListedUnder(Lines(task, records), key, None) == Section(records, key)
  {
    if records == [] {
      ListedSkip(NoneFound, [], key, None);
      ListedBelowHeader(task, [NoneFound], key);
      assert [NoneFound] + [] == [NoneFound];
      assert Lines(task, records) == [Header(task), Blank] + [NoneFound];
    } else {
      ListedSections(task, records, SectionOrder(records), key);
    }
  }

  lemma {:induction false} ListedSections(task: string, records: seq<MemoryRecord>, order: seq<string>, key: string)
    requires order == SectionOrder(records)
    ensures ListedUnder([Header(task), Blank] + Body(records, order), key, None) == Section(records, key)
  {
    SectionsAreRenderedOnce(records);
    ListedInBody(records, order, key);
    ListedBelowHeader(task, Body(records, order), key);
    if key !in Keys(records) {
      NoSection(records, key);
    }
  }

  /** The sections of a pack split its records: a record is counted in its own
      section as often as it was kept, and in no other. */
  lemma {:induction false} SectionsPartitionRecords(records: seq<MemoryRecord>, key: string, r: MemoryRecord)
    ensures multiset(Section(records, key))[r] == if SectionKey(r) == key then multiset(records)[r] else 0
  {
    if records == [] {
    } else {
      var init := records[..|records| - 1];
      SectionsPartitionRecords(init, key, r);
      assert records == init + [records[|records| - 1]];
    }
  }

  /** Headings in the order a reader meets them. */
  lemma {:induction false} HeadingsAppend(a: seq<Line>, b: seq<Line>)
    ensures Headings(a + b) == Headings(a) + Headings(b)
  {
    if b == [] {
      assert a + b == a;
    } else {
      HeadingsAppend(a, b[..|b| - 1]);
      assert (a + b)[..|a + b| - 1] == a + b[..|b| - 1];
    }
  }

  lemma {:induction false} BulletsAreNoHeadings(rs: seq<MemoryRecord>)
    ensures Headings(Bullets(rs)) == []
  {
    if rs == [] {
    } else {
      assert Bullets(rs)[..|rs| - 1] == Bullets(rs[..|rs| - 1]);
      BulletsAreNoHeadings(rs[..|rs| - 1]);
    }
  }

  lemma HeadingsOfSection(records: seq<MemoryRecord>, key: string)
    ensures Headings(SectionLines(records, key)) == [key]
  {
    var rs := Section(records, key);
    HeadingsAppend([Heading(key)] + Bullets(rs), [Blank]);
    HeadingsAppend([Heading(key)], Bullets(rs));
    BulletsAreNoHeadings(rs);
    assert [Heading(key)][..0] == [] && [Blank][..0] == [];
  }

  lemma {:induction false} HeadingsOfBody(records: seq<MemoryRecord>, order: seq<string>)
    ensures Headings(Body(records, order)) == order
  {
    if order == [] {
    } else {
      var before, last := order[..|order| - 1], order[|order| - 1];
      HeadingsOfBody(records, before);
      HeadingsOfSection(records, last);
      HeadingsAppend(Body(records, before), SectionLines(records, last));
      assert order == before + [last];
    }
  }

  /** The headings of a pack, from the top. */
  lemma HeadingsAreTheSectionOrder(task: string, records: seq<MemoryRecord>)
    requires records != []
    ensures Headings(Lines(task, records)) == SectionOrder(records)
  {
    HeadingsOfBody(records, SectionOrder(records));
    HeadingsAppend([Header(task), Blank], Body(records, SectionOrder(records)));
    assert [Header(task), Blank][..1] == [Header(task)] && [Header(task)][..0] == [];
    assert Headings([Header(task)]) == [];
  }

  /** How many records the sections of `order` hold together. */
  function Held(records: seq<MemoryRecord>, order: seq<string>): nat {
    if order == [] then 0 else Held(records, order[..|order| - 1]) + |Section(records, order[|order| - 1])|
  }

  lemma {:induction false} BodyLength(records: seq<MemoryRecord>, order: seq<string>)
    ensures |Body(records, order)| == 2 * |order| + Held(records, order)
    decreases |order|
  {
    if order != [] {
      BodyLength(records, order[..|order| - 1]);
    }
  }

  lemma {:induction false} HeldOneMore(records: seq<MemoryRecord>, r: MemoryRecord, order: seq<string>)
    requires Distinct(order)
    ensures Held(records + [r], order) == Held(records, order) + if SectionKey(r) in order then 1 else 0
    decreases |order|
  {
    if order != [] {
      var before, last := order[..|order| - 1], order[|order| - 1];
      HeldOneMore(records, r, before);
      SectionAppends(records, [r], last);
      SectionOfOne(r, last);
      assert order == before + [last];
    }
  }

  lemma {:induction false} HeldIsAll(records: seq<MemoryRecord>, order: seq<string>)
    requires Distinct(order) && forall i :: 0 <= i < |records| ==> SectionKey(records[i]) in order
    ensures Held(records, order) == |records|
    decreases |records|
  {
    if records == [] {
      NothingHeld(order);
    } else {
      var n := |records| - 1;
      HeldIsAll(records[..n], order);
      HeldOneMore(records[..n], records[n], order);
      assert records == records[..n] + [records[n]];
    }
  }

  lemma {:induction false} NothingHeld(order: seq<string>)
    ensures Held([], order) == 0
    decreases |order|
  {
    if order != [] {
      NothingHeld(order[..|order| - 1]);
    }
  }

  /** A pack is nothing but its header, a blank line, one line per record, and for every section
      its heading and the blank line that closes it. */
  lemma LinesAreAccountedFor(task: string, records: seq<MemoryRecord>)
    requires records != []
    ensures |Lines(task, records)| == 2 + |records| + 2 * |SectionOrder(records)|
  {
    SectionsAreRenderedOnce(records);
    forall i | 0 <= i < |records| ensures SectionKey(records[i]) in SectionOrder(records) {
      KeysAreInUse(records, SectionKey(records[i]));
    }
    BodyLength(records, SectionOrder(records));
    HeldIsAll(records, SectionOrder(records));
  }

  ghost predicate InOrder(order: seq<string>, a: string, b: string) {
    exists k, l :: 0 <= k < l < |order| && order[k] == a && order[l] == b
  }

  lemma {:induction false} PresentFollowsOrder(candidates: seq<string>, keys: seq<string>, i: nat, j: nat)
    requires i < j < |Present(candidates, keys)|
    ensures InOrder(candidates, Present(candidates, keys)[i], Present(candidates, keys)[j])
  {
    var n := |candidates| - 1;
    var before := Present(candidates[..n], keys);
    if j < |before| {
      PresentFollowsOrder(candidates[..n], keys, i, j);
    } else {
      var k := PresentPlace(candidates[..n], keys, i);
      assert candidates[..n][k] == candidates[k] && k < n;
    }
  }

  lemma {:induction false} PresentPlace(candidates: seq<string>, keys: seq<string>, i: nat) returns (k: nat)
    requires i < |Present(candidates, keys)|
    ensures k < |candidates| && candidates[k] == Present(candidates, keys)[i]
  {
    var n := |candidates| - 1;
    if i < |Present(candidates[..n], keys)| {
      k := PresentPlace(candidates[..n], keys, i);
    } else {
      k := n;
    }
  }

  /** Sections named by a known pillar come first and in the fixed pillar order. */
  lemma KnownSectionsComeFirst(records: seq<MemoryRecord>, i: nat, j: nat)
    requires i < j < |SectionOrder(records)|
    ensures var pillars := ["procedural", "skill", "semantic", "graph", "strategic", "work", "episodic", "working"];
            SectionOrder(records)[j] in pillars ==>
              InOrder(pillars, SectionOrder(records)[i], SectionOrder(records)[j])
  {
    var a, b := Present(PILLAR_ORDER, Keys(records)), Others(Keys(records), PILLAR_ORDER);
    KeysAreDistinct(records);
    OtherKeys(Keys(records), PILLAR_ORDER);
    if j < |a| {
      PresentFollowsOrder(PILLAR_ORDER, Keys(records), i, j);
    } else {
      assert b[j - |a|] in b;
    }
  }

  // The text.

  function LineText(h: Host, line: Line): string {
    match line
    case Header(task) => Text.RStrip("# Context for: " + task, h.isSpace)
    case Heading(section) => "## " + h.capitalize(section)
    case Bullet(record) => Snippet(h, record)
    case Blank => ""
    case NoneFound => "No relevant team memory found for this task."
  }

  /** The text of each kind of line. */
  lemma LineTexts(h: Host, task: string, section: string, r: MemoryRecord)
    ensures LineText(h, Header(task)) <= "# Context for: " + task
    ensures LineText(h, Heading(section))[..3] == "## " && LineText(h, Heading(section))[3..] == h.capitalize(section)
    ensures LineText(h, Bullet(r)) == Snippet(h, r) && LineText(h, Blank) == ""
  {
    Text.RStripCutsSpace("# Context for: " + task, h.isSpace);
  }

  function Join(texts: seq<string>): string {
    if texts == [] then ""
    else if |texts| == 1 then texts[0]
    else Join(texts[..|texts| - 1]) + "\n" + texts[|texts| - 1]
  }

  /** What the model is shown. */
  function Rendered(h: Host, lines: seq<Line>): string {
    Text.RStrip(Join(Texts(h, lines)), h.isSpace) + "\n"
  }

  lemma JoinThree(top: string, last: string)
    ensures Join([top, "", last]) == top + "\n\n" + last
  {
    assert [top, "", last][..2] == [top, ""] && [top, ""][..1] == [top];
    assert Join([top, ""]) == top + "\n" + "";
    assert Join([top, "", last]) == (top + "\n" + "") + "\n" + last;
  }

  /** A pack without records is its header and one sentence. */
  lemma EmptyPackText(h: Host, task: string)
    requires !h.isSpace('.')
    ensures Rendered(h, Lines(task, []))
            == LineText(h, Header(task)) + "\n\n" + "No relevant team memory found for this task." + "\n"
  {
    var top, last := LineText(h, Header(task)), LineText(h, NoneFound);
    assert Texts(h, Lines(task, [])) == [top, "", last];
    JoinThree(top, last);
    assert last[|last| - 1] == '.';
    NothingToStrip(top + "\n\n" + last, h.isSpace);
  }

  lemma {:induction false} NothingToStrip(s: string, isSpace: char -> bool)
    requires s != "" && !isSpace(s[|s| - 1])
    ensures Text.RStrip(s, isSpace) == s
  {
  }

  /** str.split("\n") */
  function Split(text: string): (r: seq<string>)
    ensures r != []
  {
    if text == "" then [""]
    else
      var before, c := Split(text[..|text| - 1]), text[|text| - 1];
      if c == '\n' then before + [""]
      else before[..|before| - 1] + [before[|before| - 1] + [c]]
  }

  function Texts(h: Host, lines: seq<Line>): (r: seq<string>)
    ensures |r| == |lines|
    ensures forall i :: 0 <= i < |r| ==> r[i] == LineText(h, lines[i])
  {
    seq(|lines|, i requires 0 <= i < |lines| => LineText(h, lines[i]))
  }

  predicate OneLine(s: string) {
    forall i :: 0 <= i < |s| ==> s[i] != '\n'
  }

  lemma {:induction false} SplitAtNewline(a: string, b: string)
    requires OneLine(b)
    ensures Split(a + "\n" + b) == Split(a) + [b]
  {
    var s := a + "\n" + b;
    if b == "" {
      assert s == a + "\n";
      assert s[..|s| - 1] == a;
    } else {
      var c := b[..|b| - 1];
      SplitAtNewline(a, c);
      assert s[..|s| - 1] == a + "\n" + c;
      assert b == c + [b[|b| - 1]];
    }
  }

  ghost predicate OneLineEach(texts: seq<string>, from: nat) {
    forall i :: from <= i < |texts| ==> OneLine(texts[i])
  }

  lemma {:induction false} JoinOneMore(texts: seq<string>, t: string)
    requires texts != []
    ensures Join(texts + [t]) == Join(texts) + "\n" + t
  {
    assert (texts + [t])[..|texts|] == texts;
  }

  lemma {:induction false} SplitJoin(texts: seq<string>)
    requires texts != [] && OneLineEach(texts, 1)
    ensures Split(Join(texts)) == Split(texts[0]) + texts[1..]
    decreases |texts|
  {
    var n := |texts| - 1;
    if n == 0 {
      SplitJoinOne(texts);
    } else {
      SplitJoin(texts[..n]);
      SplitJoinMore(texts[..n], texts[n]);
      LastApart(texts);
    }
  }

  lemma {:induction false} SplitJoinOne(texts: seq<string>)
    requires |texts| == 1
    ensures Split(Join(texts)) == Split(texts[0]) + texts[1..]
  {
    assert texts[1..] == [];
  }

  lemma LastApart(texts: seq<string>)
    requires texts != []
    ensures texts[..|texts| - 1] + [texts[|texts| - 1]] == texts
  {
  }

  lemma {:induction false} SplitJoinMore(texts: seq<string>, t: string)
    requires texts != [] && OneLine(t)
    requires Split(Join(texts)) == Split(texts[0]) + texts[1..]
    ensures Split(Join(texts + [t])) == Split((texts + [t])[0]) + (texts + [t])[1..]
  {
    JoinOneMore(texts, t);
    SplitAtNewline(Join(texts), t);
    TailGrows(Split(texts[0]), texts, t);
  }

  lemma TailGrows(head: seq<string>, texts: seq<string>, t: string)
    requires texts != []
    ensures (texts + [t])[0] == texts[0]
    ensures head + (texts + [t])[1..] == head + texts[1..] + [t]
  {
    assert (texts + [t])[1..] == texts[1..] + [t];
  }

  lemma {:induction false} RStripIsPrefix(s: string, isSpace: char -> bool)
    ensures Text.RStrip(s, isSpace) == s[..|Text.RStrip(s, isSpace)|]
    ensures s != "" && !isSpace(s[0]) ==> Text.RStrip(s, isSpace) != ""
  {
    if s != "" && isSpace(s[|s| - 1]) {
      RStripIsPrefix(s[..|s| - 1], isSpace);
    }
  }

  lemma {:induction false} RStripStopsIn(a: string, t: string, isSpace: char -> bool)
    requires Text.RStrip(t, isSpace) != ""
    ensures Text.RStrip(a + t, isSpace) == a + Text.RStrip(t, isSpace)
  {
    assert t != "";
    if isSpace(t[|t| - 1]) {
      RStripStopsIn(a, t[..|t| - 1], isSpace);
      assert (a + t)[..|a + t| - 1] == a + t[..|t| - 1];
    }
  }

  /** A bullet starts with a dash, and is one line exactly when its provenance suffix is,
      whatever the content holds. */
  lemma SnippetIsOneBullet(h: Host, r: MemoryRecord)
    ensures OneLine(Snippet(h, r)) <==> OneLine(h.suffix(r))
    ensures |Snippet(h, r)| >= 2 && Snippet(h, r)[..2] == "- "
  {
    var content := NewlinesToSpaces(Text.RStrip(LStrip(r.content, h.isSpace), h.isSpace));
    if |content| > SNIPPET_MAX_CHARS {
      RStripIsPrefix(content[..SNIPPET_MAX_CHARS - 1], h.isSpace);
    }
    var front := Snippet(h, r)[..|Snippet(h, r)| - |h.suffix(r)|];
    assert OneLine(front);
    assert Snippet(h, r) == front + h.suffix(r);
    OneLineParts(front, h.suffix(r));
  }

  lemma OneLineParts(a: string, b: string)
    ensures OneLine(a + b) <==> OneLine(a) && OneLine(b)
  {
    if OneLine(a + b) {
      assert forall i :: 0 <= i < |a| ==> (a + b)[i] == a[i];
      assert forall i :: 0 <= i < |b| ==> (a + b)[|a| + i] == b[i];
    }
  }

  /** The host trims newlines but no dashes, and neither provenance nor pillar
      names hold a newline. */
  ghost predicate Plain(h: Host, records: seq<MemoryRecord>) {
    && h.isSpace('\n') && !h.isSpace('-')
    && forall r :: r in records ==> OneLine(h.suffix(r)) && OneLine(h.capitalize(SectionKey(r)))
  }

  predicate IsBodyLine(records: seq<MemoryRecord>, line: Line) {
    match line
    case Heading(section) => section in Keys(records)
    case Bullet(record) => record in records
    case Blank => true
    case _ => false
  }

  lemma {:induction false} SectionMembers(records: seq<MemoryRecord>, key: string)
    ensures forall r :: r in Section(records, key) ==> r in records
    ensures key in Keys(records) ==> Section(records, key) != []
    ensures key in Keys(records) ==> exists r :: r in records && SectionKey(r) == key
  {
    if records == [] {
    } else {
      var n := |records| - 1;
      SectionMembers(records[..n], key);
      assert records == records[..n] + [records[n]];
      if SectionKey(records[n]) == key {
        assert records[n] in records;
      } else if key in Keys(records) {
        var r :| r in records[..n] && SectionKey(r) == key;
        assert r in records;
      }
    }
  }

  lemma {:induction false} BodyLines(records: seq<MemoryRecord>, order: seq<string>)
    requires forall key :: key in order ==> key in Keys(records)
    ensures forall i :: 0 <= i < |Body(records, order)| ==> IsBodyLine(records, Body(records, order)[i])
    ensures order != [] ==>
      var body := Body(records, order);
      |body| >= 3 && body[|body| - 1] == Blank && body[|body| - 2].Bullet?
  {
    if order == [] {
    } else {
      var before, last := order[..|order| - 1], order[|order| - 1];
      BodyLines(records, before);
      assert last in order;
      SectionMembers(records, last);
      var lines := SectionLines(records, last);
      forall i | 0 <= i < |lines| ensures IsBodyLine(records, lines[i]) {
        if 0 < i < |lines| - 1 {
          assert Section(records, last)[i - 1] in Section(records, last);
        }
      }
    }
  }

  lemma BodyLineIsPlain(h: Host, records: seq<MemoryRecord>, line: Line)
    requires Plain(h, records) && IsBodyLine(records, line)
    ensures TellsItsKind(h, line)
  {
    match line
    case Heading(section) =>
      SectionMembers(records, section);
    case Bullet(record) =>
      SnippetIsOneBullet(h, record);
      assert Snippet(h, record)[0] == Snippet(h, record)[..2][0];
    case _ =>
  }

  lemma {:induction false} JoinTwoMore(top: seq<string>, t: string)
    requires top != []
    ensures Join(top + [t, ""]) == Join(top) + "\n" + t + "\n"
  {
    var all := top + [t, ""];
    assert all[..|all| - 1] == top + [t];
    assert (top + [t])[..|top|] == top;
    assert Join(top + [t]) == Join(top) + "\n" + t;
  }

  lemma {:induction false} StripLast(a: string, t: string, isSpace: char -> bool)
    requires isSpace('\n') && Text.RStrip(t, isSpace) != ""
    ensures Text.RStrip(a + t + "\n", isSpace) == a + Text.RStrip(t, isSpace)
  {
    var all := a + t + "\n";
    assert all[..|all| - 1] == a + t;
    RStripStopsIn(a, t, isSpace);
  }

  lemma {:induction false} SplitTwoMore(a: string, s: string)
    requires OneLine(s)
    ensures Split(a + "\n" + s + "\n") == Split(a) + [s] + [""]
  {
    SplitAtNewline(a + "\n" + s, "");
    assert a + "\n" + s + "\n" + "" == a + "\n" + s + "\n";
    SplitAtNewline(a, s);
  }

  /** Joining lines, trimming the end and splitting again gives the lines back. */
  lemma {:induction false} SplitRendered(top: seq<string>, t: string, isSpace: char -> bool)
    requires top != [] && isSpace('\n') && OneLine(t)
    requires OneLineEach(top, 1)
    requires Text.RStrip(t, isSpace) != ""
    ensures Split(Text.RStrip(Join(top + [t, ""]), isSpace) + "\n")
      == Split(top[0]) + top[1..] + [Text.RStrip(t, isSpace)] + [""]
  {
    JoinTwoMore(top, t);
    StripLast(Join(top) + "\n", t, isSpace);
    RStripIsPrefix(t, isSpace);
    SplitTwoMore(Join(top), Text.RStrip(t, isSpace));
    SplitJoin(top);
  }

  /** The rendered text, split at newlines, is the header followed by exactly the
      rendered lines; only the last bullet may lose trailing space. No record can start a
      heading or a bullet of its own. */
  lemma RenderedTextReadsBack(h: Host, task: string, records: seq<MemoryRecord>)
    requires records != [] && Plain(h, records)
    ensures var lines := Lines(task, records); var n := |lines|;
      && n >= 5
      && Split(Rendered(h, lines))
        == Split(LineText(h, Header(task))) + Texts(h, lines[1..n - 2])
          + [Text.RStrip(LineText(h, lines[n - 2]), h.isSpace)] + [""]
      && forall i :: 1 <= i < n ==> TellsItsKind(h, lines[i])
  {
    var lines := Lines(task, records);
    LinesArePlain(h, task, records);
    BulletIsNotBlank(h, lines[|lines| - 2]);
    LinesReadBack(h, lines);
  }

  lemma {:induction false} SplitIsWholeIff(text: string)
    ensures |Split(text)| == 1 <==> OneLine(text)
    decreases |text|
  {
    if text != "" {
      var n := |text| - 1;
      SplitIsWholeIff(text[..n]);
      assert text == text[..n] + [text[n]];
      OneLineParts(text[..n], [text[n]]);
      assert OneLine([text[n]]) <==> [text[n]][0] != '\n';
    }
  }

  /** The text has as many lines as were rendered, so that only headings look like headings
      throughout, exactly when the trimmed header is one line: a task with a newline inside
      adds lines of its own at the top. */
  lemma TextIsUnambiguousIff(h: Host, task: string, records: seq<MemoryRecord>)
    requires records != [] && Plain(h, records)
    ensures |Split(Rendered(h, Lines(task, records)))| == |Lines(task, records)|
            <==> OneLine(LineText(h, Header(task)))
  {
    RenderedTextReadsBack(h, task, records);
    SplitIsWholeIff(LineText(h, Header(task)));
  }

  /** One line of text, with a hash in front exactly for headings and a dash for bullets. */
  ghost predicate TellsItsKind(h: Host, line: Line) {
    && OneLine(LineText(h, line))
    && (line.Heading? <==> LineText(h, line) != "" && LineText(h, line)[0] == '#')
    && (line.Bullet? <==> LineText(h, line) != "" && LineText(h, line)[0] == '-')
  }

  lemma BulletIsNotBlank(h: Host, line: Line)
    requires line.Bullet? && TellsItsKind(h, line) && !h.isSpace('-')
    ensures Text.RStrip(LineText(h, line), h.isSpace) != ""
  {
    RStripIsPrefix(LineText(h, line), h.isSpace);
  }

  lemma LinesReadBack(h: Host, lines: seq<Line>)
    requires |lines| >= 3 && lines[|lines| - 1] == Blank && h.isSpace('\n')
    requires forall i :: 1 <= i < |lines| ==> TellsItsKind(h, lines[i])
    requires Text.RStrip(LineText(h, lines[|lines| - 2]), h.isSpace) != ""
    ensures Split(Rendered(h, lines))
      == Split(LineText(h, lines[0])) + Texts(h, lines[1..|lines| - 2])
        + [Text.RStrip(LineText(h, lines[|lines| - 2]), h.isSpace)] + [""]
  {
    var n := |lines|;
    var top, last := Texts(h, lines[..n - 2]), LineText(h, lines[n - 2]);
    TextsSplit(h, lines);
    assert TellsItsKind(h, lines[n - 2]);
    SplitRendered(top, last, h.isSpace);
  }

  lemma TextsSplit(h: Host, lines: seq<Line>)
    requires |lines| >= 3 && lines[|lines| - 1] == Blank
    requires forall i :: 1 <= i < |lines| ==> TellsItsKind(h, lines[i])
    ensures var n := |lines|; var top := Texts(h, lines[..n - 2]);
      && Texts(h, lines) == top + [LineText(h, lines[n - 2]), ""]
      && top[0] == LineText(h, lines[0]) && top[1..] == Texts(h, lines[1..n - 2]) && OneLineEach(top, 1)
  {
    var n := |lines|;
    var top := Texts(h, lines[..n - 2]);
    forall i | 1 <= i < |top| ensures OneLine(top[i]) {
      assert TellsItsKind(h, lines[i]);
    }
    assert LineText(h, lines[n - 1]) == "";
  }

  lemma LinesArePlain(h: Host, task: string, records: seq<MemoryRecord>)
    requires records != [] && Plain(h, records)
    ensures var lines := Lines(task, records);
      && |lines| >= 5 && lines[0] == Header(task) && lines[|lines| - 1] == Blank && lines[|lines| - 2].Bullet?
      && forall i :: 1 <= i < |lines| ==> TellsItsKind(h, lines[i])
  {
    var order := SectionOrder(records);
    FirstKey(records);
    SectionsAreRenderedOnce(records);
    BodyLines(records, order);
    BelowHeader(h, task, records, Body(records, order));
  }

  lemma BelowHeader(h: Host, task: string, records: seq<MemoryRecord>, body: seq<Line>)
    requires Plain(h, records) && forall i :: 0 <= i < |body| ==> IsBodyLine(records, body[i])
    ensures forall i :: 1 <= i < |body| + 2 ==> TellsItsKind(h, ([Header(task), Blank] + body)[i])
  {
    forall i | 1 <= i < |body| + 2 ensures TellsItsKind(h, ([Header(task), Blank] + body)[i]) {
      LineBelowHeader(h, task, records, body, i);
    }
  }

  lemma LineBelowHeader(h: Host, task: string, records: seq<MemoryRecord>, body: seq<Line>, i: nat)
    requires Plain(h, records) && forall j :: 0 <= j < |body| ==> IsBodyLine(records, body[j])
    requires 1 <= i < |body| + 2
    ensures TellsItsKind(h, ([Header(task), Blank] + body)[i])
  {
    var line := if i == 1 then Blank else body[i - 2];
    BodyLineIsPlain(h, records, line);
    assert ([Header(task), Blank] + body)[i] == line;
  }

  lemma FirstKey(records: seq<MemoryRecord>)
    requires records != []
    ensures SectionOrder(records) != []
  {
    SectionsAreRenderedOnce(records);
    assert SectionKey(records[|records| - 1]) in Keys(records);
  }
}
