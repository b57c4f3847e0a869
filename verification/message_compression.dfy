/** Compression of chat messages (compress_messages and compress_messages_with_ccr in
    src/teamshared/compress/engine.py) for messages with string content. compress_text and the
    whitespace of rstrip() are given as functions. */
module MessageCompression {
  import opened Wrappers
  import Text
  import Ccr

  datatype Message = Message(role: string, content: Option<string>)

  /** compress is None where compress_text reports no change. */
  datatype Config = Config(compress: string -> Option<string>, isSpace: char -> bool)

  const MARKER: string := "## TeamShared context"

  /** is_teamshared_context_content: the text contains the marker. */
  predicate IsContextPack(text: string) {
    exists i :: 0 <= i <= |text| && StandsAt(text, MARKER, i)
  }

  predicate StandsAt(text: string, part: string, i: nat) {
    i + |part| <= |text| && text[i..i + |part|] == part
  }

  datatype Stats = Stats(originalChars: nat, compressedChars: nat, messagesTouched: nat, refs: seq<string>)

  datatype Result = Result(messages: seq<Message>, stats: Stats, compressed: bool)

  predicate Eligible(m: Message, c: Config) {
    m.role != "user" && m.content.Some? && !IsContextPack(m.content.value)
  }

  predicate Touched(m: Message, c: Config) {
    Eligible(m, c) && c.compress(m.content.value).Some?
  }

  function WithRef(text: string, ref: string, c: Config): string {
    Text.RStrip(text, c.isSpace) + "\nref=" + ref + "\n"
  }

  function PlainMessage(m: Message, c: Config): Message {
    if Touched(m, c) then m.(content := c.compress(m.content.value)) else m
  }

  function RefFor(m: Message, org: string, digest: Ccr.Digest): string
    requires m.content.Some?
  {
    Ccr.Ref(org, digest(m.content.value))
  }

  /** The references a message adds: its own, if it is touched. */
  function RefsOf(m: Message, c: Config, org: string, digest: Ccr.Digest): seq<string> {
    if Touched(m, c) then [RefFor(m, org, digest)] else []
  }

  function CcrMessage(m: Message, c: Config, org: string, digest: Ccr.Digest): Message {
    if Touched(m, c) then
      m.(content := Some(WithRef(c.compress(m.content.value).value, RefFor(m, org, digest), c)))
    else m
  }

  const NOTHING_YET: Result := Result([], Stats(0, 0, 0, []), false)

  /** What one more message does to a result: its form in the output, and the counters. */
  function Extended(r: Result, m: Message, c: Config, out: Message, refs: seq<string>): Result {
    if Eligible(m, c) then
      Result(
        r.messages + [out],
        Stats(
          r.stats.originalChars + |m.content.value|,
          r.stats.compressedChars + (if out.content.Some? then |out.content.value| else 0),
          r.stats.messagesTouched + (if Touched(m, c) then 1 else 0),
          r.stats.refs + refs),
        r.compressed || Touched(m, c))
    else r.(messages := r.messages + [out])
  }

  function PlainResult(msgs: seq<Message>, c: Config): Result {
    if msgs == [] then NOTHING_YET
    else
      var m := msgs[|msgs| - 1];
      Extended(PlainResult(msgs[..|msgs| - 1], c), m, c, PlainMessage(m, c), [])
  }

  function CcrResult(msgs: seq<Message>, c: Config, org: string, digest: Ccr.Digest): Result {
    if msgs == [] then NOTHING_YET
    else
      var m := msgs[|msgs| - 1];
      Extended(CcrResult(msgs[..|msgs| - 1], c, org, digest), m, c, CcrMessage(m, c, org, digest),
               RefsOf(m, c, org, digest))
  }

  /** The originals one call puts into the store; the put of message i happens at clock(i). */
  function PutsOf(msgs: seq<Message>, c: Config, org: string, clock: nat -> int): seq<Ccr.PutCall> {
    if msgs == [] then []
    else
      var n := |msgs| - 1;
      var m := msgs[n];
      PutsOf(msgs[..n], c, org, clock)
      + if Touched(m, c) then [Ccr.PutCall(clock(n), org, m.content.value)] else []
  }

  method CompressMessages(msgs: seq<Message>, c: Config) returns (r: Result)
    ensures r == PlainResult(msgs, c)
  {
    r := NOTHING_YET;
    for i := 0 to |msgs|
      invariant r == PlainResult(msgs[..i], c)
    {
      PlainResultSnoc(msgs, c, i);
      r := CompressOne(msgs[i], c, r);
    }
    assert msgs[..|msgs|] == msgs;
    UntouchedIsUnchanged(msgs, c);
    r := Result(if r.compressed then r.messages else msgs, r.stats, r.compressed);
  }

  /** The body of the plain loop. */
  method CompressOne(m: Message, c: Config, before: Result) returns (r: Result)
    ensures r == Extended(before, m, c, PlainMessage(m, c), [])
  {
    if !Eligible(m, c) {
      return before.(messages := before.messages + [m]);
    }
    var stats, touched := before.stats, before.compressed;
    var content, shrunk := m.content.value, c.compress(m.content.value);
    var newContent := if shrunk.Some? then shrunk.value else content;
    stats := stats.(originalChars := stats.originalChars + |content|,
                    compressedChars := stats.compressedChars + |newContent|);
    var out := m;
    if shrunk.Some? {
      touched := true;
      stats := stats.(messagesTouched := stats.messagesTouched + 1);
      out := m.(content := Some(newContent));
    }
    assert stats.refs == stats.refs + [];
    r := Result(before.messages + [out], stats, touched);
  }

  method CompressMessagesWithCcr(msgs: seq<Message>, c: Config, org: string, store: Ccr.CcrStore, clock: nat -> int,
                                 ghost history: seq<Ccr.PutCall>)
    returns (r: Result)
    requires store.data == Ccr.After(store.ttl, history, store.digest)
    modifies store
    ensures r == CcrResult(msgs, c, org, store.digest)
    ensures store.data == Ccr.After(store.ttl, history + PutsOf(msgs, c, org, clock), store.digest)
  {
    r := NOTHING_YET;
    assert history + PutsOf([], c, org, clock) == history;
    for i := 0 to |msgs|
      invariant r == CcrResult(msgs[..i], c, org, store.digest)
      invariant store.data == Ccr.After(store.ttl, history + PutsOf(msgs[..i], c, org, clock), store.digest)
    {
      CcrResultSnoc(msgs, c, org, store.digest, i);
      PutsSnoc(msgs, c, org, clock, i, history, store.ttl, store.digest);
      r := CompressOneWithCcr(msgs[i], c, org, store, clock(i), r);
    }
    assert msgs[..|msgs|] == msgs;
    UntouchedIsUnchangedByCcr(msgs, c, org, store.digest);
    r := Result(if r.compressed then r.messages else msgs, r.stats, r.compressed);
  }

  /** The body of the loop with references. */
  method CompressOneWithCcr(m: Message, c: Config, org: string, store: Ccr.CcrStore, now: int, before: Result)
    returns (r: Result)
    modifies store
    ensures r == Extended(before, m, c, CcrMessage(m, c, org, store.digest), RefsOf(m, c, org, store.digest))
    ensures store.data == if Touched(m, c)
                          then Ccr.Put(old(store.data), store.ttl, now, org, m.content.value, store.digest)
                          else old(store.data)
  {
    if !Eligible(m, c) {
      return before.(messages := before.messages + [m]);
    }
    var stats := before.stats;
    var content, shrunk := m.content.value, c.compress(m.content.value);
    stats := stats.(originalChars := stats.originalChars + |content|);
    if shrunk.Some? {
      var ref := store.PutOriginal(now, org, content);
      var text := WithRef(shrunk.value, ref, c);
      stats := stats.(refs := stats.refs + [ref],
                      messagesTouched := stats.messagesTouched + 1,
                      compressedChars := stats.compressedChars + |text|);
      r := Result(before.messages + [m.(content := Some(text))], stats, true);
    } else {
      stats := stats.(compressedChars := stats.compressedChars + |content|);
      assert stats.refs == stats.refs + [];
      r := Result(before.messages + [m], stats, before.compressed);
    }
  }

  lemma {:induction false} PlainResultSnoc(msgs: seq<Message>, c: Config, i: nat)
    requires i < |msgs|
    ensures PlainResult(msgs[..i + 1], c)
            == Extended(PlainResult(msgs[..i], c), msgs[i], c, PlainMessage(msgs[i], c), [])
  {
    assert msgs[..i + 1][..i] == msgs[..i];
  }

  lemma {:induction false} CcrResultSnoc(msgs: seq<Message>, c: Config, org: string, digest: Ccr.Digest, i: nat)
    requires i < |msgs|
    ensures CcrResult(msgs[..i + 1], c, org, digest)
            == Extended(CcrResult(msgs[..i], c, org, digest), msgs[i], c, CcrMessage(msgs[i], c, org, digest),
                        RefsOf(msgs[i], c, org, digest))
  {
    assert msgs[..i + 1][..i] == msgs[..i];
  }

  lemma {:induction false} UntouchedIsUnchanged(msgs: seq<Message>, c: Config)
    ensures !PlainResult(msgs, c).compressed ==> PlainResult(msgs, c).messages == msgs
    decreases |msgs|
  {
    if msgs != [] {
      UntouchedIsUnchanged(msgs[..|msgs| - 1], c);
    }
  }

  lemma {:induction false} UntouchedIsUnchangedByCcr(msgs: seq<Message>, c: Config, org: string, digest: Ccr.Digest)
    ensures !CcrResult(msgs, c, org, digest).compressed ==> CcrResult(msgs, c, org, digest).messages == msgs
    decreases |msgs|
  {
    if msgs != [] {
      UntouchedIsUnchangedByCcr(msgs[..|msgs| - 1], c, org, digest);
    }
  }

  lemma {:induction false} PutsSnoc(msgs: seq<Message>, c: Config, org: string, clock: nat -> int, i: nat,
                                    history: seq<Ccr.PutCall>, ttl: nat, digest: Ccr.Digest)
    requires i < |msgs|
    ensures var before := Ccr.After(ttl, history + PutsOf(msgs[..i], c, org, clock), digest);
            Ccr.After(ttl, history + PutsOf(msgs[..i + 1], c, org, clock), digest)
            == if Touched(msgs[i], c)
               then Ccr.Put(before, ttl, clock(i), org, msgs[i].content.value, digest)
               else before
  {
    assert msgs[..i + 1][..i] == msgs[..i];
    var a, b := history + PutsOf(msgs[..i], c, org, clock), history + PutsOf(msgs[..i + 1], c, org, clock);
    if Touched(msgs[i], c) {
      assert b == a + [Ccr.PutCall(clock(i), org, msgs[i].content.value)];
      assert b[..|b| - 1] == a;
    } else {
      assert b == a;
    }
  }

  // ---- which messages are changed, and how ----

  /** The marker counts wherever it stands, and only it does. */
  lemma ContextPacksHoldTheMarker(before: string, after: string, text: string)
    ensures IsContextPack(before + "## TeamShared context" + after)
    ensures IsContextPack(text) ==> exists a, b :: text == a + "## TeamShared context" + b
  {
    var whole := before + MARKER + after;
    assert StandsAt(whole, MARKER, |before|);
    if IsContextPack(text) {
      var i :| 0 <= i <= |text| && StandsAt(text, MARKER, i);
      assert text == text[..i] + MARKER + text[i + |MARKER|..];
    }
  }

  /** Messages of the user, context packs and messages without text are left alone. */
  predicate LeftAlone(m: Message) {
    m.role == "user" || m.content == None || IsContextPack(m.content.value)
  }

  lemma {:induction false} PlainMessageAt(msgs: seq<Message>, c: Config, i: nat)
    requires i < |msgs|
    ensures |PlainResult(msgs, c).messages| == |msgs|
    ensures PlainResult(msgs, c).messages[i] == PlainMessage(msgs[i], c)
    decreases |msgs|
  {
    var n := |msgs| - 1;
    if n > 0 {
      PlainMessageAt(msgs[..n], c, if i < n then i else 0);
    }
  }

  /** What the plain arm makes of each message: one that is left alone, or that does not compress,
      comes out as it went in, and every other with its compressed text under the same role. */
  lemma {:induction false} PlainArmOutcome(msgs: seq<Message>, c: Config, i: nat)
    requires i < |msgs|
    ensures |PlainResult(msgs, c).messages| == |msgs|
    ensures var m, out := msgs[i], PlainResult(msgs, c).messages[i];
            && (LeftAlone(m) ==> out == m)
            && (!LeftAlone(m) ==>
                  out == match c.compress(m.content.value)
                         case None => m
                         case Some(text) => Message(m.role, Some(text)))
  {
    PlainMessageAt(msgs, c, i);
  }

  /** In the arm with references the compressed text loses its trailing space and gains a line that
      names the reference of the original. */
  lemma {:induction false} CcrArmOutcome(msgs: seq<Message>, c: Config, org: string, digest: Ccr.Digest, i: nat)
    requires i < |msgs|
    ensures |CcrResult(msgs, c, org, digest).messages| == |msgs|
    ensures var m, out := msgs[i], CcrResult(msgs, c, org, digest).messages[i];
            && (LeftAlone(m) ==> out == m)
            && (!LeftAlone(m) ==>
                  out == match c.compress(m.content.value)
                         case None => m
                         case Some(text) =>
                           Message(m.role, Some(Text.RStrip(text, c.isSpace) + "\nref="
                                                + Ccr.Ref(org, digest(m.content.value)) + "\n")))
  {
    ArmsAgree(msgs, c, org, digest);
    MessageAgrees(msgs, c, org, digest, i);
    PlainArmOutcome(msgs, c, i);
  }

  /** One more message adds its length to the original characters, the length of what came of it to
      the compressed ones, and one to the messages touched when it was changed; a message that is
      left alone adds nothing. */
  lemma {:induction false} OneMoreIsCounted(msgs: seq<Message>, m: Message, c: Config, org: string, digest: Ccr.Digest)
    ensures OneMoreCounted(PlainResult(msgs, c), PlainResult(msgs + [m], c), m, c)
    ensures OneMoreCounted(CcrResult(msgs, c, org, digest), CcrResult(msgs + [m], c, org, digest), m, c)
    ensures PlainResult([], c).stats == CcrResult([], c, org, digest).stats == Stats(0, 0, 0, [])
    ensures !PlainResult([], c).compressed && !CcrResult([], c, org, digest).compressed
  {
    assert (msgs + [m])[..|msgs|] == msgs;
  }

  ghost predicate OneMoreCounted(before: Result, after: Result, m: Message, c: Config) {
    && |after.messages| == |before.messages| + 1
    && var out := after.messages[|before.messages|];
       if LeftAlone(m) then after.stats == before.stats && after.compressed == before.compressed
       else
         && out.content.Some?
         && after.stats.originalChars == before.stats.originalChars + |m.content.value|
         && after.stats.compressedChars == before.stats.compressedChars + |out.content.value|
         && (if c.compress(m.content.value) == None
             then after.stats.messagesTouched == before.stats.messagesTouched && after.compressed == before.compressed
             else after.stats.messagesTouched == before.stats.messagesTouched + 1 && after.compressed)
  }

  // ---- the two arms ----

  /** How many of the first messages were touched, which is where the next reference goes. */
  function TouchedBefore(msgs: seq<Message>, c: Config, i: nat): nat
    requires i <= |msgs|
  {
    if i == 0 then 0 else TouchedBefore(msgs, c, i - 1) + if Touched(msgs[i - 1], c) then 1 else 0
  }

  lemma {:induction false} TouchedBeforeInPrefix(msgs: seq<Message>, c: Config, n: nat, i: nat)
    requires i <= n <= |msgs|
    ensures TouchedBefore(msgs[..n], c, i) == TouchedBefore(msgs, c, i)
    decreases i
  {
    if i > 0 {
      TouchedBeforeInPrefix(msgs, c, n, i - 1);
    }
  }

  lemma {:induction false} ArmsCountAlike(msgs: seq<Message>, c: Config, org: string, digest: Ccr.Digest)
    ensures var p, r := PlainResult(msgs, c), CcrResult(msgs, c, org, digest);
            && |p.messages| == |r.messages| == |msgs|
            && p.compressed == r.compressed
            && p.stats.originalChars == r.stats.originalChars
            && p.stats.messagesTouched == r.stats.messagesTouched == |r.stats.refs| == TouchedBefore(msgs, c, |msgs|)
            && p.stats.refs == []
    decreases |msgs|
  {
    if msgs != [] {
      ArmsCountAlike(msgs[..|msgs| - 1], c, org, digest);
      TouchedBeforeInPrefix(msgs, c, |msgs| - 1, |msgs| - 1);
    }
  }

  /** The last message of a result agrees. */
  lemma {:induction false} LastAgrees(msgs: seq<Message>, c: Config, org: string, digest: Ccr.Digest)
    requires msgs != []
    ensures Agree(msgs, PlainResult(msgs, c), CcrResult(msgs, c, org, digest), c, org, digest, |msgs| - 1)
  {
    var n := |msgs| - 1;
    ArmsCountAlike(msgs[..n], c, org, digest);
    TouchedBeforeInPrefix(msgs, c, n, n);
  }

  /** What agreed before one more message still does. */
  lemma AgreeExtends(msgs: seq<Message>, p: Result, r: Result, c: Config, org: string, digest: Ccr.Digest,
                     i: nat, m: Message, out: Message, out': Message, refs: seq<string>)
    requires i < |msgs| - 1 && Agree(msgs[..|msgs| - 1], p, r, c, org, digest, i)
    ensures Agree(msgs, Extended(p, m, c, out, []), Extended(r, m, c, out', refs), c, org, digest, i)
  {
    TouchedBeforeInPrefix(msgs, c, |msgs| - 1, i);
  }

  lemma {:induction false} MessageAgrees(msgs: seq<Message>, c: Config, org: string, digest: Ccr.Digest, i: nat)
    requires i < |msgs|
    ensures Agree(msgs, PlainResult(msgs, c), CcrResult(msgs, c, org, digest), c, org, digest, i)
    decreases |msgs|
  {
    var init, n := msgs[..|msgs| - 1], |msgs| - 1;
    if i < n {
      MessageAgrees(init, c, org, digest, i);
      AgreeExtends(msgs, PlainResult(init, c), CcrResult(init, c, org, digest), c, org, digest, i, msgs[n],
                   PlainMessage(msgs[n], c), CcrMessage(msgs[n], c, org, digest), RefsOf(msgs[n], c, org, digest));
    } else {
      LastAgrees(msgs, c, org, digest);
    }
  }

  /** The arm with references changes exactly the messages the plain arm changes; a changed
      message differs from its plain form only in trailing whitespace and the reference
      line; both arms count alike, and there is one reference per touched message. */
  lemma {:induction false} ArmsAgree(msgs: seq<Message>, c: Config, org: string, digest: Ccr.Digest)
    ensures var p, r := PlainResult(msgs, c), CcrResult(msgs, c, org, digest);
            && |p.messages| == |r.messages| == |msgs|
            && p.compressed == r.compressed
            && p.stats.originalChars == r.stats.originalChars
            && p.stats.messagesTouched == r.stats.messagesTouched == |r.stats.refs| == TouchedBefore(msgs, c, |msgs|)
            && p.stats.refs == []
    ensures forall i :: 0 <= i < |msgs| ==>
              Agree(msgs, PlainResult(msgs, c), CcrResult(msgs, c, org, digest), c, org, digest, i)
  {
    ArmsCountAlike(msgs, c, org, digest);
    forall i | 0 <= i < |msgs|
      ensures Agree(msgs, PlainResult(msgs, c), CcrResult(msgs, c, org, digest), c, org, digest, i)
    {
      MessageAgrees(msgs, c, org, digest, i);
    }
  }

  ghost predicate Agree(msgs: seq<Message>, p: Result, r: Result, c: Config, org: string, digest: Ccr.Digest, i: nat)
    requires i < |msgs|
  {
    && i < |p.messages| && i < |r.messages|
    && (!Touched(msgs[i], c) ==> p.messages[i] == r.messages[i] == msgs[i])
    && (Touched(msgs[i], c) ==>
          var ref := RefFor(msgs[i], org, digest);
          && p.messages[i].role == r.messages[i].role == msgs[i].role
          && p.messages[i].content.Some?
          && r.messages[i].content == Some(WithRef(p.messages[i].content.value, ref, c))
          && TouchedBefore(msgs, c, i) < |r.stats.refs| && r.stats.refs[TouchedBefore(msgs, c, i)] == ref)
  }

  // ---- retrieving what was compressed away ----

  /** Later puts do not disturb an entry before it expires. */
  lemma {:induction false} LiveStaysLive(ttl: nat, history: seq<Ccr.PutCall>, more: seq<Ccr.PutCall>,
                                         digest: Ccr.Digest, t: int, key: string)
    requires forall i :: 0 <= i < |more| ==> more[i].now <= t
    requires Ccr.Live(Ccr.After(ttl, history, digest), t, key).Some?
    ensures Ccr.Live(Ccr.After(ttl, history + more, digest), t, key)
            == Ccr.Live(Ccr.After(ttl, history, digest), t, key)
    decreases |more|
  {
    if more == [] {
      assert history + more == history;
    } else {
      var init := more[..|more| - 1];
      LiveStaysLive(ttl, history, init, digest, t, key);
      assert (history + more)[..|history + more| - 1] == history + init;
    }
  }

  /** The puts of a call are its touched originals, in order, each at its own time. */
  lemma {:induction false} PutOfMessage(msgs: seq<Message>, c: Config, org: string, clock: nat -> int, i: nat)
    requires i < |msgs| && Touched(msgs[i], c)
    ensures TouchedBefore(msgs, c, i) < |PutsOf(msgs, c, org, clock)|
    ensures PutsOf(msgs, c, org, clock)[TouchedBefore(msgs, c, i)] == Ccr.PutCall(clock(i), org, msgs[i].content.value)
    decreases |msgs|
  {
    var n := |msgs| - 1;
    TouchedBeforeInPrefix(msgs, c, n, i);
    if i < n {
      PutOfMessage(msgs[..n], c, org, clock, i);
    } else {
      PutsAreCounted(msgs[..n], c, org, clock);
    }
  }

  lemma {:induction false} PutsAreCounted(msgs: seq<Message>, c: Config, org: string, clock: nat -> int)
    ensures |PutsOf(msgs, c, org, clock)| == TouchedBefore(msgs, c, |msgs|)
    decreases |msgs|
  {
    if msgs != [] {
      PutsAreCounted(msgs[..|msgs| - 1], c, org, clock);
      TouchedBeforeInPrefix(msgs, c, |msgs| - 1, |msgs| - 1);
    }
  }

  /** One call of the arm with references. */
  datatype Call = Call(msgs: seq<Message>, org: string, clock: nat -> int)

  /** Everything a run of calls puts into the store. */
  function PutsOfRun(calls: seq<Call>, c: Config): seq<Ccr.PutCall> {
    if calls == [] then []
    else
      var last := calls[|calls| - 1];
      PutsOfRun(calls[..|calls| - 1], c) + PutsOf(last.msgs, c, last.org, last.clock)
  }

  /** Place in the run of the put of message i of call j. */
  function PutIndex(calls: seq<Call>, c: Config, j: nat, i: nat): nat
    requires j < |calls| && i < |calls[j].msgs|
  {
    |PutsOfRun(calls[..j], c)| + TouchedBefore(calls[j].msgs, c, i)
  }

  lemma {:induction false} PutOfRun(calls: seq<Call>, c: Config, j: nat, i: nat)
    requires j < |calls| && i < |calls[j].msgs| && Touched(calls[j].msgs[i], c)
    ensures PutIndex(calls, c, j, i) < |PutsOfRun(calls, c)|
    ensures PutsOfRun(calls, c)[PutIndex(calls, c, j, i)]
            == Ccr.PutCall(calls[j].clock(i), calls[j].org, calls[j].msgs[i].content.value)
    decreases |calls|
  {
    var init, last := calls[..|calls| - 1], calls[|calls| - 1];
    if j < |init| {
      assert init[..j] == calls[..j];
      PutOfRun(init, c, j, i);
    } else {
      PutOfMessage(last.msgs, c, last.org, last.clock, i);
    }
  }

  /** The reference that call j hands out for its touched message i. */
  function RefHandedOut(call: Call, c: Config, digest: Ccr.Digest, i: nat): (r: Option<string>)
    requires i < |call.msgs|
  {
    var refs, n := CcrResult(call.msgs, c, call.org, digest).stats.refs, TouchedBefore(call.msgs, c, i);
    if n < |refs| then Some(refs[n]) else None
  }

  lemma HandedOutIsItsRef(call: Call, c: Config, digest: Ccr.Digest, i: nat)
    requires i < |call.msgs| && Touched(call.msgs[i], c)
    ensures RefHandedOut(call, c, digest, i) == Some(RefFor(call.msgs[i], call.org, digest))
  {
    MessageAgrees(call.msgs, c, call.org, digest, i);
  }

  /** Round trip, over any run of calls whose clock does not run backwards: every reference
      that was handed out retrieves the content its message had before, at a time t exactly
      while an entry stored under it lasts beyond t, and nothing afterwards. The entry it
      shared when it was handed out was stored by its own put or by an earlier one, and had
      not expired then. */
  lemma {:induction false} EveryEmittedRefRetrievesItsOriginal(calls: seq<Call>, c: Config, digest: Ccr.Digest,
                                                               ttl: nat, j: nat, i: nat, t: int)
    requires ttl > 0 && j < |calls| && i < |calls[j].msgs| && Touched(calls[j].msgs[i], c)
    requires Ccr.PlainScopes(PutsOfRun(calls, c)) && Ccr.NoCollision(PutsOfRun(calls, c), digest)
    requires Ccr.Ordered(PutsOfRun(calls, c))
    ensures RefHandedOut(calls[j], c, digest, i).Some?
    ensures var puts, ref := PutsOfRun(calls, c), RefHandedOut(calls[j], c, digest, i).value;
            var key := Ccr.Key(calls[j].org, ref);
            && Ccr.Get(Ccr.After(ttl, puts, digest), t, calls[j].org, ref)
               == (if Ccr.Served(ttl, puts, digest, key, t) then calls[j].msgs[i].content else None)
            && exists n :: 0 <= n <= PutIndex(calls, c, j, i) < |puts|
                 && Ccr.StoredUnder(ttl, puts, digest, key, calls[j].clock(i), n)
  {
    var puts, n := PutsOfRun(calls, c), PutIndex(calls, c, j, i);
    PutOfRun(calls, c, j, i);
    HandedOutIsItsRef(calls[j], c, digest, i);
    Ccr.RefLivesWithItsEntry(ttl, puts, digest, n, t);
    Ccr.SharesAnEntry(ttl, puts, digest, n);
  }
}
