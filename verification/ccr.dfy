/** Compress-cache-retrieve: the store of originals (src/teamshared/compress/ccr_store.py).
    The SHA-256 hex digest is given as a function; a clock value is passed in. */
module Ccr {
  import opened Wrappers
  import Text

  type Digest = string -> string

  datatype Entry = Entry(content: string, expiresAt: int)

  type Data = map<string, Entry>

  function Ref(org: string, digest: string): string {
    "ccr_" + Text.First(org, 8) + "_" + Text.First(digest, 16)
  }

  function Key(org: string, ref: string): string {
    "teamshared:ccr:" + org + ":" + ref
  }

  /** A Redis GET at this time: expired keys are gone. */
  function Live(data: Data, now: int, key: string): Option<string> {
    if key in data && now < data[key].expiresAt then Some(data[key].content) else None
  }

  /** put: an entry that is still live is left as it is, its expiry included. */
  function Put(data: Data, ttl: nat, now: int, org: string, content: string, digest: Digest): Data {
    var key := Key(org, Ref(org, digest(content)));
    if Live(data, now, key).Some? then data else data[key := Entry(content, now + ttl)]
  }

  function Get(data: Data, now: int, org: string, ref: string): Option<string> {
    if "ccr_" <= ref then Live(data, now, Key(org, ref)) else None
  }

  class CcrStore {
    const ttl: nat
    const digest: Digest
    var data: Data

    constructor (ttl: nat, digest: Digest)
      ensures this.ttl == ttl && this.digest == digest && data == map[]
    {
      this.ttl, this.digest, data := ttl, digest, map[];
    }

    method PutOriginal(now: int, org: string, content: string) returns (ref: string)
      modifies this
      ensures data == Put(old(data), ttl, now, org, content, digest)
      ensures ref == Ref(org, digest(content))
    {
      ref := Ref(org, digest(content));
      var key := Key(org, ref);
      if Live(data, now, key).Some? {
        return;
      }
      data := data[key := Entry(content, now + ttl)];
    }

    method Retrieve(now: int, org: string, ref: string) returns (content: Option<string>)
      ensures content == Get(data, now, org, ref)
    {
      if !("ccr_" <= ref) {
        return None;
      }
      content := Live(data, now, Key(org, ref));
    }
  }

  // ---- keys ----

  predicate PlainScope(org: string) {
    ':' !in org
  }

  /** Scopes without a colon, as UUIDs and "system" are, keep their keys apart. */
  lemma KeysAreApart(o: string, r: string, p: string, q: string)
    requires PlainScope(o) && PlainScope(p) && Key(o, r) == Key(p, q)
    ensures o == p && r == q
  {
    var k, l := Key(o, r), Key(p, q);
    assert k[15..] == o + ":" + r && l[15..] == p + ":" + q;
    var a, b := o + ":" + r, p + ":" + q;
    assert a == b && a[|o|] == ':' && b[|p|] == ':';
    assert forall i :: 0 <= i < |p| ==> b[i] == p[i] && p[i] != ':';
    assert forall i :: 0 <= i < |o| ==> a[i] == o[i] && o[i] != ':';
    assert |o| == |p|;
    assert a[..|o|] == o && b[..|p|] == p && a[|o| + 1..] == r && b[|p| + 1..] == q;
  }

  lemma SameRefSamePrefix(org: string, d: string, e: string)
    requires Ref(org, d) == Ref(org, e)
    ensures Text.First(d, 16) == Text.First(e, 16)
  {
    var n := |"ccr_" + Text.First(org, 8) + "_"|;
    assert Ref(org, d)[n..] == Text.First(d, 16) && Ref(org, e)[n..] == Text.First(e, 16);
  }

  /** A reference names eight characters of the scope and sixteen of the digest, and is kept
      under a key of the full scope; what does not look like a reference finds nothing. */
  lemma ShapeOfReferences(org: string, d: string, ref: string, data: Data, now: int)
    requires |org| >= 8 && |d| >= 16
    ensures |Ref(org, d)| == 29 && Ref(org, d)[..4] == "ccr_" && Ref(org, d)[4..12] == org[..8]
    ensures Ref(org, d)[12] == '_' && Ref(org, d)[13..] == d[..16]
    ensures |Key(org, ref)| == |org| + |ref| + 16 && Key(org, ref)[..15] == "teamshared:ccr:"
    ensures Key(org, ref)[15..15 + |org|] == org && Key(org, ref)[16 + |org|..] == ref
    ensures Get(data, now, org, ref)
            == if |ref| >= 4 && ref[..4] == "ccr_" && Key(org, ref) in data && now < data[Key(org, ref)].expiresAt
               then Some(data[Key(org, ref)].content) else None
  {
    assert Ref(org, d) == "ccr_" + org[..8] + "_" + d[..16];
  }

  /** Shorter scopes, such as "system", are named whole. */
  lemma ShortScopesAreNamedWhole(org: string, d: string)
    requires |org| < 8 && |d| >= 16
    ensures Ref(org, d) == "ccr_" + org + "_" + d[..16]
  {
  }

  // ---- one put ----

  /** A put leaves every key but its own alone, and that one too while its entry is alive, that is
      strictly before its expiry; otherwise the content is stored with a new lifetime. */
  lemma PutOutcome(data: Data, ttl: nat, now: int, org: string, content: string, digest: Digest, k: string)
    ensures var after, key := Put(data, ttl, now, org, content, digest), Key(org, Ref(org, digest(content)));
            && (k != key ==> (k in after <==> k in data) && (k in data ==> after[k] == data[k]))
            && (key in data && now < data[key].expiresAt ==> after == data)
            && (key !in data || now >= data[key].expiresAt ==> key in after && after[key] == Entry(content, now + ttl))
  {
  }

  /** What a reference returns later, when nothing else is put in between. */
  lemma PutThenGet(data: Data, ttl: nat, now: int, org: string, content: string, digest: Digest, t: int)
    requires t >= now
    ensures var ref := Ref(org, digest(content));
            Get(Put(data, ttl, now, org, content, digest), t, org, ref) ==
            match Live(data, now, Key(org, ref))
            case Some(earlier) => (if t < data[Key(org, ref)].expiresAt then Some(earlier) else None)
            case None => (if t < now + ttl then Some(content) else None)
  {
    var ref := Ref(org, digest(content));
    assert ref[..4] == "ccr_";
  }

  /** The reference serves its original for a full time-to-live exactly when there was no
      live entry under it, or one with this content that lives as long anyway: putting
      content again does not renew it. */
  lemma FullLifetimeIff(data: Data, ttl: nat, now: int, org: string, content: string, digest: Digest)
    requires ttl > 0
    ensures var ref := Ref(org, digest(content));
            (forall t :: now <= t < now + ttl ==>
               Get(Put(data, ttl, now, org, content, digest), t, org, ref) == Some(content))
            <==> (Live(data, now, Key(org, ref)).None?
                  || (Live(data, now, Key(org, ref)) == Some(content) && data[Key(org, ref)].expiresAt >= now + ttl))
  {
    var ref := Ref(org, digest(content));
    var after := Put(data, ttl, now, org, content, digest);
    forall t | now <= t ensures Get(after, t, org, ref) ==
      (if Live(data, now, Key(org, ref)).Some?
       then (if t < data[Key(org, ref)].expiresAt then Live(data, now, Key(org, ref)) else None)
       else (if t < now + ttl then Some(content) else None))
    {
      PutThenGet(data, ttl, now, org, content, digest, t);
    }
    var first, last := Get(after, now, org, ref), Get(after, now + ttl - 1, org, ref);
  }

  // ---- runs of puts ----

  datatype PutCall = PutCall(now: int, org: string, content: string)

  function After(ttl: nat, puts: seq<PutCall>, digest: Digest): Data {
    if puts == [] then map[]
    else
      var p := puts[|puts| - 1];
      Put(After(ttl, puts[..|puts| - 1], digest), ttl, p.now, p.org, p.content, digest)
  }

  function RefOf(p: PutCall, digest: Digest): string {
    Ref(p.org, digest(p.content))
  }

  /** Every stored entry is what some put of the run stored under its own key. */
  ghost predicate Sound(ttl: nat, puts: seq<PutCall>, digest: Digest, data: Data) {
    forall k :: k in data ==>
      exists i :: 0 <= i < |puts| && StoredBy(puts[i], ttl, digest, k, data[k])
  }

  ghost predicate StoredBy(p: PutCall, ttl: nat, digest: Digest, key: string, e: Entry) {
    key == Key(p.org, RefOf(p, digest)) && e == Entry(p.content, p.now + ttl)
  }

  lemma {:induction false} RunsAreSound(ttl: nat, puts: seq<PutCall>, digest: Digest)
    ensures Sound(ttl, puts, digest, After(ttl, puts, digest))
    decreases |puts|
  {
    if puts != [] {
      var init, last := puts[..|puts| - 1], puts[|puts| - 1];
      RunsAreSound(ttl, init, digest);
      var before, data := After(ttl, init, digest), After(ttl, puts, digest);
      forall k | k in data ensures exists i :: 0 <= i < |puts| && StoredBy(puts[i], ttl, digest, k, data[k]) {
        if k in before && data[k] == before[k] {
          var i :| 0 <= i < |init| && StoredBy(init[i], ttl, digest, k, before[k]);
          assert puts[i] == init[i];
        } else {
          assert StoredBy(puts[|init|], ttl, digest, k, data[k]);
        }
      }
    }
  }

  /** No two contents of the run share the sixteen digest characters a reference keeps. */
  ghost predicate NoCollision(puts: seq<PutCall>, digest: Digest) {
    forall i, j :: 0 <= i < |puts| && 0 <= j < |puts|
      && Text.First(digest(puts[i].content), 16) == Text.First(digest(puts[j].content), 16)
      ==> puts[i].content == puts[j].content
  }

  ghost predicate PlainScopes(puts: seq<PutCall>) {
    forall i :: 0 <= i < |puts| ==> PlainScope(puts[i].org)
  }

  /** Whatever a scope retrieves under a reference, that same scope once put it there. */
  lemma {:induction false} RetrievedWasPutByTheSameScope(ttl: nat, puts: seq<PutCall>, digest: Digest, t: int,
                                                         org: string, ref: string)
    requires PlainScopes(puts) && PlainScope(org)
    requires Get(After(ttl, puts, digest), t, org, ref).Some?
    ensures exists i :: 0 <= i < |puts| && puts[i].org == org && RefOf(puts[i], digest) == ref
                        && puts[i].content == Get(After(ttl, puts, digest), t, org, ref).value
                        && t < puts[i].now + ttl
  {
    var data, key := After(ttl, puts, digest), Key(org, ref);
    RunsAreSound(ttl, puts, digest);
    var i :| 0 <= i < |puts| && StoredBy(puts[i], ttl, digest, key, data[key]);
    KeysAreApart(org, ref, puts[i].org, RefOf(puts[i], digest));
  }

  /** A reference never returns anything but its original, in its own scope. */
  lemma {:induction false} ReferencesReturnTheirOriginals(ttl: nat, puts: seq<PutCall>, digest: Digest, i: nat, t: int)
    requires PlainScopes(puts) && NoCollision(puts, digest) && i < |puts|
    ensures var got := Get(After(ttl, puts, digest), t, puts[i].org, RefOf(puts[i], digest));
            got == None || got == Some(puts[i].content)
  {
    var p := puts[i];
    if Get(After(ttl, puts, digest), t, p.org, RefOf(p, digest)).Some? {
      RetrievedWasPutByTheSameScope(ttl, puts, digest, t, p.org, RefOf(p, digest));
      var j :| 0 <= j < |puts| && puts[j].org == p.org && RefOf(puts[j], digest) == RefOf(p, digest)
               && puts[j].content == Get(After(ttl, puts, digest), t, p.org, RefOf(p, digest)).value;
      SameRefSamePrefix(p.org, digest(puts[j].content), digest(p.content));
    }
  }

  /** Time does not run backwards. */
  ghost predicate Ordered(puts: seq<PutCall>) {
    forall i, j :: 0 <= i <= j < |puts| ==> puts[i].now <= puts[j].now
  }

  /** Put j stored a new entry under this key, found nothing live there, and it lasts beyond t. */
  ghost predicate StoredUnder(ttl: nat, puts: seq<PutCall>, digest: Digest, key: string, t: int, j: int)
    requires 0 <= j < |puts|
  {
    && Key(puts[j].org, RefOf(puts[j], digest)) == key
    && Live(After(ttl, puts[..j], digest), puts[j].now, key).None?
    && t < puts[j].now + ttl
  }

  ghost predicate Served(ttl: nat, puts: seq<PutCall>, digest: Digest, key: string, t: int) {
    exists j :: 0 <= j < |puts| && StoredUnder(ttl, puts, digest, key, t, j)
  }

  lemma ServedByPrefix(ttl: nat, puts: seq<PutCall>, digest: Digest, key: string, t: int)
    requires puts != []
    ensures Served(ttl, puts, digest, key, t) <==>
            Served(ttl, puts[..|puts| - 1], digest, key, t) || StoredUnder(ttl, puts, digest, key, t, |puts| - 1)
  {
    var init, n := puts[..|puts| - 1], |puts| - 1;
    forall j | 0 <= j < n
      ensures StoredUnder(ttl, init, digest, key, t, j) <==> StoredUnder(ttl, puts, digest, key, t, j)
    {
      assert init[..j] == puts[..j];
    }
  }

  /** A reference is good until the entry it shares expires, counted from the put that stored
      the entry and not from the latest one. */
  lemma {:induction false} ServedIffStoredRecently(ttl: nat, puts: seq<PutCall>, digest: Digest, key: string, t: int)
    requires Ordered(puts)
    ensures Live(After(ttl, puts, digest), t, key).Some? <==> Served(ttl, puts, digest, key, t)
    decreases |puts|
  {
    if puts != [] {
      var init, n := puts[..|puts| - 1], |puts| - 1;
      assert forall i :: 0 <= i < n ==> init[i] == puts[i];
      ServedIffStoredRecently(ttl, init, digest, key, t);
      ServedByPrefix(ttl, puts, digest, key, t);
      if Served(ttl, init, digest, key, t) {
        var j :| 0 <= j < n && StoredUnder(ttl, init, digest, key, t, j);
        assert init[j].now <= puts[n].now;
      }
    }
  }

  /** What the reference of put n returns from the store the run leaves: its original exactly
      while an entry stored under it lasts, and nothing otherwise. */
  lemma {:induction false} RefLivesWithItsEntry(ttl: nat, puts: seq<PutCall>, digest: Digest, n: nat, t: int)
    requires PlainScopes(puts) && NoCollision(puts, digest) && Ordered(puts) && n < |puts|
    ensures var p := puts[n];
            Get(After(ttl, puts, digest), t, p.org, RefOf(p, digest))
            == if Served(ttl, puts, digest, Key(p.org, RefOf(p, digest)), t) then Some(p.content) else None
  {
    var p := puts[n];
    ReferencesReturnTheirOriginals(ttl, puts, digest, n, t);
    ServedIffStoredRecently(ttl, puts, digest, Key(p.org, RefOf(p, digest)), t);
    assert RefOf(p, digest)[..4] == "ccr_";
  }

  /** The entry that put n shares: stored by itself or an earlier put, and alive at that time. */
  lemma SharesAnEntry(ttl: nat, puts: seq<PutCall>, digest: Digest, n: nat)
    requires ttl > 0 && Ordered(puts) && n < |puts|
    ensures exists m :: 0 <= m <= n
              && StoredUnder(ttl, puts, digest, Key(puts[n].org, RefOf(puts[n], digest)), puts[n].now, m)
  {
    var upto, key := puts[..n + 1], Key(puts[n].org, RefOf(puts[n], digest));
    OrderedPrefix(puts, n + 1);
    LiveOncePut(ttl, upto, digest);
    ServedIffStoredRecently(ttl, upto, digest, key, puts[n].now);
    var m :| 0 <= m < |upto| && StoredUnder(ttl, upto, digest, key, puts[n].now, m);
    StoredInRun(ttl, puts, digest, key, puts[n].now, n + 1, m);
  }

  lemma OrderedPrefix(puts: seq<PutCall>, n: nat)
    requires Ordered(puts) && n <= |puts|
    ensures Ordered(puts[..n])
  {
  }

  lemma {:induction false} LiveOncePut(ttl: nat, puts: seq<PutCall>, digest: Digest)
    requires ttl > 0 && puts != []
    ensures var p := puts[|puts| - 1];
            Live(After(ttl, puts, digest), p.now, Key(p.org, RefOf(p, digest))).Some?
  {
  }

  lemma StoredInRun(ttl: nat, puts: seq<PutCall>, digest: Digest, key: string, t: int, n: nat, m: nat)
    requires m < n <= |puts| && StoredUnder(ttl, puts[..n], digest, key, t, m)
    ensures StoredUnder(ttl, puts, digest, key, t, m)
  {
    assert puts[..n][..m] == puts[..m];
  }

  /** In particular a reference is good at the moment it is handed out. */
  lemma {:induction false} GoodWhenHandedOut(ttl: nat, puts: seq<PutCall>, digest: Digest)
    requires ttl > 0 && puts != [] && PlainScopes(puts) && NoCollision(puts, digest)
    ensures var p := puts[|puts| - 1];
            Get(After(ttl, puts, digest), p.now, p.org, RefOf(p, digest)) == Some(p.content)
  {
    var init, p := puts[..|puts| - 1], puts[|puts| - 1];
    ReferencesReturnTheirOriginals(ttl, puts, digest, |puts| - 1, p.now);
    PutThenGet(After(ttl, init, digest), ttl, p.now, p.org, p.content, digest, p.now);
  }

  /** Putting the same content again shortly before its entry expires hands out a reference
      that is dead one tick later. */
  lemma LatePutIsNotRenewed(ttl: nat, org: string, content: string, digest: Digest)
    requires ttl >= 2
    ensures var puts := [PutCall(0, org, content), PutCall(ttl - 1, org, content)];
            Get(After(ttl, puts, digest), ttl, org, Ref(org, digest(content))) == None
  {
    var puts := [PutCall(0, org, content), PutCall(ttl - 1, org, content)];
    assert puts[..1] == [PutCall(0, org, content)] && puts[..1][..0] == [];
    assert After(ttl, [], digest) == map[];
    var one := After(ttl, puts[..1], digest);
    assert one == Put(map[], ttl, 0, org, content, digest);
    PutThenGet(one, ttl, ttl - 1, org, content, digest, ttl);
  }
}
