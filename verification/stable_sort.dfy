/** Python's sorted(xs, key=key, reverse=True), on which every ranking in the
    repository is built: descending by key, equal keys in their original order. */
module StableSort {

  function Insert<T>(ranked: seq<T>, x: T, key: T -> real): (r: seq<T>)
    ensures |r| == |ranked| + 1 && multiset(r) == multiset(ranked) + multiset{x}
  {
    if ranked == [] then [x]
    else
      assert ranked == [ranked[0]] + ranked[1..];
      if key(ranked[0]) >= key(x) then [ranked[0]] + Insert(ranked[1..], x, key)
      else [x] + ranked
  }

  function SortDesc<T>(xs: seq<T>, key: T -> real): (r: seq<T>)
    ensures |r| == |xs| && multiset(r) == multiset(xs)
  {
    if xs == [] then []
    else
      var last := |xs| - 1;
      assert xs == xs[..last] + [xs[last]];
      Insert(SortDesc(xs[..last], key), xs[last], key)
  }

  /** xs[:k] */
  function Take<T>(xs: seq<T>, k: nat): seq<T> {
    if k < |xs| then xs[..k] else xs
  }

  function TopK<T>(xs: seq<T>, key: T -> real, k: nat): seq<T> {
    Take(SortDesc(xs, key), k)
  }

  function Filter<T(!new)>(xs: seq<T>, p: T -> bool): (r: seq<T>)
    ensures |r| <= |xs|
    ensures forall x :: x in r <==> x in xs && p(x)
  {
    if xs == [] then []
    else if p(xs[0]) then [xs[0]] + Filter(xs[1..], p)
    else Filter(xs[1..], p)
  }

  ghost predicate Descending<T>(xs: seq<T>, key: T -> real) {
    forall i, j :: 0 <= i < j < |xs| ==> key(xs[i]) >= key(xs[j])
  }

  lemma {:induction false} MembersOfInsert<T>(ranked: seq<T>, x: T, key: T -> real)
    ensures forall y :: y in Insert(ranked, x, key) ==> y == x || y in ranked
  {
    forall y | y in Insert(ranked, x, key) ensures y == x || y in ranked {
      assert y in multiset(Insert(ranked, x, key));
    }
  }

  lemma {:induction false} InsertDescends<T>(ranked: seq<T>, x: T, key: T -> real)
    requires Descending(ranked, key)
    ensures Descending(Insert(ranked, x, key), key)
    decreases |ranked|
  {
    if ranked != [] && key(ranked[0]) >= key(x) {
      InsertDescends(ranked[1..], x, key);
      MembersOfInsert(ranked[1..], x, key);
      DescendingCons(ranked[0], Insert(ranked[1..], x, key), key);
    } else {
      DescendingCons(x, ranked, key);
    }
  }

  lemma DescendingCons<T>(head: T, rest: seq<T>, key: T -> real)
    requires Descending(rest, key)
    requires forall y :: y in rest ==> key(head) >= key(y)
    ensures Descending([head] + rest, key)
  {
  }

  lemma {:induction false} SortDescends<T>(xs: seq<T>, key: T -> real)
    ensures Descending(SortDesc(xs, key), key)
    decreases |xs|
  {
    if xs != [] {
      SortDescends(xs[..|xs| - 1], key);
      InsertDescends(SortDesc(xs[..|xs| - 1], key), xs[|xs| - 1], key);
    }
  }

  // ---- stability ----

  lemma {:induction false} FilterAppends<T(!new)>(a: seq<T>, b: seq<T>, p: T -> bool)
    ensures Filter(a + b, p) == Filter(a, p) + Filter(b, p)
    decreases |a|
  {
    if a == [] {
      assert a + b == b;
    } else {
      FilterAppends(a[1..], b, p);
      assert (a + b)[1..] == a[1..] + b;
    }
  }

  lemma {:induction false} FilterIsEmpty<T(!new)>(xs: seq<T>, p: T -> bool)
    requires forall i :: 0 <= i < |xs| ==> !p(xs[i])
    ensures Filter(xs, p) == []
    decreases |xs|
  {
    if xs != [] {
      FilterIsEmpty(xs[1..], p);
    }
  }

  lemma {:induction false} InsertCommutesWithFilter<T(!new)>(ranked: seq<T>, x: T, key: T -> real, p: T -> bool)
    requires Descending(ranked, key)
    ensures Filter(Insert(ranked, x, key), p) ==
            if p(x) then Insert(Filter(ranked, p), x, key) else Filter(ranked, p)
    decreases |ranked|
  {
    if ranked == [] {
    } else if key(ranked[0]) >= key(x) {
      InsertCommutesWithFilter(ranked[1..], x, key, p);
      assert ([ranked[0]] + Insert(ranked[1..], x, key))[1..] == Insert(ranked[1..], x, key);
      assert ([ranked[0]] + Filter(ranked[1..], p))[1..] == Filter(ranked[1..], p);
    } else {
      assert ([x] + ranked)[1..] == ranked;
      var kept := Filter(ranked, p);
      if kept != [] {
        assert kept[0] in ranked;
      }
    }
  }

  lemma {:induction false} SortAppend<T>(init: seq<T>, last: T, key: T -> real)
    ensures SortDesc(init + [last], key) == Insert(SortDesc(init, key), last, key)
  {
    assert (init + [last])[..|init|] == init;
  }

  lemma {:induction false} FilterSnoc<T(!new)>(init: seq<T>, last: T, p: T -> bool)
    ensures Filter(init + [last], p) == if p(last) then Filter(init, p) + [last] else Filter(init, p)
  {
    FilterAppends(init, [last], p);
    assert [last][1..] == [];
  }

  /** Sorting and then dropping records is dropping them and then sorting. */
  lemma {:induction false} SortCommutesWithFilter<T(!new)>(xs: seq<T>, key: T -> real, p: T -> bool)
    ensures Filter(SortDesc(xs, key), p) == SortDesc(Filter(xs, p), key)
    decreases |xs|
  {
    if xs != [] {
      var init, last := xs[..|xs| - 1], xs[|xs| - 1];
      calc {
        Filter(SortDesc(xs, key), p);
        Filter(Insert(SortDesc(init, key), last, key), p);
        { SortDescends(init, key); InsertCommutesWithFilter(SortDesc(init, key), last, key, p); }
        if p(last) then Insert(Filter(SortDesc(init, key), p), last, key) else Filter(SortDesc(init, key), p);
        { SortCommutesWithFilter(init, key, p); }
        if p(last) then Insert(SortDesc(Filter(init, p), key), last, key) else SortDesc(Filter(init, p), key);
        { SortAppend(Filter(init, p), last, key); }
        SortDesc(if p(last) then Filter(init, p) + [last] else Filter(init, p), key);
        { FilterSnoc(init, last, p); assert init + [last] == xs; }
        SortDesc(Filter(xs, p), key);
      }
    }
  }

  lemma {:induction false} SortOfDescending<T>(xs: seq<T>, key: T -> real)
    requires Descending(xs, key)
    ensures SortDesc(xs, key) == xs
    decreases |xs|
  {
    if xs != [] {
      var init, last := xs[..|xs| - 1], xs[|xs| - 1];
      SortOfDescending(init, key);
      InsertLast(init, last, key);
    }
  }

  lemma {:induction false} InsertLast<T>(ranked: seq<T>, x: T, key: T -> real)
    requires forall i :: 0 <= i < |ranked| ==> key(ranked[i]) >= key(x)
    ensures Insert(ranked, x, key) == ranked + [x]
    decreases |ranked|
  {
    if ranked != [] {
      InsertLast(ranked[1..], x, key);
    }
  }

  function Tied<T(!new)>(xs: seq<T>, key: T -> real, v: real): (r: seq<T>)
    ensures forall x :: x in r <==> x in xs && key(x) == v
  {
    Filter(xs, x => key(x) == v)
  }

  /** Records with one key keep their order: the sort is stable. */
  lemma {:induction false} SortIsStable<T(!new)>(xs: seq<T>, key: T -> real, v: real)
    ensures Tied(SortDesc(xs, key), key, v) == Tied(xs, key, v)
  {
    var tied := Tied(xs, key, v);
    SortCommutesWithFilter(xs, key, x => key(x) == v);
    forall i, j | 0 <= i < j < |tied| ensures key(tied[i]) >= key(tied[j]) {
      assert tied[i] in tied && tied[j] in tied;
    }
    SortOfDescending(tied, key);
  }

  lemma HeadIsTied<T(!new)>(xs: seq<T>, key: T -> real)
    requires xs != []
    ensures xs[0] in Tied(xs, key, key(xs[0]))
  {
  }

  /** Descending and stable leaves only one possible answer, so SortDesc is that sort. */
  lemma {:induction false} StableSortIsUnique<T(!new)>(a: seq<T>, b: seq<T>, key: T -> real)
    requires Descending(a, key) && Descending(b, key)
    requires forall v :: Tied(a, key, v) == Tied(b, key, v)
    ensures a == b
    decreases |a|
  {
    if a != [] {
      HeadIsTied(a, key);
    }
    if b != [] {
      HeadIsTied(b, key);
    }
    if a != [] && b != [] {
      assert a[0] in Tied(b, key, key(a[0])) && b[0] in Tied(a, key, key(b[0]));
      assert key(a[0]) == key(b[0]);
      assert Tied(a, key, key(a[0]))[0] == a[0] && Tied(b, key, key(a[0]))[0] == b[0];
      forall v ensures Tied(a[1..], key, v) == Tied(b[1..], key, v) {
        assert Tied(a, key, v) == Tied(b, key, v);
        if key(a[0]) == v {
          assert Tied(a, key, v)[1..] == Tied(a[1..], key, v);
          assert Tied(b, key, v)[1..] == Tied(b[1..], key, v);
        }
      }
      StableSortIsUnique(a[1..], b[1..], key);
    }
  }

  // ---- two-stage top-k ----

  lemma {:induction false} InsertBeyondK<T>(ranked: seq<T>, x: T, key: T -> real, k: nat)
    ensures Take(Insert(ranked, x, key), k) == Take(Insert(Take(ranked, k), x, key), k)
    decreases |ranked|
  {
    if k == 0 || |ranked| <= k {
    } else {
      var cut := Take(ranked, k);
      assert cut[0] == ranked[0] && cut[1..] == Take(ranked[1..], k - 1);
      if key(ranked[0]) >= key(x) {
        InsertBeyondK(ranked[1..], x, key, k - 1);
        TakeCons(ranked[0], Insert(ranked[1..], x, key), k);
        TakeCons(ranked[0], Insert(cut[1..], x, key), k);
      } else {
        TakeCons(x, ranked, k);
        TakeCons(x, cut, k);
        assert Take(cut, k - 1) == Take(ranked, k - 1);
      }
    }
  }

  lemma TakeCons<T>(head: T, rest: seq<T>, k: nat)
    requires k > 0
    ensures Take([head] + rest, k) == [head] + Take(rest, k - 1)
  {
  }

  lemma SameTopAfterOneMore<T>(xs: seq<T>, ys: seq<T>, x: T, key: T -> real, k: nat)
    requires TopK(xs, key, k) == TopK(ys, key, k)
    ensures TopK(xs + [x], key, k) == TopK(ys + [x], key, k)
  {
    SortAppend(xs, x, key);
    SortAppend(ys, x, key);
    InsertBeyondK(SortDesc(xs, key), x, key, k);
    InsertBeyondK(SortDesc(ys, key), x, key, k);
  }

  /** Cutting A to its best k before W arrives loses nothing: the best k of the two
      together come out the same, ties included. */
  lemma {:induction false} TopKAbsorbs<T>(a: seq<T>, w: seq<T>, key: T -> real, k: nat)
    ensures TopK(TopK(a, key, k) + w, key, k) == TopK(a + w, key, k)
    decreases |w|
  {
    if w == [] {
      assert TopK(a, key, k) + w == TopK(a, key, k) && a + w == a;
      SortDescends(a, key);
      SortOfDescending(TopK(a, key, k), key);
    } else {
      var init, last := w[..|w| - 1], w[|w| - 1];
      TopKAbsorbs(a, init, key, k);
      assert a + w == (a + init) + [last];
      assert TopK(a, key, k) + w == (TopK(a, key, k) + init) + [last];
      SameTopAfterOneMore(TopK(a, key, k) + init, a + init, last, key, k);
    }
  }

  // ---- a cut by other means ----

  lemma {:induction false} FilterCounts<T(!new)>(xs: seq<T>, p: T -> bool, x: T)
    ensures multiset(Filter(xs, p))[x] == if p(x) then multiset(xs)[x] else 0
    decreases |xs|
  {
    if xs != [] {
      FilterCounts(xs[1..], p, x);
      assert xs == [xs[0]] + xs[1..];
    }
  }

  lemma {:induction false} SplitFilters<T(!new)>(xs: seq<T>, a: seq<T>, b: seq<T>, p: T -> bool)
    requires multiset(xs) == multiset(a) + multiset(b)
    ensures multiset(Filter(xs, p)) == multiset(Filter(a, p)) + multiset(Filter(b, p))
  {
    forall x: T ensures multiset(Filter(xs, p))[x] == multiset(Filter(a, p))[x] + multiset(Filter(b, p))[x] {
      FilterCounts(xs, p, x);
      FilterCounts(a, p, x);
      FilterCounts(b, p, x);
    }
  }

  /** No record that was left out beats one that was kept. */
  ghost predicate NoneOutranked<T>(kept: seq<T>, lost: seq<T>, key: T -> real) {
    forall x, y :: x in kept && y in lost ==> key(x) >= key(y)
  }

  /** Of the records of xs with one key, the first ones are kept, in their order. */
  ghost predicate TiesInOrder<T(!new)>(kept: seq<T>, xs: seq<T>, key: T -> real) {
    forall v :: Tied(kept, key, v) <= Tied(xs, key, v)
  }

  lemma NothingLostAbove<T(!new)>(xs: seq<T>, kept: seq<T>, lost: seq<T>, key: T -> real, x: T, v: real)
    requires multiset(xs) == multiset(kept) + multiset(lost)
    requires NoneOutranked(kept, lost, key) && TiesInOrder(kept, xs, key)
    requires x in kept && v > key(x)
    ensures Tied(kept, key, v) == Tied(xs, key, v)
  {
    SplitFilters(xs, kept, lost, y => key(y) == v);
    FilterIsEmpty(lost, y => key(y) == v);
    assert |multiset(Tied(xs, key, v))| == |multiset(Tied(kept, key, v))|;
    assert Tied(kept, key, v) <= Tied(xs, key, v);
  }

  /** Whatever beats a member of a has all its ties in a. */
  ghost predicate NoneMissingAbove<T(!new)>(a: seq<T>, b: seq<T>, key: T -> real) {
    forall x, v :: x in a && v > key(x) ==> Tied(a, key, v) == Tied(b, key, v)
  }

  /** A descending sequence is the beginning of another when its ties are and nothing of the
      other that beats one of its members is missing from it. */
  lemma {:induction false} SortedBeginning<T(!new)>(a: seq<T>, b: seq<T>, key: T -> real)
    requires Descending(a, key) && Descending(b, key)
    requires TiesInOrder(a, b, key) && NoneMissingAbove(a, b, key)
    ensures a <= b
    decreases |a|
  {
    if a != [] {
      SameHead(a, b, key);
      TailsMatch(a, b, key);
      SortedBeginning(a[1..], b[1..], key);
      assert a == [a[0]] + a[1..] && b == [b[0]] + b[1..];
    }
  }

  lemma TailsMatch<T(!new)>(a: seq<T>, b: seq<T>, key: T -> real)
    requires a != [] && b != [] && a[0] == b[0]
    requires TiesInOrder(a, b, key) && NoneMissingAbove(a, b, key)
    ensures TiesInOrder(a[1..], b[1..], key) && NoneMissingAbove(a[1..], b[1..], key)
  {
    forall w ensures Tied(a[1..], key, w) <= Tied(b[1..], key, w) {
      TieWithoutHead(a, b, key, w);
    }
    forall x, w | x in a[1..] && w > key(x) ensures Tied(a[1..], key, w) == Tied(b[1..], key, w) {
      assert x in a;
      TieWithoutHead(a, b, key, w);
    }
  }

  lemma HeadIsHighest<T>(a: seq<T>, key: T -> real, x: T)
    requires a != [] && Descending(a, key)
    ensures x in a ==> key(x) <= key(a[0])
  {
  }

  lemma SameHead<T(!new)>(a: seq<T>, b: seq<T>, key: T -> real)
    requires a != [] && Descending(a, key) && Descending(b, key)
    requires TiesInOrder(a, b, key) && NoneMissingAbove(a, b, key)
    ensures b != [] && a[0] == b[0]
  {
    var v := key(a[0]);
    HeadIsTied(a, key);
    assert Tied(a, key, v) <= Tied(b, key, v);
    assert Tied(b, key, v)[0] in b;
    HeadIsTied(b, key);
    var c, w := b[0], key(b[0]);
    assert w > v ==> Tied(a, key, w) == Tied(b, key, w);
    assert w > v ==> c in a;
    HeadIsHighest(a, key, c);
    assert w == v;
    assert Tied(a, key, v)[0] == a[0] && Tied(b, key, v)[0] == b[0];
  }

  lemma TieWithoutHead<T(!new)>(a: seq<T>, b: seq<T>, key: T -> real, v: real)
    requires a != [] && b != [] && a[0] == b[0] && Tied(a, key, v) <= Tied(b, key, v)
    ensures Tied(a[1..], key, v) <= Tied(b[1..], key, v)
    ensures Tied(a, key, v) == Tied(b, key, v) ==> Tied(a[1..], key, v) == Tied(b[1..], key, v)
  {
    if key(a[0]) == v {
      assert Tied(a, key, v)[1..] == Tied(a[1..], key, v);
      assert Tied(b, key, v)[1..] == Tied(b[1..], key, v);
    }
  }

  lemma BeginningHasTies<T(!new)>(a: seq<T>, b: seq<T>, key: T -> real)
    requires a <= b
    ensures TiesInOrder(a, b, key)
  {
    forall v ensures Tied(a, key, v) <= Tied(b, key, v) {
      assert b == a + b[|a|..];
      FilterAppends(a, b[|a|..], x => key(x) == v);
    }
  }

  lemma {:induction false} SortedTies<T(!new)>(a: seq<T>, b: seq<T>, key: T -> real)
    ensures TiesInOrder(SortDesc(a, key), SortDesc(b, key), key) <==> TiesInOrder(a, b, key)
  {
    forall v ensures Tied(SortDesc(a, key), key, v) == Tied(a, key, v)
             ensures Tied(SortDesc(b, key), key, v) == Tied(b, key, v)
    {
      SortIsStable(a, key, v);
      SortIsStable(b, key, v);
    }
  }

  lemma SameMembers<T>(a: seq<T>, b: seq<T>)
    requires multiset(a) == multiset(b)
    ensures forall x :: x in a <==> x in b
  {
    assert forall x :: x in a <==> x in multiset(a);
    assert forall x :: x in b <==> x in multiset(b);
  }

  lemma {:induction false} SortedKeptIsBeginning<T(!new)>(xs: seq<T>, kept: seq<T>, lost: seq<T>, key: T -> real)
    requires multiset(xs) == multiset(kept) + multiset(lost)
    requires NoneOutranked(kept, lost, key) && TiesInOrder(kept, xs, key)
    ensures SortDesc(kept, key) <= SortDesc(xs, key)
  {
    var a, b := SortDesc(kept, key), SortDesc(xs, key);
    SortDescends(kept, key);
    SortDescends(xs, key);
    SortedTies(kept, xs, key);
    SameMembers(a, kept);
    forall x, v | x in a && v > key(x) ensures Tied(a, key, v) == Tied(b, key, v) {
      NothingLostAbove(xs, kept, lost, key, x, v);
      SortIsStable(kept, key, v);
      SortIsStable(xs, key, v);
    }
    SortedBeginning(a, b, key);
  }

  lemma {:induction false} BeginningOutranks<T(!new)>(xs: seq<T>, kept: seq<T>, lost: seq<T>, key: T -> real)
    requires multiset(xs) == multiset(kept) + multiset(lost)
    requires SortDesc(kept, key) <= SortDesc(xs, key)
    ensures NoneOutranked(kept, lost, key)
  {
    var rest := SortDesc(xs, key)[|kept|..];
    SplitAt(SortDesc(xs, key), SortDesc(kept, key));
    SortedPartsOutrank(xs, SortDesc(kept, key), rest, kept, lost, key);
  }

  lemma SplitAt<T>(all: seq<T>, a: seq<T>)
    requires a <= all
    ensures all == a + all[|a|..]
  {
  }

  lemma {:induction false} SortedPartsOutrank<T(!new)>(xs: seq<T>, a: seq<T>, rest: seq<T>, kept: seq<T>,
                                                       lost: seq<T>, key: T -> real)
    requires a + rest == SortDesc(xs, key) && multiset(a) == multiset(kept)
    requires multiset(xs) == multiset(kept) + multiset(lost)
    ensures NoneOutranked(kept, lost, key)
  {
    RestIsLost(a, rest, kept, lost);
    DescendingParts(xs, a, rest, key);
    PartsOutrank(a, rest, kept, lost, key);
  }

  lemma {:induction false} DescendingParts<T>(xs: seq<T>, a: seq<T>, rest: seq<T>, key: T -> real)
    requires a + rest == SortDesc(xs, key)
    ensures Descending(a + rest, key)
  {
    SortDescends(xs, key);
  }

  lemma PartsOutrank<T(!new)>(a: seq<T>, rest: seq<T>, kept: seq<T>, lost: seq<T>, key: T -> real)
    requires Descending(a + rest, key) && multiset(a) == multiset(kept) && multiset(rest) == multiset(lost)
    ensures NoneOutranked(kept, lost, key)
  {
    SameMembers(a, kept);
    SameMembers(rest, lost);
    forall x, y | x in kept && y in lost ensures key(x) >= key(y) {
      EarlierIsHigher(a, rest, key, x, y);
    }
  }

  lemma RestIsLost<T>(a: seq<T>, rest: seq<T>, kept: seq<T>, lost: seq<T>)
    requires multiset(a + rest) == multiset(kept) + multiset(lost) && multiset(a) == multiset(kept)
    ensures multiset(rest) == multiset(lost)
  {
    assert multiset(a + rest) == multiset(a) + multiset(rest);
    assert multiset(rest) == multiset(a + rest) - multiset(a);
    assert multiset(lost) == multiset(a + rest) - multiset(kept);
  }

  lemma EarlierIsHigher<T>(a: seq<T>, rest: seq<T>, key: T -> real, x: T, y: T)
    requires Descending(a + rest, key) && x in a && y in rest
    ensures key(x) >= key(y)
  {
    var i :| 0 <= i < |a| && a[i] == x;
    var j :| 0 <= j < |rest| && rest[j] == y;
    assert (a + rest)[i] == x && (a + rest)[|a| + j] == y;
  }

  /** Keeping some records and sorting them is taking the best k of all of them exactly when
      as many are kept as there are to take, nothing left out beats anything kept, and ties
      are kept in order. */
  lemma {:induction false} SortedCutIsTopIff<T(!new)>(xs: seq<T>, kept: seq<T>, lost: seq<T>, key: T -> real, k: nat)
    requires multiset(xs) == multiset(kept) + multiset(lost) && |kept| <= k
    ensures SortDesc(kept, key) == TopK(xs, key, k) <==>
            (|kept| == k || lost == []) && NoneOutranked(kept, lost, key) && TiesInOrder(kept, xs, key)
  {
    assert |multiset(xs)| == |multiset(kept)| + |multiset(lost)|;
    if SortDesc(kept, key) == TopK(xs, key, k) {
      BeginningOutranks(xs, kept, lost, key);
      BeginningHasTies(SortDesc(kept, key), SortDesc(xs, key), key);
      SortedTies(kept, xs, key);
    }
    if NoneOutranked(kept, lost, key) && TiesInOrder(kept, xs, key) {
      SortedKeptIsBeginning(xs, kept, lost, key);
    }
  }
}
