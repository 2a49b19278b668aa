/** The top-20 bitterness ranking shared by the chart scripts:
    every beer becomes `{name, value: ibu}`, entries whose `Number(value)`
    is falsy are dropped, the rest are sorted by the comparator
    `(a, b) => b.value - a.value` with the stable `Array.prototype.sort`,
    and the first 20 are kept. */
module Ranking {
  import opened Wrappers

  /** A beer as read from the data file: its name and its `ibu` field,
      a number or `null` (None). */
  datatype Beer = Beer(name: string, ibu: Option<real>)

  /** The mapped object `{name: beer.name, value: beer.ibu}`. */
  datatype Entry = Entry(name: string, value: Option<real>)

  const Limit: nat := 20

  /** The number used by the comparator's subtraction: `null` counts as 0. */
  function Key(e: Entry): real {
    if e.value.Some? then e.value.value else 0.0
  }

  /** `Number(x.value)` is truthy: a number other than 0 (`null` gives 0). */
  predicate Kept(e: Entry) {
    e.value.Some? && e.value.value != 0.0
  }

  function ToEntries(beers: seq<Beer>): (r: seq<Entry>)
    ensures |r| == |beers|
    ensures forall i :: 0 <= i < |beers| ==> r[i].name == beers[i].name && r[i].value == beers[i].ibu
  {
    seq(|beers|, i requires 0 <= i < |beers| => Entry(beers[i].name, beers[i].ibu))
  }

  /** `.filter(x => Number(x.value))`. */
  function KeepNumbers(xs: seq<Entry>): (r: seq<Entry>)
    ensures |r| <= |xs|
    ensures forall e :: e in r <==> e in xs && Kept(e)
    ensures multiset(r) <= multiset(xs)
  {
    if xs == [] then []
    else
      var rest := KeepNumbers(xs[..|xs| - 1]);
      var last := xs[|xs| - 1];
      assert xs == xs[..|xs| - 1] + [last];
      if Kept(last) then rest + [last] else rest
  }

  /** The filter works entry by entry: it distributes over concatenation,
      keeps a kept entry and drops any other. Together these fix it as
      every kept occurrence, in input order. */
  lemma {:induction false} KeepNumbersAppend(a: seq<Entry>, b: seq<Entry>)
    ensures KeepNumbers(a + b) == KeepNumbers(a) + KeepNumbers(b)
    ensures forall e :: KeepNumbers([e]) == if Kept(e) then [e] else []
    decreases |b|
  {
    if b == [] {
      assert a + b == a;
    } else {
      var init, last := b[..|b| - 1], b[|b| - 1];
      KeepNumbersAppend(a, init);
      KeepNumbersSnoc(a, init, last);
      SplitLast(b);
    }
    forall e ensures KeepNumbers([e]) == if Kept(e) then [e] else [] {
      KeepNumbersSingle(e);
    }
  }

  lemma KeepNumbersSingle(e: Entry)
    ensures KeepNumbers([e]) == if Kept(e) then [e] else []
  {
    assert [e][..0] == [];
  }

  /** One more entry at the end, given the law for the shorter input. */
  lemma KeepNumbersSnoc(a: seq<Entry>, init: seq<Entry>, last: Entry)
    requires KeepNumbers(a + init) == KeepNumbers(a) + KeepNumbers(init)
    ensures KeepNumbers(a + (init + [last])) == KeepNumbers(a) + KeepNumbers(init + [last])
  {
    var ka, ki := KeepNumbers(a), KeepNumbers(init);
    var tail := if Kept(last) then [last] else [];
    KeepNumbersLast(a + init, last);
    KeepNumbersLast(init, last);
    AppendAssoc(a, init, [last]);
    AppendAssoc(ka, ki, tail);
  }

  /** Counted per value: a kept entry appears as often as in the input,
      any other not at all. */
  lemma {:induction false} KeepNumbersCounts(xs: seq<Entry>)
    ensures forall e :: multiset(KeepNumbers(xs))[e] == if Kept(e) then multiset(xs)[e] else 0
    decreases |xs|
  {
    if xs != [] {
      var init, last := xs[..|xs| - 1], xs[|xs| - 1];
      KeepNumbersCounts(init);
      KeepNumbersLast(init, last);
      SplitLast(xs);
      assert multiset(xs) == multiset(init) + multiset{last};
    }
  }

  /** How the filter treats the last entry. */
  lemma KeepNumbersLast(init: seq<Entry>, last: Entry)
    ensures KeepNumbers(init + [last]) == KeepNumbers(init) + (if Kept(last) then [last] else [])
  {
    var xs := init + [last];
    assert xs[..|xs| - 1] == init;
  }

  predicate NonIncreasing(s: seq<Entry>) {
    forall i, j :: 0 <= i < j < |s| ==> Key(s[j]) <= Key(s[i])
  }

  /** The entries of `s` whose sort key is `v`, in order. */
  function WithKey(s: seq<Entry>, v: real): seq<Entry> {
    if s == [] then []
    else (if Key(s[0]) == v then [s[0]] else []) + WithKey(s[1..], v)
  }

  /** Places `x` after every entry whose key is at least its own: this
      is where a stable sort puts the latest of equal elements. */
  function Insert(x: Entry, s: seq<Entry>): (r: seq<Entry>)
    ensures multiset(r) == multiset(s) + multiset{x}
  {
    if s == [] then [x]
    else if Key(x) <= Key(s[0]) then
      assert s == [s[0]] + s[1..];
      [s[0]] + Insert(x, s[1..])
    else [x] + s
  }

  /** The stable descending sort, inserting the entries in input order. */
  function SortDescending(xs: seq<Entry>): (r: seq<Entry>)
    ensures multiset(r) == multiset(xs)
    ensures NonIncreasing(r)
  {
    if xs == [] then []
    else
      assert xs == xs[..|xs| - 1] + [xs[|xs| - 1]];
      InsertSorted(xs[|xs| - 1], SortDescending(xs[..|xs| - 1]));
      Insert(xs[|xs| - 1], SortDescending(xs[..|xs| - 1]))
  }

  lemma {:induction false} InsertSorted(x: Entry, s: seq<Entry>)
    requires NonIncreasing(s)
    ensures NonIncreasing(Insert(x, s))
  {
    if s != [] && Key(x) <= Key(s[0]) {
      var rest := Insert(x, s[1..]);
      InsertSorted(x, s[1..]);
      forall e | e in rest ensures Key(e) <= Key(s[0]) {
        assert e in multiset(rest);
        if e != x {
          assert e in multiset(s[1..]);
          var i :| 0 <= i < |s[1..]| && s[1..][i] == e;
          assert s[i + 1] == e;
        }
      }
      HeadAbove(s[0], rest);
    } else if s != [] {
      HeadAbove(x, s);
    }
  }

  /** Putting an entry that ranks at least as high as all of a sorted
      list in front of it keeps it sorted. */
  lemma HeadAbove(h: Entry, s: seq<Entry>)
    requires NonIncreasing(s)
    requires forall e :: e in s ==> Key(e) <= Key(h)
    ensures NonIncreasing([h] + s)
  {
    var r := [h] + s;
    forall i, j | 0 <= i < j < |r| ensures Key(r[j]) <= Key(r[i]) {
      assert r[j] == s[j - 1];
      if i > 0 {
        assert r[i] == s[i - 1];
      }
    }
  }

  function Take(s: seq<Entry>, n: nat): (r: seq<Entry>)
    ensures |r| == if |s| < n then |s| else n
    ensures r == s[..|r|]
  {
    if |s| <= n then s else s[..n]
  }

  /** The pipeline: map, filter, sort, slice(0, 20). */
  function Rank(beers: seq<Beer>): (r: seq<Entry>)
    ensures |r| <= Limit
    ensures |r| == if |KeepNumbers(ToEntries(beers))| < Limit then |KeepNumbers(ToEntries(beers))| else Limit
    ensures forall i :: 0 <= i < |r| ==> Kept(r[i])
    ensures NonIncreasing(r)
  {
    var kept := KeepNumbers(ToEntries(beers));
    SortKeepsKept(kept);
    Take(SortDescending(kept), Limit)
  }

  /** Sorting entries that all passed the filter yields only such
      entries. */
  lemma SortKeepsKept(xs: seq<Entry>)
    requires forall e :: e in xs ==> Kept(e)
    ensures forall i :: 0 <= i < |SortDescending(xs)| ==> Kept(SortDescending(xs)[i])
  {
    var sorted := SortDescending(xs);
    forall i | 0 <= i < |sorted| ensures Kept(sorted[i]) {
      assert sorted[i] in multiset(xs);
    }
  }

  // ---------------------------------------------------------------------
  // Stability
  // ---------------------------------------------------------------------

  lemma WithKeyAppend(a: seq<Entry>, b: seq<Entry>, v: real)
    ensures WithKey(a + b, v) == WithKey(a, v) + WithKey(b, v)
  {
    if a == [] {
      assert a + b == b;
    } else {
      assert (a + b)[0] == a[0];
      assert (a + b)[1..] == a[1..] + b;
      WithKeyAppend(a[1..], b, v);
      var head := if Key(a[0]) == v then [a[0]] else [];
      assert WithKey(a + b, v) == head + (WithKey(a[1..], v) + WithKey(b, v));
      assert WithKey(a, v) == head + WithKey(a[1..], v);
    }
  }

  lemma AppendAssoc(a: seq<Entry>, b: seq<Entry>, c: seq<Entry>)
    ensures a + (b + c) == (a + b) + c
  {
  }

  lemma WithKeyCons(h: Entry, t: seq<Entry>, v: real)
    ensures WithKey([h] + t, v) == (if Key(h) == v then [h] else []) + WithKey(t, v)
  {
    assert ([h] + t)[1..] == t;
  }

  /** Inserting below a strictly higher list adds `x` at the end of its
      key's entries. */
  lemma InsertAtFront(x: Entry, s: seq<Entry>, v: real)
    requires s != [] && Key(s[0]) < Key(x)
    requires NonIncreasing(s)
    ensures WithKey([x] + s, v) == WithKey(s, v) + (if Key(x) == v then [x] else [])
  {
    assert forall i :: 0 <= i < |s| ==> Key(s[i]) < Key(x);
    NoneWithKey(s, Key(x));
    WithKeyCons(x, s, v);
  }

  lemma {:induction false} WithKeyInsert(x: Entry, s: seq<Entry>, v: real)
    requires NonIncreasing(s)
    ensures WithKey(Insert(x, s), v) == WithKey(s, v) + (if Key(x) == v then [x] else [])
  {
    if s == [] {
    } else if Key(x) <= Key(s[0]) {
      var t := s[1..];
      var h := if Key(s[0]) == v then [s[0]] else [];
      var tail := if Key(x) == v then [x] else [];
      assert NonIncreasing(t);
      WithKeyInsert(x, t, v);
      assert Insert(x, s) == [s[0]] + Insert(x, t);
      WithKeyCons(s[0], Insert(x, t), v);
      assert WithKey(Insert(x, s), v) == h + (WithKey(t, v) + tail);
      assert WithKey(s, v) == h + WithKey(t, v);
      AppendAssoc(h, WithKey(t, v), tail);
    } else {
      InsertAtFront(x, s, v);
    }
  }

  lemma NoneWithKey(s: seq<Entry>, k: real)
    requires forall i :: 0 <= i < |s| ==> Key(s[i]) < k
    ensures WithKey(s, k) == []
  {
    if s != [] {
      NoneWithKey(s[1..], k);
    }
  }

  /** The sort is stable: for every key, the entries carrying it keep
      their input order. */
  lemma {:induction false} SortStable(xs: seq<Entry>, v: real)
    ensures WithKey(SortDescending(xs), v) == WithKey(xs, v)
  {
    if xs != [] {
      var init := xs[..|xs| - 1];
      var last := xs[|xs| - 1];
      SplitLast(xs);
      var sortedInit := SortDescending(init);
      assert SortDescending(xs) == Insert(last, sortedInit);
      SortStable(init, v);
      WithKeyInsert(last, sortedInit, v);
      WithKeyAppend(init, [last], v);
      assert WithKey([last], v) == (if Key(last) == v then [last] else []) + WithKey([], v);
    }
  }

  /** The ranking keeps ties in input order: for every key, its entries
      in the ranking are a prefix of the filtered entries with that key. */
  lemma RankKeepsTies(beers: seq<Beer>, v: real)
    ensures var ties := WithKey(KeepNumbers(ToEntries(beers)), v);
            var shown := WithKey(Rank(beers), v);
            |shown| <= |ties| && shown == ties[..|shown|]
  {
    var sorted := SortDescending(KeepNumbers(ToEntries(beers)));
    var r := Rank(beers);
    SortStable(KeepNumbers(ToEntries(beers)), v);
    assert sorted == r + sorted[|r|..];
    WithKeyAppend(r, sorted[|r|..], v);
  }

  lemma SplitLast<T>(xs: seq<T>)
    requires xs != []
    ensures xs == xs[..|xs| - 1] + [xs[|xs| - 1]]
  {
  }

  // ---------------------------------------------------------------------
  // Top-k and the x-scale domain
  // ---------------------------------------------------------------------

  /** What `slice(0, 20)` cuts off: the sorted entries past the limit. */
  function CutOff(beers: seq<Beer>): seq<Entry> {
    var sorted := SortDescending(KeepNumbers(ToEntries(beers)));
    if |sorted| <= Limit then [] else sorted[Limit..]
  }

  /** The kept entries and the cut-off ones together are exactly the
      entries that passed the filter, and no cut-off entry ranks above a
      kept one. */
  lemma TopK(beers: seq<Beer>)
    ensures multiset(Rank(beers)) + multiset(CutOff(beers)) == multiset(KeepNumbers(ToEntries(beers)))
    ensures forall c, k :: c in CutOff(beers) && k in Rank(beers) ==> Key(c) <= Key(k)
  {
    var sorted := SortDescending(KeepNumbers(ToEntries(beers)));
    SplitSorted(sorted, Rank(beers), CutOff(beers));
  }

  /** A sorted list cut into a head and a tail: together they hold its
      entries, and nothing in the tail ranks above the head. */
  lemma SplitSorted(sorted: seq<Entry>, head: seq<Entry>, tail: seq<Entry>)
    requires NonIncreasing(sorted) && sorted == head + tail
    ensures multiset(head) + multiset(tail) == multiset(sorted)
    ensures forall c, k :: c in tail && k in head ==> Key(c) <= Key(k)
  {
    forall c, k | c in tail && k in head ensures Key(c) <= Key(k) {
      var j :| 0 <= j < |tail| && tail[j] == c;
      var i :| 0 <= i < |head| && head[i] == k;
      assert sorted[|head| + j] == c && sorted[i] == k;
    }
  }

  /** `d3.scaleLinear().domain([0, ibu.at(0).value])`: reading `.value` of
      `undefined` throws on an empty ranking. */
  function XDomain(ranked: seq<Entry>): (r: Result<(real, real)>)
    ensures r.Err? <==> ranked == []
    ensures r.Ok? ==> r.value.0 == 0.0
    ensures r.Ok? && Kept(ranked[0]) ==> ranked[0].value == Some(r.value.1)
    ensures r.Ok? && NonIncreasing(ranked) ==> forall i :: 0 <= i < |ranked| ==> Key(ranked[i]) <= r.value.1
  {
    if ranked == [] then Err(TypeError("Cannot read properties of undefined (reading 'value')"))
    else Ok((0.0, Key(ranked[0])))
  }

  /** The domain's upper bound is the largest value of every beer that
      passed the filter, so no bar, shown or cut, exceeds it. */
  lemma XDomainIsMaximum(beers: seq<Beer>)
    requires Rank(beers) != []
    ensures XDomain(Rank(beers)).Ok?
    ensures forall e :: e in KeepNumbers(ToEntries(beers)) ==> Key(e) <= XDomain(Rank(beers)).value.1
  {
    var ranked := Rank(beers);
    var sorted := SortDescending(KeepNumbers(ToEntries(beers)));
    assert ranked[0] == sorted[0];
    forall e | e in KeepNumbers(ToEntries(beers)) ensures Key(e) <= Key(ranked[0]) {
      assert e in multiset(sorted);
      var i :| 0 <= i < |sorted| && sorted[i] == e;
    }
  }
}
