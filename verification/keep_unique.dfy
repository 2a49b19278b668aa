/** The `keepUnique(property)` reducer factory and its two uses: folded
    over every beer's hops with `reduce` (one shared seen-set for the
    whole fold), and passed to `Array.prototype.filter`, where the
    arguments it receives are `(element, index)` instead of
    `(accumulator, record)`. */
module UniqueReducer {
  import opened JsValues
  import opened Wrappers

  /** A JSON object such as a hop: its own properties. */
  type Record = map<string, Prim>

  /** `cur[property]` on an object: `undefined` when absent. */
  function Get(cur: Record, property: string): Prim {
    if property in cur then cur[property] else Undefined
  }

  /** The closure returned by `keepUnique(property)`: the property it reads
      and the contents of its private `uniqueSet`. */
  datatype Reducer = Reducer(property: string, seen: set<Prim>)

  /** `keepUnique(property)`: every call creates its own empty set. */
  function KeepUnique(property: string): (r: Reducer)
    ensures r.property == property && r.seen == {}
  {
    Reducer(property, {})
  }

  function Elems(s: seq<Prim>): (r: set<Prim>)
    ensures forall v :: v in r <==> v in s
  {
    set v | v in s
  }

  predicate NoDup(s: seq<Prim>) {
    forall i, j :: 0 <= i < j < |s| ==> s[i] != s[j]
  }

  /** One call `(acc, cur) => …` with an array accumulator. `Set.add`
      returns the set, an object and hence truthy, so the unseen branch
      always evaluates to `acc.concat(value)`; the value is a primitive,
      so `concat` appends exactly that one element. */
  function Step(red: Reducer, acc: seq<Prim>, cur: Record): (res: (Reducer, seq<Prim>))
    ensures res.0.property == red.property
    ensures red.seen <= res.0.seen
    ensures res.1 == acc || (|res.1| == |acc| + 1 && res.1[..|acc|] == acc)
    ensures Get(cur, red.property) in red.seen ==> res == (red, acc)
    ensures Get(cur, red.property) !in red.seen ==>
              res.1 == acc + [Get(cur, red.property)] && Get(cur, red.property) in res.0.seen
    ensures Elems(acc) == red.seen ==> Elems(res.1) == res.0.seen
    ensures Elems(acc) == red.seen && NoDup(acc) ==> NoDup(res.1)
  {
    var value := Get(cur, red.property);
    if value in red.seen then (red, acc)
    else (red.(seen := red.seen + {value}), acc + [value])
  }

  /** `records.reduce(red, acc)`. */
  function Reduce(red: Reducer, acc: seq<Prim>, records: seq<Record>): (Reducer, seq<Prim>) {
    if records == [] then (red, acc)
    else
      var (red', acc') := Reduce(red, acc, records[..|records| - 1]);
      Step(red', acc', records[|records| - 1])
  }

  /** The values the fold looks at: `records.map(x => x[property])`. */
  function Values(records: seq<Record>, property: string): (r: seq<Prim>)
    ensures |r| == |records|
    ensures forall i :: 0 <= i < |records| ==> r[i] == Get(records[i], property)
  {
    seq(|records|, i requires 0 <= i < |records| => Get(records[i], property))
  }

  /** Position of the first occurrence of `v`. */
  function FirstIndex(xs: seq<Prim>, v: Prim): (i: nat)
    requires v in xs
    ensures i < |xs| && xs[i] == v
    ensures forall j :: 0 <= j < i ==> xs[j] != v
  {
    if xs[0] == v then 0 else 1 + FirstIndex(xs[1..], v)
  }

  lemma FirstIndexPrefix(xs: seq<Prim>, k: nat, v: Prim)
    requires k <= |xs| && v in xs[..k]
    ensures FirstIndex(xs, v) == FirstIndex(xs[..k], v)
  {
    var i := FirstIndex(xs[..k], v);
    var j := FirstIndex(xs, v);
    assert xs[i] == v;
    assert xs[..k][j] == v by { assert j <= i; }
  }

  /** Reference meaning of order-preserving deduplication: `r` lists every
      value of `xs` exactly once, in the order of first occurrence. */
  ghost predicate FirstOccurrences(r: seq<Prim>, xs: seq<Prim>) {
    && NoDup(r)
    && Elems(r) == Elems(xs)
    && forall i, j :: 0 <= i < j < |r| ==> FirstIndex(xs, r[i]) < FirstIndex(xs, r[j])
  }

  /** One reducer step keeps the seen-set equal to the accumulator's
      elements and the accumulator the first-occurrence list. */
  lemma StepInvariant(red: Reducer, acc: seq<Prim>, xs: seq<Prim>, cur: Record)
    requires red.seen == Elems(acc) && FirstOccurrences(acc, xs)
    ensures Step(red, acc, cur).0.seen == Elems(Step(red, acc, cur).1)
    ensures FirstOccurrences(Step(red, acc, cur).1, xs + [Get(cur, red.property)])
  {
    var v := Get(cur, red.property);
    var xs' := xs + [v];
    var acc' := Step(red, acc, cur).1;
    assert xs'[..|xs|] == xs;
    forall w | w in acc ensures FirstIndex(xs', w) == FirstIndex(xs, w) {
      FirstIndexPrefix(xs', |xs|, w);
    }
    if v !in red.seen {
      assert FirstIndex(xs', v) == |xs|;
    }
    forall i, j | 0 <= i < j < |acc'|
      ensures FirstIndex(xs', acc'[i]) < FirstIndex(xs', acc'[j])
    {
      assert acc'[i] == acc[i] && acc[i] in acc;
      if j < |acc| {
        assert acc'[j] == acc[j] && acc[j] in acc;
      }
    }
    assert Elems(acc') == Elems(xs');
  }

  lemma ValuesSnoc(pre: seq<Prim>, records: seq<Record>, property: string)
    requires records != []
    ensures pre + Values(records, property)
         == pre + Values(records[..|records| - 1], property) + [Get(records[|records| - 1], property)]
  {
  }

  /** The fold invariant: the seen-set is exactly the accumulator's
      elements, and the accumulator is the first-occurrence list of all
      values visited so far. */
  lemma {:induction false} ReduceInvariant(red: Reducer, acc: seq<Prim>, pre: seq<Prim>, records: seq<Record>)
    requires red.seen == Elems(acc) && FirstOccurrences(acc, pre)
    ensures Reduce(red, acc, records).0.seen == Elems(Reduce(red, acc, records).1)
    ensures Reduce(red, acc, records).0.property == red.property
    ensures FirstOccurrences(Reduce(red, acc, records).1, pre + Values(records, red.property))
    decreases |records|
  {
    if records == [] {
      assert pre + Values(records, red.property) == pre;
    } else {
      var n := |records| - 1;
      ReduceInvariant(red, acc, pre, records[..n]);
      var mid := Reduce(red, acc, records[..n]);
      StepInvariant(mid.0, mid.1, pre + Values(records[..n], red.property), records[n]);
      ValuesSnoc(pre, records, red.property);
    }
  }

  // ---------------------------------------------------------------------
  // The nested fold of the reducing-arrays script
  // ---------------------------------------------------------------------

  /** A beer, reduced to `ingredients.hops`. */
  datatype Beer = Beer(hops: seq<Record>)

  /** `beers.reduce((acc, cur) => cur.ingredients.hops.reduce(red, acc), acc)`
      with a single reducer shared by every inner fold. */
  function ReduceBeers(red: Reducer, acc: seq<Prim>, beers: seq<Beer>): (Reducer, seq<Prim>) {
    if beers == [] then (red, acc)
    else
      var (red', acc') := ReduceBeers(red, acc, beers[..|beers| - 1]);
      Reduce(red', acc', beers[|beers| - 1].hops)
  }

  /** Every hop record of every beer, beers in order then hops in order. */
  function AllHops(beers: seq<Beer>): seq<Record> {
    if beers == [] then [] else AllHops(beers[..|beers| - 1]) + beers[|beers| - 1].hops
  }

  lemma {:induction false} ReduceAppend(red: Reducer, acc: seq<Prim>, a: seq<Record>, b: seq<Record>)
    ensures Reduce(red, acc, a + b) == Reduce(Reduce(red, acc, a).0, Reduce(red, acc, a).1, b)
    decreases |b|
  {
    if b == [] {
      assert a + b == a;
    } else {
      var n := |b| - 1;
      assert (a + b)[..|a + b| - 1] == a + b[..n];
      ReduceAppend(red, acc, a, b[..n]);
    }
  }

  lemma {:induction false} ReduceBeersFlat(red: Reducer, acc: seq<Prim>, beers: seq<Beer>)
    ensures ReduceBeers(red, acc, beers) == Reduce(red, acc, AllHops(beers))
    decreases |beers|
  {
    if beers != [] {
      var n := |beers| - 1;
      ReduceBeersFlat(red, acc, beers[..n]);
      ReduceAppend(red, acc, AllHops(beers[..n]), beers[n].hops);
    }
  }

  /** The script's `hops`, from the single `keepUniqueHops = keepUnique("name")`. */
  function Hops(beers: seq<Beer>): seq<Prim> {
    ReduceBeers(KeepUnique("name"), [], beers).1
  }

  /** The shared reducer's fold over all beers lists the hop names in
      order of first occurrence. */
  lemma HopsFold(beers: seq<Beer>)
    ensures FirstOccurrences(Hops(beers), Values(AllHops(beers), "name"))
  {
    var all := AllHops(beers);
    ReduceBeersFlat(KeepUnique("name"), [], beers);
    ReduceInvariant(KeepUnique("name"), [], [], all);
    assert [] + Values(all, "name") == Values(all, "name");
  }

  /** `hops` holds every hop name of every beer exactly once, in order of
      first occurrence across the beers. */
  lemma HopsAreFirstOccurrences(beers: seq<Beer>)
    ensures FirstOccurrences(Hops(beers), Values(AllHops(beers), "name"))
    ensures NoDup(Hops(beers))
    ensures forall b, h :: 0 <= b < |beers| && 0 <= h < |beers[b].hops| ==>
              Get(beers[b].hops[h], "name") in Hops(beers)
  {
    HopsFold(beers);
    var names := Values(AllHops(beers), "name");
    assert Elems(Hops(beers)) == Elems(names);
    forall b, h | 0 <= b < |beers| && 0 <= h < |beers[b].hops|
      ensures Get(beers[b].hops[h], "name") in Hops(beers)
    {
      AllHopsContains(beers, b, h);
      var k :| 0 <= k < |AllHops(beers)| && AllHops(beers)[k] == beers[b].hops[h];
      assert names[k] in Elems(names);
    }
  }

  lemma {:induction false} AllHopsContains(beers: seq<Beer>, b: int, h: int)
    requires 0 <= b < |beers| && 0 <= h < |beers[b].hops|
    ensures beers[b].hops[h] in AllHops(beers)
    decreases |beers|
  {
    var n := |beers| - 1;
    if b < n {
      AllHopsContains(beers[..n], b, h);
    } else {
      assert AllHops(beers) == AllHops(beers[..n]) + beers[n].hops;
      assert beers[n].hops[h] in beers[n].hops;
    }
  }

  // ---------------------------------------------------------------------
  // The same reducer used as a `filter` predicate
  // ---------------------------------------------------------------------

  /** `acc.concat(v)` when `acc` is a primitive: strings concatenate the
      string form of `v`; reading a property of `null` or `undefined`
      throws, and the other primitives have no `concat` method (the
      messages are V8's). */
  function ConcatOnPrimitive(acc: Prim, v: Prim): (r: Result<Prim>)
    ensures acc.Str? <==> r.Ok?
    ensures r.Ok? ==> r.value.Str? && r.value.s == acc.s + ToString(v)
    ensures acc.Null? ==> r == Err(TypeError("Cannot read properties of null (reading 'concat')"))
    ensures acc.Undefined? ==> r == Err(TypeError("Cannot read properties of undefined (reading 'concat')"))
    ensures (acc.Bool? || acc.Num?) ==> r == Err(TypeError("acc.concat is not a function"))
  {
    match acc
    case Str(s) => Ok(Str(s + ToString(v)))
    case Null => Err(TypeError("Cannot read properties of null (reading 'concat')"))
    case Undefined => Err(TypeError("Cannot read properties of undefined (reading 'concat')"))
    case _ => Err(TypeError("acc.concat is not a function"))
  }

  /** One call of the predicate by `filter`, as `(element, index)`: the
      element lands in `acc` and the index in `cur`. A number has no own
      data properties, so `cur[property]` is `undefined` for "name". */
  function FilterCall(red: Reducer, element: Prim, index: nat): (r: Result<(Reducer, Prim)>)
    ensures Undefined in red.seen ==> r == Ok((red, element))
    ensures Undefined !in red.seen ==>
              (element.Str? <==> r.Ok?) && (r.Ok? ==> Truthy(r.value.1) && r.value.0.seen == red.seen + {Undefined})
  {
    var value := Undefined;
    if value in red.seen then Ok((red, element))
    else
      var returned := ConcatOnPrimitive(element, value);
      if returned.Err? then Err(returned.error)
      else Ok((red.(seen := red.seen + {value}), returned.value))
  }

  /** `names.filter(red)`, starting at position `from` of the original
      array; an exception thrown by the predicate aborts the whole call. */
  function Filter(red: Reducer, names: seq<Prim>, from: nat): Result<seq<Prim>>
    decreases |names|
  {
    if names == [] then Ok([])
    else
      var call := FilterCall(red, names[0], from);
      if call.Err? then Err(call.error)
      else
        var rest := Filter(call.value.0, names[1..], from + 1);
        if rest.Err? then rest
        else Ok(if Truthy(call.value.1) then [names[0]] + rest.value else rest.value)
  }

  /** `beers.flatMap(x => x.ingredients.hops).map(x => x.name)`. */
  function HopNames(beers: seq<Beer>): seq<Prim> {
    Values(AllHops(beers), "name")
  }

  /** Reference filter: the truthy values of `xs`, in order. */
  function TruthyOnly(xs: seq<Prim>): (r: seq<Prim>)
    ensures forall v :: v in r ==> v in xs && Truthy(v)
  {
    if xs == [] then []
    else (if Truthy(xs[0]) then [xs[0]] else []) + TruthyOnly(xs[1..])
  }

  lemma {:induction false} FilterAfterFirst(red: Reducer, names: seq<Prim>, from: nat)
    requires Undefined in red.seen
    ensures Filter(red, names, from) == Ok(TruthyOnly(names))
    decreases |names|
  {
    if names != [] {
      var call := FilterCall(red, names[0], from);
      assert call.Ok? && call.value.0 == red && call.value.1 == names[0];
      FilterAfterFirst(red, names[1..], from + 1);
      var rest := Filter(red, names[1..], from + 1);
      assert rest == Ok(TruthyOnly(names[1..]));
      assert Filter(red, names, from) == Ok(if Truthy(names[0]) then [names[0]] + rest.value else rest.value);
      if Truthy(names[0]) {
        assert TruthyOnly(names) == [names[0]] + TruthyOnly(names[1..]);
      } else {
        assert TruthyOnly(names) == [] + TruthyOnly(names[1..]);
        assert [] + TruthyOnly(names[1..]) == TruthyOnly(names[1..]);
      }
    }
  }

  /** What the `filter` variant really computes: the first element is kept
      (the predicate returns `name + "undefined"`), every later element is
      returned as-is and so kept exactly when truthy; a first element that
      is not a string makes `concat` throw. */
  lemma FilterVariant(names: seq<Prim>)
    ensures names == [] ==> Filter(KeepUnique("name"), names, 0) == Ok([])
    ensures names != [] && names[0].Str? ==>
              Filter(KeepUnique("name"), names, 0) == Ok([names[0]] + TruthyOnly(names[1..]))
    ensures names != [] && !names[0].Str? ==> Filter(KeepUnique("name"), names, 0).Err?
  {
    if names != [] && names[0].Str? {
      var red' := KeepUnique("name").(seen := {Undefined});
      var call := FilterCall(KeepUnique("name"), names[0], 0);
      assert call.Ok? && call.value.0 == red' && call.value.1 == Str(names[0].s + "undefined");
      FilterAfterFirst(red', names[1..], 1);
    }
  }

  predicate NonEmptyStrings(xs: seq<Prim>) {
    forall i :: 0 <= i < |xs| ==> xs[i].Str? && xs[i].s != ""
  }

  lemma {:induction false} TruthyOnlyKeepsAll(xs: seq<Prim>)
    requires NonEmptyStrings(xs)
    ensures TruthyOnly(xs) == xs
    decreases |xs|
  {
    if xs != [] {
      TruthyOnlyKeepsAll(xs[1..]);
    }
  }

  /** For real hop names (non-empty strings) the `filter` variant returns
      its input unchanged, duplicates included. */
  lemma FilterIsIdentityOnNames(names: seq<Prim>)
    requires NonEmptyStrings(names)
    ensures Filter(KeepUnique("name"), names, 0) == Ok(names)
  {
    FilterVariant(names);
    if names != [] {
      TruthyOnlyKeepsAll(names[1..]);
      assert names == [names[0]] + names[1..];
    }
  }

  /** A beer list with a repeated hop name: the fold removes the repeat,
      the `filter` variant keeps it. */
  lemma FilterDoesNotDeduplicate()
    ensures var beers := [Beer([map["name" := Str("Simcoe")], map["name" := Str("Simcoe")]])];
            && Hops(beers) == [Str("Simcoe")]
            && Filter(KeepUnique("name"), HopNames(beers), 0) == Ok([Str("Simcoe"), Str("Simcoe")])
  {
    var beers := [Beer([map["name" := Str("Simcoe")], map["name" := Str("Simcoe")]])];
    assert AllHops(beers) == beers[0].hops by { assert beers[..0] == []; }
    var names := HopNames(beers);
    assert names == [Str("Simcoe"), Str("Simcoe")];
    FilterIsIdentityOnNames(names);
    ReduceBeersFlat(KeepUnique("name"), [], beers);
    var hops := beers[0].hops;
    assert hops[..1][..0] == [];
    assert hops[..|hops| - 1] == hops[..1];
  }
}
