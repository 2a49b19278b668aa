/** Data preparation of the chord diagram component: every edge is tagged
    with `value = 1`, the endpoint names are collected once each and sorted
    ascending, a name-to-position map is built, and an n-by-n matrix counts
    the edges, with rows indexed by target and columns by source. */
module ChordMatrix {
  import opened Wrappers

  /** One element of the component's `data` prop. */
  datatype Link = Link(source: string, target: string, value: Option<int>)

  // ---------------------------------------------------------------------
  // `d3.ascending` on strings: lexicographic order on the characters.
  // Dafny characters are Unicode scalar values, where JavaScript compares
  // UTF-16 code units; the two orders agree on text without characters
  // beyond U+FFFF.
  // ---------------------------------------------------------------------

  predicate Less(a: string, b: string)
    decreases |a|
  {
    |b| > 0 && (|a| == 0 || a[0] < b[0] || (a[0] == b[0] && Less(a[1..], b[1..])))
  }

  lemma {:induction false} LessIrreflexive(a: string)
    ensures !Less(a, a)
    decreases |a|
  {
    if |a| > 0 {
      LessIrreflexive(a[1..]);
    }
  }

  lemma {:induction false} LessTransitive(a: string, b: string, c: string)
    requires Less(a, b) && Less(b, c)
    ensures Less(a, c)
    decreases |a|
  {
    if |a| > 0 && a[0] == b[0] && b[0] == c[0] {
      LessTransitive(a[1..], b[1..], c[1..]);
    }
  }

  lemma {:induction false} LessTotal(a: string, b: string)
    requires a != b
    ensures Less(a, b) || Less(b, a)
    decreases |a|
  {
    if |a| > 0 && |b| > 0 && a[0] == b[0] {
      assert a == [a[0]] + a[1..] && b == [b[0]] + b[1..];
      LessTotal(a[1..], b[1..]);
    }
  }

  lemma LessAsymmetric(a: string, b: string)
    requires Less(a, b)
    ensures !Less(b, a)
  {
    if Less(b, a) {
      LessTransitive(a, b, a);
      LessIrreflexive(a);
    }
  }

  /** The elements of a list, as a set. */
  function Elems(s: seq<string>): (r: set<string>)
    ensures forall k :: k in r <==> k in s
  {
    set k | k in s
  }

  /** Strictly ascending, hence free of duplicates. */
  predicate Ascending(s: seq<string>) {
    forall i, j :: 0 <= i < j < |s| ==> Less(s[i], s[j])
  }

  lemma AscendingDistinct(s: seq<string>, i: int, j: int)
    requires Ascending(s) && 0 <= i < |s| && 0 <= j < |s| && i != j
    ensures s[i] != s[j]
  {
    if i < j { LessIrreflexive(s[i]); } else { LessIrreflexive(s[j]); }
  }

  // ---------------------------------------------------------------------
  // names
  // ---------------------------------------------------------------------

  /** `data.flatMap(d => [d.source, d.target])`. */
  function Endpoints(data: seq<Link>): (r: seq<string>)
    ensures |r| == 2 * |data|
    ensures forall i :: 0 <= i < |data| ==> r[2 * i] == data[i].source && r[2 * i + 1] == data[i].target
  {
    if data == [] then []
    else [data[0].source, data[0].target] + Endpoints(data[1..])
  }

  /** The set of names that occur as a source or a target. */
  ghost function NameSet(data: seq<Link>): set<string> {
    (set i | 0 <= i < |data| :: data[i].source)
    + (set i | 0 <= i < |data| :: data[i].target)
  }

  /** Adds `x` to an ascending list unless it is already there. */
  function Insert(x: string, s: seq<string>): (r: seq<string>)
    requires Ascending(s)
    ensures Ascending(r)
    ensures Elems(r) == Elems(s) + {x}
    decreases |s|
  {
    if s == [] then [x]
    else if x == s[0] then s
    else if Less(x, s[0]) then
      assert Ascending([x] + s) by {
        forall j | 0 < j < |s| ensures Less(x, s[j]) { LessTransitive(x, s[0], s[j]); }
      }
      [x] + s
    else
      LessTotal(x, s[0]);
      var t := Insert(x, s[1..]);
      assert forall k | k in t :: k == x || k in s[1..];
      assert forall j | 0 <= j < |t| :: Less(s[0], t[j]) by {
        forall j | 0 <= j < |t| ensures Less(s[0], t[j]) { assert t[j] in t; }
      }
      [s[0]] + t
  }

  /** `Array.from(new Set(xs)).sort(d3.ascending)`, computed by insertion. */
  function SortedDistinct(xs: seq<string>): (r: seq<string>)
    ensures Ascending(r)
    ensures Elems(r) == Elems(xs)
  {
    if xs == [] then []
    else
      var r := Insert(xs[|xs| - 1], SortedDistinct(xs[..|xs| - 1]));
      assert xs == xs[..|xs| - 1] + [xs[|xs| - 1]];
      r
  }

  /** Two ascending lists with the same elements are equal: the sorted
      list of names is the only one with those properties. */
  lemma {:induction false} AscendingUnique(s: seq<string>, t: seq<string>)
    requires Ascending(s) && Ascending(t)
    requires Elems(s) == Elems(t)
    ensures s == t
    decreases |s|
  {
    assert s == [] <==> t == [] by {
      if s != [] { assert s[0] in Elems(t); }
      if t != [] { assert t[0] in Elems(s); }
    }
    if s != [] {
      if s[0] != t[0] {
        assert t[0] in s;
        assert s[0] in t;
        var i :| 0 <= i < |s| && s[i] == t[0];
        var j :| 0 <= j < |t| && t[j] == s[0];
        assert i > 0 && j > 0;
        LessAsymmetric(s[0], s[i]);
        assert false;
      }
      forall k | k in s[1..] ensures k in t[1..] {
        var i :| 1 <= i < |s| && s[i] == k;
        assert k in t;
        LessIrreflexive(s[0]);
        AscendingDistinct(s, 0, i);
      }
      forall k | k in t[1..] ensures k in s[1..] {
        var j :| 1 <= j < |t| && t[j] == k;
        assert k in s;
        AscendingDistinct(t, 0, j);
      }
      assert Elems(s[1..]) == Elems(t[1..]);
      AscendingUnique(s[1..], t[1..]);
      assert s == [s[0]] + s[1..] && t == [t[0]] + t[1..];
    }
  }

  // ---------------------------------------------------------------------
  // index and matrix
  // ---------------------------------------------------------------------

  /** `new Map(names.map((name, i) => [name, i]))`. */
  function IndexOf(names: seq<string>): (index: map<string, nat>)
    requires Ascending(names)
    ensures index.Keys == Elems(names)
    ensures forall i :: 0 <= i < |names| ==> index[names[i]] == i
    ensures forall k :: k in index ==> index[k] < |names| && names[index[k]] == k
  {
    assert forall i, j :: 0 <= i < |names| && 0 <= j < |names| && names[i] == names[j] ==> i == j by {
      forall i, j | 0 <= i < |names| && 0 <= j < |names| && names[i] == names[j] ensures i == j {
        if i != j { AscendingDistinct(names, i, j); }
      }
    }
    map i | 0 <= i < |names| :: names[i] := i
  }

  /** Number of edges from `s` to `t`. */
  function Count(data: seq<Link>, s: string, t: string): nat {
    if data == [] then 0
    else Count(data[..|data| - 1], s, t) + (if data[|data| - 1].source == s && data[|data| - 1].target == t then 1 else 0)
  }

  function Sum(xs: seq<int>): int {
    if xs == [] then 0 else Sum(xs[..|xs| - 1]) + xs[|xs| - 1]
  }

  lemma {:induction false} SumUpdate(xs: seq<int>, i: int, v: int)
    requires 0 <= i < |xs|
    ensures Sum(xs[i := v]) == Sum(xs) - xs[i] + v
    decreases |xs|
  {
    var n := |xs| - 1;
    assert xs[i := v][..n] == if i < n then xs[..n][i := v] else xs[..n];
    if i < n {
      SumUpdate(xs[..n], i, v);
    }
  }

  function RowSums(m: seq<seq<int>>): (r: seq<int>)
    ensures |r| == |m|
    ensures forall i :: 0 <= i < |m| ==> r[i] == Sum(m[i])
  {
    seq(|m|, i requires 0 <= i < |m| => Sum(m[i]))
  }

  /** Sum of all cells of a matrix. */
  function Total(m: seq<seq<int>>): int {
    Sum(RowSums(m))
  }

  lemma BumpTotal(m: seq<seq<int>>, r: int, c: int)
    requires 0 <= r < |m| && 0 <= c < |m[r]|
    ensures Total(m[r := m[r][c := m[r][c] + 1]]) == Total(m) + 1
  {
    var m' := m[r := m[r][c := m[r][c] + 1]];
    SumUpdate(m[r], c, m[r][c] + 1);
    assert RowSums(m') == RowSums(m)[r := Sum(m[r]) + 1];
    SumUpdate(RowSums(m), r, Sum(m[r]) + 1);
  }

  lemma {:induction false} SumZeros(n: nat)
    ensures Sum(seq(n, _ => 0)) == 0
  {
    if n > 0 {
      assert seq(n, _ => 0)[..n - 1] == seq(n - 1, _ => 0);
      SumZeros(n - 1);
    }
  }

  lemma ZeroTotal(n: nat)
    ensures Total(seq(n, _ => seq(n, _ => 0))) == 0
  {
    SumZeros(n);
    assert RowSums(seq(n, _ => seq(n, _ => 0))) == seq(n, _ => 0);
    SumZeros(n);
  }

  predicate IsSquare(m: seq<seq<int>>, n: nat) {
    |m| == n && forall r :: 0 <= r < n ==> |m[r]| == n
  }

  /** The endpoint list of the tagged data names the same strings as the
      original data. */
  lemma EndpointNames(data: seq<Link>, tagged: seq<Link>)
    requires |tagged| == |data|
    requires forall i :: 0 <= i < |data| ==>
               tagged[i].source == data[i].source && tagged[i].target == data[i].target
    ensures Elems(Endpoints(tagged)) == NameSet(data)
  {
    var ends := Endpoints(tagged);
    forall k | k in ends ensures k in NameSet(data) {
      var p :| 0 <= p < |ends| && ends[p] == k;
      EndpointIsName(data, tagged, p);
    }
    forall k | k in NameSet(data) ensures k in ends {
      NameIsEndpoint(data, tagged, k);
    }
  }

  lemma EndpointIsName(data: seq<Link>, tagged: seq<Link>, p: nat)
    requires |tagged| == |data|
    requires forall i :: 0 <= i < |data| ==>
               tagged[i].source == data[i].source && tagged[i].target == data[i].target
    requires p < |Endpoints(tagged)|
    ensures Endpoints(tagged)[p] in NameSet(data)
  {
    var ends := Endpoints(tagged);
    var i := p / 2;
    if p % 2 == 0 {
      assert ends[2 * i] == data[i].source;
    } else {
      assert ends[2 * i + 1] == data[i].target;
    }
  }

  lemma NameIsEndpoint(data: seq<Link>, tagged: seq<Link>, k: string)
    requires |tagged| == |data|
    requires forall i :: 0 <= i < |data| ==>
               tagged[i].source == data[i].source && tagged[i].target == data[i].target
    requires k in NameSet(data)
    ensures k in Endpoints(tagged)
  {
    var ends := Endpoints(tagged);
    if i :| 0 <= i < |data| && data[i].source == k {
      assert ends[2 * i] == k;
    } else {
      var i :| 0 <= i < |data| && data[i].target == k;
      assert ends[2 * i + 1] == k;
    }
  }

  /** One loop step keeps every cell equal to its edge count. */
  lemma CountStep(data: seq<Link>, k: nat, names: seq<string>, m: seq<seq<int>>, t: nat, s: nat)
    requires k < |data| && Ascending(names)
    requires IsSquare(m, |names|)
    requires t < |names| && s < |names|
    requires names[t] == data[k].target && names[s] == data[k].source
    requires forall t', s' :: 0 <= t' < |names| && 0 <= s' < |names| ==>
               m[t'][s'] == Count(data[..k], names[s'], names[t'])
    ensures forall t', s' :: 0 <= t' < |names| && 0 <= s' < |names| ==>
              m[t := m[t][s := m[t][s] + 1]][t'][s'] == Count(data[..k + 1], names[s'], names[t'])
  {
    var n := |names|;
    assert data[..k + 1][..k] == data[..k];
    forall t', s' | 0 <= t' < n && 0 <= s' < n
      ensures m[t := m[t][s := m[t][s] + 1]][t'][s'] == Count(data[..k + 1], names[s'], names[t'])
    {
      if t' != t && names[t'] == data[k].target { AscendingDistinct(names, t, t'); }
      if s' != s && names[s'] == data[k].source { AscendingDistinct(names, s, s'); }
    }
  }

  /** The counting loop `matrix[index.get(target)][index.get(source)] += value`
      over edges whose value is 1. */
  /** The loop state after the first `k` edges: an n-by-n matrix whose
      cells count those edges and sum to `k`. */
  predicate Counted(m: seq<seq<int>>, data: seq<Link>, k: nat, names: seq<string>)
    requires k <= |data|
  {
    && IsSquare(m, |names|)
    && (forall t, s :: 0 <= t < |names| && 0 <= s < |names| ==>
          m[t][s] == Count(data[..k], names[s], names[t]))
    && Total(m) == k
  }

  /** `matrix[t][s] += v`. */
  function Add(m: seq<seq<int>>, t: nat, s: nat, v: int): seq<seq<int>>
    requires t < |m| && s < |m[t]|
  {
    m[t := m[t][s := m[t][s] + v]]
  }

  /** Counting edge `k` at the positions of its endpoints. */
  lemma CountedStep(data: seq<Link>, names: seq<string>, index: map<string, nat>, m: seq<seq<int>>, k: nat)
    requires k < |data| && Ascending(names)
    requires data[k].source in index && data[k].target in index
    requires forall x :: x in index ==> index[x] < |names| && names[index[x]] == x
    requires Counted(m, data, k, names)
    ensures var t, s := index[data[k].target], index[data[k].source];
            && t < |names| && s < |names| && t < |m| && s < |m[t]|
            && Counted(Add(m, t, s, 1), data, k + 1, names)
  {
    var t, s := index[data[k].target], index[data[k].source];
    BumpTotal(m, t, s);
    CountStep(data, k, names, m, t, s);
  }

  method CountEdges(data: seq<Link>, tagged: seq<Link>, names: seq<string>, index: map<string, nat>)
    returns (matrix: seq<seq<int>>)
    requires |tagged| == |data| && Ascending(names)
    requires forall i :: 0 <= i < |data| ==>
               tagged[i].source == data[i].source && tagged[i].target == data[i].target
               && tagged[i].value == Some(1)
    requires forall i :: 0 <= i < |data| ==> data[i].source in index && data[i].target in index
    requires forall k :: k in index ==> index[k] < |names| && names[index[k]] == k
    ensures IsSquare(matrix, |names|)
    ensures forall t, s :: 0 <= t < |names| && 0 <= s < |names| ==>
              matrix[t][s] == Count(data, names[s], names[t])
    ensures Total(matrix) == |data|
  {
    var n := |names|;
    matrix := seq(n, _ => seq(n, _ => 0));
    ZeroTotal(n);
    var k := 0;
    while k < |tagged|
      invariant 0 <= k <= |tagged|
      invariant Counted(matrix, data, k, names)
    {
      var e := tagged[k];
      CountedStep(data, names, index, matrix, k);
      var t, s := index[e.target], index[e.source];
      matrix := Add(matrix, t, s, e.value.value);
      k := k + 1;
    }
    assert data[..k] == data;
  }

  /** `data.map(x => { x["value"] = 1; return x })`. */
  function TagValues(data: seq<Link>): (tagged: seq<Link>)
    ensures |tagged| == |data|
    ensures forall i :: 0 <= i < |data| ==>
              tagged[i].source == data[i].source && tagged[i].target == data[i].target
              && tagged[i].value == Some(1)
  {
    seq(|data|, i requires 0 <= i < |data| => data[i].(value := Some(1)))
  }

  /** The whole data preparation of the component. `tagged` is the
      `data` array after every element got `value = 1`. */
  method Prepare(data: seq<Link>)
    returns (tagged: seq<Link>, names: seq<string>, index: map<string, nat>, matrix: seq<seq<int>>)
    ensures |tagged| == |data|
    ensures forall i :: 0 <= i < |data| ==>
              tagged[i].source == data[i].source && tagged[i].target == data[i].target
              && tagged[i].value == Some(1)
    ensures Ascending(names)
    ensures Elems(names) == NameSet(data)
    ensures index.Keys == NameSet(data)
    ensures forall i :: 0 <= i < |names| ==> index[names[i]] == i
    ensures IsSquare(matrix, |names|)
    ensures forall t, s :: 0 <= t < |names| && 0 <= s < |names| ==>
              matrix[t][s] == Count(data, names[s], names[t])
    ensures Total(matrix) == |data|
  {
    tagged := TagValues(data);
    names := SortedDistinct(Endpoints(tagged));
    EndpointNames(data, tagged);
    index := IndexOf(names);
    assert forall i :: 0 <= i < |data| ==> data[i].source in NameSet(data) && data[i].target in NameSet(data);
    matrix := CountEdges(data, tagged, names, index);
  }
}
