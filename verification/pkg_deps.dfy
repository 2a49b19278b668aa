/** The npm dependency-tree builders. `getPkgDeps(name, version)` asks the
    registry for `<name>/<getSemVer(version)>`, echoes the requested name
    and version, and maps every entry of the manifest's `dependencies`
    to the recursively built subtree. The second variant also records
    every package as a node `{id, group}` (once per id, group = depth)
    and every parent-child request as a link `{source, target}`
    (repeats included). The registry is an abstract map; a cyclic
    registry would make the source recurse forever, which the model
    reports through an exhausted `fuel` budget. */
module PackageDeps {
  import opened Wrappers
  import JsValues
  import SemVer

  /** One entry of a manifest's `dependencies` object: name and range.
      A manifest parsed from JSON has each name at most once; the model
      does not need that, and nothing it proves depends on it. */
  type Entry = (string, string)

  /** The registry: what `GET /<name>/<tag>` answers, reduced to the
      `dependencies` field (None when the field is absent), together with
      the mapping from a requested version to the tag in the URL. A
      request the registry does not know gets a body without that field. */
  datatype Registry = Registry(manifests: map<(string, string), Option<seq<Entry>>>, tag: string -> string)

  /** The registry as both scripts query it: the tag is `getSemVer(version)`. */
  function Npm(manifests: map<(string, string), Option<seq<Entry>>>): (reg: Registry)
    ensures reg.manifests == manifests
    ensures forall v :: reg.tag(v) == SemVer.GetSemVer(v)
  {
    Registry(manifests, SemVer.GetSemVer)
  }

  function Lookup(manifests: map<(string, string), Option<seq<Entry>>>, key: (string, string)): Option<seq<Entry>> {
    if key in manifests then manifests[key] else None
  }

  /** The `dependencies` of the manifest a request for `name@version` gets. */
  function Fetch(reg: Registry, name: string, version: string): Option<seq<Entry>> {
    Lookup(reg.manifests, (name, reg.tag(version)))
  }

  /** A dependency range such as `^17.0.2` or `~1.0.0` is not a version:
      the scripts request, and build the subtree of, the latest release. */
  lemma RangeFetchesLatest(manifests: map<(string, string), Option<seq<Entry>>>, name: string, range: string)
    requires SemVer.NoLineTerminator(range)
    requires range == [] || !JsValues.IsDigit(range[0])
    ensures Fetch(Npm(manifests), name, range) == Lookup(manifests, (name, "latest"))
  {
    SemVer.NonDigitStartIsLatest(range);
  }

  /** An exact, well-formed version is requested as written. */
  lemma ExactVersionFetched(manifests: map<(string, string), Option<seq<Entry>>>, name: string, v: SemVer.Version)
    requires SemVer.WellFormed(v)
    ensures Fetch(Npm(manifests), name, SemVer.Format(v)) == Lookup(manifests, (name, SemVer.Format(v)))
  {
    SemVer.FormatAccepted(v);
  }

  /** The `dependencies` field of a tree node: left undefined, or an
      object from dependency names to subtrees (its entries in order). */
  datatype Deps = Absent | Present(entries: seq<Dep>)

  datatype Tree = Tree(name: string, version: string, dependencies: Deps)
  datatype Dep = Dep(key: string, tree: Tree)

  function Keys(deps: seq<Dep>): (ks: seq<string>)
    ensures |ks| == |deps|
    ensures forall i :: 0 <= i < |deps| ==> ks[i] == deps[i].key
  {
    seq(|deps|, i requires 0 <= i < |deps| => deps[i].key)
  }

  function EntryKeys(entries: seq<Entry>): (ks: seq<string>)
    ensures |ks| == |entries|
    ensures forall i :: 0 <= i < |entries| ==> ks[i] == entries[i].0
  {
    seq(|entries|, i requires 0 <= i < |entries| => entries[i].0)
  }

  // ---------------------------------------------------------------------
  // The tree builder of the async-recursion script
  // ---------------------------------------------------------------------

  /** `getPkgDeps(name, version)`; None when `fuel` runs out. */
  function Build(reg: Registry, name: string, version: string, fuel: nat): (r: Option<Tree>)
    ensures r.Some? ==> r.value.name == name && r.value.version == version
    ensures r.Some? ==> (r.value.dependencies.Absent? <==> Fetch(reg, name, version).None?)
    decreases fuel, 0
  {
    if fuel == 0 then None
    else
      var deps := Fetch(reg, name, version);
      if deps.None? then Some(Tree(name, version, Absent))
      else
        var kids := BuildAll(reg, deps.value, fuel - 1);
        if kids.None? then None else Some(Tree(name, version, Present(kids.value)))
  }

  /** `Object.fromEntries(entries.map(([k, v]) => [k, getPkgDeps(k, v)]))`,
      the concurrent requests taken in entry order. */
  function BuildAll(reg: Registry, entries: seq<Entry>, fuel: nat): (r: Option<seq<Dep>>)
    ensures r.Some? ==> |r.value| == |entries|
    decreases fuel, |entries|
  {
    if entries == [] then Some([])
    else
      var first := Build(reg, entries[0].0, entries[0].1, fuel);
      var rest := BuildAll(reg, entries[1..], fuel);
      if first.None? || rest.None? then None
      else Some([Dep(entries[0].0, first.value)] + rest.value)
  }

  /** The built object has the manifest's keys in order, and each value
      is the tree built for that key and version range. */
  lemma {:induction false} BuildAllEntries(reg: Registry, entries: seq<Entry>, fuel: nat)
    requires BuildAll(reg, entries, fuel).Some?
    ensures var kids := BuildAll(reg, entries, fuel).value;
            && Keys(kids) == EntryKeys(entries)
            && forall i :: 0 <= i < |entries| ==>
                 Build(reg, entries[i].0, entries[i].1, fuel) == Some(kids[i].tree)
    decreases |entries|
  {
    if entries != [] {
      var kids := BuildAll(reg, entries, fuel).value;
      var rest := BuildAll(reg, entries[1..], fuel).value;
      BuildAllEntries(reg, entries[1..], fuel);
      assert kids == [kids[0]] + rest;
      forall i | 1 <= i < |entries|
        ensures kids[i] == rest[i - 1] && entries[i] == entries[1..][i - 1]
      {
      }
      assert Keys(kids) == EntryKeys(entries);
    }
  }

  /** A built node echoes the request, is missing `dependencies` exactly
      when the registry reported none, and otherwise has exactly the
      registry's keys, in order. */
  lemma BuildKeys(reg: Registry, name: string, version: string, fuel: nat)
    requires Build(reg, name, version, fuel).Some?
    ensures var t := Build(reg, name, version, fuel).value;
            && t.name == name && t.version == version
            && (t.dependencies.Absent? <==> Fetch(reg, name, version).None?)
            && (t.dependencies.Present? ==>
                  Keys(t.dependencies.entries) == EntryKeys(Fetch(reg, name, version).value))
  {
    var deps := Fetch(reg, name, version);
    if deps.Some? {
      BuildAllEntries(reg, deps.value, fuel - 1);
    }
  }

  /** Fuel only bounds the recursion: once enough is given, more fuel
      builds the same tree. */
  lemma {:induction false} BuildMonotone(reg: Registry, name: string, version: string, fuel: nat, more: nat)
    requires Build(reg, name, version, fuel).Some? && fuel <= more
    ensures Build(reg, name, version, more) == Build(reg, name, version, fuel)
    decreases fuel, 0
  {
    var deps := Fetch(reg, name, version);
    if deps.Some? {
      BuildAllMonotone(reg, deps.value, fuel - 1, more - 1);
    }
  }

  lemma {:induction false} BuildAllMonotone(reg: Registry, entries: seq<Entry>, fuel: nat, more: nat)
    requires BuildAll(reg, entries, fuel).Some? && fuel <= more
    ensures BuildAll(reg, entries, more) == BuildAll(reg, entries, fuel)
    decreases fuel, |entries|
  {
    if entries != [] {
      BuildMonotone(reg, entries[0].0, entries[0].1, fuel, more);
      BuildAllMonotone(reg, entries[1..], fuel, more);
    }
  }

  /** No deduplication: the same request builds the same subtree wherever
      it occurs, whatever depth it is reached at. */
  lemma SameRequestSameSubtree(reg: Registry, name: string, version: string, f1: nat, f2: nat)
    requires Build(reg, name, version, f1).Some? && Build(reg, name, version, f2).Some?
    ensures Build(reg, name, version, f1) == Build(reg, name, version, f2)
  {
    if f1 <= f2 {
      BuildMonotone(reg, name, version, f1, f2);
    } else {
      BuildMonotone(reg, name, version, f2, f1);
    }
  }

  /** What the tree chart's `children` accessor returns:
      `typeof d.dependencies !== "undefined" && Object.values(d.dependencies)`. */
  datatype Children = False | Values(trees: seq<Tree>)

  function ChildrenOf(t: Tree): Children {
    if t.dependencies.Absent? then False
    else Values(seq(|t.dependencies.entries|, i requires 0 <= i < |t.dependencies.entries| => t.dependencies.entries[i].tree))
  }

  /** A built node is a leaf for the chart exactly when the registry
      reported no `dependencies`, and otherwise its children are the
      subtrees of the registry's entries, in order. */
  lemma ChildrenOfBuilt(reg: Registry, name: string, version: string, fuel: nat)
    requires Build(reg, name, version, fuel).Some?
    ensures var t := Build(reg, name, version, fuel).value;
            var deps := Fetch(reg, name, version);
            && (ChildrenOf(t).False? <==> deps.None?)
            && (deps.Some? ==>
                  && |ChildrenOf(t).trees| == |deps.value|
                  && forall i :: 0 <= i < |deps.value| ==>
                       Build(reg, deps.value[i].0, deps.value[i].1, fuel - 1) == Some(ChildrenOf(t).trees[i]))
  {
    var deps := Fetch(reg, name, version);
    if deps.Some? {
      BuildAllEntries(reg, deps.value, fuel - 1);
    }
  }

  // ---------------------------------------------------------------------
  // The builder with node and link bookkeeping (get-pkg-data)
  // ---------------------------------------------------------------------

  datatype Node = Node(id: string, group: nat)
  datatype Link = Link(source: string, target: string)
  datatype Graph = Graph(nodes: seq<Node>, links: seq<Link>)

  predicate UniqueIds(nodes: seq<Node>) {
    forall i, j :: 0 <= i < j < |nodes| ==> nodes[i].id != nodes[j].id
  }

  predicate HasId(nodes: seq<Node>, id: string) {
    exists i :: 0 <= i < |nodes| && nodes[i].id == id
  }

  /** A JavaScript string is truthy when it is not empty; `undefined` is
      falsy. */
  predicate TruthySource(source: Option<string>) {
    source.Some? && source.value != ""
  }

  /** The two pushes made right after the registry answered. */
  function Record(g: Graph, name: string, group: nat, source: Option<string>): (r: Graph)
    ensures HasId(r.nodes, name)
    ensures UniqueIds(g.nodes) ==> UniqueIds(r.nodes)
    ensures HasId(g.nodes, name) ==> r.nodes == g.nodes
    ensures !HasId(g.nodes, name) ==> r.nodes == g.nodes + [Node(name, group)]
    ensures TruthySource(source) ==> r.links == g.links + [Link(source.value, name)]
    ensures !TruthySource(source) ==> r.links == g.links
  {
    var nodes := if HasId(g.nodes, name) then g.nodes else g.nodes + [Node(name, group)];
    assert nodes[|nodes| - 1].id == name || HasId(g.nodes, name);
    var links := if TruthySource(source) then g.links + [Link(source.value, name)] else g.links;
    Graph(nodes, links)
  }

  ghost predicate IsPrefix<T>(a: seq<T>, b: seq<T>) {
    |a| <= |b| && b[..|a|] == a
  }

  /** `getPkgDeps(name, version, group, source)`, the requests made
      depth-first in entry order. */
  function BuildG(reg: Registry, name: string, version: string, group: nat, source: Option<string>,
                  g: Graph, fuel: nat): Option<(Tree, Graph)>
    decreases fuel, 0
  {
    if fuel == 0 then None
    else
      var deps := Fetch(reg, name, version);
      var g1 := Record(g, name, group, source);
      if deps.None? then Some((Tree(name, version, Absent), g1))
      else
        var kids := BuildAllG(reg, deps.value, group + 1, name, g1, fuel - 1);
        if kids.None? then None
        else Some((Tree(name, version, Present(kids.value.0)), kids.value.1))
  }

  function BuildAllG(reg: Registry, entries: seq<Entry>, group: nat, parent: string,
                     g: Graph, fuel: nat): Option<(seq<Dep>, Graph)>
    decreases fuel, |entries|
  {
    if entries == [] then Some(([], g))
    else
      var first := BuildG(reg, entries[0].0, entries[0].1, group, Some(parent), g, fuel);
      if first.None? then None
      else
        var rest := BuildAllG(reg, entries[1..], group, parent, first.value.1, fuel);
        if rest.None? then None
        else Some(([Dep(entries[0].0, first.value.0)] + rest.value.0, rest.value.1))
  }

  /** The bookkeeping does not change the tree: it is the one the plain
      builder returns. */
  lemma {:induction false} BuildGAgrees(reg: Registry, name: string, version: string, group: nat,
                                        source: Option<string>, g: Graph, fuel: nat)
    requires BuildG(reg, name, version, group, source, g, fuel).Some?
    ensures Build(reg, name, version, fuel) == Some(BuildG(reg, name, version, group, source, g, fuel).value.0)
    decreases fuel, 0
  {
    var deps := Fetch(reg, name, version);
    if deps.Some? {
      BuildAllGAgrees(reg, deps.value, group + 1, name, Record(g, name, group, source), fuel - 1);
    }
  }

  lemma {:induction false} BuildAllGAgrees(reg: Registry, entries: seq<Entry>, group: nat, parent: string,
                                           g: Graph, fuel: nat)
    requires BuildAllG(reg, entries, group, parent, g, fuel).Some?
    ensures BuildAll(reg, entries, fuel) == Some(BuildAllG(reg, entries, group, parent, g, fuel).value.0)
    decreases fuel, |entries|
  {
    if entries != [] {
      var first := BuildG(reg, entries[0].0, entries[0].1, group, Some(parent), g, fuel).value;
      BuildGAgrees(reg, entries[0].0, entries[0].1, group, Some(parent), g, fuel);
      BuildAllGAgrees(reg, entries[1..], group, parent, first.1, fuel);
    }
  }

  // ---------------------------------------------------------------------
  // Reference definitions over the finished tree
  // ---------------------------------------------------------------------

  /** The links a call for `t` pushes, in push order: its own link to
      `source` when that is truthy, then those of its subtrees, each of
      which has `t.name` as source. */
  function LinkSeq(t: Tree, source: Option<string>): seq<Link>
    decreases t, 1
  {
    (if TruthySource(source) then [Link(source.value, t.name)] else [])
    + (if t.dependencies.Absent? then [] else LinkSeqAll(t.dependencies.entries, t.name))
  }

  function LinkSeqAll(ds: seq<Dep>, parent: string): seq<Link>
    decreases ds, 0
  {
    if ds == [] then [] else LinkSeq(ds[0].tree, Some(parent)) + LinkSeqAll(ds[1..], parent)
  }

  /** Number of nodes of a tree, repeats included. */
  function Size(t: Tree): nat
    decreases t, 1
  {
    1 + (if t.dependencies.Absent? then 0 else SizeAll(t.dependencies.entries))
  }

  function SizeAll(ds: seq<Dep>): nat
    decreases ds, 0
  {
    if ds == [] then 0 else Size(ds[0].tree) + SizeAll(ds[1..])
  }

  predicate Named(t: Tree)
    decreases t, 1
  {
    t.name != "" && (t.dependencies.Present? ==> NamedAll(t.dependencies.entries))
  }

  predicate NamedAll(ds: seq<Dep>)
    decreases ds, 0
  {
    ds != [] ==> Named(ds[0].tree) && NamedAll(ds[1..])
  }

  /** `id` names a node of `t` at depth `d` below its root. */
  predicate AtDepth(t: Tree, id: string, d: nat)
    decreases t, 1
  {
    if d == 0 then t.name == id
    else t.dependencies.Present? && AtDepthAll(t.dependencies.entries, id, d - 1)
  }

  predicate AtDepthAll(ds: seq<Dep>, id: string, d: nat)
    decreases ds, 0
  {
    ds != [] && (AtDepth(ds[0].tree, id, d) || AtDepthAll(ds[1..], id, d))
  }

  /** One step of `BuildG`: record the package, then build the children
      from the updated graph. */
  lemma BuildGStep(reg: Registry, name: string, version: string, group: nat,
                   source: Option<string>, g: Graph, fuel: nat)
    requires BuildG(reg, name, version, group, source, g, fuel).Some?
    ensures fuel > 0
    ensures var deps := Fetch(reg, name, version);
            var g1 := Record(g, name, group, source);
            var res := BuildG(reg, name, version, group, source, g, fuel).value;
            && (deps.None? ==> res == (Tree(name, version, Absent), g1))
            && (deps.Some? ==>
                  && BuildAllG(reg, deps.value, group + 1, name, g1, fuel - 1).Some?
                  && var kids := BuildAllG(reg, deps.value, group + 1, name, g1, fuel - 1).value;
                     res == (Tree(name, version, Present(kids.0)), kids.1))
  {
  }

  /** The links pushed by a call are exactly the tree's parent-child
      pairs in depth-first order, plus the call's own link when its
      source is truthy: a repeated package is linked again each time. */
  lemma {:induction false} LinksPushed(reg: Registry, name: string, version: string, group: nat,
                                       source: Option<string>, g: Graph, fuel: nat)
    requires BuildG(reg, name, version, group, source, g, fuel).Some?
    ensures var res := BuildG(reg, name, version, group, source, g, fuel).value;
            res.1.links == g.links + LinkSeq(res.0, source)
    decreases fuel, 0
  {
    var deps := Fetch(reg, name, version);
    var g1 := Record(g, name, group, source);
    var own := if TruthySource(source) then [Link(source.value, name)] else [];
    assert g1.links == g.links + own;
    var res := BuildG(reg, name, version, group, source, g, fuel).value;
    BuildGStep(reg, name, version, group, source, g, fuel);
    if deps.None? {
      assert LinkSeq(res.0, source) == own + [];
    } else {
      var kids := BuildAllG(reg, deps.value, group + 1, name, g1, fuel - 1).value;
      LinksPushedAll(reg, deps.value, group + 1, name, g1, fuel - 1);
      var below := LinkSeqAll(kids.0, name);
      assert LinkSeq(res.0, source) == own + below;
      AppendAssoc(g.links, own, below);
    }
  }

  lemma {:induction false} LinksPushedAll(reg: Registry, entries: seq<Entry>, group: nat, parent: string,
                                          g: Graph, fuel: nat)
    requires BuildAllG(reg, entries, group, parent, g, fuel).Some?
    ensures var res := BuildAllG(reg, entries, group, parent, g, fuel).value;
            res.1.links == g.links + LinkSeqAll(res.0, parent)
    decreases fuel, |entries|
  {
    if entries != [] {
      var first := BuildG(reg, entries[0].0, entries[0].1, group, Some(parent), g, fuel).value;
      var rest := BuildAllG(reg, entries[1..], group, parent, first.1, fuel).value;
      LinksPushed(reg, entries[0].0, entries[0].1, group, Some(parent), g, fuel);
      LinksPushedAll(reg, entries[1..], group, parent, first.1, fuel);
      LinkSeqAllCons(Dep(entries[0].0, first.0), rest.0, parent);
      AppendAssoc(g.links, LinkSeq(first.0, Some(parent)), LinkSeqAll(rest.0, parent));
    }
  }

  lemma LinkSeqAllCons(d: Dep, ds: seq<Dep>, parent: string)
    ensures LinkSeqAll([d] + ds, parent) == LinkSeq(d.tree, Some(parent)) + LinkSeqAll(ds, parent)
  {
    assert ([d] + ds)[1..] == ds;
  }

  lemma AppendAssoc<T>(a: seq<T>, b: seq<T>, c: seq<T>)
    ensures (a + b) + c == a + (b + c)
  {
  }

  /** With every package named, the root call (no source) pushes one link
      per node other than the root. */
  lemma {:induction false} LinkCount(t: Tree, source: Option<string>)
    requires Named(t)
    ensures |LinkSeq(t, source)| == Size(t) - 1 + (if TruthySource(source) then 1 else 0)
    decreases t, 1
  {
    if t.dependencies.Present? {
      LinkCountAll(t.dependencies.entries, t.name);
    }
  }

  lemma {:induction false} LinkCountAll(ds: seq<Dep>, parent: string)
    requires NamedAll(ds) && parent != ""
    ensures |LinkSeqAll(ds, parent)| == SizeAll(ds)
    decreases ds, 0
  {
    if ds != [] {
      LinkCount(ds[0].tree, Some(parent));
      LinkCountAll(ds[1..], parent);
    }
  }

  /** The node list only grows: nodes already recorded keep their place
      and group, the requested package is recorded, and ids stay unique. */
  lemma {:induction false} NodesGrow(reg: Registry, name: string, version: string, group: nat,
                                     source: Option<string>, g: Graph, fuel: nat)
    requires BuildG(reg, name, version, group, source, g, fuel).Some?
    ensures var r := BuildG(reg, name, version, group, source, g, fuel).value.1;
            && IsPrefix(g.nodes, r.nodes)
            && HasId(r.nodes, name)
            && (UniqueIds(g.nodes) ==> UniqueIds(r.nodes))
    decreases fuel, 0
  {
    var deps := Fetch(reg, name, version);
    var g1 := Record(g, name, group, source);
    assert IsPrefix(g.nodes, g1.nodes);
    if deps.Some? {
      NodesGrowAll(reg, deps.value, group + 1, name, g1, fuel - 1);
      var r := BuildAllG(reg, deps.value, group + 1, name, g1, fuel - 1).value.1;
      PrefixTrans(g.nodes, g1.nodes, r.nodes);
      HasIdPrefix(g1.nodes, r.nodes, name);
    }
  }

  lemma {:induction false} NodesGrowAll(reg: Registry, entries: seq<Entry>, group: nat, parent: string,
                                        g: Graph, fuel: nat)
    requires BuildAllG(reg, entries, group, parent, g, fuel).Some?
    ensures var r := BuildAllG(reg, entries, group, parent, g, fuel).value.1;
            && IsPrefix(g.nodes, r.nodes)
            && (UniqueIds(g.nodes) ==> UniqueIds(r.nodes))
    decreases fuel, |entries|
  {
    if entries != [] {
      var first := BuildG(reg, entries[0].0, entries[0].1, group, Some(parent), g, fuel).value;
      var r := BuildAllG(reg, entries[1..], group, parent, first.1, fuel).value.1;
      NodesGrow(reg, entries[0].0, entries[0].1, group, Some(parent), g, fuel);
      NodesGrowAll(reg, entries[1..], group, parent, first.1, fuel);
      PrefixTrans(g.nodes, first.1.nodes, r.nodes);
    }
  }

  lemma PrefixTrans<T>(a: seq<T>, b: seq<T>, c: seq<T>)
    requires IsPrefix(a, b) && IsPrefix(b, c)
    ensures IsPrefix(a, c)
  {
    assert c[..|a|] == c[..|b|][..|a|];
  }

  lemma HasIdPrefix(a: seq<Node>, b: seq<Node>, id: string)
    requires IsPrefix(a, b) && HasId(a, id)
    ensures HasId(b, id)
  {
    var i :| 0 <= i < |a| && a[i].id == id;
    assert b[i] == b[..|a|][i];
  }

  /** Every node of `after` past the prefix `before` has a group of at
      least `group` and sits `group` levels less deep in `t`. */
  ghost predicate PlacedIn(before: seq<Node>, after: seq<Node>, group: nat, t: Tree) {
    forall i :: |before| <= i < |after| ==>
      group <= after[i].group && AtDepth(t, after[i].id, after[i].group - group)
  }

  ghost predicate PlacedInAll(before: seq<Node>, after: seq<Node>, group: nat, ds: seq<Dep>) {
    forall i :: |before| <= i < |after| ==>
      group <= after[i].group && AtDepthAll(ds, after[i].id, after[i].group - group)
  }

  /** Every node a call adds sits in the built tree at depth
      `node.group - group`: the group of a node is the depth at which
      its id was first reached. */
  lemma {:induction false} GroupIsDepth(reg: Registry, name: string, version: string, group: nat,
                                        source: Option<string>, g: Graph, fuel: nat)
    requires BuildG(reg, name, version, group, source, g, fuel).Some?
    ensures var res := BuildG(reg, name, version, group, source, g, fuel).value;
            PlacedIn(g.nodes, res.1.nodes, group, res.0)
    decreases fuel, 0
  {
    var deps := Fetch(reg, name, version);
    var g1 := Record(g, name, group, source);
    var res := BuildG(reg, name, version, group, source, g, fuel).value;
    BuildGStep(reg, name, version, group, source, g, fuel);
    if deps.Some? {
      var kids := BuildAllG(reg, deps.value, group + 1, name, g1, fuel - 1).value;
      GroupIsDepthAll(reg, deps.value, group + 1, name, g1, fuel - 1);
      NodesGrowAll(reg, deps.value, group + 1, name, g1, fuel - 1);
      PlacedBelow(g.nodes, g1.nodes, kids.1.nodes, group, res.0, kids.0);
    }
  }

  lemma PlacedBelow(before: seq<Node>, mid: seq<Node>, after: seq<Node>, group: nat, t: Tree, ds: seq<Dep>)
    requires t.dependencies == Present(ds)
    requires IsPrefix(before, mid) && IsPrefix(mid, after)
    requires |mid| <= |before| + 1
    requires |before| < |mid| ==> mid[|before|].group == group && mid[|before|].id == t.name
    requires PlacedInAll(mid, after, group + 1, ds)
    ensures PlacedIn(before, after, group, t)
  {
    forall i | |before| <= i < |after|
      ensures group <= after[i].group && AtDepth(t, after[i].id, after[i].group - group)
    {
      if i < |mid| {
        assert after[..|mid|][i] == after[i];
      } else {
        assert after[i].group - group - 1 == after[i].group - (group + 1);
      }
    }
  }

  lemma {:induction false} GroupIsDepthAll(reg: Registry, entries: seq<Entry>, group: nat, parent: string,
                                           g: Graph, fuel: nat)
    requires BuildAllG(reg, entries, group, parent, g, fuel).Some?
    ensures var res := BuildAllG(reg, entries, group, parent, g, fuel).value;
            PlacedInAll(g.nodes, res.1.nodes, group, res.0)
    decreases fuel, |entries|
  {
    if entries != [] {
      var first := BuildG(reg, entries[0].0, entries[0].1, group, Some(parent), g, fuel).value;
      var rest := BuildAllG(reg, entries[1..], group, parent, first.1, fuel).value;
      GroupIsDepth(reg, entries[0].0, entries[0].1, group, Some(parent), g, fuel);
      GroupIsDepthAll(reg, entries[1..], group, parent, first.1, fuel);
      NodesGrow(reg, entries[0].0, entries[0].1, group, Some(parent), g, fuel);
      NodesGrowAll(reg, entries[1..], group, parent, first.1, fuel);
      PlacedAcross(g.nodes, first.1.nodes, rest.1.nodes, group, Dep(entries[0].0, first.0), rest.0);
    }
  }

  lemma PlacedAcross(before: seq<Node>, mid: seq<Node>, after: seq<Node>, group: nat, d: Dep, ds: seq<Dep>)
    requires IsPrefix(before, mid) && IsPrefix(mid, after)
    requires PlacedIn(before, mid, group, d.tree)
    requires PlacedInAll(mid, after, group, ds)
    ensures PlacedInAll(before, after, group, [d] + ds)
  {
    forall i | |before| <= i < |after|
      ensures group <= after[i].group && AtDepthAll([d] + ds, after[i].id, after[i].group - group)
    {
      AtDepthAllCons(d, ds, after[i].id, after[i].group - group);
      if i < |mid| {
        assert after[..|mid|][i] == after[i];
      }
    }
  }

  lemma AtDepthAllCons(d: Dep, ds: seq<Dep>, id: string, k: nat)
    ensures AtDepthAll([d] + ds, id, k) <==> AtDepth(d.tree, id, k) || AtDepthAll(ds, id, k)
  {
    assert ([d] + ds)[1..] == ds;
  }
}
