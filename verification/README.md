# A verified model of the blog's data-preparation code and vendored string and state logic

This Dafny project models the small, deterministic parts of a Gatsby blog. These parts sit between its data sources and its charts, plus pure library code bundled into one of its webpack chunks:

- **`ChordMatrix`** (`chord.dfy`): the chord-diagram data preparation. Every edge is tagged with `value = 1`. The distinct endpoint names are sorted ascending. A name → index map and an n×n count matrix are built, with rows for targets and columns for sources.
- **`UniqueReducer`** (`keep_unique.dfy`): the `keepUnique(property)` reducer factory.
  - Folded over every beer's hops with one shared seen-set, it keeps first occurrences.
  - Handed to `Array.prototype.filter` instead, it receives `(element, index)`. It then stores `undefined` once and from there on keeps every truthy name.
- **`SemVer`** (`semver.dfy`): `getSemVer`, which checks a version against the Semantic Versioning 2.0.0 pattern (sections 2, 9 and 10 of the SemVer 2.0.0 specification) under the `gm` flags. It returns the version or `"latest"`.
- **`PackageDeps`** (`pkg_deps.dfy`): the recursive npm dependency-tree builder over an abstract registry, in two forms:
  - the plain tree of `async-recursion`;
  - the tree of `package-dependencies`, which also keeps the `nodes` / `links` bookkeeping.
- **`Ranking`** (`ranking.dfy`): the top-20 IBU pipeline that four chart scripts share verbatim: map → keep `Number(value)`-truthy → stable descending sort → first 20. It also covers the x-domain `[0, ibu.at(0).value]`.
- **`PlotLayout`** (`plot_layout.dfy`): the 680×480 canvas, the margin arithmetic, axis-line endpoints, title and caption anchors, per-label positions and bar lengths.
- **`CommonTags`** (`common_tags.dfy`): the vendored `common-tags` transformers `trimResultTransformer`, `stripIndentTransformer` and `inlineArrayTransformer`.
- **`CamelCase`** (`camelcase.dfy`): the vendored `camelcase` package.
- **`ImageLoader`** (`image_loader.dfy`): gatsby-plugin-image's process-wide set of loaded image keys, the main image's `onLoad`, and the hydrator's `isLoading` / `isLoaded` / `forceRender` transitions. These are modelled as an event-driven state machine.

`JsValues` (`js_values.dfy`) holds the JavaScript semantics the modules share: primitive values and truthiness, `String(x)`, the ECMAScript whitespace and line-terminator classes, ASCII case mapping, `trim` and `join`. `Wrappers` (`wrappers.dfy`) holds `Option` and `Result`; a thrown exception is a `Result` error.

Regular expressions are written out as scans over the text. They follow the engine's rules:
- greedy runs and backtracking;
- `^` under the `m` flag at the start and after `\n`, `\r`, U+2028 and U+2029;
- a global match resumes behind a non-empty match and one character further after an empty one.

Two behaviours of the image component's code are easy to miss:
- Mounting with a key already in the loaded set does not skip observation. `componentDidMount` still registers an intersection observer with caching allowed. The intersection then reports `isLoaded = wasCached = true` (`ImageLoader.IntersectFlags`).
- `toggleIsLoaded` does not check which image a `decode()` belonged to. A decode that settles after the image changed marks the new image as loaded, although its key was never recorded (`ImageLoader.DecodeOutlivesImageChange`).

## Model

| member | source | states |
|---|---|---|
| ChordMatrix.TagValues | content/blog/chord-diagram/index.js:7-11 | every edge keeps its source and target and carries `value = 1`; no edge is added or lost |
| ChordMatrix.LessTotal | content/blog/chord-diagram/index.js:15 | `d3.ascending` on strings orders any two different names one way or the other |
| ChordMatrix.LessTransitive | content/blog/chord-diagram/index.js:15 | the string order is transitive, so the sort is well defined |
| ChordMatrix.SortedDistinct | content/blog/chord-diagram/index.js:13-15 | `names` is strictly ascending (so no name repeats) and holds exactly the given strings |
| ChordMatrix.AscendingUnique | content/blog/chord-diagram/index.js:13-15 | two strictly ascending lists with the same names are equal: `names` is determined by the set of endpoints |
| ChordMatrix.EndpointNames | content/blog/chord-diagram/index.js:14 | the `flatMap` of sources and targets yields exactly the names occurring in the edges |
| ChordMatrix.IndexOf | content/blog/chord-diagram/index.js:17 | `index` maps `names[i]` to `i`, its keys are exactly the names, and every key maps back to its position: a bijection with 0..n-1 |
| ChordMatrix.ZeroTotal | content/blog/chord-diagram/index.js:19 | the freshly filled n×n matrix sums to 0 |
| ChordMatrix.BumpTotal | content/blog/chord-diagram/index.js:22 | one `+= 1` raises the matrix total by exactly one |
| ChordMatrix.CountStep | content/blog/chord-diagram/index.js:21-22 | after one more edge every cell still counts the edges seen so far with that target and source |
| ChordMatrix.CountedStep | content/blog/chord-diagram/index.js:21-22 | the indices of the next edge are in range, and after incrementing that one cell the matrix counts one edge more, total included |
| ChordMatrix.CountEdges | content/blog/chord-diagram/index.js:19-23 | the matrix is n×n, cell `[index(t)][index(s)]` is the number of edges from `s` to `t` (parallel edges add up), and all cells sum to the number of edges |
| ChordMatrix.Prepare | content/blog/chord-diagram/index.js:6-23 | the whole preparation: tagged edges, ascending distinct names equal to the endpoint set, a bijective index, and the count matrix with total equal to the edge count |
| UniqueReducer.KeepUnique | content/blog/data-wrangling-with-js/index.js:11-12 | each call of the factory starts with its own empty seen-set |
| UniqueReducer.Step | content/blog/data-wrangling-with-js/index.js:14-20 | a seen value returns `acc` and the reducer unchanged; an unseen one is recorded and appended at the end; the result grows by at most one, never reorders, and keeps "seen-set = elements of acc" and "no duplicates" |
| UniqueReducer.StepInvariant | content/blog/reducing-arrays/index.js:10-16 | one step keeps `acc` equal to the first occurrences of all values read so far, and the seen-set equal to its elements |
| UniqueReducer.ReduceInvariant | content/blog/reducing-arrays/index.js:19-23 | folding one reducer over records keeps both invariants for the whole fold |
| UniqueReducer.ReduceAppend | content/blog/reducing-arrays/index.js:21-22 | folding over `a + b` is folding over `a` and continuing with the same reducer over `b`: one seen-set spans all beers |
| UniqueReducer.ReduceBeersFlat | content/blog/reducing-arrays/index.js:21-23 | the nested per-beer `reduce` equals one fold over all hops, beers in order and hops in order |
| UniqueReducer.HopsAreFirstOccurrences | content/blog/reducing-arrays/index.js:21-23 | `hops` is the list of first occurrences of all hop names, has no duplicates, and contains every hop name of every beer |
| UniqueReducer.ConcatOnPrimitive | content/blog/higher-order-functions/index.js:15 | `acc.concat(v)` on a string appends `String(v)`; on `null` or `undefined` it throws the `TypeError` of reading `concat`; on a boolean or number it throws "acc.concat is not a function" |
| UniqueReducer.FilterCall | content/blog/higher-order-functions/index.js:10-16 | called by `filter` as `(name, index)`, the lookup key is `undefined`: the first call stores it and returns the truthy `name + "undefined"`; later calls return the element itself |
| UniqueReducer.FilterAfterFirst | content/blog/higher-order-functions/index.js:13-14 | once `undefined` is seen, filtering keeps exactly the truthy elements |
| UniqueReducer.FilterVariant | content/blog/higher-order-functions/index.js:21-24 | the filter keeps the first name and then every non-empty name, in order; a non-string first element throws |
| UniqueReducer.FilterIsIdentityOnNames | content/blog/higher-order-functions/index.js:21-24 | on non-empty names the filter returns its input unchanged: it does not deduplicate |
| UniqueReducer.FilterDoesNotDeduplicate | content/blog/higher-order-functions/index.js:19-24 | one beer with two "Simcoe" hops: the reduce version gives one "Simcoe", the filter version two |
| SemVer.GetSemVer | content/blog/package-dependencies/get-pkg-data.js:6-13 | the result is the input when some line of it matches the pattern, and `"latest"` otherwise; nothing else is ever returned |
| SemVer.FormatAccepted | content/blog/package-dependencies/get-pkg-data.js:7-10 | every well-formed version (numeric identifiers without leading zeros, optional pre-release, optional build) is accepted and returned unchanged |
| SemVer.ParseFormat | content/blog/package-dependencies/get-pkg-data.js:7-10 | every line the pattern accepts is the text form of a well-formed version, the one read back from it |
| SemVer.AcceptsExactlyVersions | content/blog/package-dependencies/get-pkg-data.js:7-10 | a line is accepted exactly when it is a well-formed Semantic Versioning 2.0.0 version written out |
| SemVer.LeadingZeroIsNotVersion | content/blog/package-dependencies/get-pkg-data.js:8 | a major version with a leading zero, such as `01.2.3`, is rejected |
| SemVer.NonDigitStartIsLatest | content/blog/async-recursion/index.js:7-14 | a one-line version that does not start with a digit, such as `^1.2.3`, `~1.0.0` or `>=2`, gives `"latest"` |
| SemVer.Idempotent | content/blog/package-dependencies/get-pkg-data.js:12 | applying `getSemVer` twice is applying it once |
| SemVer.MultiLineKept | content/blog/package-dependencies/get-pkg-data.js:8-12 | with `gm`, a text whose last line is a valid version is returned whole, whatever precedes the line break |
| SemVer.SplitJoin | content/blog/package-dependencies/get-pkg-data.js:8 | splitting dot-joined identifiers at the dots gives the identifiers back |
| SemVer.LinesHaveNoBreaks | content/blog/package-dependencies/get-pkg-data.js:7-10 | under the `m` flag, every line the pattern is tried against contains no line terminator |
| PackageDeps.RangeFetchesLatest | content/blog/async-recursion/index.js:7-19 | a version range such as `^17.0.2`, which does not start with a digit, is requested as `latest` |
| PackageDeps.ExactVersionFetched | content/blog/async-recursion/index.js:7-19 | a well-formed semantic version is requested exactly as written |
| PackageDeps.Build | content/blog/async-recursion/index.js:16-36 | the node echoes the requested name and version; `dependencies` is undefined exactly when the registry entry has none |
| PackageDeps.BuildKeys | content/blog/async-recursion/index.js:21-35 | a built node's `dependencies`, when present, has exactly the registry's keys in order |
| PackageDeps.BuildAllEntries | content/blog/async-recursion/index.js:26-33 | the dependency object has the registry's keys in order, and each value is the tree built for that key and version range |
| PackageDeps.BuildMonotone | content/blog/async-recursion/index.js:16-36 | a tree that can be built is the same whatever larger recursion budget is allowed |
| PackageDeps.SameRequestSameSubtree | content/blog/async-recursion/index.js:16-36 | the same (name, version) request always yields the same subtree: a package required twice appears twice, with the same shape |
| PackageDeps.ChildrenOfBuilt | content/blog/async-recursion/index.js:42-43 | the tree's `children` accessor is `false` exactly for leaves; otherwise it lists one subtree per registry entry, in order |
| PackageDeps.Record | content/blog/package-dependencies/get-pkg-data.js:23-26 | a node is pushed only if its id is new, so ids stay unique and the first group stays; a link is pushed exactly when `source` is truthy |
| PackageDeps.BuildGAgrees | content/blog/package-dependencies/get-pkg-data.js:18-43 | the bookkeeping builder returns the same tree as the plain builder |
| PackageDeps.LinksPushed | content/blog/package-dependencies/get-pkg-data.js:26 | the links pushed by a call are the caller's link (if `source` is truthy) and then every parent → child pair of the tree in depth-first order, repeats included |
| PackageDeps.LinkCount | content/blog/package-dependencies/get-pkg-data.js:26 | a call pushes one link per tree node below the requested one, plus one more only when `source` is truthy, so the root call `getPkgDeps("react", "latest")` adds no link for itself |
| PackageDeps.NodesGrow | content/blog/package-dependencies/get-pkg-data.js:24 | `nodes` only grows at the end, contains the requested name afterwards, and keeps its ids unique |
| PackageDeps.GroupIsDepth | content/blog/package-dependencies/get-pkg-data.js:37 | every node a call adds has group ≥ the call's group and its id occurs in the built tree at depth `group - callGroup` |
| Ranking.ToEntries | content/blog/horizontal-bar-plot/index.js:20-24 | one `{name, value}` per beer, in order, with `value = beer.ibu` |
| Ranking.KeepNumbers | content/blog/horizontal-bar-plot/index.js:25 | an entry survives exactly when its value is a non-zero number (null and 0 are dropped), and nothing is added |
| Ranking.KeepNumbersAppend | content/blog/horizontal-bar-plot/index.js:25 | the filter goes entry by entry: it distributes over concatenation, keeps a single entry whose value is a non-zero number and drops any other, so the result is the kept entries, every occurrence, in input order |
| Ranking.KeepNumbersCounts | content/blog/horizontal-bar-plot/index.js:25 | a kept entry occurs in the result exactly as often as in the input; any other entry does not occur |
| Ranking.SortDescending | content/blog/horizontal-bar-plot/index.js:26 | the sort is a permutation and yields non-increasing values (null compares as 0) |
| Ranking.SortStable | content/blog/horizontal-bar-plot/index.js:26 | for every value, the entries with that value keep their input order |
| Ranking.Take | content/blog/horizontal-bar-plot/index.js:27 | `slice(0, 20)` is the prefix of length min(n, 20) |
| Ranking.Rank | content/blog/horizontal-bar-plot/index.js:20-27 | at most 20 entries, exactly min(kept, 20) of them, every value a truthy number, in non-increasing order |
| Ranking.RankKeepsTies | content/blog/horizontal-bar-plot/index.js:26-27 | among equal values the ranking shows a prefix of the input order |
| Ranking.TopK | content/blog/horizontal-bar-plot/index.js:25-27 | ranking and cut-off together are the kept entries, and every entry cut off has a value no greater than every entry shown |
| Ranking.XDomain | content/blog/horizontal-bar-plot/index.js:71-74 | the domain is `[0, ibu[0].value]`, its top bounds every ranked value, and an empty ranking throws the `TypeError` of reading `.value` of `undefined` |
| Ranking.XDomainIsMaximum | content/blog/d3-scales/index.js:49-52 | for a non-empty ranking the domain's top bounds every kept value, not only the shown ones |
| PlotLayout.PlotArea | content/blog/intro-to-d3/index.js:21-25 | margins plus plot area fill the canvas in both directions, giving a 430×340 plot area |
| PlotLayout.YAxis | content/blog/intro-to-d3/index.js:49-55 | the Y line is vertical, spans `plotHeight`, and lies in the plot area |
| PlotLayout.XAxis | content/blog/intro-to-d3/index.js:60-66 | the X line is horizontal, spans `plotWidth`, and lies in the plot area |
| PlotLayout.AxesMeet | content/blog/intro-to-d3/index.js:49-66 | the two lines share the corner `(left, top + plotHeight)`, and the plot area lies inside the canvas |
| PlotLayout.TitleAnchor | content/blog/intro-to-d3/index.js:89-94 | the title is centred at `width / 2` and sits two thirds of the top margin down |
| PlotLayout.CaptionPoint | content/blog/horizontal-bar-plot/index.js:111-116 | the axis caption sits 25 right of and 25 below the X axis end: inside the canvas, outside the plot area |
| PlotLayout.Labels | content/blog/binding-data-d3/index.js:46-60 | one label per ranked entry, in order, showing its name at `x = left`; the first at `top`, strictly increasing, all above `top + plotHeight` |
| PlotLayout.LabelsFollowBands | content/blog/d3-scales/index.js:54-58 | label i names the i-th band of the y scale's domain |
| PlotLayout.BarLengths | content/blog/d3-scales/index.js:49-61 | one bar per entry; an empty ranking throws; with a non-zero top value the first bar spans the whole plot width; with a positive top value the bars shrink down the ranking and never exceed the plot width |
| PlotLayout.ScaleOrdered | content/blog/d3-scales/index.js:49-52 | the linear scale maps the domain top to `plotWidth` and is monotone for non-increasing values |
| PlotLayout.RankedBars | content/blog/horizontal-bar-plot/index.js:177 | for any non-empty ranking the first bar fills the plot width |
| CommonTags.TrimResult | cd7d5f864fc9e15ed8adef086269b0aeff617554-e7e717af7ac4907af484.js:1 | side `""` trims both ends, `start`/`left` only the start, `end`/`right` only the end; any other side throws "Side not supported: " with the lower-cased side |
| CommonTags.TrimSideCaseInsensitive | cd7d5f864fc9e15ed8adef086269b0aeff617554-e7e717af7ac4907af484.js:1 | the side is matched case-insensitively, error message included |
| CommonTags.TrimBothIsStartThenEnd | cd7d5f864fc9e15ed8adef086269b0aeff617554-e7e717af7ac4907af484.js:1 | trimming both sides equals trimming the start and then the end |
| CommonTags.StripIndent | cd7d5f864fc9e15ed8adef086269b0aeff617554-e7e717af7ac4907af484.js:1 | only the types "initial" and "all" are accepted; any other throws "Unknown type: " with the type |
| CommonTags.FlushLineKeepsText | cd7d5f864fc9e15ed8adef086269b0aeff617554-e7e717af7ac4907af484.js:1 | a line starting with a visible character makes the minimum indentation 0, and "initial" then returns the text unchanged |
| CommonTags.DropColumnsByLine | cd7d5f864fc9e15ed8adef086269b0aeff617554-e7e717af7ac4907af484.js:1 | removing n columns works line by line: a line at a line start loses its first n characters when it has that many, and the rest of the text is treated from a fresh line start |
| CommonTags.LastLineDropped | cd7d5f864fc9e15ed8adef086269b0aeff617554-e7e717af7ac4907af484.js:1 | a last line without terminator loses its first n characters when it has n, and is kept whole when shorter |
| CommonTags.StripAllKeepsVisible | cd7d5f864fc9e15ed8adef086269b0aeff617554-e7e717af7ac4907af484.js:1 | "all" removes only whitespace other than line feeds: every other character survives, in order |
| CommonTags.StripAllUnindents | cd7d5f864fc9e15ed8adef086269b0aeff617554-e7e717af7ac4907af484.js:1 | after "all" no line starts with non-newline whitespace |
| CommonTags.StripAllKeepsUnindented | cd7d5f864fc9e15ed8adef086269b0aeff617554-e7e717af7ac4907af484.js:1 | a text with no indented line is left unchanged |
| CommonTags.StripAllIdempotent | cd7d5f864fc9e15ed8adef086269b0aeff617554-e7e717af7ac4907af484.js:1 | applying "all" twice is applying it once |
| CommonTags.TrailingIndent | cd7d5f864fc9e15ed8adef086269b0aeff617554-e7e717af7ac4907af484.js:1 | the `(\n?[^\S\n]+)$` match: absent exactly when the text does not end in non-newline whitespace; otherwise a whitespace suffix made of the whole trailing run, preceded by at most one line feed |
| CommonTags.LastIndexOf | cd7d5f864fc9e15ed8adef086269b0aeff617554-e7e717af7ac4907af484.js:1 | `lastIndexOf` returns a position where the separator occurs and no later one exists, or -1 |
| CommonTags.InlineArray | cd7d5f864fc9e15ed8adef086269b0aeff617554-e7e717af7ac4907af484.js:1 | non-arrays pass through; without a conjunction, or with at most one item, the items are joined with the separator plus the preceding text's trailing indentation or a space |
| CommonTags.LastOccurrence | cd7d5f864fc9e15ed8adef086269b0aeff617554-e7e717af7ac4907af484.js:1 | when the last item contains no separator character, `lastIndexOf` finds the separator placed before it |
| CommonTags.InlineListWithConjunction | cd7d5f864fc9e15ed8adef086269b0aeff617554-e7e717af7ac4907af484.js:1 | with a conjunction and two or more items the last separator becomes (separator if serial) + space + conjunction: `a, b and c` or `a, b, and c` |
| CommonTags.InlineListAsWritten | cd7d5f864fc9e15ed8adef086269b0aeff617554-e7e717af7ac4907af484.js:1 | as written, for a separator without whitespace and a last item without separator characters, the conjunction is followed by the separator minus its first character |
| CommonTags.SingleCharSeparatorAgrees | cd7d5f864fc9e15ed8adef086269b0aeff617554-e7e717af7ac4907af484.js:1 | for one-character separators, such as the `,` of every instance in the bundle, the code as written and the corrected splice agree |
| CommonTags.MultiCharSeparatorSplit | cd7d5f864fc9e15ed8adef086269b0aeff617554-e7e717af7ac4907af484.js:1 | with separator `--` and conjunction `and`, `["a", "b"]` becomes `a and- b` as written and `a and b` when corrected |
| CamelCase.NonEmpty | cd7d5f864fc9e15ed8adef086269b0aeff617554-e7e717af7ac4907af484.js:1 | the `filter(x => x.length)` result holds no empty string, contains exactly the non-empty elements, and is the input when nothing is empty |
| CamelCase.NonEmptyAppend | cd7d5f864fc9e15ed8adef086269b0aeff617554-e7e717af7ac4907af484.js:1 | the filter goes element by element: it distributes over concatenation, keeps a non-empty element and drops an empty one, so it yields the non-empty elements in order |
| CamelCase.Normalize | cd7d5f864fc9e15ed8adef086269b0aeff617554-e7e717af7ac4907af484.js:1 | anything but a string or an array throws the `TypeError` "Expected the input to be `string \| string[]`"; a string is trimmed; an array's elements are trimmed, the empty ones dropped and the rest joined with `-`, giving the empty text exactly when every element trims to nothing |
| CamelCase.SingletonListIsText | cd7d5f864fc9e15ed8adef086269b0aeff617554-e7e717af7ac4907af484.js:1 | an array of one string plus blank strings is treated like that string |
| CamelCase.CamelCaseOf | cd7d5f864fc9e15ed8adef086269b0aeff617554-e7e717af7ac4907af484.js:1 | throws exactly for non-string, non-array input; an empty trimmed input gives `""`; a single remaining character is lower-cased, or upper-cased with `pascalCase` |
| CamelCase.PreserveInsertsHyphens | cd7d5f864fc9e15ed8adef086269b0aeff617554-e7e717af7ac4907af484.js:1 | `preserveCamelCase` only inserts hyphens: with hyphens removed its result is its input |
| CamelCase.PreserveLowercase | cd7d5f864fc9e15ed8adef086269b0aeff617554-e7e717af7ac4907af484.js:1 | a text without capitals gets no hyphen |
| CamelCase.CapitalizeAfterDigitsIsUpperAfterDigit | cd7d5f864fc9e15ed8adef086269b0aeff617554-e7e717af7ac4907af484.js:1 | the `/\d+(\w\|$)/g` replacement, backtracking included, upper-cases exactly the characters that follow a digit |
| CamelCase.CapitalizeAfterSepsKeepsKey | cd7d5f864fc9e15ed8adef086269b0aeff617554-e7e717af7ac4907af484.js:1 | the `/[_.\- ]+(\w\|$)/g` replacement removes only separators and changes only case |
| CamelCase.CapitalizeAfterSepsCollapses | cd7d5f864fc9e15ed8adef086269b0aeff617554-e7e717af7ac4907af484.js:1 | after that replacement no separator is followed by a word character and none ends the text |
| CamelCase.CapitalizeAfterSepsIsUpperAfterSep | cd7d5f864fc9e15ed8adef086269b0aeff617554-e7e717af7ac4907af484.js:1 | when no separator run needs backtracking, the `/[_.\- ]+(\w\|$)/g` replacement removes every separator and upper-cases exactly the characters that followed one |
| CamelCase.ReplacedKeepsKey | cd7d5f864fc9e15ed8adef086269b0aeff617554-e7e717af7ac4907af484.js:1 | the two replacements together remove only separators and change only case |
| CamelCase.CamelizeKeepsSpelling | cd7d5f864fc9e15ed8adef086269b0aeff617554-e7e717af7ac4907af484.js:1 | ignoring ASCII case and the separators `_ . - space`, the result spells the normalised input |
| CamelCase.CamelizeCollapses | cd7d5f864fc9e15ed8adef086269b0aeff617554-e7e717af7ac4907af484.js:1 | for two or more characters the result neither starts nor ends with a separator, and no separator is left before a word character |
| CamelCase.CamelizeFirstChar | cd7d5f864fc9e15ed8adef086269b0aeff617554-e7e717af7ac4907af484.js:1 | camelCase output does not start with a capital; PascalCase output does not start with a lower-case letter |
| CamelCase.CamelizeCapitals | cd7d5f864fc9e15ed8adef086269b0aeff617554-e7e717af7ac4907af484.js:1 | when no separator run of the prepared text needs backtracking, the result is that text without separators, with each character after a separator or a digit upper-cased, and for PascalCase the first one too |
| CamelCase.CamelizeLowercase | cd7d5f864fc9e15ed8adef086269b0aeff617554-e7e717af7ac4907af484.js:1 | a lower-case input of two or more characters, in which every separator run is followed by a word character or ends the text, loses its leading separators; every other separator run is removed and the next character becomes a capital, as does every character after a digit |
| CamelCaseExamples.HyphenBeforeCapital | cd7d5f864fc9e15ed8adef086269b0aeff617554-e7e717af7ac4907af484.js:1 | `fooBar` becomes `foo-Bar` before lower-casing |
| CamelCaseExamples.HyphenBeforeLastOfCapitals | cd7d5f864fc9e15ed8adef086269b0aeff617554-e7e717af7ac4907af484.js:1 | `FOOBar` becomes `FOO-Bar`: the hyphen goes before the last capital of a run followed by a lower-case letter |
| CamelCaseExamples.DashedWords | cd7d5f864fc9e15ed8adef086269b0aeff617554-e7e717af7ac4907af484.js:1 | `camelCase("Foo-Bar")` is `"fooBar"` |
| ImageLoader.Init | cd7d5f864fc9e15ed8adef086269b0aeff617554-e7e717af7ac4907af484.js:1 | a new hydrator starts not loaded, unobserved and without a rendered image; the process-wide loaded set is left as other images left it; `isLoading` starts as native lazy-loading support |
| ImageLoader.Record | cd7d5f864fc9e15ed8adef086269b0aeff617554-e7e717af7ac4907af484.js:1 | `e && c.add(e)`: the loaded set only grows, by the key alone, and the falsy empty key is never added |
| ImageLoader.SetFlags | cd7d5f864fc9e15ed8adef086269b0aeff617554-e7e717af7ac4907af484.js:1 | `shouldComponentUpdate`: `forceRender` is set by an update from not loading to loading-but-not-loaded and then stays set |
| ImageLoader.Rerender | cd7d5f864fc9e15ed8adef086269b0aeff617554-e7e717af7ac4907af484.js:1 | `_lazyHydrate`: the main image is rendered with `isLoaded = state.isLoaded \|\| g(key)` read at the update, except that the first update of a native-lazy server-rendered image only marks the root hydrated |
| ImageLoader.Toggle | cd7d5f864fc9e15ed8adef086269b0aeff617554-e7e717af7ac4907af484.js:1 | `toggleIsLoaded` calls `onLoad` once and, on a mounted component, sets `isLoaded` |
| ImageLoader.Step | cd7d5f864fc9e15ed8adef086269b0aeff617554-e7e717af7ac4907af484.js:1 | no event (a parent re-render with the same `image.images` included) removes a key from the loaded set; an event adds only the current key or the key the server-rendered image's listener captured at mount, never the empty key; `forceRender` is never cleared |
| ImageLoader.RunMonotone | cd7d5f864fc9e15ed8adef086269b0aeff617554-e7e717af7ac4907af484.js:1 | over any event sequence the loaded set only grows, never gains the empty key, and `forceRender` stays set |
| ImageLoader.IntersectFlags | cd7d5f864fc9e15ed8adef086269b0aeff617554-e7e717af7ac4907af484.js:1 | an intersection sets `isLoading`, and `isLoaded = wasCached = (caching allowed and key known)`, reporting that flag to `onStartLoad`; the re-rendered image sees whether the key is known |
| ImageLoader.LoadedImageIgnoresLoad | cd7d5f864fc9e15ed8adef086269b0aeff617554-e7e717af7ac4907af484.js:1 | the main image's `onLoad` does nothing unless a hydrated image was rendered as not loaded; a key recorded since that render does not stop it |
| ImageLoader.FreshLoadMarksLoaded | cd7d5f864fc9e15ed8adef086269b0aeff617554-e7e717af7ac4907af484.js:1 | a load of an image rendered as not loaded records the key and ends loaded with one `onLoad`, after `decode()` settles or at once without `decode` |
| ImageLoader.LoadsBeforeDecodeCallOnLoadTwice | cd7d5f864fc9e15ed8adef086269b0aeff617554-e7e717af7ac4907af484.js:1 | two loads before the first `decode()` settles both start a decode, so `onLoad` is called twice |
| ImageLoader.ImageChangeDisablesCache | cd7d5f864fc9e15ed8adef086269b0aeff617554-e7e717af7ac4907af484.js:1 | after an image change both flags reset and the next intersection reports `wasCached = false` |
| ImageLoader.NativeLazyMount | cd7d5f864fc9e15ed8adef086269b0aeff617554-e7e717af7ac4907af484.js:1 | with native lazy loading and a server-rendered image, mounting calls `onStartLoad(false)`, and the server image's load calls `onLoad` and records the key, without an observer |
| ImageLoader.ParentRerenderSkipsLoad | cd7d5f864fc9e15ed8adef086269b0aeff617554-e7e717af7ac4907af484.js:1 | a parent re-render with the same `image.images` runs `_lazyHydrate` again with a fresh `g(key)`: once another image recorded the key, the image's own `load` calls no `onLoad` and leaves it not loaded |
| ImageLoader.NativeLazyHydratesOnSecondUpdate | cd7d5f864fc9e15ed8adef086269b0aeff617554-e7e717af7ac4907af484.js:1 | on the native-lazy server-rendered path, the first parent re-render only marks the root hydrated, and the second renders the main image, as loaded exactly when its key is known |
| ImageLoader.SsrListenerRecordsMountKey | cd7d5f864fc9e15ed8adef086269b0aeff617554-e7e717af7ac4907af484.js:1 | that listener records the key captured at mount, even when the image changed before the server image finished loading |
| ImageLoader.StepConsistent | cd7d5f864fc9e15ed8adef086269b0aeff617554-e7e717af7ac4907af484.js:1 | every event except an image change during a pending decode keeps the hydrator's flags consistent with the loaded set |
| ImageLoader.DecodeOutlivesImageChange | cd7d5f864fc9e15ed8adef086269b0aeff617554-e7e717af7ac4907af484.js:1 | a decode that settles after an image change marks the new image loaded although its key was never recorded |

## Left out

- Rendering is not modelled. This covers d3, jsdom and canvas drawing, every `fs.readFileSync` / `fs.writeFileSync`, React components and styles, propTypes, the objectFit polyfill, the sizer's percentage strings, and `content/blog/chord-diagram/chord.js`. It is output only.
- `fetch` from the npm registry is not modelled. The registry is a map from (name, version or `"latest"`) to the response's `dependencies`, a missing entry meaning none. It carries the function that turns a requested version into the tag in the URL; `PackageDeps.Npm` fixes it to `getSemVer`.
- `Promise.all` concurrency is not modelled. The requests of one level are made sequentially in entry order, depth first.
- A cyclic registry would make the source recurse forever. The builders take a fuel bound and give no tree when it runs out. `PackageDeps.BuildMonotone` shows that a built tree does not depend on the bound.
- Chord diagram: `data.map` mutates the caller's objects in place. The model returns the tagged edges instead, with identical contents.
- IBU values are modelled as a number or null (`Option<real>`). Strings, `undefined`, `NaN` and the conversions of `Number(x)` are not modelled. Real numbers stand in for floating point in the scale, label and title arithmetic.
- Ranking.SortDescending: the comparator `b.value - a.value` is modelled on numbers with null as 0. Its `NaN` results are not modelled, because non-numeric values are not modelled.
- d3 `scaleBand` padding, bandwidth and domain de-duplication are not modelled. Only the band order (`PlotLayout.LabelsFollowBands`) is.
- `scaleLinear` is modelled as `value / max * plotWidth`, with d3's midpoint for a zero-width domain. Axis ticks are not modelled.
- Case mapping (`toLowerCase`, `toUpperCase`) and `\w` are ASCII only. Whitespace for `trim` and `\s` is the full ECMAScript set.
- Strings are sequences of Unicode scalar values, not of UTF-16 code units. The string order of `ChordMatrix` and the counts of `CommonTags.DropColumns` and `CommonTags.LastIndexOf` differ from JavaScript's for characters beyond U+FFFF. Such names sort after U+E000–U+FFFF in the model but before them in JavaScript, and each counts as one character where JavaScript counts two.
- A registry manifest's `dependencies` may list a name twice, which a parsed JSON object cannot. No property of `PackageDeps` depends on this.
- camelCase: array elements are strings. A non-string element, on which `trim` would throw, is not modelled. The only option is `pascalCase`.
- UniqueReducer: values are JavaScript primitives. Arrays, which `concat` would spread, and objects are not modelled.
- CommonTags.StripIndent: for "initial", the model computes the indentation with the faithful `match(/^[^\S\n]*(?=\S)/gm)` scan. It is not proved equal to a minimum over lines. The lemmas describe the zero case and the line-by-line column removal.
- The reflective `TemplateTag` class and the transformer pipeline are not modelled. Each transformer is modelled on its own. Array substitutions are strings, and an undefined separator is not modelled.
- ImageLoader: the parts that are not modelled are:
  - IntersectionObserver geometry and its one-shot behaviour; intersections are events that may repeat while an observer is registered;
  - the dynamic import of the observer module, which is merged into the mount step;
  - the dynamic import of module 898 in `_lazyHydrate`, which is merged into the state update or the parent re-render, so `g(key)` is read at that update;
  - what module 898's `lazyHydrate` renders. Module 898 is not part of this model. The model assumes it renders the main image with the `isLoaded` it is given and the current key, and marks the root hydrated. The reset of `forceRender` done by its component is not modelled.
- CamelCase.CamelizeCapitals: a separator run followed by a character that is neither a separator nor a word character is not covered. There the regular expression backtracks to the run's last `_`, or does not match. `CamelCase.CamelizeCollapses` and `CamelCase.CamelizeKeepsSpelling` still hold for such text.
- CamelCase.CamelizeLowercase: has the same exclusion. For `a-!b` the regular expression finds no match at the `-`, so the `-` stays and nothing is capitalised.
- ImageLoader.StepConsistent: an image change while a decode is pending breaks the consistency invariant. `ImageLoader.DecodeOutlivesImageChange` exhibits this, so that event is excluded.

## Findings

| source | as written | input that shows it | evidently intended | confidence | as-written member | corrected member |
|---|---|---|---|---|---|---|
| cd7d5f864fc9e15ed8adef086269b0aeff617554-e7e717af7ac4907af484.js:1 | `inlineArrayTransformer` splices the conjunction in with `t.slice(0, u) + … + t.slice(u + 1)`, where `u = t.lastIndexOf(separator)` | separator `--`, conjunction `and`, items `["a", "b"]` give `a and- b` | skip the whole separator, `t.slice(u + separator.length)`, giving `a and b` | not executed | CommonTags.MultiCharSeparatorSplit | CommonTags.InlineListWithConjunction |
| content/blog/higher-order-functions/index.js:21-24 | `keepUniqueHops` is passed to `filter`, which calls it as `(name, index)`, so the lookup is always `undefined` | one beer with hops "Simcoe" and "Simcoe" gives `["Simcoe", "Simcoe"]` | the unique hop names, as the `reduce` version computes them: `["Simcoe"]` | not executed | UniqueReducer.FilterDoesNotDeduplicate | UniqueReducer.HopsAreFirstOccurrences |
