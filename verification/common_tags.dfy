/** The result and substitution transformers of the vendored
    `common-tags` library: `trimResultTransformer(side)`,
    `stripIndentTransformer(type)` and `inlineArrayTransformer(opts)`.
    Regular expressions are written out as scans over the text; `^`
    under the `m` flag holds at the start of the text and after every
    line terminator (`\n`, `\r`, U+2028, U+2029). */
module CommonTags {
  import opened JsValues
  import opened Wrappers

  // ---------------------------------------------------------------------
  // trimResultTransformer
  // ---------------------------------------------------------------------

  /** `onEndResult` of `trimResultTransformer(side)`. The side is
      lower-cased before it is compared and before it is reported. */
  function TrimResult(side: string, text: string): (r: Result<string>)
    ensures side == "" ==> r == Ok(Trim(text))
    ensures side != "" && Lower(side) in {"start", "left"} ==> r == Ok(TrimStart(text))
    ensures side != "" && Lower(side) in {"end", "right"} ==> r == Ok(TrimEnd(text))
    ensures r.Err? <==> side != "" && Lower(side) !in {"start", "left", "end", "right"}
    ensures r.Err? ==> r.error == PlainError("Side not supported: " + Lower(side))
  {
    if side == "" then Ok(Trim(text))
    else
      var s := Lower(side);
      if s == "start" || s == "left" then Ok(TrimStart(text))
      else if s == "end" || s == "right" then Ok(TrimEnd(text))
      else Err(PlainError("Side not supported: " + s))
  }

  lemma LowerUpper(s: string)
    ensures Lower(Upper(s)) == Lower(s)
  {
  }

  /** The side is matched case-insensitively: spelling it in capitals
      changes nothing, not even the error message. */
  lemma TrimSideCaseInsensitive(side: string, text: string)
    ensures TrimResult(Upper(side), text) == TrimResult(side, text)
  {
    LowerUpper(side);
  }

  lemma LowerOfLowercase(s: string)
    requires forall i :: 0 <= i < |s| ==> !('A' <= s[i] <= 'Z')
    ensures Lower(s) == s
  {
  }

  /** The side "" trims both ends: it is the end side applied to what the
      start side leaves, and each one-sided trim keeps the text up to
      whitespace at its own end only. */
  lemma TrimBothIsStartThenEnd(text: string)
    ensures TrimResult("start", text).Ok? && TrimResult("end", text).Ok?
    ensures TrimResult("", text) == TrimResult("end", TrimResult("start", text).value)
  {
    LowerOfLowercase("start");
    LowerOfLowercase("end");
  }

  // ---------------------------------------------------------------------
  // stripIndentTransformer
  // ---------------------------------------------------------------------

  /** Length of the leading run of `[^\S\n]` characters. */
  function RunLen(s: string): (k: nat)
    ensures k <= |s|
    ensures forall i :: 0 <= i < k ==> IsIndentChar(s[i])
    ensures k == |s| || !IsIndentChar(s[k])
  {
    if s != [] && IsIndentChar(s[0]) then 1 + RunLen(s[1..]) else 0
  }

  /** The lengths matched by `text.match(/^[^\S\n]*(?=\S)/gm)`, scanning
      from a point that is (`atStart`) or is not a line start. After an
      empty match the scan moves on by one character; after a non-empty
      one it resumes right behind the match, which is a line start again
      when the run ended in `\r`. */
  function IndentMatches(s: string, atStart: bool): seq<nat>
    decreases |s|
  {
    if s == [] then []
    else
      var k := RunLen(s);
      if atStart && k < |s| && !IsWhitespace(s[k]) then
        if k == 0 then [0] + IndentMatches(s[1..], IsLineTerminator(s[0]))
        else [k] + IndentMatches(s[k..], IsLineTerminator(s[k - 1]))
      else IndentMatches(s[1..], IsLineTerminator(s[0]))
  }

  /** `Math.min(...lengths)` of a non-empty list. */
  function Min(ms: seq<nat>): (m: nat)
    requires ms != []
    ensures m in ms
    ensures forall x :: x in ms ==> m <= x
  {
    if |ms| == 1 then ms[0]
    else
      var rest := Min(ms[1..]);
      assert forall x :: x in ms[1..] ==> x in ms;
      assert forall x :: x in ms ==> x == ms[0] || x in ms[1..];
      if ms[0] <= rest then ms[0] else rest
  }

  predicate NoTerminator(s: string) {
    forall i :: 0 <= i < |s| ==> !IsLineTerminator(s[i])
  }

  /** `text.replace(new RegExp("^.{" + n + "}", "gm"), "")`: at every line
      start followed by `n` characters that are not line terminators,
      those characters are removed. A character here is a Unicode scalar
      value; the non-unicode pattern counts UTF-16 code units, which
      differs only for characters beyond U+FFFF. */
  function DropColumns(s: string, n: nat, atStart: bool): string
    requires n > 0
    decreases |s|
  {
    if s == [] then []
    else if atStart && n <= |s| && NoTerminator(s[..n]) then DropColumns(s[n..], n, false)
    else [s[0]] + DropColumns(s[1..], n, IsLineTerminator(s[0]))
  }

  /** `onEndResult` for type "initial". */
  function StripInitial(text: string): string {
    var ms := IndentMatches(text, true);
    if ms == [] then text
    else
      var n := Min(ms);
      if n == 0 then text else DropColumns(text, n, true)
  }

  /** `text.replace(/^[^\S\n]+/gm, "")`: at every line start the maximal
      run of non-newline whitespace is removed. */
  function StripAll(s: string, atStart: bool): string
    decreases |s|
  {
    if s == [] then []
    else if atStart && IsIndentChar(s[0]) then
      var k := RunLen(s);
      StripAll(s[k..], IsLineTerminator(s[k - 1]))
    else [s[0]] + StripAll(s[1..], IsLineTerminator(s[0]))
  }

  /** `stripIndentTransformer(type)`; the default type is "initial". */
  function StripIndent(kind: string, text: string): (r: Result<string>)
    ensures r.Err? <==> kind != "initial" && kind != "all"
    ensures r.Err? ==> r.error == PlainError("Unknown type: " + kind)
  {
    if kind == "initial" then Ok(StripInitial(text))
    else if kind == "all" then Ok(StripAll(text, true))
    else Err(PlainError("Unknown type: " + kind))
  }

  /** A line that starts with a visible character makes the minimum
      indentation 0, so "initial" leaves the text as it is. */
  lemma FlushLineKeepsText(a: string, b: string)
    requires a == [] || IsLineTerminator(a[|a| - 1])
    requires b != [] && !IsWhitespace(b[0])
    ensures StripIndent("initial", a + b) == Ok(a + b)
  {
    FlushLineMatchesZero(a, b, true);
    var ms := IndentMatches(a + b, true);
    assert Min(ms) <= 0;
  }

  lemma {:induction false} FlushLineMatchesZero(a: string, b: string, atStart: bool)
    requires a == [] ==> atStart
    requires a != [] ==> IsLineTerminator(a[|a| - 1])
    requires b != [] && !IsWhitespace(b[0])
    ensures 0 in IndentMatches(a + b, atStart)
    decreases |a|
  {
    var s := a + b;
    var k := RunLen(s);
    if a == [] {
      assert s == b && k == 0;
    } else {
      assert forall i :: |a| <= i < |s| ==> s[i] == b[i - |a|];
      assert s[|a|] == b[0];
      assert k <= |a|;
      if atStart && k < |s| && !IsWhitespace(s[k]) {
        if k == 0 {
          assert s[1..] == a[1..] + b;
          if |a| > 1 {
            FlushLineMatchesZero(a[1..], b, IsLineTerminator(s[0]));
          }
        } else if k == |a| {
          assert s[k..] == b;
          assert IsLineTerminator(s[k - 1]);
        } else {
          assert s[k..] == a[k..] + b;
          FlushLineMatchesZero(a[k..], b, IsLineTerminator(s[k - 1]));
        }
      } else {
        assert s[1..] == a[1..] + b;
        FlushLineMatchesZero(a[1..], b, IsLineTerminator(s[0]));
      }
    }
  }

  /** The text without its `[^\S\n]` characters. */
  function Visible(s: string): string {
    if s == [] then [] else (if IsIndentChar(s[0]) then [] else [s[0]]) + Visible(s[1..])
  }

  lemma {:induction false} VisibleAppend(a: string, b: string)
    ensures Visible(a + b) == Visible(a) + Visible(b)
  {
    if a == [] {
      assert a + b == b;
    } else {
      assert (a + b)[0] == a[0] && (a + b)[1..] == a[1..] + b;
      VisibleAppend(a[1..], b);
    }
  }

  lemma VisibleOfRun(s: string, k: nat)
    requires k <= |s| && forall i :: 0 <= i < k ==> IsIndentChar(s[i])
    ensures Visible(s) == Visible(s[k..])
  {
    if k > 0 {
      VisibleOfRun(s[1..], k - 1);
      assert s[1..][k - 1..] == s[k..];
    }
  }

  /** No line of `o` starts with non-newline whitespace; `atStart` says
      whether `o` itself begins a line. */
  predicate NoIndentedLine(o: string, atStart: bool) {
    && (atStart && |o| > 0 ==> !IsIndentChar(o[0]))
    && forall i :: 0 < i < |o| && IsLineTerminator(o[i - 1]) ==> !IsIndentChar(o[i])
  }

  /** "all" removes indentation and nothing else: the visible characters
      and the line structure they carry are unchanged. */
  lemma {:induction false} StripAllKeepsVisible(s: string, atStart: bool)
    ensures Visible(StripAll(s, atStart)) == Visible(s)
    decreases |s|
  {
    if s != [] {
      if atStart && IsIndentChar(s[0]) {
        var k := RunLen(s);
        StripAllKeepsVisible(s[k..], IsLineTerminator(s[k - 1]));
        VisibleOfRun(s, k);
      } else {
        StripAllKeepsVisible(s[1..], IsLineTerminator(s[0]));
        VisibleAppend([s[0]], StripAll(s[1..], IsLineTerminator(s[0])));
        VisibleAppend([s[0]], s[1..]);
        assert [s[0]] + s[1..] == s;
      }
    }
  }

  lemma StripAllHead(s: string, atStart: bool)
    requires s != [] && !IsIndentChar(s[0])
    ensures StripAll(s, atStart) == [s[0]] + StripAll(s[1..], IsLineTerminator(s[0]))
  {
  }

  /** After "all", no line starts with non-newline whitespace. */
  lemma {:induction false} StripAllUnindents(s: string, atStart: bool)
    ensures NoIndentedLine(StripAll(s, atStart), atStart)
    decreases |s|
  {
    if s != [] {
      if atStart && IsIndentChar(s[0]) {
        var k := RunLen(s);
        var rest := s[k..];
        StripAllUnindents(rest, IsLineTerminator(s[k - 1]));
        if rest != [] {
          StripAllHead(rest, IsLineTerminator(s[k - 1]));
        }
      } else {
        var st := IsLineTerminator(s[0]);
        var rest := StripAll(s[1..], st);
        StripAllUnindents(s[1..], st);
        var o := [s[0]] + rest;
        forall i | 0 < i < |o| && IsLineTerminator(o[i - 1]) ensures !IsIndentChar(o[i]) {
          assert o[i] == rest[i - 1];
          if i > 1 {
            assert o[i - 1] == rest[i - 2];
          }
        }
      }
    }
  }

  /** Text without indented lines is left alone by "all". */
  lemma {:induction false} StripAllKeepsUnindented(s: string, atStart: bool)
    requires NoIndentedLine(s, atStart)
    ensures StripAll(s, atStart) == s
    decreases |s|
  {
    if s != [] {
      var st := IsLineTerminator(s[0]);
      assert NoIndentedLine(s[1..], st) by {
        forall i | 0 < i < |s[1..]| && IsLineTerminator(s[1..][i - 1]) ensures !IsIndentChar(s[1..][i]) {
          assert s[1..][i] == s[i + 1];
        }
      }
      StripAllKeepsUnindented(s[1..], st);
      assert [s[0]] + s[1..] == s;
    }
  }

  /** Stripping all indentation twice is stripping it once. */
  lemma StripAllIdempotent(text: string)
    ensures StripIndent("all", StripIndent("all", text).value) == StripIndent("all", text)
  {
    StripAllUnindents(text, true);
    StripAllKeepsUnindented(StripAll(text, true), true);
  }

  /** One line without its first `n` characters, when it has that many. */
  function DropLine(line: string, n: nat): string {
    if n <= |line| then line[n..] else line
  }

  lemma {:induction false} DropColumnsMidLine(line: string, n: nat)
    requires n > 0 && NoTerminator(line)
    ensures DropColumns(line, n, false) == line
    decreases |line|
  {
    if line != [] {
      DropColumnsMidLine(line[1..], n);
      assert [line[0]] + line[1..] == line;
    }
  }

  /** A line start with `n` characters before the terminator drops
      them. */
  lemma DropAtLineStart(line: string, t: char, rest: string, n: nat)
    requires n > 0 && NoTerminator(line) && IsLineTerminator(t) && n <= |line|
    requires DropColumns(line[n..] + [t] + rest, n, false) == line[n..] + [t] + DropColumns(rest, n, true)
    ensures DropColumns(line + [t] + rest, n, true) == line[n..] + [t] + DropColumns(rest, n, true)
  {
    var s := line + [t] + rest;
    PrefixOfLine(line, t, rest, n);
    assert s[n..] == line[n..] + [t] + rest;
  }

  /** Elsewhere the first character of the line is kept. */
  lemma KeepLineHead(line: string, t: char, rest: string, n: nat, atStart: bool)
    requires n > 0 && NoTerminator(line) && IsLineTerminator(t) && line != []
    requires !(atStart && n <= |line|)
    requires DropColumns(line[1..] + [t] + rest, n, false) == line[1..] + [t] + DropColumns(rest, n, true)
    ensures DropColumns(line + [t] + rest, n, atStart) == line + [t] + DropColumns(rest, n, true)
  {
    var s := line + [t] + rest;
    PrefixOfLine(line, t, rest, n);
    assert s[1..] == line[1..] + [t] + rest;
    assert !IsLineTerminator(line[0]);
    assert [line[0]] + line[1..] == line;
  }

  /** An empty line keeps its terminator. */
  lemma EmptyLineKept(t: char, rest: string, n: nat, atStart: bool)
    requires n > 0 && IsLineTerminator(t)
    ensures DropColumns([t] + rest, n, atStart) == [t] + DropColumns(rest, n, true)
  {
    var s := [t] + rest;
    PrefixOfLine([], t, rest, n);
    assert [] + [t] + rest == s;
    assert s[1..] == rest;
  }

  /** "initial" with a positive minimum works line by line: from every
      line at least `n` long it removes the first `n` characters, and the
      line terminators stay where they are. */
  lemma {:induction false} DropColumnsByLine(line: string, t: char, rest: string, n: nat, atStart: bool)
    requires n > 0 && NoTerminator(line) && IsLineTerminator(t)
    ensures DropColumns(line + [t] + rest, n, atStart)
            == (if atStart then DropLine(line, n) else line) + [t] + DropColumns(rest, n, true)
    decreases |line|
  {
    if atStart && n <= |line| {
      DropColumnsByLine(line[n..], t, rest, n, false);
      DropAtLineStart(line, t, rest, n);
    } else if line == [] {
      EmptyLineKept(t, rest, n, atStart);
      assert [] + [t] + rest == [t] + rest;
    } else {
      DropColumnsByLine(line[1..], t, rest, n, false);
      KeepLineHead(line, t, rest, n, atStart);
    }
  }

  /** The first `n` characters of a line and what follows it are free of
      line terminators exactly when the line has at least `n` of its own. */
  lemma PrefixOfLine(line: string, t: char, rest: string, n: nat)
    requires NoTerminator(line) && IsLineTerminator(t)
    ensures n <= |line| + 1 + |rest| ==>
              (NoTerminator((line + [t] + rest)[..n]) <==> n <= |line|)
  {
    var s := line + [t] + rest;
    if n <= |s| {
      if n > |line| {
        assert s[..n][|line|] == t;
      } else {
        assert s[..n] == line[..n];
      }
    }
  }

  /** On the last line (no terminator) the same holds. */
  lemma LastLineDropped(line: string, n: nat)
    requires n > 0 && NoTerminator(line)
    ensures DropColumns(line, n, true) == DropLine(line, n)
  {
    if n <= |line| {
      assert line[..n] == line[..n];
      DropColumnsMidLine(line[n..], n);
    } else if line != [] {
      DropColumnsMidLine(line[1..], n);
      assert [line[0]] + line[1..] == line;
    }
  }

  // ---------------------------------------------------------------------
  // inlineArrayTransformer
  // ---------------------------------------------------------------------

  /** A substitution as it reaches `onSubstitution`: a plain value (its
      text) or an array of strings. */
  datatype Substitution = Plain(text: string) | Items(items: seq<string>)

  datatype InlineOptions = InlineOptions(separator: string, conjunction: string, serial: bool)

  /** The options used when none are given. */
  const DefaultInline: InlineOptions := InlineOptions("", "", false)

  /** Start of the maximal run of `[^\S\n]` characters ending the text. */
  function TrailingRunStart(r: string): (k: nat)
    ensures k <= |r|
    ensures forall i :: k <= i < |r| ==> IsIndentChar(r[i])
    ensures k == 0 || !IsIndentChar(r[k - 1])
    decreases |r|
  {
    if r != [] && IsIndentChar(r[|r| - 1]) then TrailingRunStart(r[..|r| - 1]) else |r|
  }

  /** Group 1 of `preceding.match(/(\n?[^\S\n]+)$/)`: the leftmost match
      takes the line feed in front of the trailing run when there is one. */
  function TrailingIndent(r: string): (m: Option<string>)
    ensures m.None? <==> r == [] || !IsIndentChar(r[|r| - 1])
    ensures m.Some? ==> && 0 < |m.value| <= |r|
                        && m.value == r[|r| - |m.value|..]
                        && AllWhitespace(m.value)
                        && (forall i :: 1 <= i < |m.value| ==> IsIndentChar(m.value[i]))
                        && (m.value[0] != '\n' && |m.value| < |r| ==>
                              !IsIndentChar(r[|r| - |m.value| - 1]) && r[|r| - |m.value| - 1] != '\n')
  {
    var k := TrailingRunStart(r);
    if k == |r| then None
    else if k > 0 && r[k - 1] == '\n' then Some(r[k - 1..])
    else Some(r[k..])
  }

  /** What follows the separator between two items: the preceding text's
      trailing indentation, or a single space. */
  function Spacing(preceding: string): (sp: string)
    ensures AllWhitespace(sp) && sp != []
  {
    var m := TrailingIndent(preceding);
    if m.Some? then m.value else " "
  }

  predicate OccursAt(t: string, sub: string, i: int) {
    0 <= i && i + |sub| <= |t| && t[i..i + |sub|] == sub
  }

  /** `t.lastIndexOf(sub)`: the last position where `sub` occurs, or -1,
      counted in Unicode scalar values rather than UTF-16 code units. */
  function LastIndexOf(t: string, sub: string): (r: int)
    ensures r == -1 || OccursAt(t, sub, r)
    ensures forall j :: OccursAt(t, sub, j) ==> j <= r
  {
    if |sub| > |t| then -1 else LastIndexOfFrom(t, sub, |t| - |sub|)
  }

  function LastIndexOfFrom(t: string, sub: string, i: int): (r: int)
    requires i + |sub| <= |t|
    requires forall j :: i < j && OccursAt(t, sub, j) ==> false
    ensures r == -1 || OccursAt(t, sub, r)
    ensures forall j :: OccursAt(t, sub, j) ==> j <= r
    decreases i + 1
  {
    if i < 0 then -1
    else if t[i..i + |sub|] == sub then i
    else LastIndexOfFrom(t, sub, i - 1)
  }

  /** `t.slice(k)` for a non-negative `k`. */
  function SliceFrom(t: string, k: nat): (r: string)
    ensures k <= |t| ==> r == t[k..]
    ensures k > |t| ==> r == []
  {
    if k >= |t| then [] else t[k..]
  }

  lemma JoinHasSeparator(items: seq<string>, sep: string, sp: string)
    requires |items| >= 2
    ensures OccursAt(JoinWith(items, sep + sp), sep, |JoinWith(items[..|items| - 1], sep + sp)|)
  {
    var x := JoinWith(items[..|items| - 1], sep + sp);
    var t := JoinWith(items, sep + sp);
    assert t == x + sep + (sp + items[|items| - 1]);
    assert t[|x|..|x| + |sep|] == sep;
  }

  /** The joined items with the conjunction spliced in at the last
      separator, the text resuming `skip` characters after the
      separator's start. */
  function Splice(opts: InlineOptions, items: seq<string>, preceding: string, skip: nat): string
    requires opts.conjunction != "" && |items| > 1
  {
    var t := JoinWith(items, opts.separator + Spacing(preceding));
    JoinHasSeparator(items, opts.separator, Spacing(preceding));
    var u := LastIndexOf(t, opts.separator);
    t[..u] + ConjunctionText(opts) + SliceFrom(t, u + skip)
  }

  /** What replaces the last separator: the separator again when serial,
      then a space and the conjunction. */
  function ConjunctionText(opts: InlineOptions): string {
    (if opts.serial then opts.separator else "") + " " + opts.conjunction
  }

  /** `onSubstitution` of `inlineArrayTransformer(opts)`, with the text
      the substitution follows. The last separator is cut out with
      `slice(u + 1)`, one character behind the separator's start. */
  function InlineArray(opts: InlineOptions, sub: Substitution, preceding: string): (r: Substitution)
    ensures sub.Plain? ==> r == sub
    ensures r.Plain?
    ensures sub.Items? && (opts.conjunction == "" || |sub.items| <= 1) ==>
              r.text == JoinWith(sub.items, opts.separator + Spacing(preceding))
  {
    match sub
    case Plain(_) => sub
    case Items(items) =>
      if opts.conjunction != "" && |items| > 1 then Plain(Splice(opts, items, preceding, 1))
      else Plain(JoinWith(items, opts.separator + Spacing(preceding)))
  }

  /** The same transformer cutting the separator out whole, with
      `slice(u + separator.length)`. */
  function InlineArrayFixed(opts: InlineOptions, sub: Substitution, preceding: string): (r: Substitution)
    ensures sub.Plain? ==> r == sub
    ensures r.Plain?
  {
    match sub
    case Plain(_) => sub
    case Items(items) =>
      if opts.conjunction != "" && |items| > 1 then Plain(Splice(opts, items, preceding, |opts.separator|))
      else Plain(JoinWith(items, opts.separator + Spacing(preceding)))
  }

  /** No character of `s` occurs in `chars`. */
  predicate NoCharOf(s: string, chars: string) {
    forall i :: 0 <= i < |s| ==> s[i] !in chars
  }

  /** The last occurrence of `sep` in `x + sep + y` is the one in the
      middle when no character of `sep` occurs in `y`. */
  lemma LastOccurrence(x: string, sep: string, y: string)
    requires sep != []
    requires NoCharOf(y, sep)
    ensures LastIndexOf(x + sep + y, sep) == |x|
  {
    var t := x + sep + y;
    assert t[|x|..|x| + |sep|] == sep;
    assert OccursAt(t, sep, |x|);
    forall j | j > |x| ensures !OccursAt(t, sep, j) {
      LaterOccurrenceImpossible(x, sep, y, j);
    }
  }

  lemma LaterOccurrenceImpossible(x: string, sep: string, y: string, j: int)
    requires sep != [] && NoCharOf(y, sep) && j > |x|
    ensures !OccursAt(x + sep + y, sep, j)
  {
    var t := x + sep + y;
    if j + |sep| <= |t| {
      var last := j + |sep| - 1;
      assert t[last] == y[last - |x| - |sep|];
      assert t[j..j + |sep|][|sep| - 1] == t[last];
      assert sep[|sep| - 1] in sep;
    }
  }

  /** The joined list is the joined initial items, the separator, and
      the spaced last item; with a separator of non-whitespace characters
      none of which occurs in the last item, the last occurrence of the
      separator is that one. */
  lemma LastSeparatorAt(items: seq<string>, sep: string, sp: string)
    requires sep != [] && |items| >= 2 && AllWhitespace(sp)
    requires forall i :: 0 <= i < |sep| ==> !IsWhitespace(sep[i])
    requires NoCharOf(items[|items| - 1], sep)
    ensures var x := JoinWith(items[..|items| - 1], sep + sp);
            var t := JoinWith(items, sep + sp);
            && t == x + sep + (sp + items[|items| - 1])
            && LastIndexOf(t, sep) == |x|
            && t[..|x|] == x
  {
    var x := JoinWith(items[..|items| - 1], sep + sp);
    var last := items[|items| - 1];
    var y := sp + last;
    var t := JoinWith(items, sep + sp);
    assert t == x + sep + y;
    forall i | 0 <= i < |y| ensures y[i] !in sep {
      if i < |sp| {
        assert IsWhitespace(y[i]);
      } else {
        assert y[i] == last[i - |sp|];
      }
    }
    LastOccurrence(x, sep, y);
  }

  /** Cutting `x + sep + (sp + last)` at the end of `x` and resuming
      `skip` characters into `sep`. */
  lemma SpliceShape(x: string, sep: string, sp: string, last: string, mid: string, skip: nat)
    requires skip <= |sep|
    ensures var t := x + sep + (sp + last);
            t[..|x|] + mid + SliceFrom(t, |x| + skip) == x + mid + sep[skip..] + sp + last
  {
    var t := x + sep + (sp + last);
    assert t[..|x|] == x;
    assert SliceFrom(t, |x| + skip) == sep[skip..] + (sp + last);
  }

  /** Where the separator's last occurrence is known, the splice keeps
      the text before it and resumes `skip` characters into it. */
  lemma SpliceAt(opts: InlineOptions, items: seq<string>, preceding: string, skip: nat)
    requires opts.conjunction != "" && |items| > 1
    requires var sp := Spacing(preceding);
             LastIndexOf(JoinWith(items, opts.separator + sp), opts.separator)
               == |JoinWith(items[..|items| - 1], opts.separator + sp)|
    ensures var sp := Spacing(preceding);
            var x := JoinWith(items[..|items| - 1], opts.separator + sp);
            var t := JoinWith(items, opts.separator + sp);
            Splice(opts, items, preceding, skip) == t[..|x|] + ConjunctionText(opts) + SliceFrom(t, |x| + skip)
  {
  }

  /** With a conjunction, the corrected transformer writes the list as
      "a, b and c" (or "a, b, and c" when serial): every item but the
      last joined as usual, then the conjunction before the last item.
      It suffices that the separator has no whitespace and shares no
      character with the last item. */
  lemma InlineListWithConjunction(opts: InlineOptions, items: seq<string>, preceding: string)
    requires opts.separator != [] && opts.conjunction != "" && |items| >= 2
    requires forall i :: 0 <= i < |opts.separator| ==> !IsWhitespace(opts.separator[i])
    requires NoCharOf(items[|items| - 1], opts.separator)
    ensures var sp := Spacing(preceding);
            var init := items[..|items| - 1];
            InlineArrayFixed(opts, Items(items), preceding).text
              == JoinWith(init, opts.separator + sp) + ConjunctionText(opts) + sp + items[|items| - 1]
  {
    var sp := Spacing(preceding);
    var sep := opts.separator;
    var x := JoinWith(items[..|items| - 1], sep + sp);
    LastSeparatorAt(items, sep, sp);
    SpliceAt(opts, items, preceding, |sep|);
    SpliceShape(x, sep, sp, items[|items| - 1], ConjunctionText(opts), |sep|);
    assert sep[|sep|..] == [];
  }

  /** With a one-character separator, as everywhere in this repository,
      the transformer as written and the corrected one agree. */
  lemma SingleCharSeparatorAgrees(opts: InlineOptions, sub: Substitution, preceding: string)
    requires |opts.separator| == 1
    ensures InlineArray(opts, sub, preceding) == InlineArrayFixed(opts, sub, preceding)
  {
  }

  /** What the transformer as written produces under the same
      conditions: everything after the separator's first character
      survives in front of the last item. */
  lemma InlineListAsWritten(opts: InlineOptions, items: seq<string>, preceding: string)
    requires opts.separator != [] && opts.conjunction != "" && |items| >= 2
    requires forall i :: 0 <= i < |opts.separator| ==> !IsWhitespace(opts.separator[i])
    requires NoCharOf(items[|items| - 1], opts.separator)
    ensures var sp := Spacing(preceding);
            var init := items[..|items| - 1];
            InlineArray(opts, Items(items), preceding).text
              == JoinWith(init, opts.separator + sp) + ConjunctionText(opts) + opts.separator[1..] + sp + items[|items| - 1]
  {
    var sp := Spacing(preceding);
    var sep := opts.separator;
    var x := JoinWith(items[..|items| - 1], sep + sp);
    LastSeparatorAt(items, sep, sp);
    SpliceAt(opts, items, preceding, 1);
    SpliceShape(x, sep, sp, items[|items| - 1], ConjunctionText(opts), 1);
  }

  lemma SpacingAtStart()
    ensures Spacing("") == " "
  {
  }

  /** The joined items `a-- b`, with `a` before the last separator. */
  lemma DashedPair(opts: InlineOptions, items: seq<string>)
    requires opts == InlineOptions("--", "and", false) && items == ["a", "b"]
    ensures NoCharOf(items[|items| - 1], opts.separator)
    ensures forall i :: 0 <= i < |opts.separator| ==> !IsWhitespace(opts.separator[i])
    ensures JoinWith(items[..|items| - 1], opts.separator + Spacing("")) == "a"
  {
    SpacingAtStart();
    assert items[..1] == ["a"];
  }

  lemma DashedAsWrittenText()
    ensures "a" + " and" + "-" + " " + "b" == "a and- b"
  {
    assert "a" + " and" == "a and";
    assert "a and" + "-" == "a and-";
    assert "a and-" + " " == "a and- ";
  }

  lemma DashedFixedText()
    ensures "a" + " and" + " " + "b" == "a and b"
  {
    assert "a" + " and" == "a and";
    assert "a and" + " " == "a and ";
  }

  lemma DashedAsWritten()
    ensures InlineArray(InlineOptions("--", "and", false), Items(["a", "b"]), "") == Plain("a and- b")
  {
    var opts := InlineOptions("--", "and", false);
    var items := ["a", "b"];
    DashedPair(opts, items);
    InlineListAsWritten(opts, items, "");
    SpacingAtStart();
    assert ConjunctionText(opts) == " and";
    DashedAsWrittenText();
  }

  lemma DashedFixed()
    ensures InlineArrayFixed(InlineOptions("--", "and", false), Items(["a", "b"]), "") == Plain("a and b")
  {
    var opts := InlineOptions("--", "and", false);
    var items := ["a", "b"];
    DashedPair(opts, items);
    InlineListWithConjunction(opts, items, "");
    SpacingAtStart();
    assert ConjunctionText(opts) == " and";
    DashedFixedText();
  }

  /** A two-character separator shows the discrepancy: the items
      ["a", "b"] with separator "--" and conjunction "and" become
      "a and- b", keeping half of the separator. */
  lemma MultiCharSeparatorSplit()
    ensures InlineArray(InlineOptions("--", "and", false), Items(["a", "b"]), "") == Plain("a and- b")
    ensures InlineArrayFixed(InlineOptions("--", "and", false), Items(["a", "b"]), "") == Plain("a and b")
  {
    DashedAsWritten();
    DashedFixed();
  }
}
