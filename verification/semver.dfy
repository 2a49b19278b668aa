/** `getSemVer(version)`: the version string is kept when it matches the
    Semantic Versioning 2.0.0 grammar (MAJOR.MINOR.PATCH without leading
    zeros, section 2; an optional `-` pre-release of dot-separated
    identifiers, section 9; an optional `+` build metadata, section 10),
    and replaced by the npm dist-tag "latest" otherwise. The regular
    expression carries the flags "gm", so `^` and `$` also anchor at line
    breaks and one matching line is enough. */
module SemVer {
  import opened JsValues
  import opened Wrappers

  predicate AllDigits(s: string) {
    forall i :: 0 <= i < |s| ==> IsDigit(s[i])
  }

  /** `[0-9a-zA-Z-]` */
  predicate IsIdentChar(c: char) {
    IsAsciiLetter(c) || IsDigit(c) || c == '-'
  }

  predicate AllIdentChars(s: string) {
    forall i :: 0 <= i < |s| ==> IsIdentChar(s[i])
  }

  /** `0|[1-9]\d*` */
  predicate IsNumericId(s: string) {
    s == "0" || (|s| > 0 && '1' <= s[0] <= '9' && AllDigits(s))
  }

  /** `0|[1-9]\d*|\d*[a-zA-Z-][0-9a-zA-Z-]*`: a numeric identifier, or a
      non-empty alphanumeric-or-hyphen identifier with a non-digit. */
  predicate IsPreReleaseId(s: string) {
    || IsNumericId(s)
    || (|s| > 0 && AllIdentChars(s) && exists i :: 0 <= i < |s| && !IsDigit(s[i]))
  }

  /** `[0-9a-zA-Z-]+` */
  predicate IsBuildId(s: string) {
    |s| > 0 && AllIdentChars(s)
  }

  /** `s.indexOf(c)`: the first position of `c`, or -1. */
  function IndexOf(s: string, c: char): (i: int)
    ensures -1 <= i < |s|
    ensures i == -1 <==> c !in s
    ensures i >= 0 ==> s[i] == c && c !in s[..i]
  {
    if s == [] then -1
    else if s[0] == c then 0
    else
      var j := IndexOf(s[1..], c);
      if j < 0 then -1
      else
        assert s[..j + 1] == [s[0]] + s[1..][..j];
        j + 1
  }

  /** `s.split(c)` for a one-character separator. */
  function Split(s: string, c: char): (parts: seq<string>)
    ensures |parts| > 0
    ensures forall k :: 0 <= k < |parts| ==> c !in parts[k]
    decreases |s|
  {
    var i := IndexOf(s, c);
    if i < 0 then [s] else [s[..i]] + Split(s[i + 1..], c)
  }

  /** `parts.join(c)`. */
  function Join(parts: seq<string>, c: char): string
    requires |parts| > 0
  {
    if |parts| == 1 then parts[0] else parts[0] + [c] + Join(parts[1..], c)
  }

  /** The text before the first `+`, and the text after it if there is one. */
  function AtPlus(s: string): (string, Option<string>) {
    var plus := IndexOf(s, '+');
    if plus < 0 then (s, None) else (s[..plus], Some(s[plus + 1..]))
  }

  /** The text before the first `-`, and the text after it if there is one. */
  function AtDash(s: string): (string, Option<string>) {
    var dash := IndexOf(s, '-');
    if dash < 0 then (s, None) else (s[..dash], Some(s[dash + 1..]))
  }

  /** `(0|[1-9]\d*)\.(0|[1-9]\d*)\.(0|[1-9]\d*)` */
  predicate IsCore(core: string) {
    var parts := Split(core, '.');
    |parts| == 3 && IsNumericId(parts[0]) && IsNumericId(parts[1]) && IsNumericId(parts[2])
  }

  /** An optional dot-separated list whose every item satisfies `ok`. */
  predicate DottedOk(text: Option<string>, ok: string -> bool) {
    text.Some? ==> forall p :: p in Split(text.value, '.') ==> ok(p)
  }

  /** A string matched in full by the version regular expression: the
      text before the first `+` splits at its first `-` into the core
      and the pre-release; the core has exactly three numeric
      identifiers; every pre-release and build identifier is well formed.
      Neither the core nor the pre-release can hold a `+`, and the core
      cannot hold a `-`, so these first occurrences are where the
      regular expression's optional groups begin. */
  predicate IsVersion(s: string) {
    var (main, build) := AtPlus(s);
    var (core, pre) := AtDash(main);
    IsCore(core) && DottedOk(pre, IsPreReleaseId) && DottedOk(build, IsBuildId)
  }

  predicate NoLineTerminator(s: string) {
    forall i :: 0 <= i < |s| ==> !IsLineTerminator(s[i])
  }

  /** The position of the last line terminator, or -1. */
  function LastBreak(s: string): (i: int)
    ensures -1 <= i < |s|
    ensures i >= 0 ==> IsLineTerminator(s[i]) && NoLineTerminator(s[i + 1..])
    ensures i < 0 ==> NoLineTerminator(s)
  {
    if s == [] then -1
    else if IsLineTerminator(s[|s| - 1]) then |s| - 1
    else
      var j := LastBreak(s[..|s| - 1]);
      if j >= 0 then assert s[j + 1..] == s[..|s| - 1][j + 1..] + [s[|s| - 1]]; j else j
  }

  /** The lines that `^` and `$` delimit under the `m` flag. */
  function Lines(s: string): (ls: seq<string>)
    ensures |ls| > 0
    decreases |s|
  {
    var i := LastBreak(s);
    if i < 0 then [s] else Lines(s[..i]) + [s[i + 1..]]
  }

  /** No line holds a line terminator. */
  lemma {:induction false} LinesHaveNoBreaks(s: string)
    ensures forall k :: 0 <= k < |Lines(s)| ==> NoLineTerminator(Lines(s)[k])
    decreases |s|
  {
    var i := LastBreak(s);
    if i >= 0 {
      var init := Lines(s[..i]);
      LinesHaveNoBreaks(s[..i]);
      assert Lines(s) == init + [s[i + 1..]];
      forall k | 0 <= k < |Lines(s)|
        ensures NoLineTerminator(Lines(s)[k])
      {
        if k < |init| {
          assert Lines(s)[k] == init[k];
        }
      }
    }
  }

  /** `version.match(re) !== null`. */
  predicate Matches(s: string) {
    exists k :: 0 <= k < |Lines(s)| && IsVersion(Lines(s)[k])
  }

  /** `getSemVer(version)`. */
  function GetSemVer(version: string): (r: string)
    ensures r == version || r == "latest"
    ensures r == version <== Matches(version)
    ensures r == "latest" <== !Matches(version)
  {
    if Matches(version) then version else "latest"
  }

  // ---------------------------------------------------------------------
  // Properties
  // ---------------------------------------------------------------------

  lemma SplitHead(s: string, c: char)
    ensures |Split(s, c)[0]| <= |s| && Split(s, c)[0] == s[..|Split(s, c)[0]|]
  {
  }

  /** A string whose first character is not a digit (a range such as
      `^1.2.3`, `~1.0.0`, `>=2`, a tag such as "latest", or the empty
      string) is never a version. */
  lemma NonDigitStartIsNotVersion(s: string)
    requires s == [] || !IsDigit(s[0])
    ensures !IsVersion(s)
  {
    var main := AtPlus(s).0;
    var core := AtDash(main).0;
    SplitHead(core, '.');
    var head := Split(core, '.')[0];
    if head != [] {
      assert head[0] == core[0] == main[0] == s[0];
    }
  }

  lemma {:induction false} SplitHeadLong(s: string, c: char, k: nat)
    requires k <= |s| && c !in s[..k]
    ensures |Split(s, c)[0]| >= k
  {
  }

  /** A major version with a leading zero (section 2 of Semantic
      Versioning 2.0.0 forbids it), such as `01.2.3`, is not a version. */
  lemma LeadingZeroIsNotVersion(d: char, rest: string)
    requires IsDigit(d)
    ensures !IsVersion(['0', d] + rest)
  {
    var s := ['0', d] + rest;
    var main := AtPlus(s).0;
    var core := AtDash(main).0;
    if |core| >= 2 {
      assert core[..2] == s[..2];
      SplitHeadLong(core, '.', 2);
      SplitHead(core, '.');
      var head := Split(core, '.')[0];
      assert head[0] == '0' && |head| >= 2;
    } else {
      SplitHead(core, '.');
    }
  }

  lemma SingleLine(s: string)
    requires NoLineTerminator(s)
    ensures Lines(s) == [s]
  {
  }

  lemma NonDigitStartIsLatest(s: string)
    requires NoLineTerminator(s)
    requires s == [] || !IsDigit(s[0])
    ensures GetSemVer(s) == "latest"
  {
    SingleLine(s);
    NonDigitStartIsNotVersion(s);
  }

  /** `getSemVer` is idempotent. */
  lemma Idempotent(version: string)
    ensures GetSemVer(GetSemVer(version)) == GetSemVer(version)
  {
    if !Matches(version) {
      NonDigitStartIsLatest("latest");
    }
  }

  /** With the `m` flag a valid version on the last line of a longer text
      makes the whole text, line breaks included, come back unchanged. */
  lemma MultiLineKept(text: string, brk: char, version: string)
    requires IsLineTerminator(brk) && NoLineTerminator(version)
    requires IsVersion(version)
    ensures GetSemVer(text + [brk] + version) == text + [brk] + version
  {
    var s := text + [brk] + version;
    LastBreakAfter(text, brk, version);
    assert s[..|text|] == text && s[|text| + 1..] == version;
    assert Lines(s) == Lines(text) + [version];
    assert Lines(s)[|Lines(text)|] == version;
  }

  lemma {:induction false} LastBreakAfter(text: string, brk: char, tail: string)
    requires IsLineTerminator(brk) && NoLineTerminator(tail)
    ensures LastBreak(text + [brk] + tail) == |text|
    decreases |tail|
  {
    var s := text + [brk] + tail;
    if tail != [] {
      assert s[..|s| - 1] == text + [brk] + tail[..|tail| - 1];
      LastBreakAfter(text, brk, tail[..|tail| - 1]);
    }
  }

  // ---------------------------------------------------------------------
  // Every well-formed version is accepted
  // ---------------------------------------------------------------------

  /** A version in the sense of Semantic Versioning 2.0.0. */
  datatype Version = Version(major: nat, minor: nat, patch: nat, pre: seq<string>, build: seq<string>)

  predicate WellFormed(v: Version) {
    && (forall k :: 0 <= k < |v.pre| ==> IsPreReleaseId(v.pre[k]))
    && (forall k :: 0 <= k < |v.build| ==> IsBuildId(v.build[k]))
  }

  /** The text form of a version. */
  function Format(v: Version): string {
    if v.build == [] then MainText(v) else MainText(v) + "+" + Join(v.build, '.')
  }

  lemma IndexOfAfter(a: string, c: char, b: string)
    requires c !in a
    ensures IndexOf(a + [c] + b, c) == |a|
  {
    var s := a + [c] + b;
    assert s[|a|] == c && s[..|a|] == a;
  }

  lemma {:induction false} SplitJoin(parts: seq<string>, c: char)
    requires |parts| > 0
    requires forall k :: 0 <= k < |parts| ==> c !in parts[k]
    ensures Split(Join(parts, c), c) == parts
    decreases |parts|
  {
    if |parts| > 1 {
      var rest := Join(parts[1..], c);
      var s := parts[0] + [c] + rest;
      assert Join(parts, c) == s;
      IndexOfAfter(parts[0], c, rest);
      assert s[..|parts[0]|] == parts[0];
      assert s[|parts[0]| + 1..] == rest;
      assert Split(s, c) == [parts[0]] + Split(rest, c);
      SplitJoin(parts[1..], c);
      assert parts == [parts[0]] + parts[1..];
    }
  }

  predicate CharsIn(s: string, ok: char -> bool) {
    forall i :: 0 <= i < |s| ==> ok(s[i])
  }

  lemma {:induction false} JoinChars(parts: seq<string>, c: char, ok: char -> bool)
    requires |parts| > 0 && ok(c)
    requires forall k :: 0 <= k < |parts| ==> CharsIn(parts[k], ok)
    ensures CharsIn(Join(parts, c), ok)
    decreases |parts|
  {
    if |parts| > 1 {
      JoinChars(parts[1..], c, ok);
    }
  }

  lemma CharsInConcat(a: string, b: string, ok: char -> bool)
    requires CharsIn(a, ok) && CharsIn(b, ok)
    ensures CharsIn(a + b, ok)
  {
    forall i | 0 <= i < |a + b| ensures ok((a + b)[i]) {
      if i >= |a| { assert (a + b)[i] == b[i - |a|]; }
    }
  }

  lemma NotIn(s: string, c: char, ok: char -> bool)
    requires CharsIn(s, ok) && !ok(c)
    ensures c !in s
  {
  }

  predicate CoreChar(c: char) { IsDigit(c) || c == '.' }
  predicate MainChar(c: char) { IsIdentChar(c) || c == '.' }
  predicate VersionChar(c: char) { MainChar(c) || c == '+' }

  lemma NatToStringNumeric(n: nat)
    ensures IsNumericId(NatToString(n)) && '.' !in NatToString(n)
  {
    NatToStringLeading(n);
  }

  lemma {:induction false} NatToStringLeading(n: nat)
    ensures NatToString(n) == "0" || NatToString(n)[0] != '0'
    decreases n
  {
    if n >= 10 {
      NatToStringLeading(n / 10);
      assert NatToString(n)[0] == NatToString(n / 10)[0];
    }
  }

  function CoreIds(v: Version): (ids: seq<string>)
    ensures |ids| == 3
    ensures forall k :: 0 <= k < 3 ==> IsNumericId(ids[k]) && CharsIn(ids[k], CoreChar) && '.' !in ids[k]
  {
    NatToStringNumeric(v.major);
    NatToStringNumeric(v.minor);
    NatToStringNumeric(v.patch);
    [NatToString(v.major), NatToString(v.minor), NatToString(v.patch)]
  }

  lemma CoreAccepted(v: Version)
    ensures IsCore(CoreText(v))
    ensures CharsIn(CoreText(v), CoreChar)
  {
    var ids := CoreIds(v);
    SplitJoin(ids, '.');
    JoinChars(ids, '.', CoreChar);
  }

  lemma DottedAccepted(ids: seq<string>, ok: string -> bool)
    requires |ids| > 0
    requires forall k :: 0 <= k < |ids| ==> ok(ids[k]) && CharsIn(ids[k], IsIdentChar)
    ensures DottedOk(Some(Join(ids, '.')), ok)
    ensures CharsIn(Join(ids, '.'), MainChar)
  {
    forall k | 0 <= k < |ids| ensures '.' !in ids[k] && CharsIn(ids[k], MainChar) {
      NotIn(ids[k], '.', IsIdentChar);
    }
    SplitJoin(ids, '.');
    JoinChars(ids, '.', MainChar);
  }

  function CoreText(v: Version): string {
    Join(CoreIds(v), '.')
  }

  function MainText(v: Version): string {
    if v.pre == [] then CoreText(v) else CoreText(v) + "-" + Join(v.pre, '.')
  }

  lemma SplitAtDash(core: string, pre: string)
    requires '-' !in core
    ensures AtDash(core + "-" + pre) == (core, Some(pre))
  {
    var s := core + "-" + pre;
    IndexOfAfter(core, '-', pre);
    assert s[..|core|] == core && s[|core| + 1..] == pre;
  }

  lemma CoreIsMainChars(s: string)
    requires CharsIn(s, CoreChar)
    ensures CharsIn(s, MainChar)
  {
    forall i | 0 <= i < |s| ensures MainChar(s[i]) {
      assert CoreChar(s[i]);
    }
  }

  lemma MainAccepted(v: Version)
    requires WellFormed(v)
    ensures AtDash(MainText(v)) == (CoreText(v), if v.pre == [] then None else Some(Join(v.pre, '.')))
    ensures IsCore(AtDash(MainText(v)).0) && DottedOk(AtDash(MainText(v)).1, IsPreReleaseId)
    ensures CharsIn(MainText(v), MainChar)
  {
    var core := CoreText(v);
    CoreAccepted(v);
    NotIn(core, '-', CoreChar);
    CoreIsMainChars(core);
    if v.pre != [] {
      forall k | 0 <= k < |v.pre| ensures CharsIn(v.pre[k], IsIdentChar) {
        assert IsPreReleaseId(v.pre[k]);
      }
      var pre := Join(v.pre, '.');
      DottedAccepted(v.pre, IsPreReleaseId);
      SplitAtDash(core, pre);
      assert CharsIn("-", MainChar);
      CharsInConcat(core, "-", MainChar);
      CharsInConcat(core + "-", pre, MainChar);
    }
  }

  function BuildPart(v: Version): Option<string> {
    if v.build == [] then None else Some(Join(v.build, '.'))
  }

  lemma SplitAtPlus(main: string, build: string)
    requires '+' !in main
    ensures AtPlus(main + "+" + build) == (main, Some(build))
  {
    var s := main + "+" + build;
    IndexOfAfter(main, '+', build);
    assert s[..|main|] == main && s[|main| + 1..] == build;
  }

  lemma PlusAccepted(v: Version)
    requires WellFormed(v)
    ensures AtPlus(Format(v)) == (MainText(v), BuildPart(v))
    ensures DottedOk(BuildPart(v), IsBuildId)
  {
    var main := MainText(v);
    MainAccepted(v);
    NotIn(main, '+', MainChar);
    if v.build != [] {
      DottedAccepted(v.build, IsBuildId);
      SplitAtPlus(main, Join(v.build, '.'));
    }
  }

  lemma MainIsVersionChars(s: string)
    requires CharsIn(s, MainChar)
    ensures CharsIn(s, VersionChar)
  {
    forall i | 0 <= i < |s| ensures VersionChar(s[i]) {
      assert MainChar(s[i]);
    }
  }

  lemma VersionCharsNoBreak(s: string)
    requires CharsIn(s, VersionChar)
    ensures NoLineTerminator(s)
  {
    forall i | 0 <= i < |s| ensures !IsLineTerminator(s[i]) {
      assert VersionChar(s[i]);
    }
  }

  lemma FormatChars(v: Version)
    requires WellFormed(v)
    ensures NoLineTerminator(Format(v))
  {
    var main := MainText(v);
    MainAccepted(v);
    MainIsVersionChars(main);
    if v.build != [] {
      var build := Join(v.build, '.');
      DottedAccepted(v.build, IsBuildId);
      MainIsVersionChars(build);
      assert CharsIn("+", VersionChar);
      CharsInConcat(main, "+", VersionChar);
      CharsInConcat(main + "+", build, VersionChar);
      assert Format(v) == main + "+" + build;
    }
    VersionCharsNoBreak(Format(v));
  }

  /** Every well-formed version, written out, is accepted and returned
      unchanged. */
  lemma FormatAccepted(v: Version)
    requires WellFormed(v)
    ensures IsVersion(Format(v))
    ensures GetSemVer(Format(v)) == Format(v)
  {
    PlusAccepted(v);
    MainAccepted(v);
    FormatChars(v);
    var s := Format(v);
    SingleLine(s);
    assert IsVersion(Lines(s)[0]);
  }

  // ---------------------------------------------------------------------
  // Every accepted line is a well-formed version
  // ---------------------------------------------------------------------

  /** The value of a decimal digit. */
  function DigitValue(c: char): (d: nat)
    requires IsDigit(c)
    ensures d < 10 && DigitChar(d) == c
  {
    var d := c as int - '0' as int;
    assert DigitChar(d) == c by {
      if d == 0 {} else if d == 1 {} else if d == 2 {} else if d == 3 {} else if d == 4 {}
      else if d == 5 {} else if d == 6 {} else if d == 7 {} else if d == 8 {} else {}
    }
    d
  }

  /** The number a non-empty run of decimal digits denotes. */
  function ParseNat(s: string): nat
    requires |s| > 0 && AllDigits(s)
    decreases |s|
  {
    if |s| == 1 then DigitValue(s[0])
    else ParseNat(s[..|s| - 1]) * 10 + DigitValue(s[|s| - 1])
  }

  /** Digits without a leading zero are the decimal form of their value. */
  lemma {:induction false} ParseNatRoundTrip(s: string)
    requires |s| > 0 && AllDigits(s) && (s == "0" || s[0] != '0')
    ensures NatToString(ParseNat(s)) == s
    ensures s != "0" ==> ParseNat(s) >= 1
    ensures |s| > 1 ==> ParseNat(s) >= 10
    decreases |s|
  {
    if |s| > 1 {
      var init := s[..|s| - 1];
      assert init[0] == s[0] != '0' && init != "0";
      ParseNatRoundTrip(init);
      var n := ParseNat(s);
      var d := DigitValue(s[|s| - 1]);
      assert n / 10 == ParseNat(init) && n % 10 == d;
      assert s == init + [s[|s| - 1]];
    }
  }

  lemma NumericIdRoundTrip(s: string)
    requires IsNumericId(s)
    ensures NatToString(ParseNat(s)) == s
  {
    ParseNatRoundTrip(s);
  }

  /** Joining the pieces of a split gives the text back. */
  lemma {:induction false} JoinSplit(s: string, c: char)
    ensures Join(Split(s, c), c) == s
    decreases |s|
  {
    var i := IndexOf(s, c);
    if i >= 0 {
      var head, rest := s[..i], s[i + 1..];
      var tail := Split(rest, c);
      JoinSplit(rest, c);
      assert Split(s, c) == [head] + tail;
      JoinCons(head, tail, c);
      RejoinAt(s, i);
    }
  }

  lemma JoinCons(head: string, tail: seq<string>, c: char)
    requires |tail| > 0
    ensures Join([head] + tail, c) == head + [c] + Join(tail, c)
  {
    assert ([head] + tail)[1..] == tail;
  }

  lemma RejoinAt(s: string, i: nat)
    requires i < |s|
    ensures s == s[..i] + [s[i]] + s[i + 1..]
  {
  }

  /** The pieces of an optional dot-separated list. */
  function Pieces(text: Option<string>): seq<string> {
    if text.None? then [] else Split(text.value, '.')
  }

  /** Reads a version back from a line the pattern accepts. */
  function Parse(s: string): Version
    requires IsVersion(s)
  {
    var (main, build) := AtPlus(s);
    var (core, pre) := AtDash(main);
    var parts := Split(core, '.');
    Version(ParseNat(parts[0]), ParseNat(parts[1]), ParseNat(parts[2]), Pieces(pre), Pieces(build))
  }

  lemma DottedPieces(text: Option<string>, ok: string -> bool)
    requires DottedOk(text, ok)
    ensures forall k :: 0 <= k < |Pieces(text)| ==> ok(Pieces(text)[k])
    ensures text.Some? ==> |Pieces(text)| > 0 && Join(Pieces(text), '.') == text.value
  {
    if text.Some? {
      JoinSplit(text.value, '.');
      forall k | 0 <= k < |Pieces(text)| ensures ok(Pieces(text)[k]) {
        assert Pieces(text)[k] in Split(text.value, '.');
      }
    }
  }

  lemma ParseCore(s: string)
    requires IsVersion(s)
    ensures CoreText(Parse(s)) == AtDash(AtPlus(s).0).0
  {
    var core := AtDash(AtPlus(s).0).0;
    var parts := Split(core, '.');
    NumericIdRoundTrip(parts[0]);
    NumericIdRoundTrip(parts[1]);
    NumericIdRoundTrip(parts[2]);
    assert CoreIds(Parse(s)) == parts;
    JoinSplit(core, '.');
  }

  lemma AtDashRejoin(main: string)
    ensures AtDash(main).1.None? ==> AtDash(main).0 == main
    ensures AtDash(main).1.Some? ==> main == AtDash(main).0 + "-" + AtDash(main).1.value
  {
    var dash := IndexOf(main, '-');
    if dash >= 0 {
      assert main == main[..dash] + "-" + main[dash + 1..];
    }
  }

  lemma AtPlusRejoin(s: string)
    ensures AtPlus(s).1.None? ==> AtPlus(s).0 == s
    ensures AtPlus(s).1.Some? ==> s == AtPlus(s).0 + "+" + AtPlus(s).1.value
  {
    var plus := IndexOf(s, '+');
    if plus >= 0 {
      assert s == s[..plus] + "+" + s[plus + 1..];
    }
  }

  /** Every line the pattern accepts is the text form of a well-formed
      version, the one `Parse` reads from it. */
  lemma ParseFormat(s: string)
    requires IsVersion(s)
    ensures WellFormed(Parse(s)) && Format(Parse(s)) == s
  {
    var v := Parse(s);
    var (main, build) := AtPlus(s);
    var (core, pre) := AtDash(main);
    DottedPieces(pre, IsPreReleaseId);
    DottedPieces(build, IsBuildId);
    ParseCore(s);
    AtDashRejoin(main);
    AtPlusRejoin(s);
    assert MainText(v) == main;
  }

  /** The pattern accepts a line exactly when it is a well-formed
      Semantic Versioning 2.0.0 version written out. */
  lemma AcceptsExactlyVersions(s: string)
    ensures IsVersion(s) <==> exists v :: WellFormed(v) && Format(v) == s
  {
    if IsVersion(s) {
      ParseFormat(s);
    }
    if exists v :: WellFormed(v) && Format(v) == s {
      var v :| WellFormed(v) && Format(v) == s;
      FormatAccepted(v);
    }
  }
}
