/** The vendored `camelcase` package: `camelCase(input, {pascalCase})`.
    The input is normalised (trimmed, or an array's trimmed non-empty
    elements joined with `-`), hyphens are inserted at case changes, the
    leading separators are dropped, the text is lower-cased, and every run
    of the separators `_ . - space` is folded into a capital on the
    following character; a letter after digits is capitalised too. Case
    mapping and `\w` are ASCII. */
module CamelCase {
  import opened JsValues
  import opened Wrappers

  /** What the caller passes: a string, an array of strings, or anything
      else. */
  datatype Input =
    | Text(s: string)
    | List(items: seq<string>)
    | Other

  const InputTypeMessage := "Expected the input to be `string | string[]`"

  /** The class `[_.\- ]`. */
  predicate IsSep(c: char) {
    c == '_' || c == '.' || c == '-' || c == ' '
  }

  predicate IsUpperLetter(c: char) { 'A' <= c <= 'Z' }

  predicate IsLowerLetter(c: char) { 'a' <= c <= 'z' }

  // ---------------------------------------------------------------------
  // Normalising the input
  // ---------------------------------------------------------------------

  /** `items.map(x => x.trim())`. */
  function TrimAll(items: seq<string>): (r: seq<string>)
    ensures |r| == |items|
    ensures forall i :: 0 <= i < |items| ==> r[i] == Trim(items[i])
  {
    seq(|items|, i requires 0 <= i < |items| => Trim(items[i]))
  }

  /** `items.filter(x => x.length)`. */
  function NonEmpty(items: seq<string>): (r: seq<string>)
    ensures forall i :: 0 <= i < |r| ==> r[i] != ""
    ensures forall x :: x in r <==> x in items && x != ""
    ensures r == [] <==> forall i :: 0 <= i < |items| ==> items[i] == ""
    ensures (forall i :: 0 <= i < |items| ==> items[i] != "") ==> r == items
    decreases |items|
  {
    if items == [] then []
    else (if items[0] == "" then [] else [items[0]]) + NonEmpty(items[1..])
  }

  /** The filter works element by element: it distributes over
      concatenation, keeps a non-empty element and drops an empty one.
      Together these fix it as the non-empty elements in their order. */
  lemma {:induction false} NonEmptyAppend(a: seq<string>, b: seq<string>)
    ensures NonEmpty(a + b) == NonEmpty(a) + NonEmpty(b)
    ensures forall x :: NonEmpty([x]) == if x == "" then [] else [x]
    decreases |a|
  {
    if a == [] {
      assert a + b == b;
    } else {
      assert (a + b)[1..] == a[1..] + b;
      NonEmptyAppend(a[1..], b);
    }
  }

  lemma JoinOfNonEmpty(items: seq<string>, joiner: string)
    requires forall i :: 0 <= i < |items| ==> items[i] != ""
    ensures JoinWith(items, joiner) == "" <==> items == []
  {
    if |items| >= 2 {
      assert JoinWith(items, joiner)[|JoinWith(items, joiner)| - 1] == items[|items| - 1][|items[|items| - 1]| - 1];
    }
  }

  /** The text `camelCase` works on, or the `TypeError` it throws for an
      input that is neither a string nor an array. An array gives the
      empty text exactly when every element trims to nothing. */
  function Normalize(input: Input): (r: Result<string>)
    ensures r.Err? <==> input.Other?
    ensures r.Err? ==> r.error == TypeError(InputTypeMessage)
    ensures input.Text? ==> r == Ok(Trim(input.s))
    ensures input.List? ==> r == Ok(JoinWith(NonEmpty(TrimAll(input.items)), "-"))
    ensures input.List? ==>
              (r.value == "" <==> forall i :: 0 <= i < |input.items| ==> Trim(input.items[i]) == "")
  {
    match input
    case Other => Err(TypeError(InputTypeMessage))
    case Text(s) => Ok(Trim(s))
    case List(items) =>
      var kept := NonEmpty(TrimAll(items));
      JoinOfNonEmpty(kept, "-");
      Ok(JoinWith(kept, "-"))
  }

  /** A one-element array is the same as its element; blank elements of
      an array contribute nothing. */
  lemma SingletonListIsText(x: string, blanks: seq<string>)
    requires forall i :: 0 <= i < |blanks| ==> Trim(blanks[i]) == ""
    ensures Normalize(List([x] + blanks)) == Normalize(Text(x))
  {
    var items := [x] + blanks;
    var trimmed := TrimAll(items);
    assert trimmed[1..] == TrimAll(blanks);
    assert NonEmpty(trimmed[1..]) == [];
    if Trim(x) == "" {
      assert NonEmpty(trimmed) == [];
    } else {
      assert NonEmpty(trimmed) == [Trim(x)];
    }
  }

  // ---------------------------------------------------------------------
  // preserveCamelCase: hyphens at case changes
  // ---------------------------------------------------------------------

  /** The text with every hyphen removed. */
  function Dashless(s: string): (r: string)
    decreases |s|
  {
    if s == [] then [] else (if s[0] == '-' then [] else [s[0]]) + Dashless(s[1..])
  }

  /** The text with every separator removed. */
  function Content(s: string): (r: string)
    decreases |s|
  {
    if s == [] then [] else (if IsSep(s[0]) then [] else [s[0]]) + Content(s[1..])
  }

  /** How a text reads once case and separators are ignored. */
  function Key(s: string): string {
    Content(Lower(s))
  }

  /** The loop of `preserveCamelCase` from position `i`, with the flags
      `isLastCharLower`, `isLastCharUpper` and `isLastLastCharUpper`. An
      upper-case letter after a lower-case one gets a hyphen before it; a
      lower-case letter after two upper-case ones gets a hyphen before the
      previous letter, and is looked at again. */
  function PreserveFrom(e: string, i: nat, lastLower: bool, lastUpper: bool, lastLastUpper: bool): (r: string)
    requires i <= |e|
    requires lastUpper ==> i >= 1
    ensures |r| >= |e|
    decreases 2 * (|e| - i) + (if lastUpper && lastLastUpper then 1 else 0)
  {
    if i == |e| then e
    else
      var a := e[i];
      if lastLower && IsAsciiLetter(a) && UpperChar(a) == a then
        PreserveFrom(e[..i] + "-" + e[i..], i + 2, false, true, lastUpper)
      else if lastUpper && lastLastUpper && IsAsciiLetter(a) && LowerChar(a) == a then
        PreserveFrom(e[..i - 1] + "-" + e[i - 1..], i + 1, true, false, lastUpper)
      else
        PreserveFrom(e, i + 1,
                     LowerChar(a) == a && UpperChar(a) != a,
                     UpperChar(a) == a && LowerChar(a) != a,
                     lastUpper)
  }

  function Preserve(e: string): (r: string)
    ensures |r| >= |e|
  {
    PreserveFrom(e, 0, false, false, false)
  }

  lemma {:induction false} DashlessAppend(a: string, b: string)
    ensures Dashless(a + b) == Dashless(a) + Dashless(b)
    decreases |a|
  {
    if a == [] {
      assert a + b == b;
    } else {
      assert (a + b)[1..] == a[1..] + b;
      DashlessAppend(a[1..], b);
    }
  }

  lemma {:induction false} ContentAppend(a: string, b: string)
    ensures Content(a + b) == Content(a) + Content(b)
    decreases |a|
  {
    if a == [] {
      assert a + b == b;
    } else {
      assert (a + b)[1..] == a[1..] + b;
      ContentAppend(a[1..], b);
    }
  }

  lemma KeyAppend(a: string, b: string)
    ensures Key(a + b) == Key(a) + Key(b)
  {
    LowerAppend(a, b);
    ContentAppend(Lower(a), Lower(b));
  }

  lemma {:induction false} ContentOfSeps(s: string)
    requires forall i :: 0 <= i < |s| ==> IsSep(s[i])
    ensures Content(s) == []
    decreases |s|
  {
    if s != [] {
      ContentOfSeps(s[1..]);
    }
  }

  /** A run of separators reads as nothing. */
  lemma KeyOfSeps(s: string)
    requires forall i :: 0 <= i < |s| ==> IsSep(s[i])
    ensures Key(s) == []
  {
    ContentOfSeps(Lower(s));
  }

  /** Texts that differ only in case read the same. */
  lemma KeyIgnoresCase(x: string, y: string)
    requires Lower(x) == Lower(y)
    ensures Key(x) == Key(y)
  {
  }

  lemma HyphenDashless(a: string, b: string)
    ensures Dashless(a + "-" + b) == Dashless(a + b)
  {
    DashlessAppend(a + "-", b);
    DashlessAppend(a, "-");
    DashlessAppend(a, b);
    assert Dashless("-") == [];
  }

  lemma HyphenKey(a: string, b: string)
    ensures Key(a + "-" + b) == Key(a + b)
  {
    var x := a + "-";
    KeyAppend(x, b);
    KeyAppend(a, "-");
    KeyAppend(a, b);
    KeyOfSeps("-");
    assert Key(x) == Key(a);
  }

  lemma SplitAt(e: string, j: nat)
    requires j <= |e|
    ensures e[..j] + e[j..] == e
  {
  }

  lemma InsertHyphenDashless(e: string, j: nat)
    requires j <= |e|
    ensures Dashless(e[..j] + "-" + e[j..]) == Dashless(e)
  {
    SplitAt(e, j);
    HyphenDashless(e[..j], e[j..]);
  }

  lemma InsertHyphenKey(e: string, j: nat)
    requires j <= |e|
    ensures Key(e[..j] + "-" + e[j..]) == Key(e)
  {
    SplitAt(e, j);
    HyphenKey(e[..j], e[j..]);
  }

  lemma {:induction false} PreserveFromDashless(e: string, i: nat, lastLower: bool, lastUpper: bool, lastLastUpper: bool)
    requires i <= |e|
    requires lastUpper ==> i >= 1
    ensures Dashless(PreserveFrom(e, i, lastLower, lastUpper, lastLastUpper)) == Dashless(e)
    decreases 2 * (|e| - i) + (if lastUpper && lastLastUpper then 1 else 0)
  {
    if i < |e| {
      var a := e[i];
      if lastLower && IsAsciiLetter(a) && UpperChar(a) == a {
        InsertHyphenDashless(e, i);
        PreserveFromDashless(e[..i] + "-" + e[i..], i + 2, false, true, lastUpper);
      } else if lastUpper && lastLastUpper && IsAsciiLetter(a) && LowerChar(a) == a {
        InsertHyphenDashless(e, i - 1);
        PreserveFromDashless(e[..i - 1] + "-" + e[i - 1..], i + 1, true, false, lastUpper);
      } else {
        PreserveFromDashless(e, i + 1,
                             LowerChar(a) == a && UpperChar(a) != a,
                             UpperChar(a) == a && LowerChar(a) != a,
                             lastUpper);
      }
    }
  }

  lemma {:induction false} PreserveFromKey(e: string, i: nat, lastLower: bool, lastUpper: bool, lastLastUpper: bool)
    requires i <= |e|
    requires lastUpper ==> i >= 1
    ensures Key(PreserveFrom(e, i, lastLower, lastUpper, lastLastUpper)) == Key(e)
    decreases 2 * (|e| - i) + (if lastUpper && lastLastUpper then 1 else 0)
  {
    if i < |e| {
      var a := e[i];
      if lastLower && IsAsciiLetter(a) && UpperChar(a) == a {
        InsertHyphenKey(e, i);
        PreserveFromKey(e[..i] + "-" + e[i..], i + 2, false, true, lastUpper);
      } else if lastUpper && lastLastUpper && IsAsciiLetter(a) && LowerChar(a) == a {
        InsertHyphenKey(e, i - 1);
        PreserveFromKey(e[..i - 1] + "-" + e[i - 1..], i + 1, true, false, lastUpper);
      } else {
        PreserveFromKey(e, i + 1,
                        LowerChar(a) == a && UpperChar(a) != a,
                        UpperChar(a) == a && LowerChar(a) != a,
                        lastUpper);
      }
    }
  }

  /** `preserveCamelCase` only inserts hyphens: with the hyphens removed
      its result is its input, and so it reads the same. */
  lemma PreserveInsertsHyphens(e: string)
    ensures Dashless(Preserve(e)) == Dashless(e)
    ensures Key(Preserve(e)) == Key(e)
  {
    PreserveFromDashless(e, 0, false, false, false);
    PreserveFromKey(e, 0, false, false, false);
  }

  /** A text without capitals gets no hyphen. */
  lemma {:induction false} PreserveFromLowercase(e: string, i: nat, lastLower: bool, lastUpper: bool, lastLastUpper: bool)
    requires i <= |e|
    requires lastUpper ==> i >= 1
    requires forall j :: i <= j < |e| ==> !IsUpperLetter(e[j])
    requires !lastUpper
    ensures PreserveFrom(e, i, lastLower, lastUpper, lastLastUpper) == e
    decreases |e| - i
  {
    if i < |e| {
      var a := e[i];
      PreserveFromLowercase(e, i + 1, LowerChar(a) == a && UpperChar(a) != a,
                            UpperChar(a) == a && LowerChar(a) != a, lastUpper);
    }
  }

  lemma PreserveLowercase(e: string)
    requires forall j :: 0 <= j < |e| ==> !IsUpperLetter(e[j])
    ensures Preserve(e) == e
  {
    PreserveFromLowercase(e, 0, false, false, false);
  }

  // ---------------------------------------------------------------------
  // The replacements
  // ---------------------------------------------------------------------

  /** `s.replace(/^[_.\- ]+/, "")`. */
  function DropLeadingSeps(s: string): (r: string)
    ensures |r| <= |s| && r == s[|s| - |r|..]
    ensures forall i :: 0 <= i < |s| - |r| ==> IsSep(s[i])
    ensures r == [] || !IsSep(r[0])
    decreases |s|
  {
    if s != [] && IsSep(s[0]) then DropLeadingSeps(s[1..]) else s
  }

  /** Length of the separator run at the start of `s`. */
  function SepRun(s: string): (n: nat)
    ensures n <= |s|
    ensures forall k :: 0 <= k < n ==> IsSep(s[k])
    ensures n < |s| ==> !IsSep(s[n])
    decreases |s|
  {
    if s != [] && IsSep(s[0]) then 1 + SepRun(s[1..]) else 0
  }

  /** The largest `k` with `1 <= k < hi` and `s[k] == '_'`, or 0: where
      backtracking finds `\w` inside a separator run. */
  function LastUnderscore(s: string, hi: nat): (k: nat)
    requires hi <= |s|
    ensures k == 0 || (1 <= k < hi && s[k] == '_')
    ensures forall j :: 1 <= j < hi && k < j ==> s[j] != '_'
    decreases hi
  {
    if hi <= 1 then 0 else if s[hi - 1] == '_' then hi - 1 else LastUnderscore(s, hi - 1)
  }

  /** A match of a pattern at the start of the text: its length and the
      text its group captured. */
  datatype Match = Match(len: nat, capture: string)

  /** `/[_.\- ]+(\w|$)/` tried at the start of `s`: the greedy run, then
      backtracking to the last `_` inside it. */
  function SepMatch(s: string): (m: Option<Match>)
    ensures m.Some? ==> 1 <= m.value.len <= |s| && IsSep(s[0])
  {
    if s == [] || !IsSep(s[0]) then None
    else
      var n := SepRun(s);
      if n == |s| then Some(Match(n, ""))
      else if IsWordChar(s[n]) then Some(Match(n + 1, [s[n]]))
      else
        var k := LastUnderscore(s, n);
        if k == 0 then None else Some(Match(k + 1, "_"))
  }

  /** `s.replace(/[_.\- ]+(\w|$)/g, (_, c) => c.toUpperCase())`. */
  function CapitalizeAfterSeps(s: string): (r: string)
    ensures s != [] && !IsSep(s[0]) ==> r != [] && r[0] == s[0]
    decreases |s|
  {
    if s == [] then []
    else
      match SepMatch(s)
      case Some(m) => Upper(m.capture) + CapitalizeAfterSeps(s[m.len..])
      case None => [s[0]] + CapitalizeAfterSeps(s[1..])
  }

  /** Length of the digit run at the start of `s`. */
  function DigitRun(s: string): (n: nat)
    ensures n <= |s|
    ensures forall k :: 0 <= k < n ==> IsDigit(s[k])
    ensures n < |s| ==> !IsDigit(s[n])
    decreases |s|
  {
    if s != [] && IsDigit(s[0]) then 1 + DigitRun(s[1..]) else 0
  }

  /** Length of a match of `/\d+(\w|$)/` at the start of `s`; a run of
      two or more digits followed by a non-word character matches by
      backtracking onto its last digit. */
  function DigitMatch(s: string): (m: Option<nat>)
    ensures m.Some? ==> 1 <= m.value <= |s| && IsDigit(s[0])
  {
    if s == [] || !IsDigit(s[0]) then None
    else
      var n := DigitRun(s);
      if n == |s| then Some(n)
      else if IsWordChar(s[n]) then Some(n + 1)
      else if n >= 2 then Some(n)
      else None
  }

  /** `s.replace(/\d+(\w|$)/g, m => m.toUpperCase())`. */
  function CapitalizeAfterDigits(s: string): (r: string)
    decreases |s|
  {
    if s == [] then []
    else
      match DigitMatch(s)
      case Some(n) => Upper(s[..n]) + CapitalizeAfterDigits(s[n..])
      case None => [s[0]] + CapitalizeAfterDigits(s[1..])
  }

  /** Reference for the digit replacement: every character right after a
      digit is upper-cased and nothing else changes. */
  function UpperAfterDigit(s: string): (r: string)
    ensures |r| == |s|
  {
    seq(|s|, i requires 0 <= i < |s| => if i > 0 && IsDigit(s[i - 1]) then UpperChar(s[i]) else s[i])
  }

  /** A digit match upper-cases exactly the characters that follow a
      digit within it. */
  lemma DigitMatchStep(s: string, n: nat)
    requires DigitMatch(s) == Some(n)
    requires CapitalizeAfterDigits(s[n..]) == UpperAfterDigit(s[n..])
    ensures CapitalizeAfterDigits(s) == UpperAfterDigit(s)
  {
    var r := CapitalizeAfterDigits(s);
    var spec := UpperAfterDigit(s);
    var rest := s[n..];
    assert r == Upper(s[..n]) + UpperAfterDigit(rest);
    var run := DigitRun(s);
    assert n == run || n == run + 1;
    assert n < |s| && n == run ==> !IsWordChar(s[n]);
    forall i | 0 <= i < |s|
      ensures r[i] == spec[i]
    {
      if i < n {
        assert r[i] == UpperChar(s[i]);
        if i > 0 {
          assert IsDigit(s[i - 1]);
        }
      } else {
        assert r[i] == UpperAfterDigit(rest)[i - n];
      }
    }
  }

  /** A character that starts no digit match is copied, and it does not
      follow a digit. */
  lemma DigitCopyStep(s: string)
    requires s != [] && DigitMatch(s) == None
    requires CapitalizeAfterDigits(s[1..]) == UpperAfterDigit(s[1..])
    ensures CapitalizeAfterDigits(s) == UpperAfterDigit(s)
  {
    var r := CapitalizeAfterDigits(s);
    var spec := UpperAfterDigit(s);
    assert r == [s[0]] + UpperAfterDigit(s[1..]);
    assert IsDigit(s[0]) ==> DigitRun(s) == 1 && |s| > 1 && !IsWordChar(s[1]);
    forall i | 0 <= i < |s|
      ensures r[i] == spec[i]
    {
      if i > 0 {
        assert r[i] == UpperAfterDigit(s[1..])[i - 1];
      }
    }
  }

  lemma {:induction false} CapitalizeAfterDigitsIsUpperAfterDigit(s: string)
    ensures CapitalizeAfterDigits(s) == UpperAfterDigit(s)
    decreases |s|
  {
    if s != [] {
      match DigitMatch(s)
      case Some(n) =>
        CapitalizeAfterDigitsIsUpperAfterDigit(s[n..]);
        DigitMatchStep(s, n);
      case None =>
        CapitalizeAfterDigitsIsUpperAfterDigit(s[1..]);
        DigitCopyStep(s);
    }
  }

  /** `r.charAt(0).toUpperCase() + r.slice(1)`. */
  function UpperFirst(s: string): (r: string)
    ensures |r| == |s|
    ensures s != [] ==> r[0] == UpperChar(s[0]) && r[1..] == s[1..]
  {
    if s == [] then [] else [UpperChar(s[0])] + s[1..]
  }

  // ---------------------------------------------------------------------
  // camelCase
  // ---------------------------------------------------------------------

  /** The normalised text of two or more characters before the
      replacements: hyphens at case changes (only when it has a capital),
      leading separators dropped, lower-cased. */
  function Prepared(e: string): (x: string)
    ensures x == [] || (!IsSep(x[0]) && !IsUpperLetter(x[0]))
  {
    var p := if e != Lower(e) then Preserve(e) else e;
    Lower(DropLeadingSeps(p))
  }

  /** The two global replacements, separators first. */
  function Replaced(x: string): string {
    CapitalizeAfterDigits(CapitalizeAfterSeps(x))
  }

  /** The work done on the normalised text `e`. */
  function Camelize(e: string, pascalCase: bool): (r: string)
    ensures |e| == 0 ==> r == ""
    ensures |e| == 1 ==> r == (if pascalCase then Upper(e) else Lower(e))
  {
    if |e| == 0 then ""
    else if |e| == 1 then (if pascalCase then Upper(e) else Lower(e))
    else
      var q := Replaced(Prepared(e));
      if pascalCase then UpperFirst(q) else q
  }

  /** `camelCase(input, {pascalCase})`. */
  function CamelCaseOf(input: Input, pascalCase: bool): (r: Result<string>)
    ensures r.Err? <==> input.Other?
    ensures r.Err? ==> r.error == TypeError(InputTypeMessage)
    ensures input.Text? && Trim(input.s) == "" ==> r == Ok("")
    ensures input.Text? && |Trim(input.s)| == 1 ==>
              r == Ok(if pascalCase then Upper(Trim(input.s)) else Lower(Trim(input.s)))
    ensures input.List? && (forall i :: 0 <= i < |input.items| ==> Trim(input.items[i]) == "") ==>
              r == Ok("")
  {
    var e :- Normalize(input);
    Ok(Camelize(e, pascalCase))
  }

  // ---------------------------------------------------------------------
  // What the result looks like
  // ---------------------------------------------------------------------

  /** No separator is followed by a word character, and none ends the
      text. */
  predicate Collapsed(r: string) {
    && (forall i :: 1 <= i < |r| && IsSep(r[i - 1]) ==> !IsWordChar(r[i]))
    && (r == [] || !IsSep(r[|r| - 1]))
  }

  lemma ConsCollapsed(x: char, t: string)
    requires Collapsed(t)
    requires IsSep(x) ==> t != [] && !IsWordChar(t[0])
    ensures Collapsed([x] + t)
  {
    var r := [x] + t;
    forall i | 1 <= i < |r| && IsSep(r[i - 1])
      ensures !IsWordChar(r[i])
    {
      if i > 1 {
        assert r[i - 1] == t[i - 2] && r[i] == t[i - 1];
      }
    }
  }

  /** A run of separators other than `_` that ends in a character that is
      neither a separator nor a word character yields a text that starts
      with a non-word character. */
  lemma StartsNonWord(t: string, m: nat)
    requires m < |t|
    requires forall k :: 0 <= k < m ==> IsSep(t[k]) && t[k] != '_'
    requires !IsSep(t[m]) && !IsWordChar(t[m])
    ensures CapitalizeAfterSeps(t) != [] && !IsWordChar(CapitalizeAfterSeps(t)[0])
  {
    if m > 0 {
      assert SepRun(t) == m;
      assert LastUnderscore(t, m) == 0;
      assert SepMatch(t) == None;
    }
  }

  /** A separator run followed by a word character: the word character,
      upper-cased, replaces the run. */
  lemma WordCaptureCollapses(s: string, m: Match)
    requires SepMatch(s) == Some(m) && m.len == SepRun(s) + 1
    requires Collapsed(CapitalizeAfterSeps(s[m.len..]))
    ensures Collapsed(CapitalizeAfterSeps(s))
  {
    var c := UpperChar(s[m.len - 1]);
    assert CapitalizeAfterSeps(s) == [c] + CapitalizeAfterSeps(s[m.len..]);
    ConsCollapsed(c, CapitalizeAfterSeps(s[m.len..]));
  }

  /** A separator run followed by a non-word character, matched by
      backtracking onto its last `_`. */
  lemma UnderscoreCaptureCollapses(s: string, m: Match)
    requires SepMatch(s) == Some(m) && m.capture == "_"
    requires Collapsed(CapitalizeAfterSeps(s[m.len..]))
    ensures Collapsed(CapitalizeAfterSeps(s))
  {
    var n := SepRun(s);
    var k := m.len - 1;
    assert k == LastUnderscore(s, n);
    var rest := s[m.len..];
    StartsNonWord(rest, n - k - 1);
    assert CapitalizeAfterSeps(s) == ['_'] + CapitalizeAfterSeps(rest);
    ConsCollapsed('_', CapitalizeAfterSeps(rest));
  }

  /** One replacement step keeps the result collapsed. */
  lemma SepMatchCollapses(s: string, m: Match)
    requires SepMatch(s) == Some(m)
    requires Collapsed(CapitalizeAfterSeps(s[m.len..]))
    ensures Collapsed(CapitalizeAfterSeps(s))
  {
    if m.capture == "" {
      assert s[m.len..] == [];
    } else if m.len == SepRun(s) + 1 {
      WordCaptureCollapses(s, m);
    } else {
      UnderscoreCaptureCollapses(s, m);
    }
  }

  /** Copying a character that starts no match keeps the result
      collapsed. */
  lemma CopyCollapses(s: string)
    requires s != [] && SepMatch(s) == None
    requires Collapsed(CapitalizeAfterSeps(s[1..]))
    ensures Collapsed(CapitalizeAfterSeps(s))
  {
    if IsSep(s[0]) {
      var n := SepRun(s);
      assert LastUnderscore(s, n) == 0;
      StartsNonWord(s[1..], n - 1);
    }
    ConsCollapsed(s[0], CapitalizeAfterSeps(s[1..]));
  }

  lemma {:induction false} CapitalizeAfterSepsCollapses(s: string)
    ensures Collapsed(CapitalizeAfterSeps(s))
    decreases |s|
  {
    if s != [] {
      match SepMatch(s)
      case Some(m) =>
        CapitalizeAfterSepsCollapses(s[m.len..]);
        SepMatchCollapses(s, m);
      case None =>
        CapitalizeAfterSepsCollapses(s[1..]);
        CopyCollapses(s);
    }
  }

  /** Capitalising after separators keeps the reading: only separators
      are removed and only case changes. */
  /** A match reads like its replacement. */
  lemma SepMatchKey(s: string, m: Match)
    requires SepMatch(s) == Some(m)
    ensures Key(Upper(m.capture)) == Key(s[..m.len])
  {
    var n := SepRun(s);
    if m.len == n + 1 {
      var run, c := s[..n], s[n];
      assert s[..m.len] == run + [c];
      KeyAppend(run, [c]);
      KeyOfSeps(run);
      assert Upper(m.capture) == [UpperChar(c)];
      assert Lower([UpperChar(c)]) == Lower([c]);
      KeyIgnoresCase([UpperChar(c)], [c]);
    } else {
      KeyOfSeps(s[..m.len]);
      KeyOfSeps(Upper(m.capture));
    }
  }

  lemma {:induction false} CapitalizeAfterSepsKeepsKey(s: string)
    ensures Key(CapitalizeAfterSeps(s)) == Key(s)
    decreases |s|
  {
    if s != [] {
      match SepMatch(s)
      case Some(m) =>
        var rest := s[m.len..];
        CapitalizeAfterSepsKeepsKey(rest);
        assert s == s[..m.len] + rest;
        KeyAppend(s[..m.len], rest);
        KeyAppend(Upper(m.capture), CapitalizeAfterSeps(rest));
        SepMatchKey(s, m);
      case None =>
        CapitalizeAfterSepsKeepsKey(s[1..]);
        assert s == [s[0]] + s[1..];
        KeyAppend([s[0]], s[1..]);
        KeyAppend([s[0]], CapitalizeAfterSeps(s[1..]));
    }
  }

  /** Reference for the separator replacement: every character right
      after a separator upper-cased (a separator stays itself), then every
      separator removed. */
  function UpperAfterSep(s: string): (r: string)
    ensures |r| == |s|
  {
    seq(|s|, i requires 0 <= i < |s| => if i > 0 && IsSep(s[i - 1]) then UpperChar(s[i]) else s[i])
  }

  /** Every separator is followed by a separator, a word character or the
      end of the text, so no separator run needs backtracking. */
  predicate RunsEndInWord(s: string) {
    forall i :: 0 <= i < |s| - 1 && IsSep(s[i]) ==> IsSep(s[i + 1]) || IsWordChar(s[i + 1])
  }

  lemma RunsEndInWordSuffix(s: string, k: nat)
    requires k <= |s| && RunsEndInWord(s)
    ensures RunsEndInWord(s[k..])
  {
    var t := s[k..];
    forall i | 0 <= i < |t| - 1 && IsSep(t[i])
      ensures IsSep(t[i + 1]) || IsWordChar(t[i + 1])
    {
      assert t[i] == s[k + i] && t[i + 1] == s[k + i + 1];
    }
  }

  /** Case mapping leaves separators separators and everything else
      not a separator. */
  lemma UpperCharSep(c: char)
    ensures IsSep(UpperChar(c)) <==> IsSep(c)
    ensures IsSep(c) ==> UpperChar(c) == c
  {
  }

  /** Cutting after a character that is not a separator cuts the
      reference in two. */
  lemma UpperAfterSepSplit(s: string, k: nat)
    requires 1 <= k <= |s| && !IsSep(s[k - 1])
    ensures UpperAfterSep(s) == UpperAfterSep(s[..k]) + UpperAfterSep(s[k..])
  {
    var r, a, b := UpperAfterSep(s), UpperAfterSep(s[..k]), UpperAfterSep(s[k..]);
    forall i | 0 <= i < |s|
      ensures r[i] == (a + b)[i]
    {
      if i < k {
        assert (a + b)[i] == a[i];
      } else {
        assert (a + b)[i] == b[i - k];
      }
    }
  }

  /** A run of separators and the word character after it read as that
      character, upper-cased. */
  lemma ContentOfRunThenWord(s: string, n: nat)
    requires 1 <= n < |s|
    requires forall k :: 0 <= k < n ==> IsSep(s[k])
    requires !IsSep(s[n])
    ensures Content(UpperAfterSep(s[..n + 1])) == [UpperChar(s[n])]
  {
    var u := UpperAfterSep(s[..n + 1]);
    UpperCharSep(s[n]);
    forall k | 0 <= k < n ensures IsSep(u[k]) {
      UpperCharSep(s[k]);
    }
    assert u == u[..n] + [UpperChar(s[n])];
    ContentAppend(u[..n], [UpperChar(s[n])]);
    ContentOfSeps(u[..n]);
  }

  lemma ContentOfAllSeps(s: string)
    requires forall k :: 0 <= k < |s| ==> IsSep(s[k])
    ensures Content(UpperAfterSep(s)) == []
  {
    var u := UpperAfterSep(s);
    forall k | 0 <= k < |s| ensures IsSep(u[k]) {
      UpperCharSep(s[k]);
    }
    ContentOfSeps(u);
  }

  /** A match of a separator run and a word character, step by step. */
  lemma SepWordStep(s: string, n: nat)
    requires 1 <= n < |s| && SepRun(s) == n && IsWordChar(s[n])
    requires CapitalizeAfterSeps(s[n + 1..]) == Content(UpperAfterSep(s[n + 1..]))
    ensures CapitalizeAfterSeps(s) == Content(UpperAfterSep(s))
  {
    var rest := s[n + 1..];
    var head, tail := UpperAfterSep(s[..n + 1]), UpperAfterSep(rest);
    assert IsSep(s[0]);
    assert SepMatch(s) == Some(Match(n + 1, [s[n]]));
    assert Upper([s[n]]) == [UpperChar(s[n])];
    assert CapitalizeAfterSeps(s) == [UpperChar(s[n])] + CapitalizeAfterSeps(rest);
    UpperAfterSepSplit(s, n + 1);
    ContentAppend(head, tail);
    ContentOfRunThenWord(s, n);
    assert Content(UpperAfterSep(s)) == Content(head) + Content(tail);
  }

  /** A character that is not a separator, copied. */
  lemma PlainStep(s: string)
    requires s != [] && !IsSep(s[0])
    requires CapitalizeAfterSeps(s[1..]) == Content(UpperAfterSep(s[1..]))
    ensures CapitalizeAfterSeps(s) == Content(UpperAfterSep(s))
  {
    assert CapitalizeAfterSeps(s) == [s[0]] + CapitalizeAfterSeps(s[1..]);
    UpperAfterSepSplit(s, 1);
    assert UpperAfterSep(s[..1]) == [s[0]];
    ContentAppend([s[0]], UpperAfterSep(s[1..]));
  }

  /** When no separator run needs backtracking, the separator replacement
      removes every separator and upper-cases exactly the characters that
      followed one. */
  lemma {:induction false} CapitalizeAfterSepsIsUpperAfterSep(s: string)
    requires RunsEndInWord(s)
    ensures CapitalizeAfterSeps(s) == Content(UpperAfterSep(s))
    decreases |s|
  {
    if s == [] {
    } else if !IsSep(s[0]) {
      RunsEndInWordSuffix(s, 1);
      CapitalizeAfterSepsIsUpperAfterSep(s[1..]);
      PlainStep(s);
    } else {
      var n := SepRun(s);
      if n == |s| {
        assert SepMatch(s) == Some(Match(n, ""));
        assert s[n..] == [];
        ContentOfAllSeps(s);
      } else {
        assert IsSep(s[n - 1]);
        RunsEndInWordSuffix(s, n + 1);
        CapitalizeAfterSepsIsUpperAfterSep(s[n + 1..]);
        SepWordStep(s, n);
      }
    }
  }

  lemma CollapsedIgnoresCase(x: string, y: string)
    requires Lower(x) == Lower(y)
    requires Collapsed(x)
    ensures Collapsed(y)
  {
    assert |x| == |y|;
    forall i | 0 <= i < |x|
      ensures IsSep(x[i]) == IsSep(y[i]) && IsWordChar(x[i]) == IsWordChar(y[i])
    {
      assert LowerChar(x[i]) == LowerChar(y[i]);
    }
  }

  lemma LowerPointwise(x: string, y: string)
    requires |x| == |y|
    requires forall i :: 0 <= i < |x| ==> LowerChar(x[i]) == LowerChar(y[i])
    ensures Lower(x) == Lower(y)
  {
  }

  lemma LowerOfUpperAfterDigit(s: string)
    ensures Lower(UpperAfterDigit(s)) == Lower(s)
  {
    var r := UpperAfterDigit(s);
    forall i | 0 <= i < |s|
      ensures LowerChar(r[i]) == LowerChar(s[i])
    {
      if i > 0 && IsDigit(s[i - 1]) {
        assert r[i] == UpperChar(s[i]);
      } else {
        assert r[i] == s[i];
      }
    }
    LowerPointwise(r, s);
  }

  lemma LowerAfterDigits(s: string)
    ensures Lower(CapitalizeAfterDigits(s)) == Lower(s)
  {
    CapitalizeAfterDigitsIsUpperAfterDigit(s);
    LowerOfUpperAfterDigit(s);
  }

  /** Neither replacement touches a leading character that is not a
      separator. */
  lemma ReplacementsKeepFirst(x: string)
    requires x != [] && !IsSep(x[0])
    ensures Replaced(x) != []
    ensures Replaced(x)[0] == x[0]
  {
    var y := CapitalizeAfterSeps(x);
    CapitalizeAfterDigitsIsUpperAfterDigit(y);
  }

  lemma PreparedKeepsKey(e: string)
    ensures Key(Prepared(e)) == Key(e)
  {
    var p := if e != Lower(e) then Preserve(e) else e;
    PreserveInsertsHyphens(e);
    assert Key(p) == Key(e);
    var d := DropLeadingSeps(p);
    var k := |p| - |d|;
    SplitAt(p, k);
    KeyAppend(p[..k], d);
    KeyOfSeps(p[..k]);
    LowerIdempotent(d);
    KeyIgnoresCase(Lower(d), d);
  }

  /** Capitalising after separators and after digits keeps the reading. */
  lemma ReplacedKeepsKey(x: string)
    ensures Key(Replaced(x)) == Key(x)
  {
    var y := CapitalizeAfterSeps(x);
    CapitalizeAfterSepsKeepsKey(x);
    LowerAfterDigits(y);
    KeyIgnoresCase(Replaced(x), y);
  }

  /** Upper-casing the first character changes only case. */
  lemma LowerOfUpperFirst(q: string)
    ensures Lower(UpperFirst(q)) == Lower(q)
  {
    var u := UpperFirst(q);
    forall i | 0 <= i < |q|
      ensures LowerChar(u[i]) == LowerChar(q[i])
    {
      if i > 0 {
        assert u[i] == q[i];
      }
    }
    LowerPointwise(u, q);
  }

  lemma UpperFirstKeepsKey(q: string)
    ensures Key(UpperFirst(q)) == Key(q)
  {
    LowerOfUpperFirst(q);
    KeyIgnoresCase(UpperFirst(q), q);
  }

  /** Ignoring ASCII case and the separators `_ . - space`, the result
      spells the normalised input. */
  lemma CamelizeKeepsSpelling(e: string, pascalCase: bool)
    ensures Key(Camelize(e, pascalCase)) == Key(e)
  {
    if |e| == 1 {
      if pascalCase {
        LowerOfUpper(e);
      } else {
        LowerIdempotent(e);
      }
      KeyIgnoresCase(Camelize(e, pascalCase), e);
    } else if |e| >= 2 {
      var q := Replaced(Prepared(e));
      PreparedKeepsKey(e);
      ReplacedKeepsKey(Prepared(e));
      if pascalCase {
        UpperFirstKeepsKey(q);
      }
    }
  }

  lemma ReplacementsCollapse(x: string)
    requires x == [] || !IsSep(x[0])
    ensures Collapsed(Replaced(x))
    ensures var q := Replaced(x); q == [] || !IsSep(q[0])
  {
    var y := CapitalizeAfterSeps(x);
    var q := CapitalizeAfterDigits(y);
    CapitalizeAfterSepsCollapses(x);
    LowerAfterDigits(y);
    CollapsedIgnoresCase(y, q);
    if x != [] {
      ReplacementsKeepFirst(x);
    } else {
      assert q == [];
    }
  }

  lemma UpperFirstCollapsed(q: string)
    requires Collapsed(q)
    requires q == [] || !IsSep(q[0])
    ensures Collapsed(UpperFirst(q))
    ensures UpperFirst(q) == [] || !IsSep(UpperFirst(q)[0])
  {
    LowerOfUpperFirst(q);
    CollapsedIgnoresCase(q, UpperFirst(q));
  }

  /** For a text of two or more characters every separator run is folded
      away, except one that sits before a character that is neither a
      separator nor a word character; the result neither starts nor ends
      with a separator. */
  lemma CamelizeCollapses(e: string, pascalCase: bool)
    requires |e| >= 2
    ensures Collapsed(Camelize(e, pascalCase))
    ensures Camelize(e, pascalCase) == [] || !IsSep(Camelize(e, pascalCase)[0])
  {
    var x := Prepared(e);
    var q := Replaced(x);
    ReplacementsCollapse(x);
    if pascalCase {
      UpperFirstCollapsed(q);
    }
  }

  /** camelCase starts with no capital, PascalCase with no lower-case
      letter. */
  lemma CamelizeFirstChar(e: string, pascalCase: bool)
    requires Camelize(e, pascalCase) != []
    ensures pascalCase ==> !IsLowerLetter(Camelize(e, pascalCase)[0])
    ensures !pascalCase ==> !IsUpperLetter(Camelize(e, pascalCase)[0])
  {
    if |e| >= 2 {
      var x := Prepared(e);
      if x != [] {
        ReplacementsKeepFirst(x);
      }
    }
  }

  /** Where the capitals go: when no separator run of the prepared text
      needs backtracking, the result is that text with every separator
      removed, each character after a separator or a digit upper-cased,
      and (for PascalCase) the first character upper-cased. */
  lemma CamelizeCapitals(e: string, pascalCase: bool)
    requires |e| >= 2 && RunsEndInWord(Prepared(e))
    ensures var q := UpperAfterDigit(Content(UpperAfterSep(Prepared(e))));
            Camelize(e, pascalCase) == if pascalCase then UpperFirst(q) else q
  {
    var x := Prepared(e);
    CapitalizeAfterSepsIsUpperAfterSep(x);
    CapitalizeAfterDigitsIsUpperAfterDigit(CapitalizeAfterSeps(x));
  }

  lemma LowerOfLowercase(s: string)
    requires forall j :: 0 <= j < |s| ==> !IsUpperLetter(s[j])
    ensures Lower(s) == s
  {
  }

  /** A lower-case input such as `foo-bar_baz` or `--foo.bar` loses its
      leading separators, and every other separator run turns the next
      character into a capital: `fooBarBaz`, `fooBar`. Every separator
      run must be followed by a word character or end the text; `a-!b`
      keeps its `-`. */
  lemma CamelizeLowercase(e: string)
    requires |e| >= 2
    requires forall j :: 0 <= j < |e| ==> !IsUpperLetter(e[j])
    requires RunsEndInWord(e)
    ensures Camelize(e, false) == UpperAfterDigit(Content(UpperAfterSep(DropLeadingSeps(e))))
  {
    LowerOfLowercase(e);
    var d := DropLeadingSeps(e);
    var k := |e| - |d|;
    RunsEndInWordSuffix(e, k);
    forall j | 0 <= j < |d| ensures !IsUpperLetter(d[j]) {
      assert d[j] == e[k + j];
    }
    LowerOfLowercase(d);
    PreparedOfLowercase(e);
    CamelizeCapitals(e, false);
  }

  lemma PreparedOfLowercase(e: string)
    requires Lower(e) == e && Lower(DropLeadingSeps(e)) == DropLeadingSeps(e)
    ensures Prepared(e) == DropLeadingSeps(e)
  {
  }
}

module CamelCaseExamples {
  import opened CamelCase
  import opened JsValues
  import opened Wrappers

  lemma HyphenBeforeCapital()
    ensures Preserve("fooBar") == "foo-Bar"
  {
    var e, f := "fooBar", "foo-Bar";
    assert e[..3] + "-" + e[3..] == f;
    calc {
      Preserve(e);
      PreserveFrom(e, 1, true, false, false);
      PreserveFrom(e, 2, true, false, false);
      PreserveFrom(e, 3, true, false, false);
      PreserveFrom(f, 5, false, true, false);
      PreserveFrom(f, 6, true, false, true);
      PreserveFrom(f, 7, true, false, false);
    }
  }

  lemma HyphenBeforeLastOfCapitals()
    ensures Preserve("FOOBar") == "FOO-Bar"
  {
    var e, f := "FOOBar", "FOO-Bar";
    assert e[..3] + "-" + e[3..] == f;
    calc {
      Preserve(e);
      PreserveFrom(e, 1, false, true, false);
      PreserveFrom(e, 2, false, true, true);
      PreserveFrom(e, 3, false, true, true);
      PreserveFrom(e, 4, false, true, true);
      PreserveFrom(f, 5, true, false, true);
      PreserveFrom(f, 6, true, false, false);
      PreserveFrom(f, 7, true, false, false);
    }
  }

  lemma PreserveFooBar()
    ensures Preserve("Foo-Bar") == "Foo-Bar"
  {
    var s := "Foo-Bar";
    calc {
      Preserve(s);
      PreserveFrom(s, 1, false, true, false);
      PreserveFrom(s, 2, true, false, true);
      PreserveFrom(s, 3, true, false, false);
      PreserveFrom(s, 4, false, false, false);
      PreserveFrom(s, 5, false, true, false);
      PreserveFrom(s, 6, true, false, true);
      PreserveFrom(s, 7, true, false, false);
    }
  }

  /** A text that the hyphen pass leaves alone and that starts with no
      separator is only lower-cased. */
  lemma PreparedWhenStable(e: string)
    requires Preserve(e) == e
    requires e == [] || !IsSep(e[0])
    ensures Prepared(e) == Lower(e)
  {
    assert DropLeadingSeps(e) == e;
  }

  lemma LowerFooBar()
    ensures Lower("Foo-Bar") == "foo-bar"
  {
  }

  lemma PrepareFooBar()
    ensures Prepared("Foo-Bar") == "foo-bar"
  {
    var s := "Foo-Bar";
    PreserveFooBar();
    assert !IsSep(s[0]);
    PreparedWhenStable(s);
    LowerFooBar();
  }

  /** A prefix without separators is copied unchanged. */
  lemma {:induction false} PlainPrefix(a: string, b: string)
    requires forall i :: 0 <= i < |a| ==> !IsSep(a[i])
    ensures CapitalizeAfterSeps(a + b) == a + CapitalizeAfterSeps(b)
    decreases |a|
  {
    if a != [] {
      var s := a + b;
      assert s[1..] == a[1..] + b;
      assert s[0] == a[0] && SepMatch(s) == None;
      assert CapitalizeAfterSeps(s) == [a[0]] + CapitalizeAfterSeps(a[1..] + b);
      PlainPrefix(a[1..], b);
      assert a == [a[0]] + a[1..];
    } else {
      assert a + b == b;
    }
  }

  lemma SepsBar()
    ensures CapitalizeAfterSeps("-bar") == "Bar"
  {
    var s := "-bar";
    assert SepRun(s) == 1 && IsWordChar(s[1]);
    assert SepMatch(s) == Some(Match(2, "b"));
    PlainPrefix("ar", "");
    assert "ar" + "" == "ar";
  }

  lemma SepsFooBar()
    ensures CapitalizeAfterSeps("foo-bar") == "fooBar"
  {
    var a, b := "foo", "-bar";
    assert a + b == "foo-bar";
    PlainPrefix(a, b);
    SepsBar();
    assert a + "Bar" == "fooBar";
  }

  lemma DigitsFooBar()
    ensures CapitalizeAfterDigits("fooBar") == "fooBar"
  {
    var y := "fooBar";
    CapitalizeAfterDigitsIsUpperAfterDigit(y);
    assert UpperAfterDigit(y) == y;
  }

  lemma TrimFooBar()
    ensures Trim("Foo-Bar") == "Foo-Bar"
  {
    var s := "Foo-Bar";
    assert !IsWhitespace(s[0]) && !IsWhitespace(s[|s| - 1]);
    TrimKeepsTrimmed(s);
  }

  lemma CamelizeFooBar()
    ensures Camelize("Foo-Bar", false) == "fooBar"
  {
    PrepareFooBar();
    SepsFooBar();
    DigitsFooBar();
  }

  /** A text input is trimmed, then camelized. */
  lemma TextStep(s: string, p: bool)
    ensures CamelCaseOf(Text(s), p) == Ok(Camelize(Trim(s), p))
  {
  }

  /** `camelCase('Foo-Bar') === 'fooBar'`. */
  lemma DashedWords()
    ensures CamelCaseOf(Text("Foo-Bar"), false) == Ok("fooBar")
  {
    var e := "Foo-Bar";
    TextStep(e, false);
    TrimFooBar();
    CamelizeFooBar();
  }
}
