/**
 * Content transformer and naming helpers: placeholder substitution in fetched component
 * sources, removal of the CSS-import marker line, and kebab-case / PascalCase conversion.
 * Regular expressions of transformer.ts are written out as the scans they perform, with
 * ASCII case mapping.
 */
module Transformer {

  import opened JsStrings
  import opened ConfigTypes

  const AliasComponentsPlaceholder := "__ALIAS_COMPONENTS__"
  const AliasLibPlaceholder := "__ALIAS_LIB__"
  /** Declared among the placeholders, but never substituted by `TransformComponent`. */
  const ComponentNamePlaceholder := "__COMPONENT_NAME__"
  const ImportCssPlaceholder := "// __IMPORT_CSS__"

  /** The characters the regular-expression class `\s` matches. */
  predicate IsJsSpace(c: char) {
    c == ' ' || c == '\t' || c == '\n' || c == '\U{000B}' || c == '\U{000C}' || c == '\r'
    || c == '\U{00A0}' || c == '\U{1680}' || ('\U{2000}' <= c <= '\U{200A}')
    || c == '\U{2028}' || c == '\U{2029}' || c == '\U{202F}' || c == '\U{205F}'
    || c == '\U{3000}' || c == '\U{FEFF}'
  }

  /** The characters that end a line for the regular-expression `.`, which does not match them. */
  predicate IsLineTerminator(c: char) {
    c == '\n' || c == '\r' || c == '\U{2028}' || c == '\U{2029}'
  }

  // ---------------------------------------------------------------------------------
  // CSS-import marker removal

  /** The length of the first line of `t`: the index of its first line terminator, or `|t|`. */
  function LineEnd(t: string): (k: nat)
    ensures k <= |t|
    ensures forall i :: 0 <= i < k ==> !IsLineTerminator(t[i])
    ensures k < |t| ==> IsLineTerminator(t[k])
  {
    if t == [] || IsLineTerminator(t[0]) then 0 else 1 + LineEnd(t[1..])
  }

  /** What follows a marker's match: the rest of the line (`.*`) and one `\n` (`\n?`) are consumed. */
  function AfterMarker(t: string): (u: string)
    ensures |u| <= |t|
  {
    var k := LineEnd(t);
    if k < |t| && t[k] == '\n' then t[k + 1..] else t[k..]
  }

  /** `replace(/\/\/ __IMPORT_CSS__.*\n?/g, '')` */
  function StripCssImports(s: string): string {
    StripMarkerLines(s, ImportCssPlaceholder)
  }

  /** Every line tail that starts with the marker `m` removed, scanning left to right. */
  function StripMarkerLines(s: string, m: string): string
    requires |m| >= 1
    decreases |s|
  {
    if OccursAt(s, m, 0) then StripMarkerLines(AfterMarker(s[|m|..]), m)
    else if s == [] then []
    else [s[0]] + StripMarkerLines(s[1..], m)
  }

  /** Text without a marker passes through unchanged. */
  lemma {:induction false} StripWithoutMarker(s: string, m: string)
    requires |m| >= 1 && Free(s, m)
    ensures StripMarkerLines(s, m) == s
    decreases |s|
  {
    if s != [] {
      FreeTail(s, m);
      StripWithoutMarker(s[1..], m);
      assert s == [s[0]] + s[1..];
    }
  }

  /** No marker starts before index `n` of `s`. */
  predicate NoMarkerBefore(s: string, m: string, n: int) {
    forall i | 0 <= i < n :: !OccursAt(s, m, i)
  }

  lemma NoMarkerBeforeTail(s: string, m: string, n: int)
    requires 1 <= n <= |s| && NoMarkerBefore(s, m, n)
    ensures !OccursAt(s, m, 0)
    ensures NoMarkerBefore(s[1..], m, n - 1)
  {
    forall i | 0 <= i < n - 1
      ensures !OccursAt(s[1..], m, i)
    {
      OccursShift(s, m, i + 1);
    }
  }

  /** Where no marker starts, one character is kept and the scan moves on. */
  lemma StripKeepsFirst(s: string, m: string)
    requires |m| >= 1 && s != [] && !OccursAt(s, m, 0)
    ensures StripMarkerLines(s, m) == [s[0]] + StripMarkerLines(s[1..], m)
  {
  }

  /** Text before the first marker is kept as it is. */
  lemma {:induction false} StripKeepsPrefix(a: string, t: string, m: string)
    requires |m| >= 1 && NoMarkerBefore(a + t, m, |a|)
    ensures StripMarkerLines(a + t, m) == a + StripMarkerLines(t, m)
    decreases |a|
  {
    if a == [] {
      assert a + t == t;
    } else {
      var s := a + t;
      var x := StripMarkerLines(t, m);
      NoMarkerBeforeTail(s, m, |a|);
      StripKeepsFirst(s, m);
      assert s[1..] == a[1..] + t;
      StripKeepsPrefix(a[1..], t, m);
      assert [s[0]] + a[1..] == a;
      ConsAssoc(s[0], a[1..], x);
    }
  }

  lemma ConsAssoc(c: char, u: string, v: string)
    ensures [c] + (u + v) == ([c] + u) + v
  {
  }

  /**
   * A marker is removed with the rest of its line, up to the first line terminator, and
   * with one `\n` if that terminator is `\n`; any other terminator is kept.
   */
  lemma StripMarkerLine(line: string, rest: string, m: string)
    requires |m| >= 1
    requires forall i :: 0 <= i < |line| ==> !IsLineTerminator(line[i])
    requires rest == [] || IsLineTerminator(rest[0])
    ensures StripMarkerLines(m + line + rest, m)
      == StripMarkerLines(if rest != [] && rest[0] == '\n' then rest[1..] else rest, m)
  {
    var t := line + rest;
    assert m + line + rest == m + t;
    StripAtMarker(t, m);
    AfterMarkerOf(line, rest);
  }

  /** At a marker the scan resumes after the marker's line. */
  lemma StripAtMarker(t: string, m: string)
    requires |m| >= 1
    ensures StripMarkerLines(m + t, m) == StripMarkerLines(AfterMarker(t), m)
  {
    var s := m + t;
    assert s[..|m|] == m && s[|m|..] == t;
    assert OccursAt(s, m, 0);
  }

  /** What a marker consumes of a line and the text after it. */
  lemma AfterMarkerOf(line: string, rest: string)
    requires forall i :: 0 <= i < |line| ==> !IsLineTerminator(line[i])
    requires rest == [] || IsLineTerminator(rest[0])
    ensures AfterMarker(line + rest) == if rest != [] && rest[0] == '\n' then rest[1..] else rest
  {
    var t := line + rest;
    LineEndOf(line, rest);
    assert t[|line|..] == rest;
    if rest != [] && rest[0] == '\n' {
      assert t[|line| + 1..] == rest[1..];
    }
  }

  lemma {:induction false} LineEndOf(line: string, rest: string)
    requires forall i :: 0 <= i < |line| ==> !IsLineTerminator(line[i])
    requires rest == [] || IsLineTerminator(rest[0])
    ensures LineEnd(line + rest) == |line|
    decreases |line|
  {
    if line != [] {
      assert (line + rest)[1..] == line[1..] + rest;
      LineEndOf(line[1..], rest);
    }
  }

  // ---------------------------------------------------------------------------------
  // transformComponent

  /**
   * `transformComponent`: every components-alias placeholder is replaced, then every
   * lib-alias placeholder; under `tailwind-only` the CSS-import marker lines are then removed.
   */
  function TransformComponent(content: string, config: Config): string {
    var withComponents := ReplaceAll(content, AliasComponentsPlaceholder, config.aliases.components);
    var withLib := ReplaceAll(withComponents, AliasLibPlaceholder, config.aliases.lib);
    if config.style.strategy == TailwindCss then withLib else StripCssImports(withLib)
  }

  /**
   * Under `tailwind+css` the two alias substitutions are the only change; a text holding
   * neither alias placeholder passes through unchanged, whatever else it contains.
   */
  lemma TransformKeepsCss(content: string, config: Config)
    requires config.style.strategy == TailwindCss
    ensures TransformComponent(content, config)
      == ReplaceAll(ReplaceAll(content, AliasComponentsPlaceholder, config.aliases.components),
                    AliasLibPlaceholder, config.aliases.lib)
    ensures Free(content, AliasComponentsPlaceholder) && Free(content, AliasLibPlaceholder) ==>
      TransformComponent(content, config) == content
  {
    if Free(content, AliasComponentsPlaceholder) && Free(content, AliasLibPlaceholder) {
      ReplaceAllFree(content, AliasComponentsPlaceholder, config.aliases.components);
      ReplaceAllFree(content, AliasLibPlaceholder, config.aliases.lib);
    }
  }

  /** Under `tailwind-only`, a text with no placeholder of any kind passes through unchanged. */
  lemma TransformWithoutPlaceholders(content: string, config: Config)
    requires Free(content, AliasComponentsPlaceholder) && Free(content, AliasLibPlaceholder)
    requires Free(content, ImportCssPlaceholder)
    ensures TransformComponent(content, config) == content
  {
    ReplaceAllFree(content, AliasComponentsPlaceholder, config.aliases.components);
    ReplaceAllFree(content, AliasLibPlaceholder, config.aliases.lib);
    StripWithoutMarker(content, ImportCssPlaceholder);
  }

  lemma TransformExampleLibAlias()
    ensures TransformComponent("__ALIAS_LIB__/cn", DefaultConfig) == "@/lib/cn"
  {
    var s := "__ALIAS_LIB__/cn";
    var lib := DefaultConfig.aliases.lib;
    assert |s| < |AliasComponentsPlaceholder|;
    assert ReplaceAll(s, AliasComponentsPlaceholder, DefaultConfig.aliases.components) == s;
    assert s[..|AliasLibPlaceholder|] == AliasLibPlaceholder;
    assert s[|AliasLibPlaceholder|..] == "/cn";
    assert ReplaceAll("/cn", AliasLibPlaceholder, lib) == "/cn";
    assert ReplaceAll(s, AliasLibPlaceholder, lib) == lib + "/cn";
    assert lib + "/cn" == "@/lib/cn";
    StripWithoutMarker("@/lib/cn", ImportCssPlaceholder);
  }

  lemma NotOccursAtMismatch(s: string, p: string, i: int, k: int)
    requires 0 <= i && 0 <= k < |p| && i + k < |s| && s[i + k] != p[k]
    ensures !OccursAt(s, p, i)
  {
  }

  /** `__COMPONENT_NAME__` survives the transformation, whatever the configuration. */
  lemma ComponentNameKept(config: Config)
    ensures TransformComponent(ComponentNamePlaceholder, config) == ComponentNamePlaceholder
  {
    var s := ComponentNamePlaceholder;
    assert |s| < |AliasComponentsPlaceholder|;
    assert ReplaceAll(s, AliasComponentsPlaceholder, config.aliases.components) == s;
    ComponentNameWithoutLibAlias();
    ReplaceAllFree(s, AliasLibPlaceholder, config.aliases.lib);
    ComponentNameWithoutMarker();
    StripWithoutMarker(s, ImportCssPlaceholder);
  }

  lemma ComponentNameWithoutLibAlias()
    ensures Free(ComponentNamePlaceholder, AliasLibPlaceholder)
  {
    var s := ComponentNamePlaceholder;
    forall i | 0 <= i <= |s| - |AliasLibPlaceholder|
      ensures !OccursAt(s, AliasLibPlaceholder, i)
    {
      NotOccursAtMismatch(s, AliasLibPlaceholder, i, 2);
    }
  }

  lemma ComponentNameWithoutMarker()
    ensures Free(ComponentNamePlaceholder, ImportCssPlaceholder)
  {
    var s := ComponentNamePlaceholder;
    forall i | 0 <= i <= |s| - |ImportCssPlaceholder|
      ensures !OccursAt(s, ImportCssPlaceholder, i)
    {
      NotOccursAtMismatch(s, ImportCssPlaceholder, i, 0);
    }
  }

  // ---------------------------------------------------------------------------------
  // toKebabCase

  /** No lower-case letter is directly followed by an upper-case one. */
  predicate NoCaseChange(s: string) {
    forall i | 0 <= i < |s| - 1 :: !(IsLower(s[i]) && IsUpper(s[i + 1]))
  }

  /** `replace(/([a-z])([A-Z])/g, '$1-$2')` */
  function HyphenateCaseChanges(s: string): string
    decreases |s|
  {
    if |s| < 2 then s
    else if IsLower(s[0]) && IsUpper(s[1]) then [s[0], '-', s[1]] + HyphenateCaseChanges(s[2..])
    else [s[0]] + HyphenateCaseChanges(s[1..])
  }

  /** Text with no lower-case letter followed by an upper-case one gains no hyphen. */
  lemma {:induction false} HyphenateWithoutCaseChange(s: string)
    requires NoCaseChange(s)
    ensures HyphenateCaseChanges(s) == s
    decreases |s|
  {
    if |s| >= 2 {
      assert !(IsLower(s[0]) && IsUpper(s[1]));
      assert NoCaseChange(s[1..]) by {
        forall i | 0 <= i < |s[1..]| - 1 ensures !(IsLower(s[1..][i]) && IsUpper(s[1..][i + 1])) {
          assert s[1..][i] == s[i + 1] && s[1..][i + 1] == s[i + 2];
        }
      }
      HyphenateWithoutCaseChange(s[1..]);
      assert [s[0]] + s[1..] == s;
    }
  }

  predicate IsSpaceOrUnderscore(c: char) {
    IsJsSpace(c) || c == '_'
  }

  /** `s` without its leading run of characters satisfying `sep`. */
  function DropRun(s: string, underscoreOrSpace: bool): (r: string)
    ensures |r| <= |s| && r == s[|s| - |r|..]
    ensures underscoreOrSpace && s != [] && IsSpaceOrUnderscore(s[0]) ==> |r| < |s|
    ensures !underscoreOrSpace && s != [] && IsWordSeparator(s[0]) ==> |r| < |s|
    ensures underscoreOrSpace ==> r == [] || !IsSpaceOrUnderscore(r[0])
    ensures !underscoreOrSpace ==> r == [] || !IsWordSeparator(r[0])
  {
    if s != [] && (if underscoreOrSpace then IsSpaceOrUnderscore(s[0]) else IsWordSeparator(s[0]))
    then DropRun(s[1..], underscoreOrSpace)
    else s
  }

  /** `replace(/[\s_]+/g, '-')` */
  function CollapseSeparators(s: string): string
    decreases |s|
  {
    if s == [] then []
    else if IsSpaceOrUnderscore(s[0]) then "-" + CollapseSeparators(DropRun(s, true))
    else [s[0]] + CollapseSeparators(s[1..])
  }

  /** The collapse leaves no whitespace and no underscore behind. */
  lemma {:induction false} CollapseSeparatorsClean(s: string)
    ensures NoSpaceOrUnderscore(CollapseSeparators(s))
    decreases |s|
  {
    if s != [] {
      if IsSpaceOrUnderscore(s[0]) {
        var t := DropRun(s, true);
        CollapseSeparatorsClean(t);
        assert !IsSpaceOrUnderscore('-');
        ConsNoSpaceOrUnderscore('-', CollapseSeparators(t));
      } else {
        CollapseSeparatorsClean(s[1..]);
        ConsNoSpaceOrUnderscore(s[0], CollapseSeparators(s[1..]));
      }
    }
  }

  lemma ConsNoSpaceOrUnderscore(c: char, x: string)
    requires !IsSpaceOrUnderscore(c) && NoSpaceOrUnderscore(x)
    ensures NoSpaceOrUnderscore([c] + x)
  {
    var r := [c] + x;
    forall i | 0 <= i < |r| ensures !IsSpaceOrUnderscore(r[i]) {
      if i > 0 {
        assert r[i] == x[i - 1];
      }
    }
  }

  /** Neither whitespace, nor underscore, nor an upper-case letter. */
  predicate IsKebabClean(s: string) {
    forall i :: 0 <= i < |s| ==> !IsUpper(s[i]) && !IsSpaceOrUnderscore(s[i])
  }

  /** `toKebabCase` */
  function ToKebabCase(s: string): string {
    ToLowerCase(CollapseSeparators(HyphenateCaseChanges(s)))
  }

  /** kebab-case output holds no upper-case letter, no whitespace and no underscore. */
  lemma KebabIsClean(s: string)
    ensures IsKebabClean(ToKebabCase(s))
  {
    var c := CollapseSeparators(HyphenateCaseChanges(s));
    CollapseSeparatorsClean(HyphenateCaseChanges(s));
    assert NoSpaceOrUnderscore(c);
    forall i | 0 <= i < |c| ensures !IsUpper(ToLowerChar(c[i])) && !IsSpaceOrUnderscore(ToLowerChar(c[i])) {
      assert !IsSpaceOrUnderscore(c[i]);
    }
  }

  /** A kebab-case name is its own kebab-case. */
  lemma KebabOfClean(s: string)
    requires IsKebabClean(s)
    ensures ToKebabCase(s) == s
  {
    assert NoCaseChange(s);
    HyphenateWithoutCaseChange(s);
    assert NoSpaceOrUnderscore(s);
    CollapseWithout(s);
  }

  lemma KebabIdempotent(s: string)
    ensures ToKebabCase(ToKebabCase(s)) == ToKebabCase(s)
  {
    KebabIsClean(s);
    KebabOfClean(ToKebabCase(s));
  }

  // ---------------------------------------------------------------------------------
  // toPascalCase

  predicate IsWordSeparator(c: char) {
    c == '-' || c == '_' || IsJsSpace(c)
  }

  /** `split(/[-_\s]+/)`: a leading or trailing separator run yields an empty word. */
  function SplitWords(s: string): (ws: seq<string>)
    ensures |ws| >= 1
    decreases |s|
  {
    if s == [] then [""]
    else if IsWordSeparator(s[0]) then [""] + SplitWords(DropRun(s, false))
    else
      var rest := SplitWords(s[1..]);
      [[s[0]] + rest[0]] + rest[1..]
  }

  /** `word.charAt(0).toUpperCase() + word.slice(1).toLowerCase()` */
  function Capitalize(w: string): (r: string)
    ensures |r| == |w|
    ensures forall i :: 0 <= i < |w| ==> (IsWordSeparator(r[i]) <==> IsWordSeparator(w[i]))
  {
    if w == [] then "" else [ToUpperChar(w[0])] + ToLowerCase(w[1..])
  }

  function ConcatCapitalized(ws: seq<string>): string {
    if ws == [] then "" else Capitalize(ws[0]) + ConcatCapitalized(ws[1..])
  }

  /** `toPascalCase` */
  function ToPascalCase(s: string): string {
    ConcatCapitalized(SplitWords(s))
  }

  /** A word without separators splits into itself. */
  lemma {:induction false} SplitSingleWord(w: string)
    requires forall i :: 0 <= i < |w| ==> !IsWordSeparator(w[i])
    ensures SplitWords(w) == [w]
    decreases |w|
  {
    if w != [] {
      SplitSingleWord(w[1..]);
      assert [w[0]] + w[1..] == w;
    }
  }

  /** A separator ends the word before it. */
  lemma {:induction false} SplitAtSeparator(w: string, c: char, rest: string)
    requires forall i :: 0 <= i < |w| ==> !IsWordSeparator(w[i])
    requires IsWordSeparator(c)
    requires rest == [] || !IsWordSeparator(rest[0])
    ensures SplitWords(w + [c] + rest) == [w] + SplitWords(rest)
    decreases |w|
  {
    var s := w + [c] + rest;
    if w == [] {
      assert s == [c] + rest;
      assert DropRun(rest, false) == rest;
    } else {
      assert s[1..] == w[1..] + [c] + rest;
      SplitAtSeparator(w[1..], c, rest);
      assert [w[0]] + w[1..] == w;
    }
  }

  /** Words without separators, each non-empty, joined by `-` split back into the same words. */
  lemma {:induction false} SplitJoined(ws: seq<string>)
    requires |ws| >= 1
    requires forall k :: 0 <= k < |ws| ==> |ws[k]| >= 1
    requires forall k, i :: 0 <= k < |ws| && 0 <= i < |ws[k]| ==> !IsWordSeparator(ws[k][i])
    ensures SplitWords(Join(ws, "-")) == ws
    decreases |ws|
  {
    if |ws| == 1 {
      SplitSingleWord(ws[0]);
    } else {
      SplitJoined(ws[1..]);
      var rest := Join(ws[1..], "-");
      JoinStartsWithFirst(ws[1..], "-");
      SplitAtSeparator(ws[0], '-', rest);
      assert Join(ws, "-") == ws[0] + ['-'] + rest;
      assert [ws[0]] + ws[1..] == ws;
    }
  }

  lemma {:induction false} JoinStartsWithFirst(ws: seq<string>, sep: string)
    requires |ws| >= 1
    ensures ws[0] <= Join(ws, sep)
    decreases |ws|
  {
  }

  /** PascalCase of words joined by `-` capitalises each word and concatenates them. */
  lemma PascalOfJoined(ws: seq<string>)
    requires |ws| >= 1
    requires forall k :: 0 <= k < |ws| ==> |ws[k]| >= 1
    requires forall k, i :: 0 <= k < |ws| && 0 <= i < |ws[k]| ==> !IsWordSeparator(ws[k][i])
    ensures ToPascalCase(Join(ws, "-")) == ConcatCapitalized(ws)
  {
    SplitJoined(ws);
  }

  /**
   * A lower-case word of at least two letters: first and last characters are letters,
   * the ones between letters or digits.
   */
  predicate IsKebabWord(w: string) {
    |w| >= 2 && IsLower(w[0]) && IsLower(w[|w| - 1])
    && forall i | 0 <= i < |w| :: IsLower(w[i]) || '0' <= w[i] <= '9'
  }

  lemma {:induction false} HyphenateAtBoundary(a: string, b: string)
    requires |a| >= 1 && IsLower(a[|a| - 1])
    requires |b| >= 1 && IsUpper(b[0])
    ensures HyphenateCaseChanges(a + b) == HyphenateCaseChanges(a) + "-" + HyphenateCaseChanges(b)
    decreases |a|
  {
    var s := a + b;
    assert HyphenateCaseChanges(b) == [b[0]] + HyphenateCaseChanges(b[1..]);
    if |a| == 1 {
      assert s[2..] == b[1..];
    } else if IsLower(a[0]) && IsUpper(a[1]) {
      assert s[2..] == a[2..] + b;
      HyphenateAtBoundary(a[2..], b);
    } else {
      assert s[1..] == a[1..] + b;
      HyphenateAtBoundary(a[1..], b);
    }
  }

  function CapitalizeAll(ws: seq<string>): (cs: seq<string>)
    ensures |cs| == |ws| && forall k :: 0 <= k < |ws| ==> cs[k] == Capitalize(ws[k])
  {
    if ws == [] then [] else [Capitalize(ws[0])] + CapitalizeAll(ws[1..])
  }

  lemma {:induction false} HyphenateCapitalized(ws: seq<string>)
    requires |ws| >= 1 && forall k :: 0 <= k < |ws| ==> IsKebabWord(ws[k])
    ensures HyphenateCaseChanges(ConcatCapitalized(ws)) == Join(CapitalizeAll(ws), "-")
    decreases |ws|
  {
    var c := Capitalize(ws[0]);
    assert NoCaseChange(c);
    HyphenateWithoutCaseChange(c);
    if |ws| == 1 {
      assert ConcatCapitalized(ws) == c + "";
      assert c + "" == c;
    } else {
      var rest := ConcatCapitalized(ws[1..]);
      assert rest == Capitalize(ws[1]) + ConcatCapitalized(ws[2..]);
      HyphenateAtBoundary(c, rest);
      HyphenateCapitalized(ws[1..]);
      assert CapitalizeAll(ws)[1..] == CapitalizeAll(ws[1..]);
    }
  }

  predicate NoSpaceOrUnderscore(s: string) {
    forall i | 0 <= i < |s| :: !IsSpaceOrUnderscore(s[i])
  }

  lemma {:induction false} JoinNoSpaceOrUnderscore(ws: seq<string>, sep: string)
    requires |ws| >= 1 && NoSpaceOrUnderscore(sep)
    requires forall k :: 0 <= k < |ws| ==> NoSpaceOrUnderscore(ws[k])
    ensures NoSpaceOrUnderscore(Join(ws, sep))
    decreases |ws|
  {
    if |ws| > 1 {
      JoinNoSpaceOrUnderscore(ws[1..], sep);
    }
  }

  lemma ToLowerCaseConcat(a: string, b: string)
    ensures ToLowerCase(a + b) == ToLowerCase(a) + ToLowerCase(b)
  {
  }

  /** Lower-casing a capitalised kebab word gives the word back. */
  lemma LowerCapitalized(w: string)
    requires IsKebabWord(w)
    ensures ToLowerCase(Capitalize(w)) == w
  {
    var c := Capitalize(w);
    var l := ToLowerCase(c);
    forall i | 0 <= i < |w| ensures l[i] == w[i] {
      assert IsLower(w[i]) || '0' <= w[i] <= '9';
    }
  }

  lemma {:induction false} LowerJoinedCapitalized(ws: seq<string>)
    requires |ws| >= 1 && forall k :: 0 <= k < |ws| ==> IsKebabWord(ws[k])
    ensures ToLowerCase(Join(CapitalizeAll(ws), "-")) == Join(ws, "-")
    decreases |ws|
  {
    var cs := CapitalizeAll(ws);
    var c := cs[0];
    LowerCapitalized(ws[0]);
    if |ws| > 1 {
      var tail := Join(cs[1..], "-");
      assert cs[1..] == CapitalizeAll(ws[1..]);
      LowerJoinedCapitalized(ws[1..]);
      assert Join(cs, "-") == c + "-" + tail;
      ToLowerCaseConcat(c + "-", tail);
      ToLowerCaseConcat(c, "-");
      assert ToLowerCase("-") == "-";
      assert Join(ws, "-") == ws[0] + "-" + Join(ws[1..], "-");
    } else {
      assert Join(cs, "-") == c;
    }
  }

  /** Text without whitespace or underscores is left as it is by the separator collapse. */
  lemma {:induction false} CollapseWithout(s: string)
    requires NoSpaceOrUnderscore(s)
    ensures CollapseSeparators(s) == s
    decreases |s|
  {
    if s != [] {
      assert !IsSpaceOrUnderscore(s[0]);
      assert NoSpaceOrUnderscore(s[1..]) by {
        forall i | 0 <= i < |s[1..]| ensures !IsSpaceOrUnderscore(s[1..][i]) {
          assert s[1..][i] == s[i + 1];
        }
      }
      CollapseWithout(s[1..]);
      assert [s[0]] + s[1..] == s;
    }
  }

  lemma KebabWordIsWord(w: string)
    requires IsKebabWord(w)
    ensures |w| >= 1
    ensures forall i :: 0 <= i < |w| ==> !IsWordSeparator(w[i])
    ensures NoSpaceOrUnderscore(Capitalize(w))
  {
    var c := Capitalize(w);
    forall i | 0 <= i < |w| ensures !IsWordSeparator(w[i]) {
      assert IsLower(w[i]) || '0' <= w[i] <= '9';
    }
    forall i | 0 <= i < |c| ensures !IsSpaceOrUnderscore(c[i]) {
      assert !IsWordSeparator(w[i]);
    }
  }

  lemma KebabWordsAreWords(ws: seq<string>)
    requires forall k :: 0 <= k < |ws| ==> IsKebabWord(ws[k])
    ensures forall k :: 0 <= k < |ws| ==> |ws[k]| >= 1
    ensures forall k, i :: 0 <= k < |ws| && 0 <= i < |ws[k]| ==> !IsWordSeparator(ws[k][i])
    ensures forall k :: 0 <= k < |CapitalizeAll(ws)| ==> NoSpaceOrUnderscore(CapitalizeAll(ws)[k])
  {
    forall k | 0 <= k < |ws|
      ensures |ws[k]| >= 1
      ensures forall i :: 0 <= i < |ws[k]| ==> !IsWordSeparator(ws[k][i])
      ensures NoSpaceOrUnderscore(CapitalizeAll(ws)[k])
    {
      KebabWordIsWord(ws[k]);
    }
  }

  lemma HyphenIsNoSpace()
    ensures NoSpaceOrUnderscore("-")
  {
    assert !IsSpaceOrUnderscore('-');
  }

  /**
   * kebab-case undoes PascalCase: lower-case words of at least two characters, each
   * starting and ending with a letter, joined by `-`, come back unchanged.
   */
  lemma KebabPascalRoundTrip(ws: seq<string>)
    requires |ws| >= 1 && forall k :: 0 <= k < |ws| ==> IsKebabWord(ws[k])
    ensures ToKebabCase(ToPascalCase(Join(ws, "-"))) == Join(ws, "-")
  {
    KebabWordsAreWords(ws);
    PascalOfJoined(ws);
    var pascal := ConcatCapitalized(ws);
    HyphenateCapitalized(ws);
    var joined := Join(CapitalizeAll(ws), "-");
    HyphenIsNoSpace();
    JoinNoSpaceOrUnderscore(CapitalizeAll(ws), "-");
    CollapseWithout(joined);
    LowerJoinedCapitalized(ws);
  }

  // ---------------------------------------------------------------------------------

  /** `generateCssImport` */
  function GenerateCssImport(componentName: string): string {
    "import './" + ToKebabCase(componentName) + ".css';"
  }

  /** Names with the same kebab-case import the same stylesheet; the import names a kebab-case file. */
  lemma CssImportOfKebab(componentName: string)
    ensures GenerateCssImport(ToKebabCase(componentName)) == GenerateCssImport(componentName)
  {
    KebabIdempotent(componentName);
  }

  /** `transformCssForTailwindV4`: leaves stylesheet text as it is. */
  function TransformCssForTailwindV4(content: string): (r: string)
    ensures r == content
  {
    content
  }
}
