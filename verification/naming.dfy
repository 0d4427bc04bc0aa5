/**
 * The name transformer of the icon processor: the four naming styles, the
 * filesystem sanitiser, and the `toPascalCase` used for React component and file names.
 * Every regex replacement is written out as a scan with the regex's own matching rules.
 */
module Naming {
  import opened Wrappers
  import opened Text
  import opened Types

  /** The class `[-_\s]` that delimits words for camelCase, PascalCase and `toPascalCase`. */
  predicate IsSeparator(c: char) {
    c == '-' || c == '_' || IsSpace(c)
  }

  /** The class `[\s_]` that kebab-case turns into hyphens. */
  predicate IsSpaceOrUnderscore(c: char) {
    IsSpace(c) || c == '_'
  }

  /** The class `[<>:"/\\|?*]` of characters the sanitiser replaces by a hyphen. */
  predicate IsUnsafe(c: char) {
    c == '<' || c == '>' || c == ':' || c == '"' || c == '/' || c == '\\' || c == '|' || c == '?' || c == '*'
  }

  /**
   * What a sanitised name guarantees: no unsafe character, every whitespace character
   * is a plain space, no two whitespace characters in a row, none at either end.
   */
  predicate IsSafeName(s: string) {
    && (forall i :: 0 <= i < |s| ==> !IsUnsafe(s[i]))
    && (forall i :: 0 <= i < |s| && IsSpace(s[i]) ==> s[i] == ' ')
    && (forall i, j :: 0 <= i < |s| && 0 <= j < |s| && j == i + 1 ==> !(IsSpace(s[i]) && IsSpace(s[j])))
    && (s != [] ==> !IsSpace(s[0]) && !IsSpace(s[|s| - 1]))
  }

  // ---------------------------------------------------------------------------
  // Sanitising

  /** `s.replace(/[<>:"/\\|?*]/g, '-')`. */
  function ReplaceUnsafe(s: string): (r: string)
    ensures |r| == |s|
    ensures forall i :: 0 <= i < |r| ==> !IsUnsafe(r[i])
    ensures forall i :: 0 <= i < |r| ==> r[i] == (if IsUnsafe(s[i]) then '-' else s[i])
  {
    seq(|s|, i requires 0 <= i < |s| => if IsUnsafe(s[i]) then '-' else s[i])
  }

  /** `sanitizeForFilesystem`: replace unsafe characters, collapse `\s+` to one space, trim. */
  function SanitizeForFilesystem(name: string): (r: string)
    ensures IsSafeName(r)
  {
    var c := ReplaceRuns(ReplaceUnsafe(name), IsSpace, " ");
    CollapsedIsSafe(ReplaceUnsafe(name));
    TrimKeepsSafe(c);
    Trim(c)
  }

  /** The three properties of a safe name that do not concern its ends. */
  predicate IsSafeInside(s: string) {
    && (forall i :: 0 <= i < |s| ==> !IsUnsafe(s[i]))
    && (forall i :: 0 <= i < |s| && IsSpace(s[i]) ==> s[i] == ' ')
    && (forall i, j :: 0 <= i < |s| && 0 <= j < |s| && j == i + 1 ==> !(IsSpace(s[i]) && IsSpace(s[j])))
  }

  lemma CollapsedIsSafe(u: string)
    requires forall i :: 0 <= i < |u| ==> !IsUnsafe(u[i])
    ensures IsSafeInside(ReplaceRuns(u, IsSpace, " "))
  {
    var c := ReplaceRuns(u, IsSpace, " ");
    forall i | 0 <= i < |c| ensures !IsUnsafe(c[i]) {
      assert c[i] in u || c[i] in " ";
    }
  }

  lemma TrimKeepsSafe(c: string)
    requires IsSafeInside(c)
    ensures IsSafeName(Trim(c))
  {
    var r := Trim(c);
    var a := SkipSpaces(c, 0);
    assert r == c[a..a + |r|];
    forall i | 0 <= i < |r| ensures !IsUnsafe(r[i]) && (IsSpace(r[i]) ==> r[i] == ' ') {
      assert r[i] == c[a + i];
    }
    forall i, j | 0 <= i && j == i + 1 && j < |r| ensures !(IsSpace(r[i]) && IsSpace(r[j])) {
      assert r[i] == c[a + i] && r[j] == c[a + j];
    }
  }

  /** Collapsing whitespace runs changes nothing once every run is a single plain space. */
  lemma {:induction false} CollapseKeepsSingleSpaces(s: string)
    requires forall i :: 0 <= i < |s| && IsSpace(s[i]) ==> s[i] == ' '
    requires forall i, j :: 0 <= i && j == i + 1 && j < |s| ==> !(IsSpace(s[i]) && IsSpace(s[j]))
    ensures ReplaceRuns(s, IsSpace, " ") == s
    decreases |s|
  {
    if s != [] {
      CollapseKeepsSingleSpaces(s[1..]);
      if IsSpace(s[0]) {
        assert RunLength(s, IsSpace) == 1 by {
          if |s| > 1 { assert !IsSpace(s[1]); }
        }
      }
    }
  }

  /** A safe name is left as it is by the sanitiser. */
  lemma SanitizeKeepsSafeName(s: string)
    requires IsSafeName(s)
    ensures SanitizeForFilesystem(s) == s
  {
    assert ReplaceUnsafe(s) == s;
    CollapseKeepsSingleSpaces(s);
    assert SkipSpaces(s, 0) == 0;
    assert SkipSpacesBack(s, 0, |s|) == |s|;
    assert s[0..|s|] == s;
  }

  /** A name with neither whitespace nor unsafe characters is safe. */
  lemma PlainNameIsSafe(s: string)
    requires forall i :: 0 <= i < |s| ==> !IsSpace(s[i]) && !IsUnsafe(s[i])
    ensures IsSafeName(s)
  {
  }

  /** Sanitising is idempotent. */
  lemma SanitizeIdempotent(s: string)
    ensures SanitizeForFilesystem(SanitizeForFilesystem(s)) == SanitizeForFilesystem(s)
  {
    SanitizeKeepsSafeName(SanitizeForFilesystem(s));
  }

  // ---------------------------------------------------------------------------
  // kebab-case

  /** `s.replace(/([a-z])([A-Z])/g, '$1-$2')`: a hyphen between each lower-case letter and the upper-case letter after it. */
  function HyphenateCaseBoundaries(s: string): (r: string)
    ensures s != [] ==> r != [] && r[0] == s[0]
    ensures forall i, j :: 0 <= i && j == i + 1 && j < |r| ==> !(IsAsciiLower(r[i]) && IsAsciiUpper(r[j]))
    decreases |s|
  {
    if |s| < 2 then s
    else if IsAsciiLower(s[0]) && IsAsciiUpper(s[1]) then [s[0], '-', s[1]] + HyphenateCaseBoundaries(s[2..])
    else [s[0]] + HyphenateCaseBoundaries(s[1..])
  }

  /** The `kebab-case` transform: split camel humps, turn `[\s_]+` runs into one hyphen, lower-case. */
  function ToKebabCase(s: string): (r: string)
    ensures forall i :: 0 <= i < |r| ==> !IsAsciiUpper(r[i]) && !IsSpaceOrUnderscore(r[i])
  {
    var h := ReplaceRuns(HyphenateCaseBoundaries(s), IsSpaceOrUnderscore, "-");
    assert forall c :: c in "-" ==> !IsSpaceOrUnderscore(c);
    Lowercase(h)
  }

  // ---------------------------------------------------------------------------
  // camelCase, PascalCase and toPascalCase

  /** The last index at or after `lo` whose character the regex `.` accepts. */
  function LastNonTerminator(s: string, lo: nat): (r: Option<nat>)
    ensures r.Some? ==> lo <= r.value < |s| && !IsLineTerminator(s[r.value])
    ensures r.Some? ==> forall j :: r.value < j < |s| ==> IsLineTerminator(s[j])
    ensures r.None? ==> forall j :: lo <= j < |s| ==> IsLineTerminator(s[j])
    decreases |s|
  {
    if |s| <= lo then None
    else if !IsLineTerminator(s[|s| - 1]) then Some(|s| - 1)
    else LastNonTerminator(s[..|s| - 1], lo)
  }

  /**
   * `s.replace(/[-_\s]+(.)/g, (_, c) => c.toUpperCase())`, the first step of the
   * camelCase and PascalCase transforms: a run of separators and the character after
   * it become that character, upper-cased. When a run reaches the end of the string,
   * `(.)` finds nothing after it and the regex backtracks into the run: the last
   * separator of the run that `.` accepts stands in for that character. So a trailing
   * run is shortened, never dropped: the result ends with the input's last character.
   */
  function CapitalizeWords(s: string): (r: string)
    ensures s != [] && IsSeparator(s[|s| - 1]) ==> r != [] && r[|r| - 1] == s[|s| - 1]
    decreases |s|
  {
    if s == [] then []
    else if !IsSeparator(s[0]) then [s[0]] + CapitalizeWords(s[1..])
    else
      var k := RunLength(s, IsSeparator);
      if k < |s| then [AsciiUpper(s[k])] + CapitalizeWords(s[k + 1..])
      else match LastNonTerminator(s, 1)
        case Some(j) => [AsciiUpper(s[j])] + CapitalizeWords(s[j + 1..])
        case None => [s[0]] + CapitalizeWords(s[1..])
  }

  /** A trailing run of separators is cut down to the input's last character. */
  lemma TrailingRunShortened()
    ensures CapitalizeWords("a--") == "a-"
  {
    var s := "a--";
    assert s[1..] == "--" && RunLength("--", IsSeparator) == 2;
    assert LastNonTerminator("--", 1) == Some(1);
    assert AsciiUpper('-') == '-';
  }

  /**
   * `s.replace(/[-_\s]+(.)?/g, (_, c) => (c ? c.toUpperCase() : ''))`, the first step of
   * `toPascalCase`: as above, but `(.)?` may match nothing, so a trailing run is dropped.
   */
  function CapitalizeWordsDroppingSeparators(s: string): (r: string)
    ensures |r| <= |s|
    ensures forall i :: 0 <= i < |r| ==> !IsSeparator(r[i])
    ensures s != [] && !IsSeparator(s[0]) ==> r != [] && r[0] == s[0]
    ensures s != [] && IsSeparator(s[0]) && RunLength(s, IsSeparator) < |s|
            ==> r != [] && r[0] == AsciiUpper(s[RunLength(s, IsSeparator)])
    decreases |s|
  {
    if s == [] then []
    else if !IsSeparator(s[0]) then [s[0]] + CapitalizeWordsDroppingSeparators(s[1..])
    else
      var k := RunLength(s, IsSeparator);
      if k < |s| then [AsciiUpper(s[k])] + CapitalizeWordsDroppingSeparators(s[k + 1..])
      else []
  }

  /** `s.replace(/^(.)/, c => c.toUpperCase())`. */
  function UpperFirst(s: string): (r: string)
    ensures |r| == |s|
    ensures s != [] && !IsLineTerminator(s[0]) ==> r[0] == AsciiUpper(s[0]) && !IsAsciiLower(r[0])
    ensures forall i :: 0 < i < |s| ==> r[i] == s[i]
    ensures s != [] && !IsAsciiLower(s[0]) ==> r == s
  {
    if s != [] && !IsLineTerminator(s[0]) then [AsciiUpper(s[0])] + s[1..] else s
  }

  /** `s.replace(/^(.)/, c => c.toLowerCase())`. */
  function LowerFirst(s: string): (r: string)
    ensures |r| == |s|
    ensures s != [] && !IsLineTerminator(s[0]) ==> r[0] == AsciiLower(s[0]) && !IsAsciiUpper(r[0])
    ensures forall i :: 0 < i < |s| ==> r[i] == s[i]
    ensures s != [] && !IsAsciiUpper(s[0]) ==> r == s
  {
    if s != [] && !IsLineTerminator(s[0]) then [AsciiLower(s[0])] + s[1..] else s
  }

  /** The separator rewrite leaves nothing exactly when the text is all separators. */
  lemma {:induction false} DroppingEmptyIff(s: string)
    ensures CapitalizeWordsDroppingSeparators(s) == [] <==> forall i :: 0 <= i < |s| ==> IsSeparator(s[i])
    decreases |s|
  {
    if s != [] && IsSeparator(s[0]) {
      var k := RunLength(s, IsSeparator);
      if k == |s| {
        assert forall i :: 0 <= i < |s| ==> IsSeparator(s[i]);
      } else {
        assert !IsSeparator(s[k]);
      }
    } else if s != [] {
      assert !IsSeparator(s[0]);
    }
  }

  /**
   * `toPascalCase`, which names React components and their files: no separator is
   * left, and the first character is upper-cased.
   */
  function ToPascalCase(s: string): (r: string)
    ensures |r| <= |s|
    ensures forall i :: 0 <= i < |r| ==> !IsSeparator(r[i])
    ensures r != [] ==> !IsAsciiLower(r[0])
    ensures s != [] && !IsSeparator(s[0]) ==> r != [] && r[0] == AsciiUpper(s[0])
    ensures r == [] <==> forall i :: 0 <= i < |s| ==> IsSeparator(s[i])
  {
    DroppingEmptyIff(s);
    UpperFirst(CapitalizeWordsDroppingSeparators(s))
  }

  lemma {:induction false} DroppingSeparatorsKeepsWords(s: string)
    requires forall i :: 0 <= i < |s| ==> !IsSeparator(s[i])
    ensures CapitalizeWordsDroppingSeparators(s) == s
    decreases |s|
  {
    if s != [] {
      DroppingSeparatorsKeepsWords(s[1..]);
    }
  }

  /** Text without separators passes through the separator rewrite unchanged. */
  lemma {:induction false} DroppingSkipsPlain(a: string, b: string)
    requires forall i :: 0 <= i < |a| ==> !IsSeparator(a[i])
    ensures CapitalizeWordsDroppingSeparators(a + b) == a + CapitalizeWordsDroppingSeparators(b)
    decreases |a|
  {
    if a != [] {
      assert (a + b)[0] == a[0];
      assert (a + b)[1..] == a[1..] + b;
      DroppingSkipsPlain(a[1..], b);
      AppendAssociates([a[0]], a[1..], CapitalizeWordsDroppingSeparators(b));
      assert [a[0]] + a[1..] == a;
    } else {
      assert a + b == b;
    }
  }

  /** A separator run followed by a character becomes that character, upper-cased. */
  lemma DroppingAtRun(run: string, b: string)
    requires run != [] && forall i :: 0 <= i < |run| ==> IsSeparator(run[i])
    requires b != [] && !IsSeparator(b[0])
    ensures CapitalizeWordsDroppingSeparators(run + b) == [AsciiUpper(b[0])] + CapitalizeWordsDroppingSeparators(b[1..])
  {
    var s := run + b;
    RunOfPrefix(run, b, IsSeparator);
    assert s[0] == run[0];
    assert s[|run|] == b[0];
    assert s[|run| + 1..] == b[1..];
  }

  /** A separator run at the end is dropped: `(.)?` matches nothing there. */
  lemma DroppingTrailingRun(run: string)
    requires forall i :: 0 <= i < |run| ==> IsSeparator(run[i])
    ensures CapitalizeWordsDroppingSeparators(run) == []
  {
    if run != [] {
      RunOfPrefix(run, [], IsSeparator);
      assert run + [] == run;
    }
  }

  /** One word, a separator run, and the rest: the rest comes out with its first letter upper-cased. */
  lemma DroppingStep(w: string, sep: string, rest: string)
    requires forall i :: 0 <= i < |w| ==> !IsSeparator(w[i])
    requires sep != [] && forall i :: 0 <= i < |sep| ==> IsSeparator(sep[i])
    requires rest != [] && !IsSeparator(rest[0]) && !IsLineTerminator(rest[0])
    ensures CapitalizeWordsDroppingSeparators(w + (sep + rest))
            == w + UpperFirst(CapitalizeWordsDroppingSeparators(rest))
  {
    var d := CapitalizeWordsDroppingSeparators(rest[1..]);
    DroppingAtRun(sep, rest);
    assert CapitalizeWordsDroppingSeparators(rest) == [rest[0]] + d;
    assert ([rest[0]] + d)[1..] == d;
    DroppingSkipsPlain(w, sep + rest);
  }

  /**
   * `toPascalCase` of alphanumeric words joined by any separator run: the words, each
   * with its first letter upper-cased, run together.
   */
  lemma {:induction false} PascalOfWords(words: seq<string>, sep: string)
    requires |words| > 0 && forall k :: 0 <= k < |words| ==> IsAlnumWord(words[k])
    requires sep != [] && forall i :: 0 <= i < |sep| ==> IsSeparator(sep[i])
    ensures ToPascalCase(Join(words, sep)) == CapitalizedConcat(words)
    decreases |words|
  {
    var w := words[0];
    assert IsAlnumWord(w);
    assert forall i :: 0 <= i < |w| ==> !IsSeparator(w[i]);
    if |words| == 1 {
      DroppingSeparatorsKeepsWords(w);
      assert CapitalizedConcat(words) == UpperFirst(w) + CapitalizedConcat([]);
    } else {
      var rest := Join(words[1..], sep);
      assert IsAlnumWord(words[1]);
      JoinStartsWithFirst(words[1..], sep);
      calc {
        ToPascalCase(Join(words, sep));
        { assert Join(words, sep) == w + (sep + rest); }
        UpperFirst(CapitalizeWordsDroppingSeparators(w + (sep + rest)));
        { DroppingStep(w, sep, rest); }
        UpperFirst(w + UpperFirst(CapitalizeWordsDroppingSeparators(rest)));
        { UpperFirstOfConcat(w, UpperFirst(CapitalizeWordsDroppingSeparators(rest))); }
        UpperFirst(w) + ToPascalCase(rest);
        { PascalOfWords(words[1..], sep); }
        UpperFirst(w) + CapitalizedConcat(words[1..]);
      }
    }
  }

  /** A name holding a separator is never its own `toPascalCase`. */
  lemma SeparatorChangesPascal(name: string, i: int)
    requires 0 <= i < |name| && IsSeparator(name[i])
    ensures ToPascalCase(name) != name
  {
    var r := ToPascalCase(name);
    if |r| == |name| {
      assert !IsSeparator(r[i]);
    }
  }

  /** `arrow-left` names its React component `ArrowLeft`. */
  lemma HyphenatedPascalExample()
    ensures ToPascalCase("arrow-left") == "ArrowLeft"
  {
    var words := ["arrow", "left"];
    assert Join(words, "-") == "arrow-left";
    assert CapitalizedConcat(words) == "ArrowLeft";
    PascalOfWords(words, "-");
  }

  /** A name `toPascalCase` produced is a fixed point of it. */
  lemma ToPascalCaseIdempotent(s: string)
    ensures ToPascalCase(ToPascalCase(s)) == ToPascalCase(s)
  {
    DroppingSeparatorsKeepsWords(ToPascalCase(s));
  }

  // ---------------------------------------------------------------------------
  // transformName

  function ApplyTransform(t: NameTransform, name: string): string {
    match t
    case KebabCase => ToKebabCase(name)
    case CamelCase => LowerFirst(CapitalizeWords(name))
    case PascalCase => UpperFirst(CapitalizeWords(name))
    case Preserve => name
  }

  /** The naming settings in force: when absent, preserve names and sanitise them. */
  function EffectiveNaming(naming: Option<NamingConfig>): NamingConfig {
    if naming.Some? then naming.value else NamingConfig(Preserve, Some(true))
  }

  /**
   * `transformName`: the configured style, then the sanitiser unless `sanitize` is
   * explicitly `false`.
   */
  function TransformName(naming: Option<NamingConfig>, name: string): (r: string)
    ensures naming.None? || naming.value.sanitize != Some(false) ==> IsSafeName(r)
    ensures naming.None? ==> r == SanitizeForFilesystem(name)
    ensures naming == Some(NamingConfig(Preserve, Some(false))) ==> r == name
  {
    var cfg := EffectiveNaming(naming);
    var transformed := ApplyTransform(cfg.transform, name);
    if cfg.sanitize != Some(false) then SanitizeForFilesystem(transformed) else transformed
  }

  /** The sanitiser keeps a last character that is neither whitespace nor unsafe. */
  lemma SanitizeKeepsLastChar(s: string)
    requires s != [] && !IsSpace(s[|s| - 1]) && !IsUnsafe(s[|s| - 1])
    ensures SanitizeForFilesystem(s) != [] && SanitizeForFilesystem(s)[|SanitizeForFilesystem(s)| - 1] == s[|s| - 1]
  {
    var c := ReplaceRuns(ReplaceUnsafe(s), IsSpace, " ");
    assert c != [] && c[|c| - 1] == s[|s| - 1] by {
      ReplaceRunsKeepsLast(ReplaceUnsafe(s), IsSpace, " ");
    }
    TrimKeepsLast(c);
  }

  lemma {:induction false} ReplaceRunsKeepsLast(s: string, p: char -> bool, rep: string)
    requires s != [] && !p(s[|s| - 1])
    ensures ReplaceRuns(s, p, rep) != [] && ReplaceRuns(s, p, rep)[|ReplaceRuns(s, p, rep)| - 1] == s[|s| - 1]
    decreases |s|
  {
    if p(s[0]) {
      var k := RunLength(s, p);
      ReplaceRunsKeepsLast(s[k..], p, rep);
    } else if |s| > 1 {
      ReplaceRunsKeepsLast(s[1..], p, rep);
    }
  }

  /**
   * The camelCase and PascalCase transforms keep a trailing `-` or `_`, sanitised or
   * not, whereas `toPascalCase` leaves no separator at all.
   */
  lemma StyledKeepsTrailingSeparator(t: NameTransform, name: string)
    requires t == CamelCase || t == PascalCase
    requires name != [] && (name[|name| - 1] == '-' || name[|name| - 1] == '_')
    ensures var r := ApplyTransform(t, name); r != [] && r[|r| - 1] == name[|name| - 1]
  {
    var w := CapitalizeWords(name);
    if |w| == 1 {
      assert !IsAsciiLower(w[0]) && !IsAsciiUpper(w[0]);
    }
  }

  lemma HyphenAndUnderscoreArePlain(c: char)
    requires c == '-' || c == '_'
    ensures !IsSpace(c) && !IsUnsafe(c)
  {
  }

  lemma CamelAndPascalKeepTrailingSeparator(naming: NamingConfig, name: string)
    requires naming.transform == CamelCase || naming.transform == PascalCase
    requires name != [] && (name[|name| - 1] == '-' || name[|name| - 1] == '_')
    ensures var r := TransformName(Some(naming), name); r != [] && r[|r| - 1] == name[|name| - 1]
  {
    StyledKeepsTrailingSeparator(naming.transform, name);
    StyledThenSanitized(naming, name);
  }

  /** `transformName` under a configured style: the style, then the sanitiser unless it is switched off. */
  lemma StyledThenSanitized(naming: NamingConfig, name: string)
    requires ApplyTransform(naming.transform, name) != []
    ensures var t := ApplyTransform(naming.transform, name);
            var r := TransformName(Some(naming), name);
            t[|t| - 1] == '-' || t[|t| - 1] == '_' ==> r != [] && r[|r| - 1] == t[|t| - 1]
  {
    var t := ApplyTransform(naming.transform, name);
    if naming.sanitize != Some(false) && (t[|t| - 1] == '-' || t[|t| - 1] == '_') {
      SanitizedSeparatorKept(t);
    }
  }

  /** A trailing `-` or `_` survives sanitising. */
  lemma SanitizedSeparatorKept(t: string)
    requires t != [] && (t[|t| - 1] == '-' || t[|t| - 1] == '_')
    ensures var r := SanitizeForFilesystem(t); r != [] && r[|r| - 1] == t[|t| - 1]
  {
    HyphenAndUnderscoreArePlain(t[|t| - 1]);
    SanitizeKeepsLastChar(t);
  }

  lemma {:induction false} ReplaceRunsSkipsPlain(a: string, b: string, p: char -> bool, rep: string)
    requires forall i :: 0 <= i < |a| ==> !p(a[i])
    ensures ReplaceRuns(a + b, p, rep) == a + ReplaceRuns(b, p, rep)
    decreases |a|
  {
    if a != [] {
      assert (a + b)[0] == a[0] && !p(a[0]);
      assert (a + b)[1..] == a[1..] + b;
      ReplaceRunsSkipsPlain(a[1..], b, p, rep);
      assert ReplaceRuns(a + b, p, rep) == [a[0]] + ReplaceRuns(a[1..] + b, p, rep);
      assert [a[0]] + a[1..] == a;
    } else {
      assert a + b == b;
    }
  }

  lemma ReplaceRunsSingle(c: char, b: string, p: char -> bool, rep: string)
    requires p(c) && (b == [] || !p(b[0]))
    ensures ReplaceRuns([c] + b, p, rep) == rep + ReplaceRuns(b, p, rep)
  {
    assert RunLength([c] + b, p) == 1 by {
      assert ([c] + b)[1..] == b;
    }
    assert ([c] + b)[1..] == b;
  }

  /**
   * A camelCase pair: lower-case letters followed by a word starting with its only
   * upper-case letter get a hyphen at the boundary, and nothing else changes.
   */
  lemma {:induction false} HyphenateCamelPair(w1: string, w2: string)
    requires w1 != [] && forall i :: 0 <= i < |w1| ==> IsAsciiLower(w1[i])
    requires w2 != [] && IsAsciiUpper(w2[0]) && forall i :: 1 <= i < |w2| ==> !IsAsciiUpper(w2[i])
    ensures HyphenateCaseBoundaries(w1 + w2) == w1 + ("-" + w2)
    decreases |w1|
  {
    var s := w1 + w2;
    if |w1| == 1 {
      assert s[0] == w1[0] && s[1] == w2[0] && s[2..] == w2[1..];
      HyphenateKeepsNoUpper(w2[1..]);
      BoundaryRegrouped(w1, w2);
    } else {
      assert s[0] == w1[0] && s[1] == w1[1];
      assert s[1..] == w1[1..] + w2;
      HyphenateCamelPair(w1[1..], w2);
      AppendAssociates([w1[0]], w1[1..], "-" + w2);
      assert [w1[0]] + w1[1..] == w1;
    }
  }

  lemma BoundaryRegrouped(w1: string, w2: string)
    requires |w1| == 1 && w2 != []
    ensures [w1[0], '-', w2[0]] + w2[1..] == w1 + ("-" + w2)
  {
    assert w1 == [w1[0]] && w2 == [w2[0]] + w2[1..];
  }

  lemma {:induction false} HyphenateKeepsNoUpper(s: string)
    requires forall i :: 0 <= i < |s| ==> !IsAsciiUpper(s[i])
    ensures HyphenateCaseBoundaries(s) == s
    decreases |s|
  {
    if |s| >= 2 {
      HyphenateKeepsNoUpper(s[1..]);
    }
  }

  lemma {:induction false} CapitalizeWordsSkipsPlain(a: string, b: string)
    requires forall i :: 0 <= i < |a| ==> !IsSeparator(a[i])
    ensures CapitalizeWords(a + b) == a + CapitalizeWords(b)
    decreases |a|
  {
    if a != [] {
      assert (a + b)[0] == a[0] && !IsSeparator(a[0]);
      assert (a + b)[1..] == a[1..] + b;
      CapitalizeWordsSkipsPlain(a[1..], b);
      assert CapitalizeWords(a + b) == [a[0]] + CapitalizeWords(a[1..] + b);
      assert [a[0]] + a[1..] == a;
    } else {
      assert a + b == b;
    }
  }

  lemma CapitalizeWordsAtSeparator(c: char, b: string)
    requires IsSeparator(c) && b != [] && !IsSeparator(b[0])
    ensures CapitalizeWords([c] + b) == [AsciiUpper(b[0])] + CapitalizeWords(b[1..])
  {
    assert RunLength([c] + b, IsSeparator) == 1 by {
      assert ([c] + b)[1..] == b;
    }
    assert ([c] + b)[2..] == b[1..];
  }

  /** A word of lower-case ASCII letters and digits. */
  predicate IsLowerWord(w: string) {
    w != [] && forall i :: 0 <= i < |w| ==> IsAsciiLower(w[i]) || IsDigit(w[i])
  }

  /** A word of ASCII letters and digits. */
  predicate IsAlnumWord(w: string) {
    w != [] && forall i :: 0 <= i < |w| ==> IsAsciiLower(w[i]) || IsAsciiUpper(w[i]) || IsDigit(w[i])
  }

  /** The words, each with its first letter upper-cased, run together. */
  function CapitalizedConcat(words: seq<string>): string {
    if words == [] then "" else UpperFirst(words[0]) + CapitalizedConcat(words[1..])
  }

  lemma {:induction false} SnakeToKebabRuns(words: seq<string>)
    requires |words| > 0 && forall k :: 0 <= k < |words| ==> IsLowerWord(words[k])
    ensures ReplaceRuns(Join(words, "_"), IsSpaceOrUnderscore, "-") == Join(words, "-")
    decreases |words|
  {
    var w := words[0];
    assert forall i :: 0 <= i < |w| ==> !IsSpaceOrUnderscore(w[i]);
    if |words| == 1 {
      ReplaceRunsSkipsPlain(w, [], IsSpaceOrUnderscore, "-");
      assert w + [] == w;
    } else {
      var rest := Join(words[1..], "_");
      SnakeToKebabRuns(words[1..]);
      assert IsLowerWord(words[1..][0]);
      JoinStartsWithFirst(words[1..], "_");
      SnakeStep(w, rest, Join(words[1..], "-"));
    }
  }

  /** One underscore between a plain word and the rest becomes one hyphen. */
  lemma SnakeStep(w: string, rest: string, restOut: string)
    requires forall i :: 0 <= i < |w| ==> !IsSpaceOrUnderscore(w[i])
    requires rest != [] && !IsSpaceOrUnderscore(rest[0])
    requires ReplaceRuns(rest, IsSpaceOrUnderscore, "-") == restOut
    ensures ReplaceRuns(w + ("_" + rest), IsSpaceOrUnderscore, "-") == w + ("-" + restOut)
  {
    ReplaceRunsSkipsPlain(w, "_" + rest, IsSpaceOrUnderscore, "-");
    assert "_" + rest == ['_'] + rest;
    ReplaceRunsSingle('_', rest, IsSpaceOrUnderscore, "-");
  }

  lemma {:induction false} JoinStartsWithFirst(words: seq<string>, sep: string)
    requires |words| > 0 && words[0] != []
    ensures Join(words, sep) != [] && Join(words, sep)[0] == words[0][0]
  {
  }

  lemma {:induction false} JoinOfWordsShape(words: seq<string>, sep: string, p: char -> bool)
    requires forall k :: 0 <= k < |words| ==> forall i :: 0 <= i < |words[k]| ==> p(words[k][i])
    requires forall i :: 0 <= i < |sep| ==> p(sep[i])
    ensures forall i :: 0 <= i < |Join(words, sep)| ==> p(Join(words, sep)[i])
    decreases |words|
  {
    if |words| > 1 {
      JoinOfWordsShape(words[1..], sep, p);
      var j := Join(words, sep);
      assert j == words[0] + (sep + Join(words[1..], sep));
    }
  }

  predicate IsKebabChar(c: char) { IsAsciiLower(c) || IsDigit(c) || c == '-' }

  lemma KebabNameIsSafe(s: string)
    requires forall i :: 0 <= i < |s| ==> IsKebabChar(s[i])
    ensures IsSafeName(s)
  {
    forall i | 0 <= i < |s| ensures !IsSpace(s[i]) && !IsUnsafe(s[i]) {
      assert IsKebabChar(s[i]);
    }
    PlainNameIsSafe(s);
  }

  /** kebab-case turns `snake_case` words into `kebab-case` ones. */
  lemma SnakeToKebabStyle(words: seq<string>)
    requires |words| > 0 && forall k :: 0 <= k < |words| ==> IsLowerWord(words[k])
    ensures ToKebabCase(Join(words, "_")) == Join(words, "-")
  {
    var s := Join(words, "_");
    var h := Join(words, "-");
    assert HyphenateCaseBoundaries(s) == s by {
      JoinOfWordsShape(words, "_", c => IsAsciiLower(c) || IsDigit(c) || c == '_');
      HyphenateKeepsNoUpper(s);
    }
    SnakeToKebabRuns(words);
    assert Lowercase(h) == h by {
      JoinOfWordsShape(words, "-", IsKebabChar);
      LowercaseKeepsKebab(h);
    }
  }

  lemma LowercaseKeepsKebab(s: string)
    requires forall i :: 0 <= i < |s| ==> IsKebabChar(s[i])
    ensures Lowercase(s) == s
  {
  }

  lemma SnakeToKebab(words: seq<string>)
    requires |words| > 0 && forall k :: 0 <= k < |words| ==> IsLowerWord(words[k])
    ensures TransformName(Some(NamingConfig(KebabCase, None)), Join(words, "_")) == Join(words, "-")
  {
    var h := Join(words, "-");
    KebabUnfolds(Join(words, "_"));
    SnakeToKebabStyle(words);
    KebabJoinIsSafe(words);
    SanitizeKeepsSafeName(h);
  }

  /** Lower-case words joined by hyphens make a safe name. */
  lemma KebabJoinIsSafe(words: seq<string>)
    requires |words| > 0 && forall k :: 0 <= k < |words| ==> IsLowerWord(words[k])
    ensures IsSafeName(Join(words, "-"))
  {
    JoinOfWordsShape(words, "-", IsKebabChar);
    KebabNameIsSafe(Join(words, "-"));
  }

  /** `arrow-left` needs no sanitising, and its hyphen at index 5 changes its PascalCase form. */
  lemma ArrowLeftFacts()
    ensures IsSafeName("arrow-left")
    ensures IsSeparator("arrow-left"[5]) && ToPascalCase("arrow-left") != []
  {
    var words := ["arrow", "left"];
    assert Join(words, "-") == "arrow-left";
    assert IsLowerWord(words[0]) && IsLowerWord(words[1]);
    KebabJoinIsSafe(words);
    HyphenatedPascalExample();
  }

  lemma CapitalizeSpacedStep(w: string, rest: string)
    requires forall i :: 0 <= i < |w| ==> !IsSeparator(w[i])
    requires rest != [] && !IsSeparator(rest[0]) && !IsLineTerminator(rest[0])
    ensures CapitalizeWords(w + ([' '] + rest)) == w + UpperFirst(CapitalizeWords(rest))
  {
    CapitalizeWordsAtSeparator(' ', rest);
    assert CapitalizeWords(rest) == [rest[0]] + CapitalizeWords(rest[1..]);
    CapitalizeWordsSkipsPlain(w, [' '] + rest);
  }

  lemma UpperFirstOfConcat(a: string, b: string)
    requires a != []
    ensures UpperFirst(a + b) == UpperFirst(a) + b
  {
    if !IsLineTerminator(a[0]) {
      assert (a + b)[1..] == a[1..] + b;
    }
  }

  lemma {:induction false} CapitalizeSpacedWords(words: seq<string>)
    requires |words| > 0 && forall k :: 0 <= k < |words| ==> IsAlnumWord(words[k])
    ensures UpperFirst(CapitalizeWords(Join(words, " "))) == CapitalizedConcat(words)
    decreases |words|
  {
    var w := words[0];
    assert IsAlnumWord(w);
    assert forall i :: 0 <= i < |w| ==> !IsSeparator(w[i]);
    if |words| == 1 {
      CapitalizeWordsSkipsPlain(w, []);
      assert w + [] == w;
      assert CapitalizedConcat(words) == UpperFirst(w) + CapitalizedConcat([]);
    } else {
      var rest := Join(words[1..], " ");
      assert IsAlnumWord(words[1]);
      JoinStartsWithFirst(words[1..], " ");
      calc {
        UpperFirst(CapitalizeWords(Join(words, " ")));
        { assert Join(words, " ") == w + ([' '] + rest); }
        UpperFirst(CapitalizeWords(w + ([' '] + rest)));
        { CapitalizeSpacedStep(w, rest); }
        UpperFirst(w + UpperFirst(CapitalizeWords(rest)));
        { UpperFirstOfConcat(w, UpperFirst(CapitalizeWords(rest))); }
        UpperFirst(w) + UpperFirst(CapitalizeWords(rest));
        { CapitalizeSpacedWords(words[1..]); }
        UpperFirst(w) + CapitalizedConcat(words[1..]);
      }
    }
  }

  /** PascalCase turns space-separated words into one word with each first letter upper-cased. */
  lemma SpacedToPascal(words: seq<string>)
    requires |words| > 0 && forall k :: 0 <= k < |words| ==> IsAlnumWord(words[k])
    ensures TransformName(Some(NamingConfig(PascalCase, None)), Join(words, " ")) == CapitalizedConcat(words)
  {
    var c := CapitalizedConcat(words);
    PascalUnfolds(Join(words, " "));
    CapitalizeSpacedWords(words);
    CapitalizedConcatIsSafe(words);
    PlainNameIsSafe(c);
    SanitizeKeepsSafeName(c);
  }

  /** The PascalCase setting without `sanitize`: the style, then the sanitiser. */
  lemma PascalUnfolds(name: string)
    ensures TransformName(Some(NamingConfig(PascalCase, None)), name) == SanitizeForFilesystem(UpperFirst(CapitalizeWords(name)))
  {
    var cfg := NamingConfig(PascalCase, None);
    assert EffectiveNaming(Some(cfg)) == cfg;
    assert ApplyTransform(cfg.transform, name) == UpperFirst(CapitalizeWords(name));
  }

  /** The kebab-case setting without `sanitize`: the style, then the sanitiser. */
  lemma KebabUnfolds(name: string)
    ensures TransformName(Some(NamingConfig(KebabCase, None)), name) == SanitizeForFilesystem(ToKebabCase(name))
  {
    var cfg := NamingConfig(KebabCase, None);
    assert EffectiveNaming(Some(cfg)) == cfg;
    assert ApplyTransform(cfg.transform, name) == ToKebabCase(name);
  }

  lemma {:induction false} CapitalizedConcatIsSafe(words: seq<string>)
    requires forall k :: 0 <= k < |words| ==> IsAlnumWord(words[k])
    ensures forall i :: 0 <= i < |CapitalizedConcat(words)| ==>
              !IsSpace(CapitalizedConcat(words)[i]) && !IsUnsafe(CapitalizedConcat(words)[i])
    decreases |words|
  {
    if words != [] {
      CapitalizedConcatIsSafe(words[1..]);
      var u := UpperFirst(words[0]);
      assert forall i :: 0 <= i < |u| ==> !IsSpace(u[i]) && !IsUnsafe(u[i]);
    }
  }

  /** The fixed cases of the naming styles. */
  lemma KebabExample()
    ensures TransformName(Some(NamingConfig(KebabCase, None)), "arrow_left_icon") == "arrow-left-icon"
  {
    var words := ["arrow", "left", "icon"];
    assert Join(words, "_") == "arrow_left_icon";
    assert Join(words, "-") == "arrow-left-icon";
    SnakeToKebab(words);
  }

  /** camelCase under kebab-case: `arrowLeft` becomes `arrow-left`. */
  lemma CamelToKebab(w1: string, w2: string)
    requires w1 != [] && forall i :: 0 <= i < |w1| ==> IsAsciiLower(w1[i])
    requires w2 != [] && forall i :: 0 <= i < |w2| ==> IsAsciiLower(w2[i])
    ensures TransformName(Some(NamingConfig(KebabCase, None)), w1 + ([AsciiUpper(w2[0])] + w2[1..])) == w1 + ("-" + w2)
  {
    var k := w1 + ("-" + w2);
    KebabUnfolds(w1 + ([AsciiUpper(w2[0])] + w2[1..]));
    CamelKebabStyle(w1, w2);
    assert Join([w1, w2], "-") == k;
    KebabJoinIsSafe([w1, w2]);
    SanitizeKeepsSafeName(k);
  }

  lemma CamelToKebabExample()
    ensures TransformName(Some(NamingConfig(KebabCase, None)), "arrowLeft") == "arrow-left"
  {
    assert AsciiUpper('l') == 'L';
    assert "arrow" + ([AsciiUpper("left"[0])] + "left"[1..]) == "arrowLeft";
    assert "arrow" + ("-" + "left") == "arrow-left";
    CamelToKebab("arrow", "left");
  }

  /** The kebab-case style splits a camelCase pair at its hump and lower-cases it. */
  lemma CamelKebabStyle(w1: string, w2: string)
    requires w1 != [] && forall i :: 0 <= i < |w1| ==> IsAsciiLower(w1[i])
    requires w2 != [] && forall i :: 0 <= i < |w2| ==> IsAsciiLower(w2[i])
    ensures ToKebabCase(w1 + ([AsciiUpper(w2[0])] + w2[1..])) == w1 + ("-" + w2)
  {
    var u := [AsciiUpper(w2[0])] + w2[1..];
    var h := w1 + ("-" + u);
    assert HyphenateCaseBoundaries(w1 + u) == h by {
      HyphenateCamelPair(w1, u);
    }
    HumpKeepsRuns(w1, w2);
    LowercaseHump(w1, w2);
  }

  lemma HumpKeepsRuns(w1: string, w2: string)
    requires forall i :: 0 <= i < |w1| ==> IsAsciiLower(w1[i])
    requires w2 != [] && forall i :: 0 <= i < |w2| ==> IsAsciiLower(w2[i])
    ensures var h := w1 + ("-" + ([AsciiUpper(w2[0])] + w2[1..]));
      ReplaceRuns(h, IsSpaceOrUnderscore, "-") == h
  {
    var u := [AsciiUpper(w2[0])] + w2[1..];
    var h := w1 + ("-" + u);
    forall i | 0 <= i < |h| ensures !IsSpaceOrUnderscore(h[i]) {
      if i < |w1| { assert h[i] == w1[i]; }
      else if i > |w1| + 1 { assert h[i] == w2[i - |w1| - 1]; }
    }
    ReplaceRunsSkipsPlain(h, [], IsSpaceOrUnderscore, "-");
    assert h + [] == h;
  }

  lemma LowercaseHump(w1: string, w2: string)
    requires w1 != [] && forall i :: 0 <= i < |w1| ==> IsAsciiLower(w1[i])
    requires w2 != [] && forall i :: 0 <= i < |w2| ==> IsAsciiLower(w2[i])
    ensures Lowercase(w1 + ("-" + ([AsciiUpper(w2[0])] + w2[1..]))) == w1 + ("-" + w2)
  {
    var h := w1 + ("-" + ([AsciiUpper(w2[0])] + w2[1..]));
    var k := w1 + ("-" + w2);
    forall i | 0 <= i < |h| ensures Lowercase(h)[i] == k[i] {
      if i < |w1| {
        assert h[i] == w1[i] && k[i] == w1[i];
      } else if i > |w1| + 1 {
        assert h[i] == w2[i - |w1| - 1] && k[i] == w2[i - |w1| - 1];
      } else if i == |w1| + 1 {
        assert h[i] == AsciiUpper(w2[0]) && k[i] == w2[0];
      }
    }
  }

  lemma PascalExample()
    ensures TransformName(Some(NamingConfig(PascalCase, None)), "Arrow Left") == "ArrowLeft"
  {
    var words := ["Arrow", "Left"];
    assert Join(words, " ") == "Arrow Left";
    assert CapitalizedConcat(words) == "ArrowLeft";
    SpacedToPascal(words);
  }
}
