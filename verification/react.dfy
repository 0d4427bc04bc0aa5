/**
 * `svgToReactComponent` of the icon processor: the root `<svg …>…</svg>` element is
 * found with the regex `/<svg([^>]*)>([\s\S]*?)<\/svg>/`, its hyphenated attribute
 * names are camel-cased, and the parts are pasted into a function component template.
 */
module ReactComponent {
  import opened Wrappers
  import opened Text
  import opened Types
  import opened Naming

  /** The two capture groups of the root element: the attribute text and the inner markup. */
  datatype SvgParts = SvgParts(attributes: string, content: string)

  const SvgOpen: string := "<svg"
  const SvgClose: string := "</svg>"

  /** The text the regex matched for `p`. */
  function SvgElement(p: SvgParts): string {
    SvgOpen + p.attributes + ">" + p.content + SvgClose
  }

  /** What `[^>]*` can match. */
  predicate NoTagEnd(s: string) {
    forall i :: 0 <= i < |s| ==> s[i] != '>'
  }

  /** `s` holds no complete `</svg>`: the lazy `[\s\S]*?` stops at the first one. */
  ghost predicate NoSvgClose(s: string) {
    forall p :: !OccursAt(s, SvgClose, p)
  }

  /** No `<svg` can start inside `s`, whatever follows it. */
  predicate NoSvgOpen(s: string) {
    forall k :: 0 <= k < |s| && s[k] == '<' ==> k + 1 < |s| && s[k + 1] != 's'
  }

  predicate NoLess(s: string) {
    forall k :: 0 <= k < |s| ==> s[k] != '<'
  }

  // ---------------------------------------------------------------------------
  // Matching the root element

  /** The regex tried at index `i`, where `<svg` occurs: the first `>`, then the first `</svg>`. */
  function MatchSvgAt(s: string, i: nat): (r: Option<SvgParts>)
    requires OccursAt(s, SvgOpen, i)
    ensures r.Some? ==> NoTagEnd(r.value.attributes) && NoSvgClose(r.value.content)
    ensures r.Some? ==> OccursAt(s, SvgElement(r.value), i)
  {
    match IndexOfChar(s, '>', i + 4)
    case None => None
    case Some(g) =>
      match IndexOf(s, SvgClose, g + 1)
      case None => None
      case Some(e) =>
        CapturedHasNoClose(s, g + 1, e);
        PiecesFormElement(s, i, g, e);
        Some(SvgParts(s[i + 4..g], s[g + 1..e]))
  }

  /** Text before the first `</svg>` from `from` on holds no `</svg>` of its own. */
  lemma CapturedHasNoClose(s: string, from: nat, e: nat)
    requires from <= e <= |s|
    requires forall j :: from <= j < e ==> !OccursAt(s, SvgClose, j)
    ensures NoSvgClose(s[from..e])
  {
    var c := s[from..e];
    forall q ensures !OccursAt(c, SvgClose, q) {
      if OccursAt(c, SvgClose, q) {
        SliceOfSlice(s, from, e, q, q + 6);
        assert OccursAt(s, SvgClose, from + q);
      }
    }
  }

  /** `<svg`, the text up to `>` at `g`, the text up to `</svg>` at `e`: together an element at `i`. */
  lemma PiecesFormElement(s: string, i: nat, g: nat, e: nat)
    requires OccursAt(s, SvgOpen, i) && OccursAt(s, SvgClose, e) && i + 4 <= g < e && s[g] == '>'
    ensures OccursAt(s, SvgElement(SvgParts(s[i + 4..g], s[g + 1..e])), i)
  {
    var el := SvgElement(SvgParts(s[i + 4..g], s[g + 1..e]));
    assert |el| == e + 6 - i;
    forall k | 0 <= k < |el| ensures s[i..e + 6][k] == el[k] {
      if k < 4 {
        assert s[i..i + 4][k] == SvgOpen[k];
      } else if i + k < g {
        assert el[k] == s[i + 4..g][k - 4];
      } else if i + k == g {
        assert el[k] == '>';
      } else if i + k < e {
        assert el[k] == s[g + 1..e][i + k - g - 1];
      } else {
        assert s[e..e + 6][i + k - e] == SvgClose[i + k - e];
      }
    }
  }

  /** `svg.match(…)` searching from index `from`: the leftmost `<svg` at which the regex matches. */
  function MatchSvgFrom(s: string, from: nat): (r: Option<SvgParts>)
    requires from <= |s|
    ensures r.Some? ==> NoTagEnd(r.value.attributes) && NoSvgClose(r.value.content)
    ensures r.Some? ==> exists i :: from <= i && OccursAt(s, SvgElement(r.value), i)
    decreases |s| - from
  {
    match IndexOf(s, SvgOpen, from)
    case None => None
    case Some(i) =>
      var m := MatchSvgAt(s, i);
      if m.Some? then m else MatchSvgFrom(s, i + 1)
  }

  function MatchSvg(s: string): (r: Option<SvgParts>)
    ensures r.Some? ==> NoTagEnd(r.value.attributes) && NoSvgClose(r.value.content)
    ensures r.Some? ==> exists i :: 0 <= i && OccursAt(s, SvgElement(r.value), i)
  {
    MatchSvgFrom(s, 0)
  }

  /** The search returns the attempt at the leftmost `<svg` from `from` on where the regex matches. */
  lemma {:induction false} MatchSvgFromLeftmost(s: string, from: nat, i: nat)
    requires from <= i && OccursAt(s, SvgOpen, i) && MatchSvgAt(s, i).Some?
    requires forall j :: from <= j < i && OccursAt(s, SvgOpen, j) ==> MatchSvgAt(s, j).None?
    ensures MatchSvgFrom(s, from) == MatchSvgAt(s, i)
    decreases i - from
  {
    var k := IndexOf(s, SvgOpen, from).value;
    if k < i {
      MatchSvgFromLeftmost(s, k + 1, i);
    }
  }

  /**
   * Whenever a well-formed element occurs from `from` on, the search finds a match: the
   * first `<svg` from `from` on matches already, since the element's own `>` and `</svg>`
   * lie after it.
   */
  lemma MatchSvgFromFinds(s: string, from: nat, i: nat, p: SvgParts)
    requires from <= i && OccursAt(s, SvgElement(p), i)
    requires NoTagEnd(p.attributes) && NoSvgClose(p.content)
    ensures MatchSvgFrom(s, from).Some?
  {
    MatchSvgAtComplete(s, i, p);
  }

  /** `svg.match` fails exactly when no well-formed `<svg…>…</svg>` element occurs in the text. */
  lemma MatchSvgNoneIff(s: string)
    ensures MatchSvg(s).None?
            <==> forall i: nat, p: SvgParts :: OccursAt(s, SvgElement(p), i) ==> !(NoTagEnd(p.attributes) && NoSvgClose(p.content))
  {
    if exists i: nat, p: SvgParts :: OccursAt(s, SvgElement(p), i) && NoTagEnd(p.attributes) && NoSvgClose(p.content) {
      var i: nat, p: SvgParts :| OccursAt(s, SvgElement(p), i) && NoTagEnd(p.attributes) && NoSvgClose(p.content);
      MatchSvgFromFinds(s, 0, i, p);
    }
  }

  lemma SliceOfSlice(s: string, lo: nat, hi: nat, a: nat, b: nat)
    requires lo <= hi <= |s| && a <= b <= hi - lo
    ensures s[lo..hi][a..b] == s[lo + a..lo + b]
  {
    forall k | 0 <= k < b - a ensures s[lo..hi][a..b][k] == s[lo + a..lo + b][k] {
      assert s[lo..hi][a..b][k] == s[lo + a + k];
    }
  }

  /** A `</svg>` holds its `<` only at its head, so two of them cannot overlap. */
  lemma CloseHasOneLess(s: string, q: int)
    requires OccursAt(s, SvgClose, q)
    ensures forall j :: q < j < q + 6 ==> s[j] != '<'
  {
    forall j | q < j < q + 6 ensures s[j] != '<' {
      assert s[j] == s[q..q + 6][j - q];
    }
  }

  /** Where an element occurs in `s`, its pieces sit at the corresponding offsets. */
  lemma ElementLayout(s: string, i: nat, p: SvgParts)
    requires OccursAt(s, SvgElement(p), i)
    ensures OccursAt(s, SvgOpen, i)
    ensures s[i + 4..i + 4 + |p.attributes|] == p.attributes
    ensures s[i + 4 + |p.attributes|] == '>'
    ensures s[i + 5 + |p.attributes|..i + 5 + |p.attributes| + |p.content|] == p.content
    ensures OccursAt(s, SvgClose, i + 5 + |p.attributes| + |p.content|)
  {
    var el := SvgElement(p);
    var g := 4 + |p.attributes|;
    var e := g + 1 + |p.content|;
    ElementPieces(p);
    PieceOfOccurrence(s, el, i, 0, 4);
    PieceOfOccurrence(s, el, i, 4, g);
    PieceOfOccurrence(s, el, i, g, g + 1);
    PieceOfOccurrence(s, el, i, g + 1, e);
    PieceOfOccurrence(s, el, i, e, |el|);
    assert s[i + g..i + g + 1][0] == s[i + g];
  }

  /** The element text cut at the boundaries of its pieces. */
  lemma ElementPieces(p: SvgParts)
    ensures |SvgElement(p)| == 11 + |p.attributes| + |p.content|
    ensures SvgElement(p)[..4] == SvgOpen
    ensures SvgElement(p)[4..4 + |p.attributes|] == p.attributes
    ensures SvgElement(p)[4 + |p.attributes|..5 + |p.attributes|] == ">"
    ensures SvgElement(p)[5 + |p.attributes|..5 + |p.attributes| + |p.content|] == p.content
    ensures SvgElement(p)[5 + |p.attributes| + |p.content|..] == SvgClose
  {
    var a, c := p.attributes, p.content;
    var el := SvgElement(p);
    assert el == SvgOpen + a + ">" + c + SvgClose;
    assert el[..4] == SvgOpen;
    assert el[4..4 + |a|] == a;
    assert el[4 + |a|..5 + |a|] == ">";
    assert el[5 + |a|..5 + |a| + |c|] == c;
  }

  /** A slice of an occurrence of `x` in `s` is the same slice of `x`. */
  lemma PieceOfOccurrence(s: string, x: string, i: nat, lo: nat, hi: nat)
    requires OccursAt(s, x, i) && lo <= hi <= |x|
    ensures s[i + lo..i + hi] == x[lo..hi]
  {
    SliceOfSlice(s, i, i + |x|, lo, hi);
  }

  lemma FirstTagEnd(s: string, from: nat, a: string)
    requires from + |a| < |s| && s[from..from + |a|] == a && NoTagEnd(a) && s[from + |a|] == '>'
    ensures IndexOfChar(s, '>', from) == Some(from + |a|)
  {
    forall j | from <= j < from + |a| ensures s[j] != '>' {
      assert s[j] == a[j - from];
    }
  }

  lemma FirstClose(s: string, from: nat, c: string)
    requires from + |c| <= |s| && s[from..from + |c|] == c && NoSvgClose(c)
    requires OccursAt(s, SvgClose, from + |c|)
    ensures IndexOf(s, SvgClose, from) == Some(from + |c|)
  {
    var e := from + |c|;
    assert s[e] == '<';
    forall q | from <= q < e ensures !OccursAt(s, SvgClose, q) {
      if q + 6 <= e {
        SliceOfSlice(s, from, e, q - from, q - from + 6);
        assert !OccursAt(c, SvgClose, q - from);
      } else if q + 6 <= |s| {
        assert s[q..q + 6][e - q] == s[e];
        assert SvgClose[e - q] != '<';
      }
    }
  }

  /** The regex tried at `i` captures `a` and `c` when they lie where an element's parts would. */
  lemma MatchSvgAtPieces(s: string, i: nat, a: string, c: string)
    requires OccursAt(s, SvgOpen, i) && NoTagEnd(a) && NoSvgClose(c)
    requires i + 4 + |a| < |s| && s[i + 4..i + 4 + |a|] == a && s[i + 4 + |a|] == '>'
    requires i + 5 + |a| + |c| <= |s| && s[i + 5 + |a|..i + 5 + |a| + |c|] == c
    requires OccursAt(s, SvgClose, i + 5 + |a| + |c|)
    ensures MatchSvgAt(s, i) == Some(SvgParts(a, c))
  {
    var g := i + 4 + |a|;
    assert s[i + 4..g] == a;
    FirstTagEnd(s, i + 4, a);
    MatchSvgAtAfterTag(s, i, g, c);
  }

  /** Once the first `>` is at `g`, the regex tried at `i` captures `c` when a `</svg>` follows it. */
  lemma MatchSvgAtAfterTag(s: string, i: nat, g: nat, c: string)
    requires OccursAt(s, SvgOpen, i) && IndexOfChar(s, '>', i + 4) == Some(g) && NoSvgClose(c)
    requires g + 1 + |c| <= |s| && s[g + 1..g + 1 + |c|] == c && OccursAt(s, SvgClose, g + 1 + |c|)
    ensures MatchSvgAt(s, i) == Some(SvgParts(s[i + 4..g], c))
  {
    FirstClose(s, g + 1, c);
    MatchSvgAtFound(s, i, g, g + 1 + |c|);
  }

  /** The regex tried at `i` captures what lies between `<svg`, the first `>` and the next `</svg>`. */
  lemma MatchSvgAtFound(s: string, i: nat, g: nat, e: nat)
    requires OccursAt(s, SvgOpen, i)
    requires IndexOfChar(s, '>', i + 4) == Some(g) && IndexOf(s, SvgClose, g + 1) == Some(e)
    ensures MatchSvgAt(s, i) == Some(SvgParts(s[i + 4..g], s[g + 1..e]))
  {
  }

  /** Where a well-formed element starts at `i`, the regex tried at `i` captures exactly its parts. */
  lemma MatchSvgAtComplete(s: string, i: nat, p: SvgParts)
    requires OccursAt(s, SvgElement(p), i)
    requires NoTagEnd(p.attributes) && NoSvgClose(p.content)
    ensures OccursAt(s, SvgOpen, i)
    ensures MatchSvgAt(s, i) == Some(p)
  {
    ElementLayout(s, i, p);
    MatchSvgAtPieces(s, i, p.attributes, p.content);
  }

  /**
   * The parse recovers what was rendered: an element whose attribute text has no `>`
   * and whose inner markup has no `</svg>`, preceded by text where no `<svg` starts.
   */
  lemma MatchSvgOfElement(x: string, p: SvgParts, y: string)
    requires NoSvgOpen(x)
    requires NoTagEnd(p.attributes) && NoSvgClose(p.content)
    ensures MatchSvg(x + SvgElement(p) + y) == Some(p)
  {
    var s := x + SvgElement(p) + y;
    assert s[|x|..|x| + |SvgElement(p)|] == SvgElement(p);
    MatchSvgAtComplete(s, |x|, p);
    forall j | 0 <= j < |x| ensures !OccursAt(s, SvgOpen, j) {
      assert s[j] == x[j];
      if x[j] == '<' {
        assert s[j + 1] == x[j + 1];
        if j + 4 <= |s| {
          assert s[j..j + 4][1] == s[j + 1];
        }
      } else if j + 4 <= |s| {
        assert s[j..j + 4][0] == s[j];
      }
    }
    assert IndexOf(s, SvgOpen, 0) == Some(|x|);
  }

  // ---------------------------------------------------------------------------
  // Attributes

  /**
   * `attrs.replace(/(\w+)-(\w+)/g, (_, p1, p2) => p1 + p2[0].toUpperCase() + p2.slice(1))`.
   * A match needs a word run directly followed by `-` and a word character; scanning
   * resumes after the second word run, and a failed attempt moves on by one character.
   */
  function CamelizeHyphenatedWords(s: string): (r: string)
    ensures |r| <= |s|
    ensures forall c :: c in r ==> c in s || IsAsciiUpper(c)
    decreases |s|, 1
  {
    if s == [] then []
    else
      var k := RunLength(s, IsWordChar);
      if 1 <= k && k + 1 < |s| && s[k] == '-' && IsWordChar(s[k + 1]) then
        assert s[k + 1..][0] == s[k + 1];
        CamelizeHump(s, k, RunLength(s[k + 1..], IsWordChar))
      else
        [s[0]] + CamelizeHyphenatedWords(s[1..])
  }

  /**
   * One match of the pattern: the `k` word characters before the hyphen, then the `m` word
   * characters after it with the first upper-cased; the scan goes on after them.
   */
  function CamelizeHump(s: string, k: nat, m: nat): (r: string)
    requires 1 <= m && k + 1 + m <= |s|
    ensures |r| <= |s|
    ensures forall c :: c in r ==> c in s || IsAsciiUpper(c)
    decreases |s|, 0
  {
    var rest := CamelizeHyphenatedWords(s[k + 1 + m..]);
    var r := s[..k] + [AsciiUpper(s[k + 1])] + s[k + 2..k + 1 + m] + rest;
    assert forall c :: c in r ==> c in s || IsAsciiUpper(c) by {
      forall i | 0 <= i < |r| ensures r[i] in s || IsAsciiUpper(r[i]) {
        if i < k {
          assert r[i] == s[i];
        } else if i == k {
          assert r[i] == AsciiUpper(s[k + 1]);
        } else if i < k + m {
          assert r[i] == s[i + 1];
        } else {
          assert r[i] == rest[i - k - m];
          assert rest[i - k - m] in rest;
          assert rest[i - k - m] in s[k + 1 + m..] || IsAsciiUpper(r[i]);
        }
      }
    }
    r
  }

  /** Attribute text without a hyphen is left as it is. */
  lemma {:induction false} CamelizeWithoutHyphen(s: string)
    requires forall i :: 0 <= i < |s| ==> s[i] != '-'
    ensures CamelizeHyphenatedWords(s) == s
    decreases |s|
  {
    if s != [] {
      CamelizeWithoutHyphen(s[1..]);
    }
  }

  predicate IsWord(w: string) {
    w != [] && forall i :: 0 <= i < |w| ==> IsWordChar(w[i])
  }

  /**
   * Two words joined by a hyphen become one, the second capitalised (`stroke-linecap` to
   * `strokeLinecap`), and the scan goes on after them.
   */
  lemma CamelizePair(w1: string, w2: string, t: string)
    requires IsWord(w1) && IsWord(w2) && (t != [] ==> !IsWordChar(t[0]))
    ensures CamelizeHyphenatedWords(w1 + ("-" + (w2 + t)))
            == w1 + [AsciiUpper(w2[0])] + w2[1..] + CamelizeHyphenatedWords(t)
  {
    PairIsHump(w1 + ("-" + (w2 + t)), w1, w2, t);
    CamelizeHumpParts(w1 + ("-" + (w2 + t)), |w1|, |w2|, w1, w2[0], w2[1..], t);
  }

  /** The scan at the start of `s` meets a match: `k` word characters, a hyphen, `m` word characters. */
  predicate HumpAt(s: string, k: nat, m: nat) {
    1 <= k && k + 1 < |s| && s[k] == '-' && IsWordChar(s[k + 1])
    && RunLength(s, IsWordChar) == k && RunLength(s[k + 1..], IsWordChar) == m
    && 1 <= m && k + 1 + m <= |s|
  }

  /** The pieces of a match: the first word `a`, the letter `x` after the hyphen, the rest `b` of the second word, and what follows, `c`. */
  predicate HumpParts(s: string, k: nat, m: nat, a: string, x: char, b: string, c: string)
    requires 1 <= m && k + 1 + m <= |s|
  {
    s[..k] == a && s[k + 1] == x && s[k + 2..k + 1 + m] == b && s[k + 1 + m..] == c
  }

  lemma PairIsHump(s: string, w1: string, w2: string, t: string)
    requires IsWord(w1) && IsWord(w2) && (t != [] ==> !IsWordChar(t[0]))
    requires s == w1 + ("-" + (w2 + t))
    ensures HumpAt(s, |w1|, |w2|)
    ensures HumpParts(s, |w1|, |w2|, w1, w2[0], w2[1..], t)
  {
    RunOfWord(w1, "-" + (w2 + t));
    var u := w2 + t;
    assert s[|w1|] == '-';
    assert s[|w1| + 1..] == u;
    RunOfWord(w2, t);
    assert s[|w1| + 2..|w1| + 1 + |w2|] == u[1..|w2|];
    assert u[1..|w2|] == w2[1..];
    assert s[|w1| + 1 + |w2|..] == u[|w2|..];
  }

  /** One step of the scan at a match, with the pieces named. */
  lemma CamelizeHumpParts(s: string, k: nat, m: nat, a: string, x: char, b: string, c: string)
    requires HumpAt(s, k, m) && HumpParts(s, k, m, a, x, b, c)
    ensures CamelizeHyphenatedWords(s) == a + [AsciiUpper(x)] + b + CamelizeHyphenatedWords(c)
  {
    CamelizeAtHump(s, k, m);
  }

  /** One step of the scan at a match. */
  lemma CamelizeAtHump(s: string, k: nat, m: nat)
    requires HumpAt(s, k, m)
    ensures CamelizeHyphenatedWords(s) == CamelizeHump(s, k, m)
    ensures CamelizeHyphenatedWords(s)
            == s[..k] + [AsciiUpper(s[k + 1])] + s[k + 2..k + 1 + m] + CamelizeHyphenatedWords(s[k + 1 + m..])
  {
  }

  /** Text without a hyphen, ending outside a word, is kept, and the scan goes on after it. */
  /** Where the word run is not followed by a hyphen, the scan moves on by one character. */
  lemma CamelizeNoHump(s: string)
    requires s != [] && RunLength(s, IsWordChar) < |s| && s[RunLength(s, IsWordChar)] != '-'
    ensures CamelizeHyphenatedWords(s) == [s[0]] + CamelizeHyphenatedWords(s[1..])
  {
  }

  lemma CamelizePlainStep(a: string, b: string)
    requires a != [] && forall i :: 0 <= i < |a| ==> a[i] != '-'
    requires !IsWordChar(a[|a| - 1])
    ensures CamelizeHyphenatedWords(a + b) == [a[0]] + CamelizeHyphenatedWords(a[1..] + b)
  {
    var s := a + b;
    assert s[|a| - 1] == a[|a| - 1];
    assert RunLength(s, IsWordChar) < |a|;
    assert s[RunLength(s, IsWordChar)] != '-';
    CamelizeNoHump(s);
    assert s[1..] == a[1..] + b;
  }

  lemma {:induction false} CamelizeSkipsPlain(a: string, b: string)
    requires forall i :: 0 <= i < |a| ==> a[i] != '-'
    requires a != [] ==> !IsWordChar(a[|a| - 1])
    ensures CamelizeHyphenatedWords(a + b) == a + CamelizeHyphenatedWords(b)
    decreases |a|
  {
    if a == [] {
      assert a + b == b;
    } else {
      CamelizePlainStep(a, b);
      if |a| > 1 {
        assert a[1..][|a| - 2] == a[|a| - 1];
      }
      CamelizeSkipsPlain(a[1..], b);
      AppendAssociates([a[0]], a[1..], CamelizeHyphenatedWords(b));
      assert [a[0]] + a[1..] == a;
    }
  }

  lemma {:induction false} RunOfWord(w: string, t: string)
    requires forall i :: 0 <= i < |w| ==> IsWordChar(w[i])
    requires t != [] ==> !IsWordChar(t[0])
    ensures RunLength(w + t, IsWordChar) == |w|
    decreases |w|
  {
    if w != [] {
      assert (w + t)[1..] == w[1..] + t;
      RunOfWord(w[1..], t);
    } else {
      assert w + t == t;
    }
  }

  /** Replacing a pattern by text that lacks `c` introduces no `c`. */
  lemma {:induction false} ReplaceAllAddsNothing(s: string, pat: string, rep: string, c: char)
    requires |pat| > 0 && c !in s && c !in rep
    ensures c !in ReplaceAll(s, pat, rep)
    decreases |s|
  {
    if s != [] {
      if StartsWith(s, pat) {
        ReplaceAllAddsNothing(s[|pat|..], pat, rep, c);
      } else {
        ReplaceAllAddsNothing(s[1..], pat, rep, c);
      }
    }
  }

  /**
   * The attribute rewrite: camel-case every `word-word`, then `class=` to `className=`
   * and the three presentation attributes the first step can leave hyphenated.
   */
  function ReactAttributes(attrs: string): (r: string)
    ensures NoTagEnd(attrs) ==> NoTagEnd(r)
  {
    var c := CamelizeHyphenatedWords(attrs);
    var r1 := ReplaceAll(c, "class=", "className=");
    var r2 := ReplaceAll(r1, "stroke-width", "strokeWidth");
    var r3 := ReplaceAll(r2, "fill-rule", "fillRule");
    var r := ReplaceAll(r3, "clip-rule", "clipRule");
    if NoTagEnd(attrs) then
      assert '>' !in c;
      ReplaceAllAddsNothing(c, "class=", "className=", '>');
      ReplaceAllAddsNothing(r1, "stroke-width", "strokeWidth", '>');
      ReplaceAllAddsNothing(r2, "fill-rule", "fillRule", '>');
      ReplaceAllAddsNothing(r3, "clip-rule", "clipRule", '>');
      r
    else
      r
  }

  /** Attribute values the rewrite leaves alone: no hyphen to join words at and no `c` to start a `class=`. */
  predicate PlainValue(v: string) {
    Lacks(v, '-') && Lacks(v, 'c')
  }

  /**
   * `class=` becomes `className=` and `stroke-width` becomes `strokeWidth`, around values
   * that are left as they are.
   */
  lemma ClassAndStrokeWidthRenamed(v1: string, v2: string)
    requires PlainValue(v1) && PlainValue(v2)
    ensures ReactAttributes(" class=" + (v1 + (" stroke-width=" + v2)))
            == " className=" + (v1 + (" strokeWidth=" + v2))
  {
    var y := v1 + (" strokeWidth=" + v2);
    StrokeWidthCamelized(v1, v2);
    RewriteLiterals();
    LacksConcat(" strokeWidth=", v2, 'c');
    LacksConcat(v1, " strokeWidth=" + v2, 'c');
    ClassRenamed(y);
    LacksConcat(" strokeWidth=", v2, '-');
    LacksConcat(v1, " strokeWidth=" + v2, '-');
    LacksConcat(" className=", y, '-');
    var r1 := " className=" + y;
    AbsentCharBlocksPattern(r1, "stroke-width", 6);
    AbsentCharBlocksPattern(r1, "fill-rule", 4);
    AbsentCharBlocksPattern(r1, "clip-rule", 4);
  }

  /** Facts about the literals of the rewrite. */
  lemma RewriteLiterals()
    ensures Lacks(" strokeWidth=", 'c') && Lacks(" strokeWidth=", '-') && Lacks(" className=", '-')
    ensures "stroke-width"[6] == '-' && "fill-rule"[4] == '-' && "clip-rule"[4] == '-' && "class="[0] == 'c'
  {
  }

  /** The hyphenated attribute name is camel-cased and the rest kept. */
  lemma StrokeWidthCamelized(v1: string, v2: string)
    requires PlainValue(v1) && PlainValue(v2)
    ensures CamelizeHyphenatedWords(" class=" + (v1 + (" stroke-width=" + v2)))
            == " class=" + (v1 + (" strokeWidth=" + v2))
  {
    StrokeWidthLiterals();
    var a := " class=" + (v1 + [' ']);
    AfterFirstValue(v1, "stroke-width=", v2);
    AfterFirstValue(v1, "strokeWidth=", v2);
    LacksConcat(v1, [' '], '-');
    LacksConcat(" class=", v1 + [' '], '-');
    CamelizeSkipsPlain(a, "stroke-width=" + v2);
    StrokeWidthValue(v2);
  }

  lemma StrokeWidthValue(v: string)
    requires Lacks(v, '-')
    ensures CamelizeHyphenatedWords("stroke-width=" + v) == "strokeWidth=" + v
  {
    StrokeWidthLiterals();
    var t := "=" + v;
    CamelizeWithoutHyphen(t);
    HyphenatedName("stroke", "width", "=", v);
    CamelizePair("stroke", "width", t);
    AppendAssociates("stroke" + [AsciiUpper('w')] + "width"[1..], "=", v);
  }

  lemma StrokeWidthLiterals()
    ensures " stroke-width=" == [' '] + "stroke-width=" && " strokeWidth=" == [' '] + "strokeWidth="
    ensures "stroke-width=" == "stroke" + ("-" + ("width" + "="))
    ensures "strokeWidth=" == "stroke" + [AsciiUpper('w')] + "width"[1..] + "="
    ensures IsWord("stroke") && IsWord("width")
    ensures Lacks(" class=", '-') && Lacks([' '], '-')
  {
    assert AsciiUpper('w') == 'W';
  }

  /** Regrouping the text after the first value, which starts with a space. */
  lemma AfterFirstValue(v1: string, n: string, v2: string)
    ensures " class=" + (v1 + (([' '] + n) + v2)) == (" class=" + (v1 + [' '])) + (n + v2)
  {
    AppendAssociates([' '], n, v2);
    AppendAssociates(v1, [' '], n + v2);
    AppendAssociates(" class=", v1 + [' '], n + v2);
  }

  /** Regrouping a hyphenated name followed by a value. */
  lemma HyphenatedName(w1: string, w2: string, z: string, v: string)
    ensures (w1 + ("-" + (w2 + z))) + v == w1 + ("-" + (w2 + (z + v)))
  {
    AppendAssociates(w1, "-" + (w2 + z), v);
    AppendAssociates("-", w2 + z, v);
    AppendAssociates(w2, z, v);
  }

  /** `class=` is renamed, once, where the text holds no other `c`. */
  lemma ClassRenamed(y: string)
    requires Lacks(y, 'c')
    ensures ReplaceAll(" class=" + y, "class=", "className=") == " className=" + y
  {
    ReplaceAllKeeps(' ', "class=" + y, "class=", "className=");
    ReplaceAllAtStart(y, "class=", "className=");
    AbsentCharBlocksPattern(y, "class=", 0);
    LeadingSpaces();
    AppendAssociates([' '], "class=", y);
    AppendAssociates([' '], "className=", y);
  }

  lemma LeadingSpaces()
    ensures " class=" == [' '] + "class=" && " className=" == [' '] + "className="
  {
  }

  /** The attributes ` class="x" stroke-width="2"` become ` className="x" strokeWidth="2"`. */
  lemma ReactAttributesExample()
    ensures ReactAttributes(" class=\"x\" stroke-width=\"2\"") == " className=\"x\" strokeWidth=\"2\""
  {
    ExampleLiterals();
    ClassAndStrokeWidthRenamed("\"x\"", "\"2\"");
  }

  lemma ExampleLiterals()
    ensures PlainValue("\"x\"") && PlainValue("\"2\"")
    ensures " class=" + ("\"x\"" + (" stroke-width=" + "\"2\"")) == " class=\"x\" stroke-width=\"2\""
    ensures " className=" + ("\"x\"" + (" strokeWidth=" + "\"2\"")) == " className=\"x\" strokeWidth=\"2\""
  {
  }

  /** Attribute text with neither a hyphen nor `class=` is kept verbatim. */
  lemma ReactAttributesKeepPlain(attrs: string)
    requires forall i :: 0 <= i < |attrs| ==> attrs[i] != '-'
    requires forall i :: !OccursAt(attrs, "class=", i)
    ensures ReactAttributes(attrs) == attrs
  {
    CamelizeWithoutHyphen(attrs);
    RewriteLiterals();
    AbsentCharBlocksPattern(attrs, "stroke-width", 6);
    AbsentCharBlocksPattern(attrs, "fill-rule", 4);
    AbsentCharBlocksPattern(attrs, "clip-rule", 4);
  }

  // ---------------------------------------------------------------------------
  // The component template

  const ReactImport: string := "import React from 'react';\n\n"
  const PropsType: string := ": React.SVGProps<SVGSVGElement>"

  /** `componentPrefix` (when set and non-empty) followed by `toPascalCase(name)`. */
  function ComponentName(name: string, react: Option<ReactConfig>): (r: string)
    ensures EndsWith(r, ToPascalCase(name))
    ensures react.None? || react.value.componentPrefix.None? ==> r == ToPascalCase(name)
    ensures react.Some? && react.value.componentPrefix.Some? ==>
              r == react.value.componentPrefix.value + ToPascalCase(name)
  {
    if react.Some? && react.value.componentPrefix.Some? && react.value.componentPrefix.value != "" then
      react.value.componentPrefix.value + ToPascalCase(name)
    else
      ToPascalCase(name)
  }

  /** `export default` exactly when `exportType` is `default`; a missing React section means `export`. */
  function ExportKeyword(react: Option<ReactConfig>): string {
    if react.Some? && react.value.exportType == Default then "export default" else "export"
  }

  /** `reactConfig?.typescript ?? true`: only an explicit `typescript: false` drops the type. */
  predicate IsTypeScript(react: Option<ReactConfig>) {
    react.None? || react.value.typescript
  }

  function PropsAnnotation(react: Option<ReactConfig>): string {
    if IsTypeScript(react) then PropsType else ""
  }

  const FunctionWord: string := " function "
  const BodyOpen: string := " {\n  return (\n    "
  const BodyClose: string := "\n  );\n}"
  const PropsSpread: string := " {...props}"
  const ContentIndent: string := "\n      "
  const ContentOutdent: string := "\n    "

  /** The import and the exported function's signature, up to its parameter list. */
  function ComponentSignature(componentName: string, react: Option<ReactConfig>): string {
    ReactImport + ExportKeyword(react) + FunctionWord + componentName + "(props" + PropsAnnotation(react) + ")"
  }

  /** The root element of the component: the rewritten attributes with the props spread last. */
  function ComponentRoot(p: SvgParts): SvgParts {
    SvgParts(ReactAttributes(p.attributes) + PropsSpread, ContentIndent + Trim(p.content) + ContentOutdent)
  }

  /** The template of the component source. */
  function ComponentSource(componentName: string, p: SvgParts, react: Option<ReactConfig>): string {
    ComponentSignature(componentName, react) + BodyOpen + SvgElement(ComponentRoot(p)) + BodyClose
  }

  lemma StartsWithAppend(a: string, b: string, c: string)
    requires StartsWith(a, c)
    ensures StartsWith(a + b, c)
  {
    assert (a + b)[..|c|] == a[..|c|];
  }

  lemma SourceStartsWithSignature(componentName: string, p: SvgParts, react: Option<ReactConfig>)
    ensures StartsWith(ComponentSource(componentName, p, react), ComponentSignature(componentName, react))
  {
    var sig := ComponentSignature(componentName, react);
    assert StartsWith(sig, sig);
    StartsWithAppend(sig, BodyOpen, sig);
    StartsWithAppend(sig + BodyOpen, SvgElement(ComponentRoot(p)), sig);
    StartsWithAppend(sig + BodyOpen + SvgElement(ComponentRoot(p)), BodyClose, sig);
  }

  /**
   * `svgToReactComponent`: fails with `Invalid SVG content` exactly when no root
   * element matches; otherwise the source opens with the React import and the
   * exported function, named as configured and typed unless TypeScript is off.
   */
  function SvgToReactComponent(name: string, svg: string, react: Option<ReactConfig>): (r: Result<string, string>)
    ensures r.Failure? <==> MatchSvg(svg).None?
    ensures r.Failure? ==> r.error == "Invalid SVG content"
    ensures r.Success? ==> StartsWith(r.value, ComponentSignature(ComponentName(name, react), react))
  {
    match MatchSvg(svg)
    case None => Failure("Invalid SVG content")
    case Some(p) =>
      SourceStartsWithSignature(ComponentName(name, react), p, react);
      Success(ComponentSource(ComponentName(name, react), p, react))
  }

  /** The export keyword reads `export default` exactly for `exportType: 'default'`. */
  lemma ExportDefaultIff(react: Option<ReactConfig>)
    ensures ExportKeyword(react) == "export default" <==> react.Some? && react.value.exportType == Default
    ensures ExportKeyword(react) == "export" <==> !(react.Some? && react.value.exportType == Default)
  {
    assert "export" != "export default";
  }

  /** The props are typed unless the React section sets `typescript: false`. */
  lemma PropsTypedIff(react: Option<ReactConfig>)
    ensures PropsAnnotation(react) != "" <==> react.None? || react.value.typescript
  {
  }

  // ---------------------------------------------------------------------------
  // The generated root element

  lemma NoLessHasNoSvgOpen(s: string)
    requires NoLess(s)
    ensures NoSvgOpen(s)
  {
  }

  lemma NoSvgOpenConcat(a: string, b: string)
    requires NoSvgOpen(a) && NoSvgOpen(b)
    ensures NoSvgOpen(a + b)
  {
    var s := a + b;
    forall k | 0 <= k < |s| && s[k] == '<' ensures k + 1 < |s| && s[k + 1] != 's' {
      if k < |a| {
        assert a[k] == '<';
      } else {
        assert b[k - |a|] == '<';
      }
    }
  }

  lemma PropsTypeHasNoSvgOpen()
    ensures NoSvgOpen(PropsType)
  {
    var t := PropsType;
    forall k | 0 <= k < |t| && t[k] == '<' ensures k + 1 < |t| && t[k + 1] != 's' {
      assert k == 16;
    }
  }

  lemma SignatureHasNoSvgOpen(componentName: string, react: Option<ReactConfig>)
    requires NoLess(componentName)
    ensures NoSvgOpen(ComponentSignature(componentName, react) + BodyOpen)
  {
    var e := ExportKeyword(react);
    var a := PropsAnnotation(react);
    assert NoLess(ReactImport) && NoLess(e) && NoLess(FunctionWord);
    assert NoLess("(props") && NoLess(")") && NoLess(BodyOpen);
    NoLessHasNoSvgOpen(ReactImport);
    NoLessHasNoSvgOpen(e);
    NoLessHasNoSvgOpen(FunctionWord);
    NoLessHasNoSvgOpen(componentName);
    NoLessHasNoSvgOpen("(props");
    NoLessHasNoSvgOpen(")");
    NoLessHasNoSvgOpen(BodyOpen);
    if IsTypeScript(react) {
      PropsTypeHasNoSvgOpen();
    } else {
      NoLessHasNoSvgOpen(a);
    }
    var h1 := ReactImport + e;
    NoSvgOpenConcat(ReactImport, e);
    var h2 := h1 + FunctionWord;
    NoSvgOpenConcat(h1, FunctionWord);
    var h3 := h2 + componentName;
    NoSvgOpenConcat(h2, componentName);
    var h4 := h3 + "(props";
    NoSvgOpenConcat(h3, "(props");
    var h5 := h4 + a;
    NoSvgOpenConcat(h4, a);
    var h6 := h5 + ")";
    NoSvgOpenConcat(h5, ")");
    assert h6 == ComponentSignature(componentName, react);
    NoSvgOpenConcat(h6, BodyOpen);
  }

  predicate IsPadding(s: string) {
    forall i :: 0 <= i < |s| ==> s[i] == ' ' || s[i] == '\n'
  }

  /** Whitespace around a text without `</svg>` does not create one. */
  lemma PaddedHasNoSvgClose(x: string, t: string, y: string)
    requires IsPadding(x) && IsPadding(y) && NoSvgClose(t)
    ensures NoSvgClose(x + t + y)
  {
    var s := x + t + y;
    forall p | 0 <= p && p + 6 <= |s| ensures !OccursAt(s, SvgClose, p) {
      var w := s[p..p + 6];
      if p < |x| {
        assert w[0] == s[p] == x[p];
      } else if p + 6 <= |x| + |t| {
        assert w == t[p - |x|..p - |x| + 6];
        assert !OccursAt(t, SvgClose, p - |x|);
      } else {
        var q := if p < |x| + |t| then |x| + |t| else p;
        assert w[q - p] == s[q] == y[q - |x| - |t|];
      }
    }
  }

  /** A slice of a text without `</svg>` has none either. */
  lemma SliceHasNoSvgClose(c: string, a: nat, b: nat)
    requires a <= b <= |c| && NoSvgClose(c)
    ensures NoSvgClose(c[a..b])
  {
    var t := c[a..b];
    forall p | 0 <= p && p + 6 <= |t| ensures !OccursAt(t, SvgClose, p) {
      SliceOfSlice(c, a, b, p, p + 6);
      assert !OccursAt(c, SvgClose, a + p);
    }
  }

  /**
   * Reading the generated component back: its root element carries the rewritten
   * attributes with `{...props}` spread last, and wraps the trimmed inner markup.
   * The component name must hold no `<` (with sanitising on, `<` never survives).
   */
  lemma RootTagSpreadsProps(name: string, svg: string, react: Option<ReactConfig>)
    requires MatchSvg(svg).Some?
    requires NoLess(ComponentName(name, react))
    ensures var r := SvgToReactComponent(name, svg, react);
            r.Success? && MatchSvg(r.value) == Some(ComponentRoot(MatchSvg(svg).value))
    ensures EndsWith(ComponentRoot(MatchSvg(svg).value).attributes, PropsSpread)
  {
    var p := MatchSvg(svg).value;
    var q := ComponentRoot(p);
    var n := ComponentName(name, react);
    SignatureHasNoSvgOpen(n, react);
    RootIsWellFormed(p);
    MatchSvgOfElement(ComponentSignature(n, react) + BodyOpen, q, BodyClose);
  }

  lemma RootIsWellFormed(p: SvgParts)
    requires NoTagEnd(p.attributes) && NoSvgClose(p.content)
    ensures NoTagEnd(ComponentRoot(p).attributes) && NoSvgClose(ComponentRoot(p).content)
    ensures EndsWith(ComponentRoot(p).attributes, PropsSpread)
  {
    SpreadAttributesWellFormed(ReactAttributes(p.attributes));
    PaddedContentWellFormed(p.content);
  }

  lemma SpreadAttributesWellFormed(ra: string)
    requires NoTagEnd(ra)
    ensures NoTagEnd(ra + PropsSpread) && EndsWith(ra + PropsSpread, PropsSpread)
  {
    assert NoTagEnd(PropsSpread);
    forall i | 0 <= i < |ra + PropsSpread| ensures (ra + PropsSpread)[i] != '>' {
      if i < |ra| {
        assert (ra + PropsSpread)[i] == ra[i];
      } else {
        assert (ra + PropsSpread)[i] == PropsSpread[i - |ra|];
      }
    }
    assert (ra + PropsSpread)[|ra|..] == PropsSpread;
  }

  lemma PaddedContentWellFormed(c: string)
    requires NoSvgClose(c)
    ensures NoSvgClose(ContentIndent + Trim(c) + ContentOutdent)
  {
    var t := Trim(c);
    var a := SkipSpaces(c, 0);
    SliceHasNoSvgClose(c, a, a + |t|);
    assert IsPadding(ContentIndent) && IsPadding(ContentOutdent);
    PaddedHasNoSvgClose(ContentIndent, t, ContentOutdent);
  }
}
