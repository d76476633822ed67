/** The regular expressions of the sanitizer, the line-break inserter, the validator and the
    article normaliser, each written as an explicit matcher, and the two `re` operations the
    source uses: `re.sub` (non-overlapping, left to right) and `re.search` (leftmost match).

    Every pattern here consumes at least one character, and each of its greedy runs is
    followed by a character outside the run's class, so a pattern either matches at a given
    position in exactly one way or not at all: backtracking never finds an alternative. */
module Regex {
  import opened Text
  import opened Options

  /** The bracketed class at tweet_generator.py:184: the single characters that the UTF-8
      bytes of a few emoji turn into when read as Windows-1252 text. */
  predicate IsEmojiChar(c: char) {
    c == '\U{F0}' || c == '\U{178}' || c == '\U{A4}' || c == '\U{AF}' || c == '\U{2DC}'
    || c == '\U{AD}' || c == '\U{201D}' || c == '\U{201A}' || c == '\U{201C}' || c == '\U{2030}'
  }

  datatype Pattern =
    | BoldStar      // \*\*([^*]+)\*\*   replaced by group 1
    | BoldUnder     // __([^_]+)__       replaced by group 1
    | ItalicStar    // \*([^*]+)\*       replaced by group 1
    | ItalicUnder   // _([^_]+)_         replaced by group 1
    | SpacedStar    // \s+\*\s+          replaced by one space
    | SpacedUnder   // \s+_\s+           replaced by one space
    | LooseStar     // \s*\*\s*          replaced by one space
    | LooseUnder    // \s*_\s*           replaced by one space
    | Spaces        // \s+               replaced by one space
    | SentenceGap   // ([.!?])\s+([A-Z])                    replaced by \1\n\n\2
    | TokenGap      // ([.!?])\s+(emoji|#\w+)\s+([A-Z])     replaced by \1 \2\n\n\3
    | HtmlTag       // <[^>]+>           replaced by nothing
    | QuotedSpan    // ["']([^"']+)["']  (searched for; `out` is group 1)

  /** A match anchored at the start of the subject: how much it consumes and what it
      produces (the replacement text, or group 1 for `QuotedSpan`). */
  datatype Hit = Hit(len: nat, out: string)

  /** `d{k}([^d]+)d{k}` for k = 1 or 2. */
  function Emphasis(s: string, d: char, double: bool): (m: Option<Hit>)
    ensures m.Some? ==> 0 < m.value.len <= |s|
  {
    var k := if double then 2 else 1;
    if k <= |s| && s[0] == d && s[k - 1] == d then
      var n := Span(s[k..], Except(d));
      if n > 0 && k + n + k <= |s| && s[k + n] == d && s[k + n + k - 1] == d
      then Some(Hit(k + n + k, s[k..k + n]))
      else None
    else None
  }

  /** `\s+d\s+` */
  function SpacedMarker(s: string, d: char): (m: Option<Hit>)
    ensures m.Some? ==> 0 < m.value.len <= |s|
  {
    var n := Span(s, Space);
    if 0 < n < |s| && s[n] == d then
      var k := Span(s[n + 1..], Space);
      if k > 0 then Some(Hit(n + 1 + k, " ")) else None
    else None
  }

  /** `\s*d\s*` */
  function LooseMarker(s: string, d: char): (m: Option<Hit>)
    ensures m.Some? ==> 0 < m.value.len <= |s|
  {
    var n := Span(s, Space);
    if n < |s| && s[n] == d then Some(Hit(n + 1 + Span(s[n + 1..], Space), " "))
    else None
  }

  /** Length of an `emoji|#\w+` token at the front of `s`, 0 when there is none. */
  function TokenLen(s: string): (k: nat)
    ensures k <= |s|
  {
    if s == [] then 0
    else if IsEmojiChar(s[0]) then 1
    else if s[0] == '#' && Span(s[1..], Word) > 0 then 1 + Span(s[1..], Word)
    else 0
  }

  function SentenceGapAt(s: string): (m: Option<Hit>)
    ensures m.Some? ==> 0 < m.value.len <= |s|
  {
    if s != [] && IsTerminal(s[0]) then
      var n := Span(s[1..], Space);
      if n > 0 && 1 + n < |s| && IsUpper(s[1 + n])
      then Some(Hit(n + 2, [s[0], '\n', '\n', s[1 + n]]))
      else None
    else None
  }

  /** The part of a token gap after the first run of whitespace: the token, more
      whitespace, and the capital letter that ends the match. */
  function TokenRest(v: string): (m: Option<Hit>)
    ensures m.Some? ==> 0 < m.value.len <= |v|
  {
    var k := TokenLen(v);
    if k > 0 then
      var w := Span(v[k..], Space);
      if w > 0 && k + w < |v| && IsUpper(v[k + w])
      then Some(Hit(k + w + 1, v[..k] + ['\n', '\n', v[k + w]]))
      else None
    else None
  }

  function TokenGapAt(s: string): (m: Option<Hit>)
    ensures m.Some? ==> 0 < m.value.len <= |s|
  {
    if s != [] && IsTerminal(s[0]) then
      var n := Span(s[1..], Space);
      if n > 0 && 1 + n < |s| then
        match TokenRest(s[1 + n..])
        case Some(h) => Some(Hit(1 + n + h.len, [s[0], ' '] + h.out))
        case None => None
      else None
    else None
  }

  function HtmlTagAt(s: string): (m: Option<Hit>)
    ensures m.Some? ==> 0 < m.value.len <= |s|
  {
    if s != [] && s[0] == '<' then
      var n := Span(s[1..], Except('>'));
      if n > 0 && 1 + n < |s| then Some(Hit(n + 2, [])) else None
    else None
  }

  function QuotedSpanAt(s: string): (m: Option<Hit>)
    ensures m.Some? ==> 0 < m.value.len <= |s|
  {
    if s != [] && IsQuote(s[0]) then
      var n := Span(s[1..], NonQuote);
      if n > 0 && 1 + n < |s| then Some(Hit(n + 2, s[1..1 + n])) else None
    else None
  }

  /** The match of `p` anchored at the first character of `s`, if any. */
  function MatchAt(p: Pattern, s: string): (m: Option<Hit>)
    ensures m.Some? ==> 0 < m.value.len <= |s|
  {
    match p
    case BoldStar => Emphasis(s, '*', true)
    case BoldUnder => Emphasis(s, '_', true)
    case ItalicStar => Emphasis(s, '*', false)
    case ItalicUnder => Emphasis(s, '_', false)
    case SpacedStar => SpacedMarker(s, '*')
    case SpacedUnder => SpacedMarker(s, '_')
    case LooseStar => LooseMarker(s, '*')
    case LooseUnder => LooseMarker(s, '_')
    case Spaces => var n := Span(s, Space); if n > 0 then Some(Hit(n, " ")) else None
    case SentenceGap => SentenceGapAt(s)
    case TokenGap => TokenGapAt(s)
    case HtmlTag => HtmlTagAt(s)
    case QuotedSpan => QuotedSpanAt(s)
  }

  /** `re.sub(p, repl, s)`: scan left to right; where `p` matches, emit its replacement and
      resume after the match, otherwise copy one character. */
  function Sub(p: Pattern, s: string): string
    decreases |s|
  {
    if s == [] then []
    else match MatchAt(p, s)
      case Some(h) => h.out + Sub(p, s[h.len..])
      case None => [s[0]] + Sub(p, s[1..])
  }

  datatype Found = Found(start: nat, hit: Hit)

  /** `re.search(p, s)`: the leftmost position where `p` matches. */
  function Search(p: Pattern, s: string): (r: Option<Found>)
    ensures r.Some? ==> r.value.start + r.value.hit.len <= |s|
    ensures r.Some? ==> MatchAt(p, s[r.value.start..]) == Some(r.value.hit)
    ensures r.Some? ==> forall j {:trigger MatchAt(p, s[j..])} :: 0 <= j < r.value.start ==> MatchAt(p, s[j..]).None?
    ensures r.None? ==> forall j {:trigger MatchAt(p, s[j..])} :: 0 <= j < |s| ==> MatchAt(p, s[j..]).None?
    decreases |s|
  {
    if s == [] then None
    else match MatchAt(p, s)
      case Some(h) => Some(Found(0, h))
      case None =>
        var rest := Search(p, s[1..]);
        assert forall j :: 1 <= j <= |s| ==> s[1..][j - 1..] == s[j..];
        match rest
        case None => None
        case Some(f) => Some(Found(f.start + 1, f.hit))
  }

  /** Where the lazy `.*?:` after a meta phrase ends: one past the first `:` at or after `b`,
      provided no newline comes first (`.` does not match a newline). */
  function ColonEnd(s: string, b: nat): (e: Option<nat>)
    ensures e.Some? ==> b < e.value <= |s| && s[e.value - 1] == ':'
    ensures e.Some? ==> forall j :: b <= j < e.value ==> s[j] != '\n'
    decreases |s| - b
  {
    if b >= |s| || s[b] == '\n' then None
    else if s[b] == ':' then Some(b + 1)
    else ColonEnd(s, b + 1)
  }

  /** `phrase` occurs at position `a` of `s`, ignoring ASCII case (`phrase` is lower case). */
  predicate PhraseAt(s: string, a: nat, phrase: string) {
    a + |phrase| <= |s| && LowerStr(s[a..a + |phrase|]) == phrase
  }

  /** The end of the match of `^.*?phrase.*?:` (IGNORECASE, no MULTILINE, no DOTALL),
      trying the lazy `.*?` prefix lengths `a`, `a + 1`, ... in turn. */
  function MetaEnd(s: string, phrase: string, a: nat): (e: Option<nat>)
    requires '\n' !in phrase
    ensures e.Some? ==> a < e.value <= |s|
    ensures e.Some? ==> forall j :: a <= j < e.value ==> s[j] != '\n'
    decreases |s| - a
  {
    if PhraseAt(s, a, phrase) && ColonEnd(s, a + |phrase|).Some? then
      assert forall j :: a <= j < a + |phrase| ==> Lower(s[j]) == phrase[j - a];
      ColonEnd(s, a + |phrase|)
    else if a < |s| && s[a] != '\n' then MetaEnd(s, phrase, a + 1)
    else None
  }

  /** `re.sub(r"^.*?phrase.*?:", "", s, flags=re.IGNORECASE)`: the anchored pattern can only
      match once, at the start, and deletes through the first colon after the phrase. */
  function MetaSub(s: string, phrase: string): (r: string)
    requires '\n' !in phrase
    ensures |r| <= |s| && r == s[|s| - |r|..]
  {
    match MetaEnd(s, phrase, 0)
    case Some(e) => s[e..]
    case None => s
  }

  /** `s[j]` is a colon on the line that starts at or before `b`: no newline from `b` to `j`. */
  predicate LineColon(s: string, b: nat, j: int) {
    b <= j < |s| && s[j] == ':' && forall k :: b <= k < j ==> s[k] != '\n'
  }

  /** `ColonEnd` ends just past the FIRST colon from `b` on, and finds none exactly when no
      colon comes before the next newline. */
  lemma {:induction false} ColonEndFirst(s: string, b: nat)
    ensures ColonEnd(s, b).Some? ==>
      (&& LineColon(s, b, ColonEnd(s, b).value - 1)
       && forall j :: b <= j < ColonEnd(s, b).value - 1 ==> s[j] != ':')
    ensures ColonEnd(s, b).None? ==> forall j :: !LineColon(s, b, j)
    decreases |s| - b
  {
    if b >= |s| || s[b] == '\n' {
      forall j ensures !LineColon(s, b, j) {
        assert b < j < |s| ==> s[b] == '\n';
      }
    } else if s[b] != ':' {
      forall j | LineColon(s, b, j) ensures LineColon(s, b + 1, j) { }
      ColonEndFirst(s, b + 1);
    }
  }

  /** No newline comes before position `a` of `s`. */
  predicate OnFirstLine(s: string, a: int) {
    0 <= a <= |s| && forall k :: 0 <= k < a ==> s[k] != '\n'
  }

  /** `^.*?phrase.*?:` can match with the phrase starting at `a`: the phrase is there, no
      newline comes before it, and a colon follows it on the same line. */
  predicate MetaMatchAt(s: string, phrase: string, a: int) {
    && OnFirstLine(s, a)
    && PhraseAt(s, a, phrase)
    && ColonEnd(s, a + |phrase|).Some?
  }

  /** No position from `a0` up to (not including) `a` matches. */
  predicate NoMetaBetween(s: string, phrase: string, a0: int, a: int) {
    forall c :: a0 <= c < a ==> !MetaMatchAt(s, phrase, c)
  }

  /** `MetaEnd` tries the phrase positions from `a0` on in order: it finds an end exactly when
      some position matches, and then the end is the colon after the first such position. */
  lemma {:induction false} MetaEndFinds(s: string, phrase: string, a0: nat)
    requires '\n' !in phrase && OnFirstLine(s, a0)
    ensures MetaEnd(s, phrase, a0).None? ==> forall a :: a0 <= a ==> !MetaMatchAt(s, phrase, a)
    ensures MetaEnd(s, phrase, a0).Some? ==>
      exists a :: a0 <= a && MetaMatchAt(s, phrase, a) && NoMetaBetween(s, phrase, a0, a)
        && MetaEnd(s, phrase, a0) == ColonEnd(s, a + |phrase|)
    decreases |s| - a0
  {
    if PhraseAt(s, a0, phrase) && ColonEnd(s, a0 + |phrase|).Some? {
      assert MetaMatchAt(s, phrase, a0) && NoMetaBetween(s, phrase, a0, a0);
    } else if a0 < |s| && s[a0] != '\n' {
      assert !MetaMatchAt(s, phrase, a0);
      assert OnFirstLine(s, a0 + 1);
      MetaEndFinds(s, phrase, a0 + 1);
      if MetaEnd(s, phrase, a0).Some? {
        var w :| a0 + 1 <= w && MetaMatchAt(s, phrase, w) && NoMetaBetween(s, phrase, a0 + 1, w)
          && MetaEnd(s, phrase, a0 + 1) == ColonEnd(s, w + |phrase|);
        NoMetaExtend(s, phrase, a0, w);
      }
    } else {
      forall a | a0 <= a ensures !MetaMatchAt(s, phrase, a) {
        if a0 < |s| {
          assert s[a0] == '\n';
        }
      }
    }
  }

  /** A position that does not match extends a stretch of positions that do not match. */
  lemma NoMetaExtend(s: string, phrase: string, a0: int, w: int)
    requires !MetaMatchAt(s, phrase, a0) && NoMetaBetween(s, phrase, a0 + 1, w)
    ensures NoMetaBetween(s, phrase, a0, w)
  {
  }

  /** The meta-phrase substitution changes the text exactly when the pattern matches. */
  lemma MetaSubChanges(s: string, phrase: string)
    requires '\n' !in phrase
    ensures MetaSub(s, phrase) != s <==> exists a :: MetaMatchAt(s, phrase, a)
  {
    MetaEndFinds(s, phrase, 0);
  }

  /** When the phrase first matches at `a`, the substitution deletes everything up to and
      including the first colon after it. */
  lemma MetaSubCut(s: string, phrase: string, a: int)
    requires '\n' !in phrase
    requires MetaMatchAt(s, phrase, a) && NoMetaBetween(s, phrase, 0, a)
    ensures MetaSub(s, phrase) == s[ColonEnd(s, a + |phrase|).value..]
  {
    MetaEndFinds(s, phrase, 0);
    var w :| 0 <= w && MetaMatchAt(s, phrase, w) && NoMetaBetween(s, phrase, 0, w)
      && MetaEnd(s, phrase, 0) == ColonEnd(s, w + |phrase|);
    FirstMetaUnique(s, phrase, w);
    assert w == a;
    MetaSubAt(s, phrase, ColonEnd(s, a + |phrase|).value);
  }

  /** The substitution cuts the text at the end `MetaEnd` finds. */
  lemma MetaSubAt(s: string, phrase: string, e: nat)
    requires '\n' !in phrase && MetaEnd(s, phrase, 0) == Some(e)
    ensures e <= |s| && MetaSub(s, phrase) == s[e..]
  {
  }

  /** Two first matching positions are the same position. */
  lemma FirstMetaUnique(s: string, phrase: string, w: int)
    requires MetaMatchAt(s, phrase, w) && NoMetaBetween(s, phrase, 0, w)
    ensures forall a :: MetaMatchAt(s, phrase, a) && NoMetaBetween(s, phrase, 0, a) ==> a == w
  {
    forall a | MetaMatchAt(s, phrase, a) && NoMetaBetween(s, phrase, 0, a) ensures a == w {
      assert a < w ==> !MetaMatchAt(s, phrase, a);
      assert a > w ==> !MetaMatchAt(s, phrase, w);
    }
  }
}
