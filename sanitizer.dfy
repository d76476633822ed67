/** `clean_tweet` (tweet_generator.py:189-331): strips wrapping quotes, markdown and
    meta-commentary from a model reply, line by line, keeping the line structure.

    The passes are specified by `CleanSpec`, a composition of pure functions; the method
    `CleanTweet` performs them step by step, with the source's loops, and is proved equal
    to it. The lemmas at the end state what the output looks like. */
module Sanitizer {
  import opened Text
  import opened Regex
  import opened Options

  /** The prefixes tried at the start of the text and of every line, in order
      (tweet_generator.py:220-229 and 276-285). */
  const Prefixes: seq<string> :=
    ["tweet:", "here's a tweet:", "okay, here's", "here's", "okay,", "alright,", "so,", "well,"]

  /** The phrases of the meta-commentary patterns `^.*?phrase.*?:` (241-246 and 295-300). */
  const MetaPhrases: seq<string> :=
    ["channeling my inner", "designed to go viral", "here's what i think", "my take"]

  /** Words whose presence before a quoted span marks it as commentary (259, 324). */
  const QuoteWords: seq<string> := ["tweet", "here", "okay", "channeling", "designed"]

  // ---------------------------------------------------------------- slicing helpers

  /** Python's `t[1:-1]`. */
  function Inner(t: string): string {
    if |t| >= 2 then t[1..|t| - 1] else []
  }

  // ---------------------------------------------------------------- wrapping quotes

  /** `if text.strip().startswith(q) and text.strip().endswith(q): text = text.strip()[1:-1]` */
  function UnwrapStripped(text: string, q: char): string {
    var t := Strip(text);
    if t != [] && t[0] == q && t[|t| - 1] == q then Inner(t) else text
  }

  /** `if text.startswith(q) and text.endswith(q): text = text[1:-1]` */
  function Unwrap(text: string, q: char): string {
    if text != [] && text[0] == q && text[|text| - 1] == q then Inner(text) else text
  }

  /** Unwrapping peels exactly one pair of quotes: a text wrapped in `q` loses that pair
      and nothing else, a lone `q` becomes empty, and a text not wrapped in `q` is kept. */
  lemma UnwrapPeels(s: string, q: char, text: string)
    ensures Unwrap([q] + s + [q], q) == s && Unwrap([q], q) == []
    ensures Strip(text) == [q] + s + [q] ==> UnwrapStripped(text, q) == s
    ensures Unwrap(text, q) != text ==>
      && |text| >= 1 && text[0] == q && text[|text| - 1] == q
      && (|text| >= 2 ==> text == [q] + Unwrap(text, q) + [q])
  {
    var w := [q] + s + [q];
    assert w[1..|w| - 1] == s;
    if Unwrap(text, q) != text && |text| >= 2 {
      assert text == [text[0]] + text[1..|text| - 1] + [text[|text| - 1]];
    }
  }

  // ---------------------------------------------------------------- leading prefixes

  /** The first prefix, from index `i` on, that `probe` starts with. */
  function FirstPrefix(probe: string, i: nat): (r: Option<nat>)
    ensures r.Some? ==> i <= r.value < |Prefixes| && Prefixes[r.value] <= probe
    ensures r.Some? ==> forall j :: i <= j < r.value ==> !(Prefixes[j] <= probe)
    ensures r.None? ==> forall j :: i <= j < |Prefixes| ==> !(Prefixes[j] <= probe)
    decreases |Prefixes| - i
  {
    if i >= |Prefixes| then None
    else if Prefixes[i] <= probe then Some(i)
    else FirstPrefix(probe, i + 1)
  }

  /** What is left after cutting `n` characters: stripped, and without one leading colon. */
  function AfterPrefix(text: string, n: nat): string {
    var t := Strip(Drop(text, n));
    if t != [] && t[0] == ':' then Strip(t[1..]) else t
  }

  /** The `for prefix in prefixes_to_remove: ... break` loop: the test is made on `probe`
      (the lowered text, or the lowered and stripped line), the cut on `text` itself. */
  function DropPrefix(text: string, probe: string): string {
    match FirstPrefix(probe, 0)
    case None => text
    case Some(k) => AfterPrefix(text, |Prefixes[k]|)
  }

  method DropPrefixLoop(text: string, probe: string) returns (r: string)
    ensures r == DropPrefix(text, probe)
  {
    r := text;
    for i := 0 to |Prefixes|
      invariant FirstPrefix(probe, i) == FirstPrefix(probe, 0)
      invariant r == text
    {
      if Prefixes[i] <= probe {
        r := Strip(Drop(text, |Prefixes[i]|));
        if r != [] && r[0] == ':' {
          r := Strip(r[1..]);
        }
        break;
      }
    }
  }

  // ---------------------------------------------------------------- meta commentary

  lemma MetaPhrasesOneLine()
    ensures forall k :: 0 <= k < |MetaPhrases| ==> '\n' !in MetaPhrases[k]
  {
  }

  /** The `for pattern in meta_phrases` loop from phrase `i` on: delete the commentary
      through its colon, then strip. */
  function MetaFrom(text: string, i: nat): string
    decreases |MetaPhrases| - i
  {
    if i >= |MetaPhrases| then text
    else
      MetaPhrasesOneLine();
      MetaFrom(Strip(MetaSub(text, MetaPhrases[i])), i + 1)
  }

  method MetaLoop(text: string) returns (r: string)
    ensures r == MetaFrom(text, 0)
  {
    MetaPhrasesOneLine();
    r := text;
    for i := 0 to |MetaPhrases|
      invariant MetaFrom(r, i) == MetaFrom(text, 0)
    {
      r := Strip(MetaSub(r, MetaPhrases[i]));
    }
  }

  // ---------------------------------------------------------------- quoted tweets

  /** Some commentary word occurs in `s`. */
  predicate MentionsMeta(s: string) {
    exists k :: 0 <= k < |QuoteWords| && Contains(s, QuoteWords[k])
  }

  /** When the text has `:"` or `:'`, the first quoted span replaces the text if more than
      20 characters of commentary come before it. The commentary is the text before the
      first occurrence of the matched span (with its quotes), stripped. */
  function QuoteExtract(text: string): string {
    if Contains(text, ":\"") || Contains(text, ":'") then
      match Search(QuotedSpan, text)
      case None => text
      case Some(f) =>
        var whole := text[f.start..f.start + f.hit.len];
        var before := Strip(PyPrefix(text, Find(text, whole)));
        if |before| > 20 && MentionsMeta(LowerStr(before)) then f.hit.out else text
    else text
  }

  // ---------------------------------------------------------------- one line

  /** The three substitutions at the top of the line loop: loose `*` and `_` markers become
      a space, then every whitespace run becomes one space. */
  function SpaceLine(line: string): string {
    Sub(Spaces, Sub(LooseUnder, Sub(LooseStar, line)))
  }

  /** The body of the `for line in lines` loop. The prefix test is made on the lowered and
      stripped line, but the cut is made on the line before stripping. */
  function CleanLine(line: string): string {
    var l1 := SpaceLine(line);
    var l2 := DropPrefix(l1, Strip(LowerStr(l1)));
    Strip(MetaFrom(l2, 0))
  }

  method CleanLineM(line: string) returns (r: string)
    ensures r == CleanLine(line)
  {
    r := Sub(LooseStar, line);
    r := Sub(LooseUnder, r);
    r := Sub(Spaces, r);
    r := DropPrefixLoop(r, Strip(LowerStr(r)));
    r := MetaLoop(r);
    r := Strip(r);
  }

  function CleanLines(lines: seq<string>): (r: seq<string>)
    ensures |r| == |lines|
    ensures forall k :: 0 <= k < |lines| ==> r[k] == CleanLine(lines[k])
  {
    seq(|lines|, k requires 0 <= k < |lines| => CleanLine(lines[k]))
  }

  /** Appending the image of the next element extends an element-wise image by one. */
  lemma MapSnoc(out: seq<string>, xs: seq<string>, i: nat, y: string, f: string -> string)
    requires |out| == i < |xs| && y == f(xs[i])
    requires forall k :: 0 <= k < i ==> out[k] == f(xs[k])
    ensures forall k :: 0 <= k < i + 1 ==> (out + [y])[k] == f(xs[k])
  {
  }

  /** The `for line in lines` loop. */
  method CleanLinesLoop(lines: seq<string>) returns (cleaned: seq<string>)
    ensures cleaned == CleanLines(lines)
  {
    cleaned := [];
    for i := 0 to |lines|
      invariant |cleaned| == i
      invariant forall k :: 0 <= k < i ==> cleaned[k] == CleanLine(lines[k])
    {
      var line := CleanLineM(lines[i]);
      MapSnoc(cleaned, lines, i, line, CleanLine);
      cleaned := cleaned + [line];
    }
  }

  // ---------------------------------------------------------------- the whole reply

  /** The opening cleanup, before the text is split into lines: quotes, markdown emphasis,
      spaced-out markers, one leading prefix, meta commentary and a quoted tweet. */
  function CleanHead(text: string): string {
    var a := Unwrap(Unwrap(UnwrapStripped(UnwrapStripped(text, '"'), '\''), '"'), '\'');
    var b := Sub(ItalicUnder, Sub(ItalicStar, Sub(BoldUnder, Sub(BoldStar, a))));
    var c := Sub(SpacedUnder, Sub(SpacedStar, b));
    var d := DropPrefix(c, LowerStr(c));
    QuoteExtract(MetaFrom(d, 0))
  }

  /** The final cleanup after the lines are joined again. */
  function CleanTail(text: string): string {
    var h := UnwrapStripped(UnwrapStripped(text, '"'), '\'');
    var i := QuoteExtract(h);
    Strip(if "tweet:" <= LowerStr(Strip(i)) then Strip(Drop(i, 6)) else i)
  }

  /** `clean_tweet` as one function. */
  function CleanSpec(text: string): string {
    CleanTail(Join(CleanLines(Split(CleanHead(text), '\n')), '\n'))
  }

  /** `clean_tweet`, statement by statement. */
  method CleanTweet(text: string) returns (r: string)
    ensures r == CleanSpec(text)
  {
    r := UnwrapStripped(text, '"');
    r := UnwrapStripped(r, '\'');
    r := Unwrap(r, '"');
    r := Unwrap(r, '\'');
    r := Sub(BoldStar, r);
    r := Sub(BoldUnder, r);
    r := Sub(ItalicStar, r);
    r := Sub(ItalicUnder, r);
    r := Sub(SpacedStar, r);
    r := Sub(SpacedUnder, r);
    r := DropPrefixLoop(r, LowerStr(r));
    r := MetaLoop(r);
    r := QuoteExtract(r);
    assert r == CleanHead(text);

    var cleaned := CleanLinesLoop(Split(r, '\n'));
    r := Join(cleaned, '\n');

    r := UnwrapStripped(r, '"');
    r := UnwrapStripped(r, '\'');
    r := QuoteExtract(r);
    if "tweet:" <= LowerStr(Strip(r)) {
      r := Strip(Drop(r, 6));
    }
    r := Strip(r);
  }

  // ---------------------------------------------------------------- the line passes

  /** No markdown marker is left. */
  predicate NoMarkers(s: string) {
    forall i :: 0 <= i < |s| ==> s[i] != '*' && s[i] != '_'
  }

  /** The only whitespace is single spaces. */
  predicate SingleSpaced(s: string) {
    forall i :: 0 <= i < |s| && IsSpace(s[i]) ==> s[i] == ' ' && (i + 1 < |s| ==> !IsSpace(s[i + 1]))
  }

  /** A cleaned line: no markers, only single spaces, nothing to strip at either end. */
  predicate LineTidy(s: string) {
    NoMarkers(s) && SingleSpaced(s)
  }

  predicate Trimmed(s: string) {
    s == [] || (!IsSpace(s[0]) && !IsSpace(s[|s| - 1]))
  }

  /** A loose marker pass and the marker it removes. */
  predicate LoosePass(p: Pattern, d: char) {
    (p == LooseStar && d == '*') || (p == LooseUnder && d == '_')
  }

  lemma {:induction false} LooseRemovesMarker(p: Pattern, d: char, s: string)
    requires LoosePass(p, d)
    ensures d !in Sub(p, s)
    decreases |s|
  {
    if s != [] {
      match MatchAt(p, s)
      case Some(h) =>
        LooseRemovesMarker(p, d, s[h.len..]);
      case None =>
        assert s[0] != d;
        LooseRemovesMarker(p, d, s[1..]);
    }
  }

  /** A text without the marker is left as it is. */
  lemma {:induction false} LooseKeepsUnmarked(p: Pattern, d: char, s: string)
    requires LoosePass(p, d) && d !in s
    ensures Sub(p, s) == s
    decreases |s|
  {
    if s != [] {
      SpanFacts(s, Space);
      assert MatchAt(p, s).None?;
      assert d !in s[1..];
      LooseKeepsUnmarked(p, d, s[1..]);
    }
  }

  /** The three line passes write nothing but spaces, so they bring in no other character. */
  lemma {:induction false} SpacePassKeepsOut(p: Pattern, d: char, s: string)
    requires p == LooseStar || p == LooseUnder || p == Spaces
    requires d != ' ' && d !in s
    ensures d !in Sub(p, s)
    decreases |s|
  {
    if s != [] {
      match MatchAt(p, s)
      case Some(h) =>
        assert h.out == " ";
        assert d !in s[h.len..];
        SpacePassKeepsOut(p, d, s[h.len..]);
      case None =>
        assert d !in s[1..];
        SpacePassKeepsOut(p, d, s[1..]);
    }
  }

  lemma SpacedCons(c: char, t: string)
    requires SingleSpaced(t)
    requires !IsSpace(c) || (c == ' ' && (t == [] || !IsSpace(t[0])))
    ensures SingleSpaced([c] + t)
  {
    forall i | 0 <= i < |[c] + t| && IsSpace(([c] + t)[i])
      ensures ([c] + t)[i] == ' ' && (i + 1 < |[c] + t| ==> !IsSpace(([c] + t)[i + 1]))
    {
      if i > 0 {
        assert ([c] + t)[i] == t[i - 1];
        if i + 1 < |[c] + t| { assert ([c] + t)[i + 1] == t[i]; }
      }
    }
  }

  /** The whitespace pass leaves single spaces only, and keeps a non-space first character. */
  lemma {:induction false} SpacesSingle(s: string)
    ensures SingleSpaced(Sub(Spaces, s))
    ensures s != [] && !IsSpace(s[0]) ==> Sub(Spaces, s) != [] && Sub(Spaces, s)[0] == s[0]
    decreases |s|
  {
    if s != [] {
      SpanFacts(s, Space);
      var n := Span(s, Space);
      if n > 0 {
        SpacesSingle(s[n..]);
        SpacedCons(' ', Sub(Spaces, s[n..]));
      } else {
        SpacesSingle(s[1..]);
        SpacedCons(s[0], Sub(Spaces, s[1..]));
      }
    }
  }

  /** Text that is already single-spaced is left as it is. */
  lemma {:induction false} SpacesKeepsSingle(s: string)
    requires SingleSpaced(s)
    ensures Sub(Spaces, s) == s
    decreases |s|
  {
    if s != [] {
      if IsSpace(s[0]) {
        assert s[0] == ' ';
        assert |s| > 1 ==> s[1..][0] == s[1] && !IsSpace(s[1]);
        assert Span(s[1..], Space) == 0;
      }
      SpacesKeepsSingle(s[1..]);
    }
  }

  /** The three passes at the top of the loop leave a tidy line. */
  lemma SpaceLineTidy(line: string)
    requires '\n' !in line
    ensures LineTidy(SpaceLine(line))
  {
    var a := Sub(LooseStar, line);
    var b := Sub(LooseUnder, a);
    LooseRemovesMarker(LooseStar, '*', line);
    LooseRemovesMarker(LooseUnder, '_', a);
    SpacePassKeepsOut(LooseUnder, '*', a);
    SpacePassKeepsOut(Spaces, '*', b);
    SpacePassKeepsOut(Spaces, '_', b);
    SpacesSingle(b);
  }

  // ---------------------------------------------------------------- slices

  /** `r` is a contiguous piece of `s`. */
  ghost predicate SliceOf(r: string, s: string) {
    exists i, j :: 0 <= i <= j <= |s| && r == s[i..j]
  }

  lemma SliceTrans(a: string, b: string, c: string)
    requires SliceOf(a, b) && SliceOf(b, c)
    ensures SliceOf(a, c)
  {
    var i, j :| 0 <= i <= j <= |b| && a == b[i..j];
    var k, l :| 0 <= k <= l <= |c| && b == c[k..l];
    forall m | 0 <= m < j - i ensures a[m] == c[k + i + m] {
      assert a[m] == b[i + m];
      assert b[i + m] == c[k..l][i + m];
    }
    assert a == c[k + i..k + j];
  }

  lemma WholeSlice(s: string)
    ensures SliceOf(s, s)
  {
    assert s == s[0..|s|];
  }

  lemma StripSlice(s: string)
    ensures SliceOf(Strip(s), s)
  {
    StripIsSlice(s);
  }

  lemma DropSlice(s: string, n: nat)
    ensures SliceOf(Drop(s, n), s)
  {
    assert Drop(s, n) == s[|s| - |Drop(s, n)|..|s|];
  }

  lemma TailSlice(s: string)
    requires s != []
    ensures SliceOf(s[1..], s)
  {
    assert s[1..] == s[1..|s|];
  }

  lemma AfterPrefixSlice(text: string, n: nat)
    ensures SliceOf(AfterPrefix(text, n), text)
  {
    var d := Drop(text, n);
    var t := Strip(d);
    DropSlice(text, n);
    StripSlice(d);
    SliceTrans(t, d, text);
    if t != [] && t[0] == ':' {
      TailSlice(t);
      StripSlice(t[1..]);
      SliceTrans(Strip(t[1..]), t[1..], t);
      SliceTrans(Strip(t[1..]), t, text);
    }
  }

  lemma DropPrefixSlice(text: string, probe: string)
    ensures SliceOf(DropPrefix(text, probe), text)
  {
    match FirstPrefix(probe, 0)
    case None => WholeSlice(text);
    case Some(k) => AfterPrefixSlice(text, |Prefixes[k]|);
  }

  lemma {:induction false} MetaFromSlice(text: string, i: nat)
    ensures SliceOf(MetaFrom(text, i), text)
    decreases |MetaPhrases| - i
  {
    if i >= |MetaPhrases| {
      WholeSlice(text);
    } else {
      MetaPhrasesOneLine();
      var m := MetaSub(text, MetaPhrases[i]);
      assert SliceOf(m, text) by {
        assert m == text[|text| - |m|..|text|];
      }
      StripSlice(m);
      SliceTrans(Strip(m), m, text);
      MetaFromSlice(Strip(m), i + 1);
      SliceTrans(MetaFrom(Strip(m), i + 1), Strip(m), text);
    }
  }

  lemma UnwrapStrippedSlice(text: string, q: char)
    ensures SliceOf(UnwrapStripped(text, q), text)
  {
    var t := Strip(text);
    StripSlice(text);
    if t != [] && t[0] == q && t[|t| - 1] == q {
      if |t| >= 2 {
        assert SliceOf(Inner(t), t) by { assert Inner(t) == t[1..|t| - 1]; }
        SliceTrans(Inner(t), t, text);
      } else {
        assert Inner(t) == text[0..0];
      }
    } else {
      WholeSlice(text);
    }
  }

  /** The group of a quoted span lies inside the span. */
  lemma QuotedGroupSlice(s: string)
    requires QuotedSpanAt(s).Some?
    ensures SliceOf(QuotedSpanAt(s).value.out, s)
  {
    var n := Span(s[1..], NonQuote);
    assert QuotedSpanAt(s).value.out == s[1..1 + n];
  }

  /** The extraction keeps the text, or replaces it by the group of the first quoted span,
      which lies inside the text, and only when the text has `:"` or `:'`. */
  lemma QuoteExtractSlice(text: string)
    ensures SliceOf(QuoteExtract(text), text)
    ensures QuoteExtract(text) != text ==>
      && (Contains(text, ":\"") || Contains(text, ":'"))
      && Search(QuotedSpan, text).Some?
      && QuoteExtract(text) == Search(QuotedSpan, text).value.hit.out
  {
    WholeSlice(text);
    if Contains(text, ":\"") || Contains(text, ":'") {
      match Search(QuotedSpan, text)
      case None =>
      case Some(f) =>
        var rest := text[f.start..];
        assert QuotedSpanAt(rest) == Some(f.hit);
        QuotedGroupSlice(rest);
        assert SliceOf(rest, text) by { assert rest == text[f.start..|text|]; }
        SliceTrans(f.hit.out, rest, text);
    }
  }

  /** `find` returns an occurrence no later than any known one. */
  lemma FindAtMost(s: string, p: string, j: nat)
    requires j + |p| <= |s| && s[j..j + |p|] == p
    ensures 0 <= Find(s, p) <= j
  {
    assert OccursAt(s, p, j);
    FindFirst(s, p);
  }

  /** A quoted span matches wherever its text occurs. */
  lemma QuotedSpanAgain(s: string, t: string)
    requires QuotedSpanAt(s).Some?
    requires s[..QuotedSpanAt(s).value.len] <= t
    ensures QuotedSpanAt(t).Some?
  {
    var n := Span(s[1..], NonQuote);
    SpanFacts(s[1..], NonQuote);
    assert forall i :: 0 <= i < n + 2 ==> t[i] == s[i];
    assert t[1..] == t[1..1 + n] + t[1 + n..];
    assert forall i :: 0 <= i < n ==> t[1..1 + n][i] == s[1..][i];
    assert t[1 + n..][0] == s[1..][n];
    SpanExact(t[1..1 + n], t[1 + n..], NonQuote);
  }

  lemma EarlierCopyMatches(text: string, start: nat, h: Hit, r: nat)
    requires start + h.len <= |text| && MatchAt(QuotedSpan, text[start..]) == Some(h)
    requires r < start && text[r..r + h.len] == text[start..start + h.len]
    ensures MatchAt(QuotedSpan, text[r..]).Some?
  {
    var s, t := text[start..], text[r..];
    assert s[..h.len] == text[start..start + h.len];
    assert t[..h.len] == text[r..r + h.len];
    QuotedSpanAgain(s, t);
  }

  /** The commentary before a quoted tweet is exactly the text before the match:
      `text.find(group(0))` finds the match itself, since an earlier copy of the same
      characters would have been an earlier match. */
  lemma QuoteFoundAtMatch(text: string, f: Found)
    requires Search(QuotedSpan, text) == Some(f)
    ensures Find(text, text[f.start..f.start + f.hit.len]) == f.start
  {
    FindIsMatch(text, f.start, f.hit);
  }

  /** No quoted span starts before position `k`. */
  predicate NoQuoteBefore(text: string, k: nat)
    requires k <= |text|
  {
    forall j {:trigger MatchAt(QuotedSpan, text[j..])} :: 0 <= j < k ==> MatchAt(QuotedSpan, text[j..]).None?
  }

  /** The first match's text is found where the match is: an earlier copy of it would
      have been an earlier match. */
  lemma FindIsMatch(text: string, start: nat, h: Hit)
    requires start + h.len <= |text| && MatchAt(QuotedSpan, text[start..]) == Some(h)
    requires NoQuoteBefore(text, start)
    ensures Find(text, text[start..start + h.len]) == start
  {
    var g := text[start..start + h.len];
    var r := FoundCopy(text, g, start);
    if r < start {
      EarlierCopyMatches(text, start, h, r);
    }
  }

  /** `find` stops at a copy no later than a known one. */
  lemma FoundCopy(s: string, p: string, j: nat) returns (r: nat)
    requires j + |p| <= |s| && s[j..j + |p|] == p
    ensures r == Find(s, p) && r <= j && r + |p| <= |s| && s[r..r + |p|] == p
  {
    FindAtMost(s, p, j);
    r := Find(s, p);
  }

  lemma LineTidySlice(r: string, s: string)
    requires LineTidy(s) && SliceOf(r, s)
    ensures LineTidy(r)
  {
    var i, j :| 0 <= i <= j <= |s| && r == s[i..j];
    assert forall k :: 0 <= k < |r| ==> r[k] == s[i + k];
  }

  /** Every cleaned line is tidy and trimmed. */
  lemma CleanLineTidy(line: string)
    requires '\n' !in line
    ensures LineTidy(CleanLine(line)) && Trimmed(CleanLine(line))
  {
    var l0 := SpaceLine(line);
    SpaceLineTidy(line);
    var l2 := DropPrefix(l0, Strip(LowerStr(l0)));
    DropPrefixSlice(l0, Strip(LowerStr(l0)));
    var l3 := MetaFrom(l2, 0);
    MetaFromSlice(l2, 0);
    SliceTrans(l3, l2, l0);
    StripSlice(l3);
    SliceTrans(Strip(l3), l3, l0);
    LineTidySlice(Strip(l3), l0);
  }

  // ---------------------------------------------------------------- the whole text

  /** A cleaned text: no markers; whitespace is spaces and newlines only; a space never
      touches other whitespace, so lines carry no leading or trailing spaces. */
  predicate TextTidy(s: string) {
    forall i :: 0 <= i < |s| ==>
      s[i] != '*' && s[i] != '_' && (IsSpace(s[i]) ==> s[i] == ' ' || s[i] == '\n')
      && (IsSpace(s[i]) && i + 1 < |s| && IsSpace(s[i + 1]) ==> s[i] == '\n' && s[i + 1] == '\n')
  }

  /** The text does not start with a space (it may start with a newline). */
  predicate NoLeadingSpace(s: string) {
    s == [] || !IsSpace(s[0]) || s[0] == '\n'
  }

  lemma TextTidySlice(r: string, s: string)
    requires TextTidy(s) && SliceOf(r, s)
    ensures TextTidy(r)
  {
    var i, j :| 0 <= i <= j <= |s| && r == s[i..j];
    assert forall k :: 0 <= k < |r| ==> r[k] == s[i + k];
  }

  /** One tidy, trimmed line in front of a newline and a tidy text. */
  lemma GlueTidy(a: string, b: string)
    requires LineTidy(a) && Trimmed(a) && TextTidy(b) && NoLeadingSpace(b)
    ensures TextTidy(a + ['\n'] + b) && NoLeadingSpace(a + ['\n'] + b)
  {
    var s := a + ['\n'] + b;
    forall i | 0 <= i < |s|
      ensures s[i] != '*' && s[i] != '_' && (IsSpace(s[i]) ==> s[i] == ' ' || s[i] == '\n')
      ensures IsSpace(s[i]) && i + 1 < |s| && IsSpace(s[i + 1]) ==> s[i] == '\n' && s[i + 1] == '\n'
    {
      if i < |a| {
        assert s[i] == a[i];
        if i + 1 < |a| { assert s[i + 1] == a[i + 1]; }
      } else if i == |a| {
        assert s[i] == '\n';
        if i + 1 < |s| { assert s[i + 1] == b[0]; }
      } else {
        assert s[i] == b[i - |a| - 1];
        if i + 1 < |s| { assert s[i + 1] == b[i - |a|]; }
      }
    }
    if a == [] { assert s[0] == '\n'; } else { assert s[0] == a[0]; }
  }

  lemma LineIsText(a: string)
    requires LineTidy(a) && Trimmed(a)
    ensures TextTidy(a) && NoLeadingSpace(a)
  {
  }

  /** Tidy, trimmed lines joined by newlines make a tidy text. */
  lemma {:induction false} JoinTidy(parts: seq<string>)
    requires forall k :: 0 <= k < |parts| ==> LineTidy(parts[k]) && Trimmed(parts[k])
    ensures TextTidy(Join(parts, '\n')) && NoLeadingSpace(Join(parts, '\n'))
    decreases |parts|
  {
    if |parts| == 1 {
      LineIsText(parts[0]);
    } else if |parts| > 1 {
      JoinTidy(parts[1..]);
      GlueTidy(parts[0], Join(parts[1..], '\n'));
    }
  }

  /** A tidy line holds no newline. */
  lemma TidyLineOneLine(a: string)
    requires LineTidy(a)
    ensures '\n' !in a
  {
    if '\n' in a {
      var i :| 0 <= i < |a| && a[i] == '\n';
      assert IsSpace(a[i]);
    }
  }

  /** The line loop keeps the text's lines: as many newlines come out as went in. */
  lemma LinesKeepNewlines(t: string)
    ensures Count(Join(CleanLines(Split(t, '\n')), '\n'), '\n') == Count(t, '\n')
  {
    var lines := Split(t, '\n');
    var parts := CleanLines(lines);
    SplitCount(t, '\n');
    forall k | 0 <= k < |parts| ensures '\n' !in parts[k] {
      CleanLineTidy(lines[k]);
      TidyLineOneLine(parts[k]);
    }
    JoinCount(parts, '\n');
  }

  /** The lines of any text, cleaned and joined again, make a tidy text. */
  lemma CleanedLinesTidy(f: string)
    ensures TextTidy(Join(CleanLines(Split(f, '\n')), '\n'))
  {
    var lines := Split(f, '\n');
    var parts := CleanLines(lines);
    forall k | 0 <= k < |parts| ensures LineTidy(parts[k]) && Trimmed(parts[k]) {
      CleanLineTidy(lines[k]);
    }
    JoinTidy(parts);
  }

  /** The final cleanup only cuts pieces out of the joined text. */
  lemma CleanTailSlice(g: string)
    ensures SliceOf(CleanTail(g), g)
  {
    var h1 := UnwrapStripped(g, '"');
    var h := UnwrapStripped(h1, '\'');
    UnwrapStrippedSlice(g, '"');
    UnwrapStrippedSlice(h1, '\'');
    SliceTrans(h, h1, g);
    var i := QuoteExtract(h);
    QuoteExtractSlice(h);
    SliceTrans(i, h, g);
    var j := if "tweet:" <= LowerStr(Strip(i)) then Strip(Drop(i, 6)) else i;
    if "tweet:" <= LowerStr(Strip(i)) {
      DropSlice(i, 6);
      StripSlice(Drop(i, 6));
      SliceTrans(j, Drop(i, 6), i);
    } else {
      WholeSlice(i);
    }
    SliceTrans(j, i, g);
    StripSlice(j);
    SliceTrans(Strip(j), j, g);
  }

  /** The cleaned tweet is tidy and trimmed, whatever the reply was. */
  lemma CleanSpecTidy(text: string)
    ensures TextTidy(CleanSpec(text)) && Trimmed(CleanSpec(text))
  {
    var g := Join(CleanLines(Split(CleanHead(text), '\n')), '\n');
    CleanedLinesTidy(CleanHead(text));
    CleanTailSlice(g);
    TextTidySlice(CleanTail(g), g);
  }

  // ---------------------------------------------------------------- examples

  lemma StripTrimmed(t: string)
    requires Trimmed(t)
    ensures Strip(t) == t
  {
    if t != [] {
      assert Span(t, Space) == 0;
      assert TrailingSpaces(t) == 0;
    }
  }

  /** The meta-commentary patterns need a colon to match. */
  lemma {:induction false} MetaNeedsColon(s: string, phrase: string, a: nat)
    requires '\n' !in phrase && ':' !in s
    ensures MetaEnd(s, phrase, a).None?
    decreases |s| - a
  {
    if !(PhraseAt(s, a, phrase) && ColonEnd(s, a + |phrase|).Some?) && a < |s| && s[a] != '\n' {
      MetaNeedsColon(s, phrase, a + 1);
    }
  }

  /** A trimmed text without a colon goes through the meta-commentary loop unchanged. */
  lemma {:induction false} MetaFromNoColon(s: string, i: nat)
    requires ':' !in s && Trimmed(s)
    ensures MetaFrom(s, i) == s
    decreases |MetaPhrases| - i
  {
    if i < |MetaPhrases| {
      MetaPhrasesOneLine();
      MetaNeedsColon(s, MetaPhrases[i], 0);
      StripTrimmed(s);
      MetaFromNoColon(s, i + 1);
    }
  }

  /** Where a prefix is found in the lowered text itself, the characters cut are exactly that
      prefix, ignoring case. This is how the opening cleanup uses `DropPrefix`. */
  lemma PrefixCutMatches(text: string)
    requires FirstPrefix(LowerStr(text), 0).Some?
    ensures var m := |Prefixes[FirstPrefix(LowerStr(text), 0).value]|;
      m <= |text| && LowerStr(text[..m]) == Prefixes[FirstPrefix(LowerStr(text), 0).value]
      && DropPrefix(text, LowerStr(text)) == AfterPrefix(text, m)
  {
    var k := FirstPrefix(LowerStr(text), 0).value;
    var m := |Prefixes[k]|;
    assert LowerStr(text)[..m] == Prefixes[k];
    assert LowerStr(text[..m]) == LowerStr(text)[..m];
  }

  /** The line loop finds the prefix in the stripped line but cuts the line before
      stripping. When the line starts with a space, the cut takes the space and all but the
      last character of the prefix; the prefix's last character is left at the front of
      the rest, and it stays unless it is the colon of `tweet:` or `here's a tweet:`, which
      the colon rule then drops. So ` so, hi` becomes `, hi`. */
  lemma LeadingSpaceCut(line: string)
    requires SpaceLine(line) != [] && IsSpace(SpaceLine(line)[0])
    requires FirstPrefix(Strip(LowerStr(SpaceLine(line))), 0).Some?
    ensures var l1 := SpaceLine(line);
      var pre := Prefixes[FirstPrefix(Strip(LowerStr(l1)), 0).value];
      var m := |pre|;
      var cut := DropPrefix(l1, Strip(LowerStr(l1)));
      && 0 < m < |l1|
      && LowerStr(l1[1..m]) == pre[..m - 1] && Lower(l1[m]) == pre[m - 1]
      && cut == AfterPrefix(l1, m)
      && (pre[m - 1] != ':' ==> cut != [] && cut[0] == l1[m])
  {
    SpacesSingle(Sub(LooseUnder, Sub(LooseStar, line)));
    SpaceLedCut(SpaceLine(line));
  }

  /** `LeadingSpaceCut` for any single-spaced line that starts with a space. */
  lemma SpaceLedCut(l1: string)
    requires SingleSpaced(l1) && l1 != [] && IsSpace(l1[0])
    requires FirstPrefix(Strip(LowerStr(l1)), 0).Some?
    ensures var pre := Prefixes[FirstPrefix(Strip(LowerStr(l1)), 0).value];
      var m := |pre|;
      var cut := DropPrefix(l1, Strip(LowerStr(l1)));
      && 0 < m < |l1|
      && LowerStr(l1[1..m]) == pre[..m - 1] && Lower(l1[m]) == pre[m - 1]
      && cut == AfterPrefix(l1, m)
      && (pre[m - 1] != ':' ==> cut != [] && cut[0] == l1[m])
  {
    var probe := Strip(LowerStr(l1));
    var pre := Prefixes[FirstPrefix(probe, 0).value];
    PrefixesShape();
    LowerLedBySpace(l1);
    PrefixAfterSpace(l1, probe, pre);
    KeptLastChar(l1, |pre|, pre[|pre| - 1]);
  }

  /** A prefix of the stripped lowered line, which starts at index 1, matches `l1` from 1. */
  lemma PrefixAfterSpace(l1: string, probe: string, pre: string)
    requires Span(LowerStr(l1), Space) == 1 && probe == Strip(LowerStr(l1))
    requires pre != [] && pre <= probe
    ensures 0 < |pre| < |l1|
    ensures LowerStr(l1[1..|pre|]) == pre[..|pre| - 1] && Lower(l1[|pre|]) == pre[|pre| - 1]
  {
    var low := LowerStr(l1);
    StripIsSlice(low);
    assert probe == low[1..1 + |probe|];
    forall i | 0 <= i < |pre| ensures Lower(l1[1 + i]) == pre[i] {
      assert pre[i] == probe[i] == low[1 + i];
    }
  }

  /** Lowering keeps the single leading space, so the stripped lowered line starts at 1. */
  lemma LowerLedBySpace(l1: string)
    requires SingleSpaced(l1) && l1 != [] && IsSpace(l1[0])
    ensures Span(LowerStr(l1), Space) == 1
  {
    var low := LowerStr(l1);
    assert low == [low[0]] + low[1..];
    if |l1| > 1 {
      assert !IsSpace(low[1]);
      SpanExact([low[0]], low[1..], Space);
    } else {
      assert low[1..] == [];
    }
  }

  /** After the cut at `m`, a kept character that is neither whitespace nor a colon leads
      the result. */
  lemma KeptLastChar(l1: string, m: nat, c: char)
    requires m < |l1| && Lower(l1[m]) == c && !IsSpace(c)
    ensures c != ':' ==> AfterPrefix(l1, m) != [] && AfterPrefix(l1, m)[0] == l1[m]
  {
    var d := Drop(l1, m);
    assert d[0] == l1[m] && !IsSpace(d[0]);
    assert LStrip(d) == d;
    assert TrailingSpaces(d) < |d|;
  }

  /** Every prefix starts with a lower-case letter and ends with neither whitespace nor an
      upper-case letter. */
  lemma PrefixesShape()
    ensures forall k :: 0 <= k < |Prefixes| ==> Prefixes[k] != [] && 'a' <= Prefixes[k][0] <= 'z'
    ensures forall k :: 0 <= k < |Prefixes| ==> !IsSpace(Prefixes[k][|Prefixes[k]| - 1])
  {
  }
}
