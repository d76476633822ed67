/** `validate_tweet` (utils.py:68-121): a tweet is refused when its lowered text holds a
    forbidden phrase, when it still has markdown emphasis, or when its first three words
    open with meta-commentary. */
module Validator {
  import opened Text
  import opened Regex
  import Sanitizer

  /** utils.py:72-85 */
  const Forbidden: seq<string> := [
    "as an ai", "as a language model", "as an artificial intelligence", "in this article",
    "according to", "here's a tweet", "okay, here's", "channeling my inner",
    "designed to go viral", "here's what i think", "my take on", "let me tell you"
  ]

  /** utils.py:103-110 */
  const Starters: seq<string> := ["okay,", "alright,", "so,", "well,", "here's", "let me"]

  /** utils.py:118 */
  const OpenerWords: seq<string> := ["tweet", "here", "tell", "think"]

  predicate HasForbidden(low: string) {
    exists k :: 0 <= k < |Forbidden| && Contains(low, Forbidden[k])
  }

  /** The four emphasis searches at utils.py:95-100. */
  predicate HasMarkdown(text: string) {
    Search(BoldStar, text).Some? || Search(ItalicStar, text).Some?
    || Search(BoldUnder, text).Some? || Search(ItalicUnder, text).Some?
  }

  /** `" ".join(text_lower.split()[:3])` */
  function FirstText(low: string): string {
    var ws := Words(low);
    Join(if |ws| <= 3 then ws else ws[..3], ' ')
  }

  /** The `for starter in meta_starters` loop: some starter begins the first words and one
      of the opener words occurs in them. */
  predicate MetaOpener(low: string) {
    var ft := FirstText(low);
    (exists k :: 0 <= k < |Starters| && Starters[k] <= ft)
    && (exists w :: 0 <= w < |OpenerWords| && Contains(ft, OpenerWords[w]))
  }

  /** `validate_tweet` */
  predicate IsValid(text: string) {
    !HasForbidden(LowerStr(text)) && !HasMarkdown(text) && !MetaOpener(LowerStr(text))
  }

  // ---------------------------------------------------------------- forbidden phrases

  /** Any forbidden phrase, in any case, sinks the tweet. */
  lemma ForbiddenRejected(text: string, k: nat)
    requires k < |Forbidden| && Contains(LowerStr(text), Forbidden[k])
    ensures !IsValid(text)
  {
  }

  // ---------------------------------------------------------------- markdown

  /** Each emphasis pattern of marker `d` starts with `d`. */
  predicate EmphasisOf(p: Pattern, d: char) {
    ((p == BoldStar || p == ItalicStar) && d == '*') || ((p == BoldUnder || p == ItalicUnder) && d == '_')
  }

  lemma SearchFindsMarker(p: Pattern, d: char, text: string)
    requires EmphasisOf(p, d) && Search(p, text).Some?
    ensures d in text
  {
    var f := Search(p, text).value;
    assert text[f.start..][0] == text[f.start];
  }

  /** A text with neither marker passes the markdown checks. */
  lemma NoMarkersNoMarkdown(text: string)
    requires '*' !in text && '_' !in text
    ensures !HasMarkdown(text)
  {
    if Search(BoldStar, text).Some? { SearchFindsMarker(BoldStar, '*', text); }
    if Search(ItalicStar, text).Some? { SearchFindsMarker(ItalicStar, '*', text); }
    if Search(BoldUnder, text).Some? { SearchFindsMarker(BoldUnder, '_', text); }
    if Search(ItalicUnder, text).Some? { SearchFindsMarker(ItalicUnder, '_', text); }
  }

  /** Two markers of the same kind with at least one other character between them, and no
      marker of that kind in between, make the single-marker search succeed. */
  lemma MarkerPairMatches(text: string, d: char, i: nat, j: nat)
    requires d == '*' || d == '_'
    requires i + 1 < j < |text| && text[i] == d && text[j] == d
    requires forall m :: i < m < j ==> text[m] != d
    ensures Emphasis(text[i..], d, false).Some?
  {
    var s := text[i..];
    var body := s[1..j - i];
    assert forall m :: 0 <= m < |body| ==> InClass(body[m], Except(d)) by {
      forall m | 0 <= m < |body| ensures InClass(body[m], Except(d)) {
        assert body[m] == text[i + 1 + m];
      }
    }
    assert s[1..] == body + s[j - i..];
    assert s[j - i..][0] == d;
    SpanExact(body, s[j - i..], Except(d));
  }

  /** Such a pair sinks the tweet: `snake_case_name` is refused. */
  lemma MarkerPairRejected(text: string, d: char, i: nat, j: nat)
    requires d == '*' || d == '_'
    requires i + 1 < j < |text| && text[i] == d && text[j] == d
    requires forall m :: i < m < j ==> text[m] != d
    ensures !IsValid(text)
  {
    MarkerPairMatches(text, d, i, j);
    var p := if d == '*' then ItalicStar else ItalicUnder;
    assert MatchAt(p, text[i..]).Some?;
    assert Search(p, text).Some?;
  }

  // ---------------------------------------------------------------- openers

  /** The first words joined again begin with the first word. */
  lemma FirstTextStartsWithFirstWord(low: string)
    requires Words(low) != []
    ensures Words(low)[0] <= FirstText(low)
  {
    var ws := Words(low);
    var first := if |ws| <= 3 then ws else ws[..3];
    assert first[0] == ws[0];
    JoinStartsWithFirst(first);
  }

  /** A prefix without whitespace of the stripped text is a prefix of its first word. */
  lemma PrefixOfFirstWord(low: string, p: string)
    requires p != [] && p <= LStrip(low) && forall i :: 0 <= i < |p| ==> !IsSpace(p[i])
    ensures Words(low) != [] && p <= Words(low)[0]
  {
    var t := LStrip(low);
    FirstWord(low);
    RunCoversPrefix(t, p);
    assert p == t[..Span(t, NonSpace)][..|p|];
  }

  /** The non-whitespace run at the front of `t` covers any whitespace-free prefix. */
  lemma RunCoversPrefix(t: string, p: string)
    requires p <= t && forall i :: 0 <= i < |p| ==> !IsSpace(p[i])
    ensures |p| <= Span(t, NonSpace)
  {
    SpanFacts(t, NonSpace);
    assert forall i :: 0 <= i < |p| ==> t[i] == p[i];
  }

  /** A text opening with "let me" has "let" as its first word and a second word that
      starts with "me". */
  lemma LetMeWords(low: string)
    requires "let me" <= LStrip(low)
    ensures |Words(low)| >= 2 && Words(low)[0] == "let" && "me" <= Words(low)[1]
  {
    var t := LStrip(low);
    assert t[0] == 'l' && t[1] == 'e' && t[2] == 't' && t[3] == ' ' && t[4] == 'm' && t[5] == 'e';
    WordsAfterLet(low, t);
    SpaceThenMe(t[3..]);
  }

  /** The first word of a text opening with "let " is "let", and the rest follows. */
  lemma WordsAfterLet(low: string, t: string)
    requires t == LStrip(low) && |t| >= 4 && t[0] == 'l' && t[1] == 'e' && t[2] == 't' && t[3] == ' '
    ensures Words(low) == ["let"] + Words(t[3..])
  {
    assert t == t[..3] + t[3..];
    SpanExact(t[..3], t[3..], NonSpace);
    assert t[..3] == "let";
  }

  /** A text starting with " me" (a space, then "me") has a first word that starts with "me". */
  lemma SpaceThenMe(u: string)
    requires |u| >= 3 && u[0] == ' ' && u[1] == 'm' && u[2] == 'e'
    ensures Words(u) != [] && "me" <= Words(u)[0]
  {
    SpaceLed(u);
    PrefixOfFirstWord(u, "me");
  }

  /** One space followed by a non-space is all that `lstrip` removes. */
  lemma SpaceLed(u: string)
    requires |u| >= 2 && u[0] == ' ' && !IsSpace(u[1])
    ensures LStrip(u) == u[1..]
  {
    assert u[..1] + u[1..] == u;
    SpanExact(u[..1], u[1..], Space);
  }

  /** "let me" at the start of the stripped text begins the first words. */
  lemma LetMeOpens(low: string)
    requires "let me" <= LStrip(low)
    ensures "let me" <= FirstText(low)
  {
    LetMeWords(low);
    var ws := Words(low);
    var first := if |ws| <= 3 then ws else ws[..3];
    assert first[0] == "let" && first[1] == ws[1];
    JoinStartsWithFirst(first[1..]);
    assert Join(first, ' ') == first[0] + [' '] + Join(first[1..], ' ');
  }

  /** Every opening with "here's", in any case, is refused: it is both a starter and
      contains "here". */
  lemma HeresRejected(text: string)
    requires "here's" <= LStrip(LowerStr(text))
    ensures !IsValid(text)
  {
    var low := LowerStr(text);
    StarterOpens(low, 4);
    var ft := FirstText(low);
    ContainsAt(ft, "here", 0);
    assert Contains(ft, OpenerWords[1]);
  }

  /** An opening starter, such as "so," or "let me", followed within the first three words
      by a word holding "tweet", "here", "tell" or "think", is refused. So "So, there we go"
      fails, since "there" holds "here", and so does "Let me tell you". */
  lemma StarterThenWordRejected(text: string, k: nat, i: nat, w: nat)
    requires k < |Starters| && w < |OpenerWords|
    requires Starters[k] <= LStrip(LowerStr(text))
    requires i < 3 && i < |Words(LowerStr(text))| && Contains(Words(LowerStr(text))[i], OpenerWords[w])
    ensures !IsValid(text)
  {
    var low := LowerStr(text);
    var ws := Words(low);
    var first := if |ws| <= 3 then ws else ws[..3];
    assert first[i] == ws[i];
    JoinContains(first, i, ' ', OpenerWords[w]);
    StarterOpens(low, k);
  }

  /** A starter that begins the stripped text begins the first words. */
  lemma StarterOpens(low: string, k: nat)
    requires k < |Starters| && Starters[k] <= LStrip(low)
    ensures Starters[k] <= FirstText(low)
  {
    if k == 5 {
      LetMeOpens(low);
    } else {
      assert Starters[k] != [] && forall i :: 0 <= i < |Starters[k]| ==> !IsSpace(Starters[k][i]);
      PrefixOfFirstWord(low, Starters[k]);
      FirstTextStartsWithFirstWord(low);
    }
  }

  /** The other direction: a text is accepted when its lowered form holds no forbidden
      phrase, it has no `*` and no `_`, and none of "tweet", "here", "tell", "think" occurs
      in its first three words joined. */
  lemma PlainAccepted(text: string)
    requires forall k :: 0 <= k < |Forbidden| ==> !Contains(LowerStr(text), Forbidden[k])
    requires '*' !in text && '_' !in text
    requires forall w :: 0 <= w < |OpenerWords| ==> !Contains(FirstText(LowerStr(text)), OpenerWords[w])
    ensures IsValid(text)
  {
    NoMarkersNoMarkdown(text);
  }

  // ---------------------------------------------------------------- with the sanitizer

  /** A cleaned tweet never trips the markdown checks. */
  lemma CleanedHasNoMarkdown(raw: string)
    ensures !HasMarkdown(Sanitizer.CleanSpec(raw))
  {
    var t := Sanitizer.CleanSpec(raw);
    Sanitizer.CleanSpecTidy(raw);
    assert '*' !in t && '_' !in t;
    NoMarkersNoMarkdown(t);
  }
}
