/** The length budget: `truncate_tweet` (utils.py:45-65) and the part of `generate_tweet`
    (tweet_generator.py:99-157) that cleans, validates, truncates and appends the link. */
module Budget {
  import opened Text
  import opened Options
  import Breaks
  import Regex
  import Sanitizer
  import Validator

  // ---------------------------------------------------------------- truncate_tweet

  /** `truncate_tweet(text, max_length)`. The slices follow Python, so a negative
      `max_length - 3` counts from the end; `last_newline > max_length * 0.5` and
      `last_space > max_length * 0.8` are compared over the integers. */
  function Truncate(text: string, maxLen: int): (r: string)
    ensures |text| <= maxLen ==> r == text
  {
    if |text| <= maxLen then text
    else
      var cut := PyPrefix(text, maxLen - 3);
      var lastNewline := RFind(cut, '\n');
      if 2 * lastNewline > maxLen then RStrip(PyPrefix(cut, lastNewline))
      else
        var lastSpace := RFind(cut, ' ');
        (if 5 * lastSpace > 4 * maxLen then PyPrefix(cut, lastSpace) else cut) + "..."
  }

  /** With a budget of at least three characters the result fits the budget, and it is a
      prefix of the text, possibly followed by "...". */
  lemma TruncateFits(text: string, maxLen: int)
    requires maxLen >= 3
    ensures |Truncate(text, maxLen)| <= maxLen
    ensures Truncate(text, maxLen) <= text
      || (|Truncate(text, maxLen)| >= 3 && Truncate(text, maxLen)[..|Truncate(text, maxLen)| - 3] <= text
          && Truncate(text, maxLen)[|Truncate(text, maxLen)| - 3..] == "...")
  {
    if |text| > maxLen {
      var cut := text[..maxLen - 3];
      var lastNewline := RFind(cut, '\n');
      if 2 * lastNewline > maxLen {
        var p := cut[..lastNewline];
        assert RStrip(p) == p[..|RStrip(p)|];
      } else {
        var lastSpace := RFind(cut, ' ');
        var body := if 5 * lastSpace > 4 * maxLen then cut[..lastSpace] else cut;
        var r := body + "...";
        assert r[..|r| - 3] == body;
      }
    }
  }

  /** A newline past half the budget, with no later newline before `max_length - 3`, is
      where the text is cut; the trailing whitespace goes and no "..." is added. */
  lemma TruncateAtLine(text: string, maxLen: int, i: nat)
    requires 3 <= maxLen < |text| && i < maxLen - 3 && 2 * i > maxLen && text[i] == '\n'
    requires forall j :: i < j < maxLen - 3 ==> text[j] != '\n'
    ensures Truncate(text, maxLen) == RStrip(text[..i])
  {
    var cut := text[..maxLen - 3];
    RFindIs(cut, '\n', i);
    assert cut[..i] == text[..i];
  }

  /** Without such a newline, a space past four fifths of the budget, with no later space
      before `max_length - 3`, is where the text is cut, and "..." follows. */
  lemma TruncateAtSpace(text: string, maxLen: int, k: nat)
    requires 3 <= maxLen < |text|
    requires forall j :: 0 <= j < maxLen - 3 && 2 * j > maxLen ==> text[j] != '\n'
    requires k < maxLen - 3 && 5 * k > 4 * maxLen && text[k] == ' '
    requires forall j :: k < j < maxLen - 3 ==> text[j] != ' '
    ensures Truncate(text, maxLen) == text[..k] + "..."
  {
    var cut := text[..maxLen - 3];
    NoLateChar(cut, '\n', maxLen);
    RFindIs(cut, ' ', k);
    assert cut[..k] == text[..k];
  }

  /** With neither, the text is cut hard at `max_length - 3` and "..." follows. */
  lemma TruncateHard(text: string, maxLen: int)
    requires 3 <= maxLen < |text|
    requires forall j :: 0 <= j < maxLen - 3 && 2 * j > maxLen ==> text[j] != '\n'
    requires forall j :: 0 <= j < maxLen - 3 && 5 * j > 4 * maxLen ==> text[j] != ' '
    ensures Truncate(text, maxLen) == text[..maxLen - 3] + "..."
  {
    var cut := text[..maxLen - 3];
    NoLateChar(cut, '\n', maxLen);
    var lastSpace := RFind(cut, ' ');
    assert 5 * lastSpace <= 4 * maxLen by {
      if lastSpace >= 0 {
        assert cut[lastSpace] == text[lastSpace];
      }
    }
  }

  /** The last occurrence is the one after which the character does not occur. */
  lemma RFindIs(s: string, c: char, i: nat)
    requires i < |s| && s[i] == c && forall j :: i < j < |s| ==> s[j] != c
    ensures RFind(s, c) == i
  {
  }

  /** No newline past half the budget: the last newline is not past it either. */
  lemma NoLateChar(cut: string, c: char, maxLen: int)
    requires maxLen >= 0
    requires forall j :: 0 <= j < |cut| && 2 * j > maxLen ==> cut[j] != c
    ensures 2 * RFind(cut, c) <= maxLen
  {
  }

  // ---------------------------------------------------------------- generate_tweet

  /** Characters held back for the link (tweet_generator.py:116-122): a shortened URL on
      a free account, the real length capped at 100 otherwise. */
  function LinkReserve(maxLen: int, link: string): (r: nat)
    ensures maxLen <= 280 ==> r == 23
    ensures maxLen > 280 ==> r <= |link| && r <= 100 && (r == |link| || r == 100)
  {
    if maxLen <= 280 then 23 else if |link| <= 100 then |link| else 100
  }

  /** Line breaks are put back only into a substantial single-line tweet. */
  function Rebreak(t: string): string {
    if '\n' !in t && |t| > 50 then Breaks.AddLineBreaks(t) else t
  }

  /** The reply after `clean_tweet` and, when it has no newline, `add_line_breaks`. */
  function Prepared(reply: string): string {
    var t := Sanitizer.CleanSpec(reply);
    if '\n' !in t then Breaks.AddLineBreaks(t) else t
  }

  /** The body after the first pass of the link budget. */
  function FirstBody(tweet: string, link: string, maxLen: int): string {
    Rebreak(Truncate(tweet, maxLen - LinkReserve(maxLen, link) - 1))
  }

  /** The body after the second pass, which runs only when the first overflows. */
  function SecondBody(tweet: string, link: string, maxLen: int): string {
    Rebreak(Truncate(FirstBody(tweet, link, maxLen), maxLen - |link| - 1))
  }

  /** The text that goes before the link: the first pass, or the second when the first
      with the link overflows (tweet_generator.py:124-146). */
  function LinkedBody(tweet: string, link: string, maxLen: int): string {
    var first := FirstBody(tweet, link, maxLen);
    if |first| + 1 + |link| > maxLen then SecondBody(tweet, link, maxLen) else first
  }

  /** The tweet with the link (tweet_generator.py:115-148). */
  function WithLink(tweet: string, link: string, maxLen: int): string {
    LinkedBody(tweet, link, maxLen) + " " + link
  }

  /** The tweet without a link (tweet_generator.py:149-157). */
  function WithoutLink(tweet: string, maxLen: int): string {
    Rebreak(Truncate(tweet, maxLen))
  }

  /** What the budget makes of a validated tweet; nothing when that is empty. */
  function Fitted(tweet: string, link: string, maxLen: int): Option<string> {
    var out := if link != [] then WithLink(tweet, link, maxLen) else WithoutLink(tweet, maxLen);
    if out != [] then Some(out) else None
  }

  /** What `generate_tweet` returns for the model's reply `reply`; an empty `link` is the
      absent one. */
  function Generate(reply: string, link: string, maxLen: int): Option<string> {
    var tweet := Prepared(reply);
    if Validator.IsValid(tweet) then Fitted(tweet, link, maxLen) else None
  }

  /** "Re-add line breaks if they were lost during truncation". */
  method RestoreBreaks(t: string) returns (r: string)
    ensures r == Rebreak(t)
  {
    r := t;
    if '\n' !in r && |r| > 50 {
      r := Breaks.AddLineBreaks(r);
    }
  }

  /** The link branch of `generate_tweet` (tweet_generator.py:115-148): `tweet` and
      `final_tweet` are reassigned step by step as in the source. */
  method AppendLink(text: string, link: string, maxLen: int) returns (final: string)
    ensures final == WithLink(text, link, maxLen)
  {
    // the room for the text is what the link and its separating space leave
    var tweet := Truncate(text, maxLen - LinkReserve(maxLen, link) - 1);
    tweet := RestoreBreaks(tweet);
    final := tweet + " " + link;
    if |final| > maxLen {
      tweet := Truncate(tweet, maxLen - |link| - 1);
      tweet := RestoreBreaks(tweet);
      final := tweet + " " + link;
    }
  }

  /** The budget part of `generate_tweet` (tweet_generator.py:112-157). */
  method Fit(tweet: string, link: string, maxLen: int) returns (r: Option<string>)
    ensures r == Fitted(tweet, link, maxLen)
  {
    if link != [] {
      var final := AppendLink(tweet, link, maxLen);
      return if final != [] then Some(final) else None;
    }
    var t := Truncate(tweet, maxLen);
    t := RestoreBreaks(t);
    return if t != [] then Some(t) else None;
  }

  /** `generate_tweet` from the point where the reply is in hand. */
  method GenerateTweet(reply: string, link: string, maxLen: int) returns (r: Option<string>)
    ensures r == Generate(reply, link, maxLen)
  {
    var tweet := Sanitizer.CleanTweet(reply);
    if '\n' !in tweet {
      tweet := Breaks.AddLineBreaks(tweet);
    }
    if !Validator.IsValid(tweet) {
      return None;
    }
    r := Fit(tweet, link, maxLen);
  }

  // ---------------------------------------------------------------- properties

  /** With a link the budget always yields a tweet, and it ends with a space and the link. */
  lemma LinkAppended(tweet: string, link: string, maxLen: int)
    requires link != []
    ensures Fitted(tweet, link, maxLen).Some?
    ensures var out := Fitted(tweet, link, maxLen).value;
      |out| > |link| && out[|out| - |link| - 1..] == " " + link
  {
    SpaceLinkSuffix(LinkedBody(tweet, link, maxLen), link);
  }

  lemma SpaceLinkSuffix(body: string, link: string)
    ensures var w := body + " " + link;
      |w| > |link| && w[|w| - |link| - 1..] == " " + link
  {
    var w := body + " " + link;
    assert w[|w| - |link| - 1..] == " " + link;
  }

  /** With a link, `generate_tweet` yields a tweet exactly when the prepared reply passes
      validation, and that tweet ends with the link. */
  lemma LinkedResult(reply: string, link: string, maxLen: int)
    requires link != []
    ensures Generate(reply, link, maxLen).Some? <==> Validator.IsValid(Prepared(reply))
    ensures Generate(reply, link, maxLen).Some? ==>
      var out := Generate(reply, link, maxLen).value;
      |out| > |link| && out[|out| - |link| - 1..] == " " + link
  {
    LinkAppended(Prepared(reply), link, maxLen);
  }

  /** Without a link, a tweet within the limit that has a line break or is short comes
      back untouched; only an empty one is dropped. */
  lemma UnlinkedUnchanged(tweet: string, maxLen: int)
    requires |tweet| <= maxLen && ('\n' in tweet || |tweet| <= 50)
    ensures Fitted(tweet, [], maxLen) == if tweet == [] then None else Some(tweet)
  {
  }

  /** Putting the breaks back never lengthens a tweet that already has a line break, is
      at most 50 characters long, or gets no break inserted. */
  lemma RebreakNoLonger(t: string)
    requires '\n' in t || |t| <= 50 || '\n' !in Regex.Sub(Regex.TokenGap, Regex.Sub(Regex.SentenceGap, t))
    ensures |Rebreak(t)| <= |t|
  {
    if '\n' !in t && |t| > 50 {
      Breaks.NoBreakIsStrip(t);
    }
  }

  /** The second pass is the last one: whatever it gives is returned. The result fits when
      the first pass already fits beside the link, or when the room left beside the link is
      at least three characters and the re-added breaks cannot lengthen the second cut: it
      has a line break, is at most 50 characters long, or gets no break inserted. */
  lemma LinkedFits(tweet: string, link: string, maxLen: int)
    requires var t := Truncate(FirstBody(tweet, link, maxLen), maxLen - |link| - 1);
      || |FirstBody(tweet, link, maxLen)| + 1 + |link| <= maxLen
      || (maxLen - |link| - 1 >= 3
          && ('\n' in t || |t| <= 50 || '\n' !in Regex.Sub(Regex.TokenGap, Regex.Sub(Regex.SentenceGap, t))))
    ensures |WithLink(tweet, link, maxLen)| <= maxLen
  {
    if |FirstBody(tweet, link, maxLen)| + 1 + |link| > maxLen {
      var t := Truncate(FirstBody(tweet, link, maxLen), maxLen - |link| - 1);
      TruncateFits(FirstBody(tweet, link, maxLen), maxLen - |link| - 1);
      RebreakNoLonger(t);
    }
  }

  /** The same without a link, for a budget of at least three characters. */
  lemma UnlinkedFits(tweet: string, maxLen: int)
    requires var t := Truncate(tweet, maxLen);
      maxLen >= 3 && ('\n' in t || |t| <= 50 || '\n' !in Regex.Sub(Regex.TokenGap, Regex.Sub(Regex.SentenceGap, t)))
    ensures |WithoutLink(tweet, maxLen)| <= maxLen
  {
    TruncateFits(tweet, maxLen);
    RebreakNoLonger(Truncate(tweet, maxLen));
  }
}
