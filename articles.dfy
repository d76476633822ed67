/** Feed entries turned into articles and the recency filter (rss_sources.py:79-273). */
module Articles {
  import opened Text
  import opened Regex
  import opened Options
  import opened Seqs

  /** A feed entry as it comes from the parser; a missing field is the empty string, and
      `published` is the already parsed time in seconds, if any. */
  datatype Entry = Entry(title: string, link: string, summary: string, description: string,
                         published: Option<int>)

  /** The record `normalize_article` returns. */
  datatype Article = Article(title: string, link: string, summary: string, source: string,
                             published: Option<int>)

  /** `summary[:300]` */
  const SummaryLimit: nat := 300

  /** rss_sources.py:83-93: the stripped summary, or else the stripped description, with
      tags deleted and cut to the limit. */
  function SummaryOf(e: Entry): (s: string)
    ensures |s| <= SummaryLimit
  {
    var summary := Strip(e.summary);
    var summary := if summary == [] then Strip(e.description) else summary;
    if summary != [] then PyPrefix(Sub(HtmlTag, summary), SummaryLimit) else summary
  }

  predicate IsGoogleNews(link: string) {
    Contains(link, "news.google.com") || Contains(link, "news.google.com/rss/articles")
  }

  /** rss_sources.py:206-208 */
  predicate DomainOnly(link: string) {
    var parts := Split(link, '/');
    |parts| <= 3 || (|parts| == 4 && parts[3] == [])
  }

  /** `normalize_article(entry, source_name)`: an entry is kept exactly when its stripped
      title and link are non-blank, the link is not a Google News one, and an http link
      has a path. */
  function Normalize(e: Entry, sourceName: string): (r: Option<Article>)
    ensures r.Some? <==>
      && Strip(e.title) != [] && Strip(e.link) != [] && !IsGoogleNews(Strip(e.link))
      && !("http" <= Strip(e.link) && DomainOnly(Strip(e.link)))
    ensures r.Some? ==>
      && r.value.title != [] && r.value.link != []
      && r.value.source == sourceName && r.value.published == e.published
      && !IsGoogleNews(r.value.link) && !("http" <= r.value.link && DomainOnly(r.value.link))
  {
    var title := Strip(e.title);
    var link := Strip(e.link);
    var summary := SummaryOf(e);
    if title == [] || link == [] then None
    else if IsGoogleNews(link) then None
    else if "http" <= link && DomainOnly(link) then None
    else Some(Article(title, link, summary, sourceName, e.published))
  }

  // ---------------------------------------------------------------- normalisation

  /** A blank title or link drops the entry. */
  lemma BlankRejected(e: Entry, sourceName: string)
    requires Strip(e.title) == [] || Strip(e.link) == []
    ensures Normalize(e, sourceName) == None
  {
  }

  /** Every Google News link drops the entry, whatever else it carries: the link repair
      that would replace it ends in an unconditional `return None`. */
  lemma GoogleNewsRejected(e: Entry, sourceName: string)
    requires Contains(Strip(e.link), "news.google.com")
    ensures Normalize(e, sourceName) == None
  {
  }

  /** What a kept article carries: the stripped title and link, the summary rule, the
      source name and the entry's time. */
  lemma KeptFields(e: Entry, sourceName: string)
    requires Normalize(e, sourceName).Some?
    ensures Normalize(e, sourceName).value
      == Article(Strip(e.title), Strip(e.link), SummaryOf(e), sourceName, e.published)
  {
  }

  /** A link that does not start with "http" is not checked for a path. */
  lemma NonHttpUnchecked(e: Entry, sourceName: string)
    requires Strip(e.title) != [] && Strip(e.link) != [] && !IsGoogleNews(Strip(e.link))
    requires !("http" <= Strip(e.link))
    ensures Normalize(e, sourceName).Some?
  {
  }

  /** The last piece of a split is empty exactly when the text ends with the separator. */
  lemma {:induction false} SplitLastEmpty(s: string, sep: char)
    requires sep in s
    ensures var parts := Split(s, sep); parts[|parts| - 1] == [] <==> s[|s| - 1] == sep
  {
    LastPieceEmpty(s, sep, Split(s, sep));
  }

  /** `SplitLastEmpty` with the split passed in, by induction on the pieces. */
  lemma {:induction false} LastPieceEmpty(s: string, sep: char, parts: seq<string>)
    requires sep in s && parts == Split(s, sep)
    ensures |parts[|parts| - 1]| == 0 <==> s[|s| - 1] == sep
    decreases |s|
  {
    var i := FirstIndex(s, sep);
    var rest := s[i + 1..];
    var tail := Split(rest, sep);
    SplitLastOfRest(s, sep, parts, tail);
    if rest == [] {
      SplitNoSep(rest, sep);
    } else {
      LastOfSuffix(s, i + 1);
      if sep in rest {
        LastPieceEmpty(rest, sep, tail);
      } else {
        SplitNoSep(rest, sep);
      }
    }
  }

  /** The last piece of a split is the last piece of the split after the first separator. */
  lemma SplitLastOfRest(s: string, sep: char, parts: seq<string>, tail: seq<string>)
    requires sep in s && parts == Split(s, sep) && tail == Split(s[FirstIndex(s, sep) + 1..], sep)
    ensures parts[|parts| - 1] == tail[|tail| - 1]
  {
    SplitCons(s, sep);
    LastOfCons(parts, s[..FirstIndex(s, sep)], tail);
  }

  lemma SplitNoSep(s: string, sep: char)
    requires sep !in s
    ensures Split(s, sep) == [s]
  {
  }

  lemma LastOfCons(parts: seq<string>, a: string, t: seq<string>)
    requires t != [] && parts == [a] + t
    ensures parts[|parts| - 1] == t[|t| - 1]
  {
    assert |parts| == |t| + 1;
  }

  lemma LastOfSuffix(s: string, k: nat)
    requires k < |s|
    ensures s[k..][|s[k..]| - 1] == s[|s| - 1]
  {
  }

  /** The domain-only rule counts slashes: at most two (`https://a.com`), or three with
      the last one at the end (`https://a.com/`). `https://a.com/x` has a path and is
      kept. */
  lemma DomainOnlySlashes(link: string)
    ensures DomainOnly(link) <==>
      Count(link, '/') <= 2 || (Count(link, '/') == 3 && link[|link| - 1] == '/')
  {
    SplitCount(link, '/');
    if Count(link, '/') == 3 {
      SplitLastEmpty(link, '/');
    }
  }

  /** Deleting tags leaves a text without '<' alone. */
  lemma {:induction false} NoTagUnchanged(s: string)
    requires '<' !in s
    ensures Sub(HtmlTag, s) == s
    decreases |s|
  {
    if s != [] {
      assert s[0] != '<';
      NoTagUnchanged(s[1..]);
    }
  }

  /** A tag `<...>` at the front is deleted and the rest is scanned on. */
  lemma TagDeleted(body: string, rest: string)
    requires body != [] && '>' !in body
    ensures Sub(HtmlTag, "<" + body + ">" + rest) == Sub(HtmlTag, rest)
  {
    var s := "<" + body + ">" + rest;
    assert s[1..] == body + (">" + rest);
    forall m | 0 <= m < |body| ensures InClass(body[m], Except('>')) {
    }
    SpanExact(body, ">" + rest, Except('>'));
    assert s[|body| + 2..] == rest;
  }

  /** No tag `<...>` starts anywhere in `s`: after every `<` comes a `>` right away, or no
      `>` at all. */
  predicate TagFree(s: string) {
    forall j :: 0 <= j < |s| - 1 && s[j] == '<' && s[j + 1] != '>' ==> '>' !in s[j + 2..]
  }

  /** The tag pattern matches at the front exactly when a `<` is followed by a character
      other than `>` and, later, by a `>`. */
  lemma HtmlTagAtIff(x: string)
    ensures HtmlTagAt(x).Some? <==> |x| >= 2 && x[0] == '<' && x[1] != '>' && '>' in x[2..]
  {
    if |x| >= 2 && x[0] == '<' {
      var n := Span(x[1..], Except('>'));
      SpanFacts(x[1..], Except('>'));
      if '>' in x[2..] {
        var i :| 0 <= i < |x[2..]| && x[2..][i] == '>';
        assert x[1..][i + 1] == '>';
      }
      if 1 + n < |x| && n > 0 {
        assert x[1..][n] == '>' && x[2..][n - 1] == '>';
      }
    }
  }

  /** Tag-free text has no tag match anywhere: `re.search(r"<[^>]+>", s)` finds nothing. */
  lemma TagFreeNoSearch(s: string)
    requires TagFree(s)
    ensures Search(HtmlTag, s).None?
  {
    forall j | 0 <= j < |s| ensures MatchAt(HtmlTag, s[j..]).None? {
      HtmlTagAtIff(s[j..]);
      if |s[j..]| >= 2 {
        assert s[j..][2..] == s[j + 2..];
      }
    }
  }

  /** Text without `>` holds no tag and is left alone. */
  lemma {:induction false} NoCloseUnchanged(s: string)
    requires '>' !in s
    ensures Sub(HtmlTag, s) == s
    decreases |s|
  {
    if s != [] {
      HtmlTagAtIff(s);
      NoCloseUnchanged(s[1..]);
    }
  }

  /** One more character in front keeps a text tag-free when it is not a `<` that would
      open a tag over the rest. */
  lemma TagFreeCons(c: char, t: string)
    requires TagFree(t)
    requires c == '<' ==> t == [] || t[0] == '>' || '>' !in t
    ensures TagFree([c] + t)
  {
    var u := [c] + t;
    forall j | 0 <= j < |u| - 1 && u[j] == '<' && u[j + 1] != '>' ensures '>' !in u[j + 2..] {
      assert u[j + 2..] == t[j + 1..];
      if j > 0 {
        assert t[j - 1] == '<' && t[j] != '>';
        assert '>' !in t[j - 1 + 2..];
      } else {
        assert c == '<' && t != [] && t[0] != '>';
        assert '>' !in t;
        assert forall i :: 0 <= i < |t[1..]| ==> t[1..][i] == t[i + 1];
      }
    }
  }

  /** Deleting the tags leaves a tag-free text. */
  lemma {:induction false} SubTagFree(s: string)
    ensures TagFree(Sub(HtmlTag, s))
    decreases |s|
  {
    if s != [] {
      match MatchAt(HtmlTag, s)
      case Some(h) =>
        assert h.out == [];
        SubTagFree(s[h.len..]);
      case None =>
        var t := Sub(HtmlTag, s[1..]);
        SubTagFree(s[1..]);
        HtmlTagAtIff(s);
        if s[0] == '<' && |s| >= 2 {
          if s[1] == '>' {
            assert MatchAt(HtmlTag, s[1..]).None?;
            assert t[0] == '>';
          } else {
            assert '>' !in s[1..] by {
              assert forall i :: 0 <= i < |s[2..]| ==> s[2..][i] == s[1..][i + 1];
            }
            NoCloseUnchanged(s[1..]);
          }
        }
        TagFreeCons(s[0], t);
    }
  }

  /** A prefix of a tag-free text is tag-free. */
  lemma PrefixTagFree(t: string, m: nat)
    requires TagFree(t) && m <= |t|
    ensures TagFree(t[..m])
  {
    var p := t[..m];
    forall j | 0 <= j < |p| - 1 && p[j] == '<' && p[j + 1] != '>' ensures '>' !in p[j + 2..] {
      assert '>' !in t[j + 2..];
      assert p[j + 2..] == t[j + 2..][..m - j - 2];
    }
  }

  /** The summary of an article holds no HTML tag: `<[^>]+>` no longer matches anywhere
      after the deletion, nor after the cut to 300 characters. */
  lemma SummaryTagFree(e: Entry)
    ensures Search(HtmlTag, SummaryOf(e)).None?
  {
    var summary := if Strip(e.summary) == [] then Strip(e.description) else Strip(e.summary);
    if summary != [] {
      var t := Sub(HtmlTag, summary);
      SubTagFree(summary);
      PrefixTagFree(t, if SummaryLimit <= |t| then SummaryLimit else |t|);
      TagFreeNoSearch(SummaryOf(e));
    }
  }

  /** A short tag-free summary is kept as it is, stripped; the description then plays no
      part. */
  lemma PlainSummaryKept(e: Entry)
    requires Strip(e.summary) != [] && '<' !in Strip(e.summary) && |Strip(e.summary)| <= SummaryLimit
    ensures SummaryOf(e) == Strip(e.summary)
  {
    NoTagUnchanged(Strip(e.summary));
  }

  /** An empty summary falls back to the description. */
  lemma DescriptionFallback(e: Entry)
    requires Strip(e.summary) == []
    ensures SummaryOf(e) == SummaryOf(e.(summary := e.description))
  {
  }

  // ---------------------------------------------------------------- recency

  /** Undated articles count as recent; dated ones must not precede the cutoff. */
  predicate Keeps(a: Article, cutoff: int) {
    a.published.None? || a.published.value >= cutoff
  }

  /** What `filter_recent_articles` keeps, in order. */
  function Recent(articles: seq<Article>, cutoff: int): seq<Article>
    decreases |articles|
  {
    if articles == [] then []
    else
      var last := articles[|articles| - 1];
      Recent(articles[..|articles| - 1], cutoff) + (if Keeps(last, cutoff) then [last] else [])
  }

  /** The filter keeps an order-preserving selection... */
  lemma {:induction false} RecentSubseq(articles: seq<Article>, cutoff: int)
    ensures Subseq(Recent(articles, cutoff), articles)
    decreases |articles|
  {
    if articles != [] {
      var init := articles[..|articles| - 1];
      var last := articles[|articles| - 1];
      RecentSubseq(init, cutoff);
      assert articles == init + [last];
      if Keeps(last, cutoff) {
        SubseqSnocKeep(Recent(init, cutoff), init, last);
      } else {
        SubseqSnocSkip(Recent(init, cutoff), init, last);
        assert Recent(articles, cutoff) == Recent(init, cutoff) + [];
        assert Recent(init, cutoff) + [] == Recent(init, cutoff);
      }
    }
  }

  /** ...of exactly the undated articles and those not older than the cutoff... */
  lemma {:induction false} RecentMembers(articles: seq<Article>, cutoff: int)
    ensures forall a :: a in Recent(articles, cutoff) <==> a in articles && Keeps(a, cutoff)
    decreases |articles|
  {
    if articles != [] {
      var init := articles[..|articles| - 1];
      RecentMembers(init, cutoff);
      assert articles == init + [articles[|articles| - 1]];
    }
  }

  /** ...each as often as it occurs. */
  lemma {:induction false} RecentCounts(articles: seq<Article>, cutoff: int)
    ensures forall a :: Keeps(a, cutoff) ==>
      multiset(Recent(articles, cutoff))[a] == multiset(articles)[a]
    decreases |articles|
  {
    if articles != [] {
      var init := articles[..|articles| - 1];
      RecentCounts(init, cutoff);
      assert articles == init + [articles[|articles| - 1]];
    }
  }

  function UndatedCount(articles: seq<Article>): nat
    decreases |articles|
  {
    if articles == [] then 0
    else
      var last := if articles[|articles| - 1].published.None? then 1 else 0;
      UndatedCount(articles[..|articles| - 1]) + last
  }

  /** Every undated article is kept, so there are at least as many kept ones. */
  lemma {:induction false} UndatedKept(articles: seq<Article>, cutoff: int)
    ensures UndatedCount(articles) <= |Recent(articles, cutoff)|
    decreases |articles|
  {
    if articles != [] {
      UndatedKept(articles[..|articles| - 1], cutoff);
    }
  }

  /** One more article seen by the loop. */
  lemma RecentStep(articles: seq<Article>, i: nat, cutoff: int)
    requires i < |articles|
    ensures Recent(articles[..i + 1], cutoff)
      == Recent(articles[..i], cutoff) + (if Keeps(articles[i], cutoff) then [articles[i]] else [])
    ensures UndatedCount(articles[..i + 1])
      == UndatedCount(articles[..i]) + (if articles[i].published.None? then 1 else 0)
  {
    assert articles[..i + 1][..i] == articles[..i];
  }

  /** `filter_recent_articles(articles, hours)` at time `now`, in seconds. Besides the
      kept articles it returns the two counters the loop keeps for its log lines. */
  method FilterRecent(articles: seq<Article>, now: int, hours: int)
    returns (filtered: seq<Article>, withoutDates: nat, tooOld: nat)
    ensures filtered == Recent(articles, now - hours * 3600)
    ensures |filtered| + tooOld == |articles|
    ensures withoutDates == UndatedCount(articles) && withoutDates <= |filtered|
  {
    var cutoff := now - hours * 3600;
    filtered := [];
    withoutDates := 0;
    tooOld := 0;
    for i := 0 to |articles|
      invariant filtered == Recent(articles[..i], cutoff)
      invariant withoutDates == UndatedCount(articles[..i])
      invariant |filtered| + tooOld == i
    {
      var article := articles[i];
      RecentStep(articles, i, cutoff);
      if article.published.Some? {
        if article.published.value >= cutoff {
          filtered := filtered + [article];
        } else {
          tooOld := tooOld + 1;
        }
      } else {
        withoutDates := withoutDates + 1;
        filtered := filtered + [article];
      }
    }
    assert articles[..|articles|] == articles;
    UndatedKept(articles, cutoff);
  }
}
