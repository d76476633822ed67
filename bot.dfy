/** One run of the bot (bot.py:81-155): articles in fetch order are filtered against the
    ledger, the first `TweetsPerRun` new ones get a tweet, and a link is saved for every
    tweet that was posted. `generate_tweet` and `post_tweet` are oracles indexed by the
    position of the attempt in the run; `TweetFor` says what `generate_tweet` makes of the
    language model's reply. */
module Bot {
  import opened Options
  import opened Seqs
  import opened Articles
  import Ledger
  import Budget
  import Validator

  const TweetsPerRun: nat := 1

  /** `cleanup_old_links()` is called with its default age. */
  const DaysToKeep: int := 30

  /** What one article of the run led to. */
  datatype Attempt = Attempt(article: Article, tweet: Option<string>, posted: bool)

  function Links(articles: seq<Article>): seq<string> {
    seq(|articles|, i requires 0 <= i < |articles| => articles[i].link)
  }

  /** `[article for article in articles if article["link"] in new_articles]` */
  function WithListedLink(articles: seq<Article>, newLinks: seq<string>): seq<Article>
  {
    if articles == [] then []
    else
      var rest := WithListedLink(articles[1..], newLinks);
      if articles[0].link in newLinks then [articles[0]] + rest else rest
  }

  /** The articles whose link is not posted yet, in fetch order. */
  function Unposted(articles: seq<Article>, posted: set<string>): seq<Article>
  {
    if articles == [] then []
    else
      var rest := Unposted(articles[1..], posted);
      if articles[0].link !in posted then [articles[0]] + rest else rest
  }

  /** `articles_to_post`, cut to `TweetsPerRun`. */
  function Selected(articles: seq<Article>, posted: set<string>): seq<Article> {
    var toPost := WithListedLink(articles, Ledger.FilterNewLinks(Links(articles), posted));
    if |toPost| <= TweetsPerRun then toPost else toPost[..TweetsPerRun]
  }

  /** The tweet `generate_tweet` makes for the `i`-th article of the run from the language
      model's reply to its prompt; no reply means none. */
  function TweetFor(i: nat, a: Article, reply: (nat, Article) -> Option<string>, maxLen: int)
    : Option<string>
  {
    match reply(i, a)
    case None => None
    case Some(text) => Budget.Generate(text, a.link, maxLen)
  }

  /** The `i`-th iteration of the loop given what `generate_tweet` returned: an empty or
      missing tweet is skipped, otherwise it is posted and the outcome recorded. */
  function AttemptAt(i: nat, a: Article, generate: (nat, Article) -> Option<string>,
                     post: (nat, string) -> bool): Attempt
  {
    var tweet := generate(i, a);
    Attempt(a, tweet, tweet.Some? && tweet.value != [] && post(i, tweet.value))
  }

  /** The links saved to the ledger, in order. */
  function SavedLinks(attempts: seq<Attempt>): seq<string>
    decreases |attempts|
  {
    if attempts == [] then []
    else
      var last := attempts[|attempts| - 1];
      SavedLinks(attempts[..|attempts| - 1]) + (if last.posted then [last.article.link] else [])
  }

  /** `main` after the pre-flight checks, for the fetched `articles`. */
  method Run(articles: seq<Article>, ledger: Ledger.LinkLedger,
             generate: (nat, Article) -> Option<string>, post: (nat, string) -> bool)
    returns (attempts: seq<Attempt>, postedCount: nat)
    modifies ledger
    ensures articles == [] ==> attempts == [] && postedCount == 0 && ledger.lines == old(ledger.lines)
    ensures articles != [] ==>
      var kept := Ledger.TrimLines(old(ledger.lines), DaysToKeep).kept;
      var toPost := Selected(articles, Ledger.LoadedLinks(kept));
      && |attempts| == |toPost|
      && (forall i :: 0 <= i < |toPost| ==> attempts[i] == AttemptAt(i, toPost[i], generate, post))
      && ledger.lines == kept + SavedLinks(attempts)
    ensures postedCount == |SavedLinks(attempts)|
  {
    attempts := [];
    postedCount := 0;
    if articles == [] {
      return;
    }
    var removed := ledger.Cleanup(DaysToKeep);
    ghost var kept := ledger.lines;
    var postedLinks := ledger.Posted();
    var newArticles := Ledger.FilterNewLinks(Links(articles), postedLinks);
    var toPost := WithListedLink(articles, newArticles);
    if toPost == [] {
      return;
    }
    if |toPost| > TweetsPerRun {
      toPost := toPost[..TweetsPerRun];
    }
    for i := 0 to |toPost|
      invariant |attempts| == i
      invariant forall k :: 0 <= k < i ==> attempts[k] == AttemptAt(k, toPost[k], generate, post)
      invariant ledger.lines == kept + SavedLinks(attempts)
      invariant postedCount == |SavedLinks(attempts)|
    {
      var attempt := TryArticle(i, toPost[i], ledger, generate, post);
      if attempt.posted {
        postedCount := postedCount + 1;
      }
      SavedSnoc(attempts, attempt);
      attempts := attempts + [attempt];
    }
  }

  /** One iteration of the loop: generate a tweet for the article, post it when there is
      one, and save the link when the post succeeded. */
  method TryArticle(i: nat, article: Article, ledger: Ledger.LinkLedger,
                    generate: (nat, Article) -> Option<string>, post: (nat, string) -> bool)
    returns (attempt: Attempt)
    modifies ledger
    ensures attempt == AttemptAt(i, article, generate, post)
    ensures ledger.lines == old(ledger.lines) + (if attempt.posted then [article.link] else [])
  {
    var tweet := generate(i, article);
    attempt := Attempt(article, tweet, false);
    if tweet.Some? && tweet.value != [] {
      if post(i, tweet.value) {
        ledger.Save(article.link);
        attempt := attempt.(posted := true);
      }
    }
  }

  // ---------------------------------------------------------------- selection

  /** Filtering the links and then keeping the articles whose link survived is the same as
      keeping the articles whose link is not posted. */
  lemma {:induction false} ListedIsUnposted(articles: seq<Article>, all: seq<string>, posted: set<string>)
    requires forall i :: 0 <= i < |articles| ==> articles[i].link in all
    ensures WithListedLink(articles, Ledger.FilterNewLinks(all, posted)) == Unposted(articles, posted)
    decreases |articles|
  {
    if articles != [] {
      ListedIsUnposted(articles[1..], all, posted);
    }
  }

  /** The articles of the run are the first `TweetsPerRun` ones in fetch order whose link
      is not posted yet. */
  lemma SelectedAreFirstUnposted(articles: seq<Article>, posted: set<string>)
    ensures var u := Unposted(articles, posted);
      Selected(articles, posted) == if |u| <= TweetsPerRun then u else u[..TweetsPerRun]
  {
    var links := Links(articles);
    assert forall i :: 0 <= i < |articles| ==> links[i] == articles[i].link;
    ListedIsUnposted(articles, links, posted);
  }

  /** The unposted articles keep their order, and hold every article with a new link. */
  lemma {:induction false} UnpostedSelects(articles: seq<Article>, posted: set<string>)
    ensures Subseq(Unposted(articles, posted), articles)
    ensures forall a :: a in Unposted(articles, posted) <==> a in articles && a.link !in posted
    decreases |articles|
  {
    if articles != [] {
      var rest := Unposted(articles[1..], posted);
      UnpostedSelects(articles[1..], posted);
      assert articles == [articles[0]] + articles[1..];
      if articles[0].link !in posted {
        SubseqKeep(rest, articles[0], articles[1..]);
      } else {
        SubseqSkip(rest, articles[0], articles[1..]);
      }
    }
  }

  /** No article whose link is already posted is selected, and at most `TweetsPerRun` are. */
  lemma SelectedAreNew(articles: seq<Article>, posted: set<string>)
    ensures |Selected(articles, posted)| <= TweetsPerRun
    ensures forall a :: a in Selected(articles, posted) ==> a in articles && a.link !in posted
    ensures Subseq(Selected(articles, posted), articles)
  {
    SelectedAreFirstUnposted(articles, posted);
    UnpostedSelects(articles, posted);
    var u := Unposted(articles, posted);
    if |u| > TweetsPerRun {
      SubseqPrefix(u, TweetsPerRun, articles);
      forall a | a in u[..TweetsPerRun] ensures a in u {
      }
    }
  }

  /** If some fetched article is new, one is selected: the first new one. */
  lemma FirstNewSelected(articles: seq<Article>, posted: set<string>, j: nat)
    requires j < |articles| && articles[j].link !in posted
    requires forall k :: 0 <= k < j ==> articles[k].link in posted
    ensures Selected(articles, posted) == [articles[j]]
  {
    SelectedAreFirstUnposted(articles, posted);
    UnpostedFrom(articles, posted, j);
  }

  /** Skipping the posted ones before the first new article. */
  lemma {:induction false} UnpostedFrom(articles: seq<Article>, posted: set<string>, j: nat)
    requires j < |articles| && articles[j].link !in posted
    requires forall k :: 0 <= k < j ==> articles[k].link in posted
    ensures Unposted(articles, posted) != [] && Unposted(articles, posted)[0] == articles[j]
    decreases j
  {
    if j > 0 {
      UnpostedFrom(articles[1..], posted, j - 1);
    }
  }

  /** When every fetched link is posted, nothing is selected. */
  lemma NothingNewNothingSelected(articles: seq<Article>, posted: set<string>)
    requires forall a :: a in articles ==> a.link in posted
    ensures Selected(articles, posted) == []
  {
    SelectedAreFirstUnposted(articles, posted);
    AllPostedNoneUnposted(articles, posted);
  }

  lemma {:induction false} AllPostedNoneUnposted(articles: seq<Article>, posted: set<string>)
    requires forall a :: a in articles ==> a.link in posted
    ensures Unposted(articles, posted) == []
    decreases |articles|
  {
    if articles != [] {
      assert articles[0] in articles;
      forall a | a in articles[1..] ensures a.link in posted {
        assert a in articles;
      }
      AllPostedNoneUnposted(articles[1..], posted);
    }
  }

  // ---------------------------------------------------------------- posting

  /** A tweet made for an article with a link ends with that link, and one is made
      whenever the model replies with text that passes validation. */
  lemma TweetCarriesLink(i: nat, a: Article, reply: (nat, Article) -> Option<string>, maxLen: int)
    requires a.link != [] && reply(i, a).Some?
    ensures TweetFor(i, a, reply, maxLen).Some? <==> Validator.IsValid(Budget.Prepared(reply(i, a).value))
    ensures TweetFor(i, a, reply, maxLen).Some? ==>
      var t := TweetFor(i, a, reply, maxLen).value;
      |t| > |a.link| && t[|t| - |a.link| - 1..] == " " + a.link
  {
    Budget.LinkedResult(reply(i, a).value, a.link, maxLen);
  }

  /** Every article that comes out of normalisation has a link. */
  lemma NormalizedHasLink(e: Entry, sourceName: string)
    requires Normalize(e, sourceName).Some?
    ensures Normalize(e, sourceName).value.link != []
  {
  }

  /** A link is saved exactly for each attempt that was posted, so the count of saves is
      the count of posts and never more than the articles tried. */
  lemma {:induction false} SavedArePosted(attempts: seq<Attempt>)
    ensures |SavedLinks(attempts)| == |set i | 0 <= i < |attempts| && attempts[i].posted|
    ensures |SavedLinks(attempts)| <= |attempts|
    decreases |attempts|
  {
    if attempts != [] {
      var n := |attempts| - 1;
      var init := attempts[..n];
      SavedArePosted(init);
      var before := set i | 0 <= i < n && init[i].posted;
      var now := set i | 0 <= i < |attempts| && attempts[i].posted;
      assert now == before + (if attempts[n].posted then {n} else {}) by {
        forall i | 0 <= i < n ensures i in now <==> i in before {
          assert init[i] == attempts[i];
        }
      }
    }
  }

  /** Every saved link belongs to an article of the run and is in the order of the run. */
  lemma {:induction false} SavedAreTried(attempts: seq<Attempt>)
    ensures |SavedLinks(attempts)| <= |attempts|
    ensures forall l :: l in SavedLinks(attempts) ==> exists i :: 0 <= i < |attempts| && attempts[i].posted && attempts[i].article.link == l
    decreases |attempts|
  {
    if attempts != [] {
      var n := |attempts| - 1;
      SavedAreTried(attempts[..n]);
      forall l | l in SavedLinks(attempts)
        ensures exists i :: 0 <= i < |attempts| && attempts[i].posted && attempts[i].article.link == l
      {
        if l in SavedLinks(attempts[..n]) {
          var i :| 0 <= i < n && attempts[..n][i].posted && attempts[..n][i].article.link == l;
          assert attempts[i] == attempts[..n][i];
        } else {
          assert attempts[n].posted && attempts[n].article.link == l;
        }
      }
    }
  }

  /** A posted attempt saves its link at the end; one without a tweet, or whose post
      failed, saves nothing, and the loop goes on. */
  lemma SavedSnoc(attempts: seq<Attempt>, x: Attempt)
    ensures SavedLinks(attempts + [x]) == SavedLinks(attempts) + (if x.posted then [x.article.link] else [])
  {
    assert (attempts + [x])[..|attempts|] == attempts;
  }

  /** One iteration saves the article's link exactly when `generate_tweet` gave a non-empty
      tweet and `post_tweet` accepted it; otherwise the saved links are unchanged. */
  lemma AttemptSaves(attempts: seq<Attempt>, i: nat, a: Article,
                     generate: (nat, Article) -> Option<string>, post: (nat, string) -> bool)
    ensures var t := generate(i, a);
      SavedLinks(attempts + [AttemptAt(i, a, generate, post)])
        == SavedLinks(attempts) + (if t.Some? && t.value != [] && post(i, t.value) then [a.link] else [])
  {
    SavedSnoc(attempts, AttemptAt(i, a, generate, post));
  }
}
