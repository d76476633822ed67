# Tech-news bot: text pipeline, budget, ledger and selection rules

This project models the core of a small bot that turns technology news into posts on a
social network. It covers these parts:

- Feed entries are normalised into articles and filtered by age (`rss_sources.py`).
- Articles whose link is already in the ledger of posted links are skipped.
- For the first new article, a language model's raw reply goes through a fixed pipeline:
  - the sanitizer `clean_tweet` removes quotes, markdown and meta-commentary;
  - `add_line_breaks` puts a paragraph break between sentences;
  - the validator `validate_tweet` rejects telltale AI phrasing and leftover markdown;
  - the length budget `truncate_tweet`, plus the link arithmetic of `generate_tweet`,
    fits the text and the article link within `TWEET_MAX_LENGTH`.
- The result is posted, and on success the link is appended to the ledger (`bot.py`).

Modules, one per component:

| module | file | models |
|---|---|---|
| `Text` | text.dfy | the `str` methods used: `strip`, `lower`, `startswith`, `find`, `rfind`, `split`, `join`, `count`, slicing with Python's negative indices |
| `Regex` | regex.dfy | every regular expression, each as an explicit matcher; `re.sub` and `re.search` over them |
| `Sanitizer` | sanitizer.dfy | `clean_tweet` |
| `Breaks` | breaks.dfy | `add_line_breaks` |
| `Validator` | validator.dfy | `validate_tweet` |
| `Budget` | budget.dfy | `truncate_tweet` and `generate_tweet` from the cleaned reply on |
| `Ledger` | ledger.dfy | `filter_new_links`, the trim of `cleanup_old_links`, and the load/save rules of the ledger file |
| `Articles` | articles.dfy | `normalize_article` and `filter_recent_articles` |
| `Bot` | bot.dfy | `main` of bot.py: article selection and the generate/post/save loop |
| `Options`, `Seqs` | options.dfy, seqs.dfy | `Option` (Python's `None`-or-value) and order-preserving selection |

Conventions of the model:

- Character classes are ASCII:
  - `\s` and `str.isspace` are space, `\t`, `\n`, `\v`, `\f`, `\r` and `\x1c`-`\x1f`;
  - `\w` is `[A-Za-z0-9_]`;
  - `lower()` folds only `A`-`Z`.
- Every pattern the code uses either matches at a position in exactly one way or not at
  all, so `re.sub` is a left-to-right scan with non-overlapping replacements.
- The meta-commentary patterns `^.*?phrase.*?:` are anchored at the start of the whole
  subject (no MULTILINE), and their `.` does not match a newline (no DOTALL). They delete
  up to and including the first `:` after the phrase.
- The "emoji" class of `add_line_breaks` (tweet_generator.py:184) is what it is in the
  file: ten single characters (`ð`, `Ÿ`, `¤`, `¯`, `˜`, soft hyphen, `”`, `‚`, `“`, `‰`).
  These come from UTF-8 emoji bytes read as Windows-1252.
- Time is an integer number of seconds, and `now` is a parameter. An entry's `published`
  is an `Option<int>`.
- `TWEET_MAX_LENGTH` (tweet_generator.py:11) is the parameter `maxLen`.
- `generate_tweet` and `post_tweet` enter the run as oracles indexed by the attempt's
  position. `TweetFor` shows how `generate_tweet` maps a model reply to its result.

Behaviour of the code that the model keeps, including where it is surprising:

- The reply `Okay, here's a tweet: "Android beats iOS again!"` does not yield the quoted
  text:
  - the prefix step first cuts `okay, here's`, the first match in list order
    (tweet_generator.py:220-238);
  - this leaves `a tweet: "Android beats iOS again!"`;
  - quote extraction needs `:"` with no space between (253), so it does not fire;
  - `Sanitizer.PrefixCutMatches` states the prefix step in general.
- The per-line prefix test looks at the stripped, lower-cased line, but the cut is made on
  the line before stripping (273, 287). A line that starts with a space therefore loses
  the space and all but the last character of the prefix. That last character stays,
  so ` so, hi` becomes `, hi`. The exception is the `:` of `tweet:` and
  `here's a tweet:`, which the colon rule then drops (`Sanitizer.LeadingSpaceCut`).
- A failed post does not stop the run. In the loop of `main`, a failed post is simply
  not recorded, and the loop goes on (bot.py:144-148).
- The ledger trim keeps the last 1000 lines. Its `days_to_keep` argument has no effect
  (utils.py:158-180).
- Every link that contains `news.google.com` rejects the article. The `return None` at
  rss_sources.py:183 is unconditional inside that block, so recovered URLs are never used.

## Model

| member | source | states |
|---|---|---|
| `Sanitizer.CleanTweet` | tweet_generator.py:189-331 | the reply goes through the passes of `clean_tweet` in the source's order. The result is `CleanSpec(text)`, which the lemmas below describe |
| `Sanitizer.UnwrapPeels` | tweet_generator.py:194-201 | unwrapping removes exactly one pair of wrapping quotes and nothing else (`[q] + s + [q]` gives `s`, also after a strip); a lone quote becomes empty; a text that changes was wrapped in that quote |
| `Sanitizer.FirstPrefix` | tweet_generator.py:220-238 | the first meta prefix, in list order, that the probe starts with; no earlier one matches; none means no prefix matches |
| `Sanitizer.DropPrefixLoop` | tweet_generator.py:231-238 | the `for prefix ... break` loop cuts only the first matching prefix, then strips and drops one optional `:` |
| `Sanitizer.PrefixCutMatches` | tweet_generator.py:231-238 | on the whole text, the characters cut are exactly the matched prefix, ignoring case |
| `Sanitizer.MetaLoop` | tweet_generator.py:248-249 | the four meta-commentary substitutions are applied in order, each followed by a strip |
| `Sanitizer.MetaFromNoColon` | tweet_generator.py:241-249 | a trimmed text without a `:` passes the meta-commentary patterns unchanged |
| `Sanitizer.MetaFromSlice` | tweet_generator.py:293-301 | the meta-commentary passes only remove text from the start and the ends; the result is a piece of the input |
| `Sanitizer.QuoteFoundAtMatch` | tweet_generator.py:255-257 | `text.find(group(0))` finds the regex match itself, so the commentary is exactly the text before the first quoted span |
| `Sanitizer.QuoteExtractSlice` | tweet_generator.py:253-260 | quote extraction yields a piece of the text; when it changes the text, the text has `:"` or `:'` and the result is the group of the first quoted span `re.search` finds |
| `Sanitizer.CleanLineM` | tweet_generator.py:266-304 | the body of the line loop is the three marker/space substitutions, the per-line prefix loop, the meta passes and a strip |
| `Sanitizer.CleanLinesLoop` | tweet_generator.py:263-308 | the loop emits exactly one cleaned line per input line, empty ones included, in order |
| `Sanitizer.LooseRemovesMarker` | tweet_generator.py:268-269 | after `\s*\*\s*` (or `\s*_\s*`) is replaced by a space, no `*` (or `_`) is left |
| `Sanitizer.LooseKeepsUnmarked` | tweet_generator.py:268-269 | a line without the marker passes that substitution unchanged |
| `Sanitizer.SpacesSingle` | tweet_generator.py:270 | after `\s+` is replaced by a space, all whitespace is single spaces |
| `Sanitizer.SpacesKeepsSingle` | tweet_generator.py:270 | an already single-spaced line passes that substitution unchanged |
| `Sanitizer.SpaceLineTidy` | tweet_generator.py:268-270 | after the three line substitutions, a line has no `*`, no `_`, no tab and no two adjacent whitespace characters |
| `Sanitizer.CleanLineTidy` | tweet_generator.py:266-304 | every cleaned line is tidy and has no whitespace at either end |
| `Sanitizer.LeadingSpaceCut` | tweet_generator.py:273-290 | when the line starts with a space, the cut takes the space and all but the last character of the prefix found; the rest is what follows that last character, stripped, and it starts with that character unless it is a `:` |
| `Sanitizer.LinesKeepNewlines` | tweet_generator.py:263-310 | after the line loop and the join, the text has exactly as many `\n` as before |
| `Sanitizer.CleanedLinesTidy` | tweet_generator.py:263-310 | the joined lines have no marker, no tab, no double space, and no space next to a newline |
| `Sanitizer.CleanTailSlice` | tweet_generator.py:312-331 | the final cleanup only cuts a piece out of the joined text |
| `Sanitizer.CleanSpecTidy` | tweet_generator.py:189-331 | the output of `clean_tweet` has no `*` and no `_`, no tab, no two adjacent spaces, no space next to a newline, and no whitespace at either end |
| `Breaks.AddLineBreaks` | tweet_generator.py:173-186 | `add_line_breaks` only rewrites whitespace: the input and output are equal once all whitespace is deleted from both |
| `Breaks.SentenceBreak` | tweet_generator.py:180 | a `.`, `!` or `?` followed by whitespace and a capital is followed by exactly `\n\n` and that capital in the output; the text around it keeps its non-whitespace characters |
| `Breaks.TokenBreak` | tweet_generator.py:184 | with an emoji-class character or a `#hashtag` between, the output reads `P tag\n\nX` |
| `Breaks.NoBreakIsStrip` | tweet_generator.py:180-186 | when neither substitution writes a newline, `add_line_breaks` is only a strip |
| `Validator.ForbiddenRejected` | utils.py:72-91 | a text whose lower-cased form contains any of the twelve forbidden phrases is rejected |
| `Validator.NoMarkersNoMarkdown` | utils.py:93-100 | a text without `*` and `_` passes the four markdown searches |
| `Validator.MarkerPairMatches` | utils.py:95-100 | two equal markers with at least one other character between them, and none of that marker inside, match `\*[^*]+\*` (or `_[^_]+_`) |
| `Validator.MarkerPairRejected` | utils.py:95-100 | such a pair rejects the text, so `snake_case_name` is rejected |
| `Validator.StarterOpens` | utils.py:112-116 | each of the six starters, `let me` included, that begins the stripped lower text also begins the first three words joined |
| `Validator.LetMeOpens` | utils.py:108-116 | when the stripped lower text opens with `let me`, the first three words joined by single spaces open with `let me` too, whatever whitespace separated them |
| `Validator.HeresRejected` | utils.py:103-119 | every text opening with `here's`, in any case, is rejected |
| `Validator.StarterThenWordRejected` | utils.py:103-119 | any of the six starters, `let me` included, followed within the first three words by a word containing `tweet`, `here`, `tell` or `think` rejects the text, so "So, there we go" and "Let me tell you" are rejected |
| `Validator.PlainAccepted` | utils.py:68-121 | a text with no forbidden phrase, no `*` and no `_`, and no opener word among its first three words is accepted by `is_valid_tweet` |
| `Validator.CleanedHasNoMarkdown` | utils.py:93-100 | the output of `clean_tweet` never fails the markdown checks |
| `Budget.Truncate` | utils.py:45-65 | `truncate_tweet` returns the text unchanged when it fits |
| `Budget.TruncateFits` | utils.py:51-65 | for `max_length >= 3`, the result has at most `max_length` characters and is a prefix of the text, possibly followed by `...` |
| `Budget.TruncateAtLine` | utils.py:51-58 | with the last newline of `text[:max_length-3]` at `i` and `2i > max_length`, the result is `text[:i]` right-stripped, without `...` |
| `Budget.TruncateAtSpace` | utils.py:59-65 | otherwise, with the last space at `k` and `5k > 4*max_length`, the result is `text[:k] + "..."` |
| `Budget.TruncateHard` | utils.py:59-65 | with neither, the result is `text[:max_length-3] + "..."` |
| `Budget.LinkReserve` | tweet_generator.py:115-122 | the link reserve is 23 when `TWEET_MAX_LENGTH <= 280`, else `min(len(link), 100)` |
| `Budget.RestoreBreaks` | tweet_generator.py:127-129 | line breaks are re-added only to a tweet with no newline and more than 50 characters |
| `Budget.AppendLink` | tweet_generator.py:115-148 | the body is truncated to `TWEET_MAX_LENGTH - reserve - 1` and joined to the link with a space; if that overflows, exactly one second pass re-truncates to `TWEET_MAX_LENGTH - len(link) - 1` |
| `Budget.Fit` | tweet_generator.py:112-157 | the link branch and the no-link branch of the budget; an empty result is `None` |
| `Budget.GenerateTweet` | tweet_generator.py:99-157 | `clean_tweet`, then `add_line_breaks` if there is no newline, then validation, then the budget |
| `Budget.LinkAppended` | tweet_generator.py:131-148 | with a non-empty link the budget always yields a tweet (never `None`), and it ends with a space and the link |
| `Budget.LinkedResult` | tweet_generator.py:99-148 | with a link, `generate_tweet` yields a tweet exactly when the prepared reply passes validation |
| `Budget.UnlinkedUnchanged` | tweet_generator.py:149-157 | without a link, a fitting tweet that has a newline or at most 50 characters is returned unchanged; an empty one gives `None` |
| `Budget.RebreakNoLonger` | tweet_generator.py:127-129 | re-adding breaks does not lengthen a tweet that already has a newline, has at most 50 characters, or gets no newline from the two substitutions |
| `Budget.LinkedFits` | tweet_generator.py:133-146 | the result fits `TWEET_MAX_LENGTH` when the first body fits, or when the second-pass budget is at least 3 and its cut has a newline, has at most 50 characters, or gets no newline from the substitutions |
| `Budget.UnlinkedFits` | tweet_generator.py:151-155 | without a link, the result fits for a limit of at least 3 when the cut has a newline, has at most 50 characters, or gets no newline from the substitutions |
| `Ledger.FilterNewLinks` | utils.py:40-42 | the links not in `posted_links`, in order and with their repeats: a sub-sequence with exactly those members and multiplicities |
| `Ledger.TrimLines` | utils.py:166-180 | more than 1000 lines: the last 1000 are kept, and `n - 1000` is reported; otherwise nothing changes and 0 is reported |
| `Ledger.TrimIdempotent` | utils.py:169-180 | a second trim removes nothing, whatever `days_to_keep` is |
| `Ledger.LoadAfterSave` | utils.py:14-37 | after a link is saved as a line, the next load adds exactly its stripped form, if non-blank |
| `Ledger.TrimmedLoaded` | utils.py:169-180 | a line kept by the trim is still loaded as posted |
| `Ledger.LinkLedger.Cleanup` | utils.py:146-180 | `cleanup_old_links` rewrites the file with what the trim keeps: at most 1000 lines, with the removed count plus the kept count equal to the old count |
| `Ledger.LinkLedger.Save` | utils.py:29-37 | `save_posted_link` appends one line; the loaded set grows by the stripped link only |
| `Articles.SummaryOf` | rss_sources.py:84-93 | the summary is at most 300 characters |
| `Articles.Normalize` | rss_sources.py:79-218 | an entry is kept exactly when its stripped title and link are non-blank, the link has no `news.google.com`, and an http link is not domain-only (so `https://a.com/x` is kept); a returned article has a non-empty title and link, `source == source_name` and the entry's date |
| `Articles.BlankRejected` | rss_sources.py:95-96 | a blank stripped title or link gives `None` |
| `Articles.GoogleNewsRejected` | rss_sources.py:106-183 | every link containing `news.google.com` gives `None` |
| `Articles.KeptFields` | rss_sources.py:212-218 | a returned article holds the stripped title and link, the summary rule's result, the source name and the date |
| `Articles.NonHttpUnchecked` | rss_sources.py:204-210 | a link not starting with `http` skips the domain-only check |
| `Articles.DomainOnlySlashes` | rss_sources.py:204-210 | the split rule rejects exactly links with at most two `/`, or three with the last at the end (`https://a.com`, `https://a.com/`); `https://a.com/x` passes |
| `Articles.NoTagUnchanged` | rss_sources.py:92 | a summary without `<` is not changed by tag removal |
| `Articles.TagDeleted` | rss_sources.py:92 | a tag `<...>` at the front is deleted |
| `Articles.SubTagFree` | rss_sources.py:92 | after `re.sub(r'<[^>]+>', '', s)`, no `<` followed by a non-`>` character has a `>` after it |
| `Articles.SummaryTagFree` | rss_sources.py:84-93 | the summary kept for an article has no match of the tag pattern left |
| `Articles.PlainSummaryKept` | rss_sources.py:84-93 | a short, tag-free summary is kept stripped, and the description is ignored |
| `Articles.DescriptionFallback` | rss_sources.py:86-88 | an empty summary falls back to the description |
| `Articles.RecentSubseq` | rss_sources.py:247-273 | the filtered list is an order-preserving sub-list of the input |
| `Articles.RecentMembers` | rss_sources.py:251-266 | an article is kept iff it is undated or `published >= now - hours` |
| `Articles.RecentCounts` | rss_sources.py:251-266 | each kept article is kept as often as it occurs |
| `Articles.UndatedKept` | rss_sources.py:263-266 | every undated article is kept |
| `Articles.FilterRecent` | rss_sources.py:241-273 | the loop returns that sub-list; `len(filtered) + articles_too_old == len(articles)`; `articles_without_dates <= len(filtered)` |
| `Bot.AttemptSaves` | bot.py:124-148 | one more iteration appends the article's link to the saved links exactly when a non-empty tweet was made and `post_tweet` returned True; otherwise the saved links are unchanged |
| `Bot.ListedIsUnposted` | bot.py:93-102 | filtering the links, then keeping articles whose link survived, keeps exactly the articles whose link is not posted |
| `Bot.SelectedAreFirstUnposted` | bot.py:92-111 | the articles of the run are the first `TWEETS_PER_RUN` unposted ones, in fetch order |
| `Bot.UnpostedSelects` | bot.py:99-102 | the unposted articles are an order-preserving sub-list holding exactly the articles with new links |
| `Bot.SelectedAreNew` | bot.py:93-111 | no selected article has a posted link, at most `TWEETS_PER_RUN` (= 1) are selected, and they are in fetch order |
| `Bot.FirstNewSelected` | bot.py:99-111 | the first article with a new link is the one selected |
| `Bot.NothingNewNothingSelected` | bot.py:106-108 | when every fetched link is posted, nothing is selected |
| `Bot.TweetCarriesLink` | bot.py:124-129 | the tweet made for an article ends with its link, and one is made iff the prepared reply is valid |
| `Bot.SavedSnoc` | bot.py:139-148 | a posted attempt appends its link to the saved links; a failed or skipped one appends nothing |
| `Bot.SavedArePosted` | bot.py:115-143 | the number of saved links equals the number of posted attempts and is at most the number of attempts |
| `Bot.SavedAreTried` | bot.py:139-143 | every saved link is the link of a posted attempt of the run |
| `Bot.TryArticle` | bot.py:124-143 | one iteration performed: its outcome is `AttemptAt`, and the ledger gains the article's link exactly when the post succeeded |
| `Bot.Run` | bot.py:81-155 | empty fetch: nothing happens. Otherwise the ledger is trimmed, then loaded. The attempts are exactly the iterations over the selected articles. The ledger ends as the trimmed lines plus the saved links. `posted_count` is the number of saves |
| `Text.SplitJoin` | tweet_generator.py:263-310 | joining the pieces of `split("\n")` with `"\n"` gives back the text |
| `Text.SplitCount` | tweet_generator.py:263 | `split` yields one piece more than there are separators |
| `Text.Find` | tweet_generator.py:257 | a non-negative result of `find` is an index where the searched text occurs |
| `Text.FindFirst` | tweet_generator.py:257 | `find` gives the first occurrence, and -1 only when there is none |
| `Text.RFind` | utils.py:52-61 | `rfind` gives the last occurrence, or -1 |
| `Regex.Search` | tweet_generator.py:255 | `re.search` gives the leftmost position where the pattern matches |
| `Regex.MetaSub` | tweet_generator.py:248-249 | the anchored meta pattern deletes a prefix of the text, and nothing else |
| `Regex.ColonEndFirst` | tweet_generator.py:248-249 | `[^:\n]*:` ends at the first `:` of the line, or fails exactly when no `:` precedes the next newline |
| `Regex.MetaSubChanges` | tweet_generator.py:241-249 | the meta substitution changes the text exactly when a phrase occurs on the first line with a `:` after it on that line |
| `Regex.MetaSubCut` | tweet_generator.py:241-249 | at the first such phrase, everything up to and including the first `:` after it is removed |

## Left out

- The language-model HTTP call, the prompt texts, JSON decoding and the exception
  handlers of `generate_tweet` (tweet_generator.py:1-98, 159-170). The model's reply is an
  input.
- x_client.py, the posting client with its OAuth, retry and rate-limit handling. Its
  `post_tweet` is an oracle `(nat, string) -> bool`.
- `check_ollama_connection` and `check_ollama_model`. The file I/O of
  `load_posted_links`, `save_posted_link` and `cleanup_old_links`, including a missing
  file and I/O errors. The ledger file is the field `lines` of `Ledger.LinkLedger`.
- `fetch_rss_feed`, `fetch_all_feeds` (feed parsing, shuffling) and `parse_date`, with the
  time-zone handling of dates. A date is an optional integer.
- The Google News URL recovery, methods 1-4 (rss_sources.py:112-177). Their outcome never
  matters, because of the unconditional `return None` at line 183.
- The domain-only check at rss_sources.py:100-103, which only logs.
- The `except Exception` of `normalize_article`. Entry fields are typed strings.
- Logging, `sys.exit`, `.env` loading, environment configuration, and the 60-second sleep
  between posts. `TWEETS_PER_RUN` is the constant 1, and `TWEET_MAX_LENGTH` is a parameter.
- Unicode semantics of `lower()`, `\s` and `\w`: all three are ASCII-only here.
- Sanitizer: idempotence of `clean_tweet` is not stated. The per-line prefix cut can keep
  a character of the prefix, so a second cleaning can change the text again.
- Budget.LinkedFits: the fit is not claimed in two cases, both reached only when the
  second pass runs. First, its cut has no newline and more than 50 characters, and
  `add_line_breaks` inserts a break: each break turns one space into two newlines, and
  nothing checks the length again. Second, the link is longer than `TWEET_MAX_LENGTH - 4`,
  so the second-pass budget is under 3: `text[:max_length-3]` then slices from the end and
  keeps nearly the whole body (utils.py:51), and the tweet overflows.
- Budget.UnlinkedFits: the fit is not claimed for a limit under 3, where the same negative
  slice applies, nor for a cut of more than 50 characters on one line that gets a break.
