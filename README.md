# TechieTweeter daily news job, modelled in Dafny

`daily_tech_news.py` is a daily job: it fetches technology headlines from a
news API (retrying up to three times), packs several of them into one post
under the platform's 280-character limit, and publishes the post (again
retrying up to three times), logging every failure.

This project models the deterministic part of that job on ASCII
text (see "Left out" for other characters) and the network part abstractly:

- `Truncation` — `truncate_text`: cut at the last space within the budget
  and append `...`, or hard-cut when there is no space.
- `Hashtags` — `extract_hashtags`: the `\w+` words of the lower-cased text,
  minus the eleven stopwords, turned into `#Capitalized` tags, deduplicated in
  first-seen order, cut off by the `max_tags` check after each word, joined by
  single spaces. The method keeps the source's loop with its `break`.
- `Emoji` — `EMOJI_MAP` as an ordered table (insertion order decides which
  keyword wins) and the first-match scan with the newspaper as default; emoji
  made of several code points are written out code point by code point.
- `Post` — `format_post`: the header, then one numbered line per article
  (`{i}` + keycap, emoji, snippet, link emoji, URL, hashtags), stopping at the
  first line that would push the post past 280 characters, then `strip()`.
  Article keys are `Absent | Null | Present(s)`: `.get(key, default)` uses the
  default only for a missing key, and a `null` value prints as `None`.
- `Retry`, `News`, `Publisher` — the retry loops of `fetch_tech_news` and
  `post_to_x`. Each attempt's outcome is an input; the log lines (without
  timestamps) and the pauses are recorded in ghost out-parameters.
- `DailyJob` — the `__main__` block: fetch, skip when nothing came back,
  otherwise format and publish.
- `Strings` — the Python built-ins these rely on (`lower`, `capitalize`,
  `strip`, `rfind`, `in`, `" ".join`, `str(int)`), and `Wrappers` for `Option`.

Strings are sequences of Unicode code points, as Python's `len` counts them.

The code packs several articles into one post, maps each keyword to one
emoji, posts text only, and stops adding lines once the next one would take
the post past 280 characters. `truncate_text` is not idempotent:
`Truncation.NotIdempotent` shows `"ab cd efgh"` with limit 4 becoming
`"ab..."` and then `"ab....."`.
The source's comment calls the pause "exponential backoff"; the code's pause
after attempt `a` is `5 * (a + 1)` seconds, which is what is modelled.

## Model

| member | source | states |
|---|---|---|
| Strings.LowerChar | daily_tech_news.py:83 | an upper-case letter becomes the lower-case letter at the same place in the alphabet; every other character is kept |
| Strings.UpperChar | daily_tech_news.py:88 | a lower-case letter becomes the upper-case letter at the same place in the alphabet; every other character is kept |
| Strings.IsWordChar | daily_tech_news.py:83 | `\w` on ASCII: a letter, a digit or the underscore |
| Strings.IsSpace | daily_tech_news.py:120 | `str.isspace()`, the characters `strip()` removes: the ASCII controls 9-13 and 28-31, the space, and the Unicode white-space code points |
| Strings.Lower | daily_tech_news.py:83 | `str.lower()`: same length, each character lower-cased on its own by `LowerChar` |
| Strings.LowerSpec | daily_tech_news.py:83 | after `lower()` no upper-case letter is left, word characters stay where they were, each upper-case letter becomes its lower-case partner, every other character is kept, and text without upper-case letters comes back unchanged |
| Strings.Capitalize | daily_tech_news.py:88 | `str.capitalize()`: same length, first character not lower-case, the rest not upper-case |
| Strings.CapitalizeLower | daily_tech_news.py:88 | a capitalized word lower-cases to the same text as the word itself |
| Strings.RFind | daily_tech_news.py:77 | `str.rfind(' ')`: -1 or an index holding the character, with no occurrence after it |
| Strings.Contains | daily_tech_news.py:108 | `key in s`: `key` is a prefix of `s` or occurs in `s` after its first character |
| Strings.ContainsAt | daily_tech_news.py:108 | `key in s` holds when `key` sits at some index of `s` |
| Strings.ContainsWitness | daily_tech_news.py:108 | `key in s` gives an index where `key` sits in `s` |
| Strings.Strip | daily_tech_news.py:120 | `str.strip()`: no longer than its input; the result neither starts nor ends with white space |
| Strings.LeadingSpaces | daily_tech_news.py:120 | the white space `strip()` removes at the front is the maximal run of white-space characters the text starts with |
| Strings.TrailingStart | daily_tech_news.py:120 | the white space `strip()` removes at the back is the maximal run of white-space characters the text ends with |
| Strings.StripInfix | daily_tech_news.py:120 | `str.strip()` keeps a contiguous piece of its input and drops only white space at either end |
| Strings.NatToDecimal | daily_tech_news.py:115 | `str(i)`: non-empty digits denoting `i`, with no leading zero (so `0` prints as the single digit `"0"`) |
| Strings.JoinSpaces | daily_tech_news.py:93 | `" ".join(parts)`: the parts in order with one space between neighbours, `""` for no part |
| Strings.SplitSingle | daily_tech_news.py:93 | a part without a space joins and splits to itself alone |
| Strings.SplitLast | daily_tech_news.py:93 | splitting a text that ends in a space and a space-free part gives the split of what precedes the space, then that part |
| Strings.SplitJoin | daily_tech_news.py:93 | `" ".join` is undone by splitting on single spaces when no part holds a space |
| Truncation.CutPoint | daily_tech_news.py:76-80 | the cut index is the last space within the first `max_length` characters, or `max_length` when there is none |
| Truncation.TruncateText | daily_tech_news.py:73-80 | a text that fits is returned unchanged; a longer one becomes its prefix up to the cut point plus `...`; the result is at most `max_length + 3` long |
| Truncation.CutOnWordBoundary | daily_tech_news.py:76-80 | when a space exists within the budget, the kept prefix is followed by a space and no later space inside the budget is dropped |
| Truncation.NotIdempotent | daily_tech_news.py:73-80 | truncating `"ab cd efgh"` to 4 gives `"ab..."`, and truncating that again gives `"ab....."` |
| Hashtags.LeadingWordLength | daily_tech_news.py:83 | the run of `\w` characters a text starts with is maximal |
| Hashtags.Words | daily_tech_news.py:83 | `re.findall(r'\b\w+\b', ...)` yields non-empty runs of word characters, without upper-case letters when the text has none |
| Hashtags.WordsCoverWordChars | daily_tech_news.py:83 | the words, concatenated, are exactly the word characters of the text, in order |
| Hashtags.WordsOfWord | daily_tech_news.py:83 | a text that is one run of word characters is one word |
| Hashtags.WordsSplit | daily_tech_news.py:83 | the words of a text are the words before any non-word character followed by the words after it; with `WordsOfWord` this makes every word a maximal run of word characters |
| Hashtags.RunAcrossBreak | daily_tech_news.py:83 | a word that ends before a non-word character is the same word in the longer text |
| Hashtags.Keywords | daily_tech_news.py:84-85 | the comprehension keeps exactly the words that are not stopwords |
| Hashtags.Stopwords | daily_tech_news.py:84 | the eleven stopwords |
| Hashtags.QualifyingWords | daily_tech_news.py:83-85 | the keywords: the words of the lower-cased text that are not stopwords, each a non-empty `\w` run without upper-case letters |
| Hashtags.KeywordsAppend | daily_tech_news.py:85 | filtering a concatenation filters each part and concatenates the results |
| Hashtags.KeywordsFilter | daily_tech_news.py:85 | one more word adds itself at the end of the kept words unless it is a stopword, so order and repeats are kept |
| Hashtags.Tag | daily_tech_news.py:88 | `f"#{w.capitalize()}"`: `#` followed by the capitalized word |
| Hashtags.Tags | daily_tech_news.py:88 | the tag of each keyword, in order, one per keyword |
| Hashtags.DedupTagsInjective | daily_tech_news.py:88-90 | when no two words share a tag, deduplicating the tags is tagging the deduplicated words |
| Hashtags.Dedup | daily_tech_news.py:86-90 | the list built by appending each element that is not yet in it |
| Hashtags.TagShape | daily_tech_news.py:88 | a tag is `#` plus the capitalized word, one character longer, and lower-cases back to the word |
| Hashtags.TagInjective | daily_tech_news.py:88-89 | two lower-case words get the same tag only if they are equal, so the `not in` check deduplicates words |
| Hashtags.DedupElements | daily_tech_news.py:89-90 | first-seen deduplication keeps every element once and adds none |
| Hashtags.DedupOrder | daily_tech_news.py:89-90 | first-seen deduplication lists elements in the order of their first occurrence |
| Hashtags.DedupPrefix | daily_tech_news.py:87-92 | deduplicating a prefix gives a prefix of the deduplicated whole |
| Hashtags.DedupTags | daily_tech_news.py:88-90 | deduplicating the tags equals tagging the deduplicated words |
| Hashtags.TagBudget | daily_tech_news.py:91-92 | the loop collects at least one tag and at least `max_tags` before stopping |
| Hashtags.Selection | daily_tech_news.py:86-92 | the first `TagBudget(max_tags)` distinct tags in first-seen order, or all of them when there are fewer |
| Hashtags.SelectedTags | daily_tech_news.py:83-92 | `Selection` applied to the tags of the non-stopword words of the lower-cased text |
| Hashtags.HashtagString | daily_tech_news.py:93 | the selected tags joined by single spaces |
| Hashtags.DedupStep | daily_tech_news.py:89-90 | appending a tag only when it is not yet collected keeps the collected list equal to the distinct tags seen so far |
| Hashtags.CollectStep | daily_tech_news.py:87-90 | one turn of the loop keeps the collected tags the distinct tags seen so far and adds at most one, exactly one on the first turn |
| Hashtags.SelectionIsPrefix | daily_tech_news.py:91-92 | the loop may stop once `max_tags` tags are collected, or when the words run out: the distinct tags seen so far are then the kept ones |
| Hashtags.CollectTags | daily_tech_news.py:86-92 | the loop over the keywords, with its `not in` check and its `break`, collects exactly the first `TagBudget(max_tags)` distinct tags in first-seen order |
| Hashtags.ExtractHashtags | daily_tech_news.py:82-93 | the result is the kept tags of the qualifying words of the lower-cased text, joined by single spaces |
| Hashtags.CandidateCount | daily_tech_news.py:84-90 | there are as many distinct tags as distinct qualifying words |
| Hashtags.DistinctTagCount | daily_tech_news.py:88-90 | words without upper-case letters give as many distinct tags as there are distinct words |
| Hashtags.SelectedTagsCount | daily_tech_news.py:86-92 | at most `max_tags` tags (one when `max_tags <= 0`), no duplicates, the front of the candidates; fewer only when fewer distinct qualifying words exist |
| Hashtags.SelectedTagsShape | daily_tech_news.py:83-88 | every tag is `#` plus a capitalized non-empty `\w` word of the lower-cased text whose lower-case form is not a stopword |
| Hashtags.SelectionShape | daily_tech_news.py:86-92 | every tag kept from lower-case non-stopword words is `#` plus one of those words capitalized, and lower-cases back to it |
| Hashtags.SelectedTagsOrder | daily_tech_news.py:87-90 | the tags appear in the order in which their words first occur |
| Hashtags.TagUnspaced | daily_tech_news.py:88 | a tag is non-empty and holds no space |
| Hashtags.SelectedTagsUnspaced | daily_tech_news.py:86-92 | no kept tag is empty or holds a space |
| Hashtags.SelectionUnspaced | daily_tech_news.py:86-92 | no tag kept from a list of words is empty or holds a space |
| Hashtags.HashtagStringSplits | daily_tech_news.py:93 | the result is `""` exactly when no tag is kept, and otherwise splits on spaces back into the kept tags |
| Emoji.EmojiMap | daily_tech_news.py:23-47 | the 23 keyword/emoji pairs in the dictionary's insertion order, multi-code-point emoji written out |
| Emoji.EmojiTable | daily_tech_news.py:23-47 | the table has 23 entries and no key appears twice |
| Emoji.EmojiFor | daily_tech_news.py:105-110 | the emoji of the first table entry whose key occurs in the lower-cased snippet, or the newspaper |
| Emoji.FirstMatch | daily_tech_news.py:107-110 | the index of the first table entry whose key occurs in the lower-cased snippet, no earlier key occurring |
| Emoji.FirstMatchIs | daily_tech_news.py:107-110 | that first-match index is unique |
| Emoji.EmojiForFirstMatch | daily_tech_news.py:105-110 | the emoji is the newspaper when no key occurs, and otherwise belongs to the earliest key that occurs |
| Emoji.SelectEmoji | daily_tech_news.py:106-110 | the scan with `break` returns the first-match emoji |
| Emoji.RobotForAi | daily_tech_news.py:24 | "Big AI Breakthrough - Researchers unveil a new model." gets the robot, because `ai` heads the table |
| Emoji.UpperAiFound | daily_tech_news.py:108 | an upper-case `AI` in a snippet is found by the `ai` key after lower-casing |
| Post.Render | daily_tech_news.py:100-103 | `article.get(key, default)` printed in an f-string: the default for a missing key, `None` for `null`, the text otherwise |
| Post.Lines | daily_tech_news.py:99 | the line of each article in order, numbered from the given start as `enumerate(articles, 1)` does |
| Post.Line | daily_tech_news.py:115 | the line `{i}` + keycap, emoji, snippet, link emoji, URL and hashtags, separated by single spaces and ended by a newline |
| Post.Fill | daily_tech_news.py:116-118 | the accumulator: append each line while the post stays within 280 characters, stop at the first that would not |
| Post.FormattedPost | daily_tech_news.py:95-120 | the header plus the lines that fit, numbered from 1, then `strip()` |
| Post.Snippet | daily_tech_news.py:100-102 | the snippet of an article is at most 203 characters |
| Post.FormatPost | daily_tech_news.py:95-120 | the loop returns the stripped header-plus-lines post, and that post has at most 280 characters |
| Post.LinesPrefix | daily_tech_news.py:99 | the first k numbered lines of a list of articles are the numbered lines of its first k articles |
| Post.FillShape | daily_tech_news.py:99-118 | the accumulator appends a prefix of the lines and stops exactly at the first line that would overflow 280 |
| Post.PostShape | daily_tech_news.py:96-118 | the post is the header followed by the lines of articles 1..k in order; article k+1, if any, is the first whose line would overflow |
| Post.FillWithinLimit | daily_tech_news.py:116-118 | a post within 280 characters stays within 280 |
| Post.FillExtends | daily_tech_news.py:118 | lines are only appended, never removed |
| Post.StripKeepsHead | daily_tech_news.py:120 | `strip()` keeps a head that starts and ends with a non-space character |
| Post.StripDropsNewline | daily_tech_news.py:120 | `strip()` removes the trailing newline of a line that has no white space at either end |
| Post.EmptyPost | daily_tech_news.py:96-120 | the header is 19 characters; with no article the post is the header's title line `📰 Daily Tech News:` alone, without its newline |
| Post.FormattedPostBounds | daily_tech_news.py:96-120 | the stripped post has at most 280 characters and starts with the 18-character title line `📰 Daily Tech News:` |
| Retry.Failures | daily_tech_news.py:58-69 | the number of failed attempts before the first success, or the whole budget |
| Retry.AttemptBudget | daily_tech_news.py:58 | `range(retries)` runs `retries` attempts, none when `retries <= 0` |
| Retry.AttemptsMade | daily_tech_news.py:58-71 | the attempts made: up to and including the first success, or the whole budget when every attempt fails |
| Retry.FirstSuccess | daily_tech_news.py:58-71 | the value of the first successful attempt within the budget, or none |
| Retry.FailureLines | daily_tech_news.py:66-67 | one `AttemptLine` per failed attempt, in attempt order |
| Retry.AttemptLine | daily_tech_news.py:67 | the failure line `{what} (attempt {a+1}/{retries}): {reason}` |
| Retry.Pauses | daily_tech_news.py:68-69 | the sleeps after `k` failed attempts out of `n`: `5 * (a + 1)` seconds after attempt `a`, none after the last attempt |
| Retry.FailuresIs | daily_tech_news.py:58-69 | that number is determined by which attempts fail |
| Retry.FailureLinesStep | daily_tech_news.py:66-67 | each failed attempt adds exactly its own numbered log line |
| Retry.PausesStep | daily_tech_news.py:68-69 | each failed attempt adds a pause of `5 * (attempt + 1)` seconds unless it was the last one allowed |
| Retry.RetryPolicy | daily_tech_news.py:58-71 | at most `retries` attempts; no value exactly when all fail; the value of the first success otherwise; one pause between consecutive attempts and none after the last |
| Retry.PausesTotal | daily_tech_news.py:68-69 | pause `a` lasts `5 * (a + 1)` seconds, `5m(m+1)/2` in all |
| News.TryFetch | daily_tech_news.py:60-65 | an attempt succeeds exactly when the reply's status is `ok` and it has an `articles` key; a `null` list is returned as `None` |
| News.FetchResult | daily_tech_news.py:58-71 | the articles of the first successful attempt (`None` for a `null` list), or `None` when every attempt fails |
| News.FetchLog | daily_tech_news.py:66-70 | one failure line per failed attempt, then the give-up line when every attempt failed |
| News.FetchTechNews | daily_tech_news.py:53-71 | the loop makes the first-success number of attempts, returns that attempt's articles or `None`, logs each failure and the final give-up line, pauses per the schedule |
| News.FetchAllFail | daily_tech_news.py:58-71 | when every attempt fails (a request error, a non-`ok` status, or an `ok` reply without `articles`), all `retries` attempts are made, the result is `None` and the log has one line per attempt plus the give-up line |
| News.FetchSucceedsAt | daily_tech_news.py:58-65 | when attempt k is the first `ok` reply with an `articles` key (whatever else it carries), k+1 requests are made, its articles are returned (`None` for `null`), and k failures are logged |
| Publisher.PostTries | daily_tech_news.py:131-136 | an attempt succeeds exactly when the call returned a post id |
| Publisher.PostSucceeds | daily_tech_news.py:130-140 | whether some call within the budget returned a post id |
| Publisher.PostLog | daily_tech_news.py:133-139 | one failure line per failed call, then `Tweet posted: {id}` or the give-up line |
| Publisher.PostToX | daily_tech_news.py:122-140 | the loop submits the text once per attempt, returns whether an attempt succeeded, logs failures and the post id or the give-up line, pauses per the schedule |
| Publisher.PostOutcomes | daily_tech_news.py:130-140 | success exactly when some call within the budget goes through; on failure one log line per call plus the give-up line |
| DailyJob.Run | daily_tech_news.py:142-148 | nothing fetched (or an empty list) means no post and one extra log line; otherwise the post handed to the publisher is the formatted post of a reordering of exactly the fetched articles, at most 280 characters, and the log is the fetch log followed by the publishing log |

## Left out

- Network I/O: `requests.get`, `raise_for_status`, `response.json()` and the
  `tweepy` client are replaced by one given outcome per attempt. An exception
  raised while constructing the `tweepy.Client` (outside the retry loop) is not
  modelled.
- Environment and files: `load_dotenv`, `os.getenv` and the log file are left
  out; a log entry is its message, without the `time.strftime` timestamp.
- Time and randomness: `time.sleep` is recorded as a pause length; the random
  page number only changes the URL and is left out; `random.shuffle` is an
  input — `Post.FormatPost` takes the articles already shuffled, and
  `DailyJob.Run` takes the reordering as a parameter, a function that keeps
  the same articles, and reports the order it produced.
- Post.FormatPost: does not model that `random.shuffle` also reorders the
  caller's list in place, because the caller never reads that list again.
- Unicode: `\w`, `lower()` and `capitalize()` are modelled on ASCII letters,
  digits and `_`; other characters are kept as they are and never count as
  word characters. `strip()` uses Python's full list of white-space characters.
- Truncation.TruncateText: `max_length` is a natural number; Python's
  negative-index slicing for a negative limit is not modelled (the only caller
  passes 200).
- JSON values of other types than strings (a numeric title, a non-object
  reply) are not modelled; a reply's keys are missing, `null`, or strings.
- Exceptions after a successful `create_tweet` (such as a missing `id` in the
  response) are folded into the failed-attempt outcome.
