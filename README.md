# isitonion: the article filter and the score, verified

"Is it Onion?" is a browser game. It fetches a random post from r/TheOnion or
r/nottheonion and shows only the title. The player then guesses which
subreddit the post came from. The game has two pieces of decision logic,
both in `js/isitonion.js`, and this project models both:

- **decodeArticle**, the acceptance step. It runs on each fetched response.
  It overwrites the fields of the global `currentArticle` one at a time and
  ends in one of these ways:
  - it skips the article and calls `iterate()` again (the title holds a
    checked substring, or the post is a self post);
  - it displays the article;
  - it logs an error (null response, or a null field at the final check);
  - it throws a TypeError on a missing field.
- **answer**, the score update on the global `user`. Every guess adds one to
  `attempts`. A correct guess adds one to `streak`; a wrong guess resets it
  to 0. A guess is correct when it equals `currentArticle.from`.

Files:

- `js.dfy`, module `Js`: the JavaScript built-ins the core relies on.
  - null/undefined values (`Nullable`);
  - `indexOf` (`IndexOf`, proved to return the first occurrence or -1);
  - `toLowerCase` (`ToLower`);
  - the keys a `for ... in` loop binds over an array (`ForInKeys`).
- `decoding.dfy`, module `Decoding`:
  - the flattened response record (`RawArticle`);
  - the `currentArticle` value (`Article`);
  - the pure specification of one decodeArticle call (`Step`);
  - the class `CurrentArticle`, whose method `Decode` runs the same checks
    in place, with the bad-word `for` loop and its early returns;
  - `Iterate`, which drives the retry through an explicit sequence of
    request results, specified by `Pursue`.
- `decoding.dfy`, module `DecodingProperties`: the lemmas about `Step` and
  `Pursue`.
- `scoring.dfy`, module `Scoring`:
  - the class `User`, with `attempts`, `streak` and a ghost history of
    guesses;
  - its method `Answer`;
  - the specification functions `Scored`, `Replay` and `TrailingRun`, and
    lemmas about them.

The bad-word loop tests a list of substrings passed in as a parameter.
`AsWrittenChecks()` is what the code actually tests: the array indices
`"0"` and `"1"`. `IntendedChecks()` is the `badWords` array, `"Quiz:"` and
`"?"`. The lemmas that take the list as a parameter (`NullResponseIgnored`
through `MissingUrlDisplayedWithoutImage`, `PursueDisplaysOnlyAcceptable`
and `MixedCaseSubredditMatches`) hold for any list, so they hold for both.
The others fix one particular list.

Where the code and its own comments disagree, the model follows the code:

- A record with no `preview` object throws at line 125. The comment on line
  124 ("Get a picture if it exists") and the test `if(currentArticle.image)`
  on line 219 show that the image was meant to be optional
  (`MissingPreviewThrows`). A preview whose `url` is missing does not throw:
  the article is displayed without an image (`MissingUrlDisplayedWithoutImage`).
- The subreddit is lower-cased but never compared with the two values of `R`
  (lines 34-37), so a post from any subreddit can be displayed
  (`OtherSubredditDisplayed`).
- The player's guess itself is not lower-cased. It is compared as given,
  with `==` (`CorrectIffSameIgnoringCase`).
- The bad-word loop tests the array's indices, not its elements (see
  Findings).

## Model

| member | source | states |
|---|---|---|
| `Js.IndexOf` | js/isitonion.js:96 | `indexOf` gives -1 exactly when the substring does not occur; otherwise it gives the first index where it occurs |
| `Js.ToLower` | js/isitonion.js:119 | `toLowerCase` keeps the length, leaves no upper-case letter, changes each upper-case letter to its lower-case form, and keeps every other character |
| `Js.ToLowerIdempotent` | js/isitonion.js:119 | the lower-cased subreddit is already in canonical form: lower-casing it again changes nothing |
| `Decoding.AsWrittenChecks` | js/isitonion.js:94 | the substrings `for (var word in badWords)` binds are the keys "0" and "1", not the words |
| `Decoding.CurrentArticle.constructor` | js/isitonion.js:17-22 | `currentArticle` starts with every field null |
| `Decoding.CurrentArticle.Decode` | js/isitonion.js:83-140 | the in-place decodeArticle, with its bad-word loop and early returns, ends with the outcome and the `currentArticle` fields that `Step` gives for the old fields |
| `Decoding.CurrentArticle.Iterate` | js/isitonion.js:49-142 | the retry loop over successive request results ends with the settlement, result count and `currentArticle` that `Pursue` gives |
| `DecodingProperties.NullResponseIgnored` | js/isitonion.js:86-138 | a null or undefined response leaves `currentArticle` unchanged and only logs |
| `DecodingProperties.BadWordSkipIff` | js/isitonion.js:94-104 | an article is skipped for its title exactly when the title holds a checked substring; this check comes before the self-post check |
| `DecodingProperties.SelfPostSkipIff` | js/isitonion.js:108-116 | an article is skipped as a self post exactly when its kind contains "self.theonion" or "self.nottheonion" and the title check did not skip it first |
| `DecodingProperties.SkipOverwritesOnlyTitle` | js/isitonion.js:89-116 | a skip happens exactly when the record meets a skip condition; after a skip only `title` has changed, and `from`, `link` and `image` keep their values |
| `DecodingProperties.DisplayedIffAcceptable` | js/isitonion.js:119-133 | an article is displayed exactly when it passes both checks and has a kind, a subreddit and a preview object; `currentArticle` then holds its title, its lower-cased subreddit, its link and its preview `url` (possibly null) |
| `DecodingProperties.MissingElementsIff` | js/isitonion.js:128-130 | the null check logs only when the title is null and the bad-word loop ran no iteration, so with a non-empty list it never fires |
| `DecodingProperties.AsWrittenSkipsDigits` | js/isitonion.js:94-104 | as written, the title check skips exactly the titles that contain the character 0 or 1 |
| `DecodingProperties.IntendedSkipsBadWords` | js/isitonion.js:39-42 | with the `badWords` list, the title check skips exactly the titles that contain "Quiz:" or "?" |
| `DecodingProperties.QuizTitleDisplayedAsWritten` | js/isitonion.js:94-96 | "Quiz: Are you a chicken?" from an ordinary post is displayed as written and skipped with the intended list |
| `DecodingProperties.NumberTitleSkippedAsWritten` | js/isitonion.js:94-96 | as written, the title "10 Signs Of Spring" is skipped |
| `DecodingProperties.MissingPreviewThrows` | js/isitonion.js:124-125 | a record that passes the checks but has no preview throws, after `from` and `link` were already overwritten |
| `DecodingProperties.MissingUrlDisplayedWithoutImage` | js/isitonion.js:125-133 | a record that passes the checks and has a preview whose `url` is null or undefined is displayed, with `image` overwritten by null |
| `DecodingProperties.OtherSubredditDisplayed` | js/isitonion.js:119-133 | a post from r/Pics is displayed with `from` equal to "pics": the subreddit is never checked against the two categories |
| `DecodingProperties.PursueDisplaysOnlyAcceptable` | js/isitonion.js:49-142 | every request result the retry loop used before its last was a skipped response; a display comes only from an acceptable record, and `currentArticle` then depends on that record alone |
| `Scoring.TrailingRun` | js/isitonion.js:171-187 | the streak measure is the length of the longest all-correct suffix of the guesses |
| `Scoring.ReplayFromZero` | js/isitonion.js:25-28 | from the zeroed user, `attempts` is the number of guesses and `streak` the number of correct guesses since the last wrong one, so `streak <= attempts` |
| `Scoring.TwoGuessesTwoAttempts` | js/isitonion.js:154 | two guesses add exactly two attempts, whatever their outcome |
| `Scoring.User.constructor` | js/isitonion.js:25-28 | the user starts with zero attempts, zero streak and no guesses |
| `Scoring.User.Answer` | js/isitonion.js:151-200 | the answer is correct exactly when it equals `currentArticle.from`; `attempts` goes up by one; `streak` goes up by one on a correct answer and to 0 otherwise; `streak <= attempts` is kept; `currentArticle` is unchanged |
| `Scoring.CorrectIffSameIgnoringCase` | js/isitonion.js:159 | against the lower-cased subreddit in `from`, a lower-case guess is correct exactly when it names that subreddit ignoring case |
| `Scoring.MixedCaseSubredditMatches` | js/isitonion.js:159 | for any list of checked substrings, an acceptable record from r/TheOnion is displayed and the guess "theonion" is then correct, because the subreddit is lower-cased before the comparison |

## Findings

| source | as written | input that shows it | evidently intended | confidence | as-written member | corrected member |
|---|---|---|---|---|---|---|
| js/isitonion.js:94 | `for (var word in badWords)` binds the array keys "0" and "1", so the title check looks for those characters | the title "Quiz: Are you a chicken?" is displayed; the title "10 Signs Of Spring" is skipped | test the elements "Quiz:" and "?" of `badWords` (lines 39-42) | high; not executed | `DecodingProperties.QuizTitleDisplayedAsWritten` | `DecodingProperties.IntendedSkipsBadWords` |

The corrected behaviour is `Step` with `IntendedChecks()`. No other part of
the model depends on which list is used.

## Left out

- The `$.ajax` request and the URL it builds (lines 64-74) are network I/O. Each request's result is an input to `Iterate`. A failed request ends the loop in `RequestFailed`, as the error callback does.
- The `Math.random` choice of subreddit (line 61) is randomness and floating point. The model does not depend on which subreddit was requested.
- The Firebase `meta` transactions (lines 162-165, 178-181) belong to a remote collaborator.
- The `display*` functions, jQuery DOM updates and `console.log` calls (lines 207-263) are UI and logging.
- The unbounded asynchronous retry through `iterate()` is modelled only over a finite sequence of request results. `Waiting` means the results ran out while articles were still being skipped.
- The `iterate()` call at the end of `answer` (line 198) is not sequenced with `Answer`. The next article is fetched by a separate `Iterate` call.
- The JSON path `response[0].data.children[0]` is flattened into `RawArticle`. A missing array element or `data` object on the way is not modelled. `title`, `kind`, `subreddit` and `link` can each be null. For the image, `preview` is null when the whole `preview.images[0].source` chain cannot be reached (line 125 throws). When only `url` is missing, `preview` holds a null `url`.
- `Js.ToLower`: maps only the ASCII letters A-Z. JavaScript's `toLowerCase` also lower-cases other Unicode letters.
- `Scoring.User.Answer`: compares the guess with `from` as strings or null only. JavaScript's loose `==` between other types is not modelled. `attempts` and `streak` are unbounded, with no limit on integer precision.
