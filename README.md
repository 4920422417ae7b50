# interview-helper, modelled in Dafny

interview-helper is a pair of browser pages over a question sheet. Each row
of the sheet has a category, a question and an answer. The listening page
(`script.js`) takes what speech recognition heard and matches it against the
questions with a word-overlap score. It logs the best match once per session,
keeps at most three log blocks, and can be cleared. The upload page
(`upload.js`) checks a new question before posting it: every field must be
filled in, and the question must not already exist. It also fills the
category drop-down and keeps a short history of uploads.

This project models the decision logic of both pages and proves what it
promises:

- `JsText` models the string built-ins the pages use: `toLowerCase`, `trim`,
  `split(" ")` and `includes`. It also defines the normal form in which both
  pages compare questions, `Norm(s)`, which is lower-casing followed by
  trimming.
- `JsArray` models a `Set` filled in order and spread back out, which gives
  distinct values in first-occurrence order. It also models
  `Array.prototype.sort` on strings.
- `Sheet` holds the row record.
- `Matcher` models `similarity`, `fuzzyMatch` and the category list of
  `loadCategories`.
- `QuestionLog` is a class whose fields are the asked-question set and the
  log blocks. Its methods are `displayLog`, `clearHistory` and one speech
  result (`recognition.onresult`). `QuestionLog.LogScenario` calls them on four
  questions, and the verifier proves the asserted log contents after each
  step: the oldest block is evicted, a repeat is ignored, and a question is
  shown again after a clear.
- `Upload` models `isDuplicate`, the checks in `submitQuestion`, the option
  list of `populateCategoryDropdown`, and `showHistory` on a history class.

Scores use exact rational numbers (`real`). Strings are sequences of
characters.

Some behaviours of the code are easy to miss; the model follows the code:

- A score can exceed 100. `similarity` counts a repeated token of the heard
  text once for each time it appears (`Matcher.SimilarityCanExceed100`).
- `includes` tests for a substring, not for a whole word. For example, "me"
  counts as found in "name" (`Matcher.SubstringTokenMatch`). So "tell me a
  joke" scores 50 against "what is your name", which is above the threshold
  (`Matcher.UnrelatedQuestionPasses`).
- An empty utterance splits into one empty token. That token occurs in every
  question, so the empty utterance matches any question of at most three
  tokens (`Matcher.EmptyUtteranceScore`).
- The set of asked questions has no time window. It is emptied only by
  `clearHistory`.
- Rows are modelled with three string fields. Only a missing `Question` makes
  the code throw. A missing `Category` or `Answer` shows up as `undefined`
  (see "## Left out").

## Model

| member | source | states |
|---|---|---|
| JsText.ToLower | script.js:12 | lower-cases a string letter by letter; `ToLowerIdempotent` and `LowerTrimCommute` state its properties |
| JsText.Trim | script.js:18 | `TrimFrames` states what it returns |
| JsText.Norm | upload.js:39-40 | the normal form in which both pages compare questions; `NormIdempotent`, `NormOfTrim` and `NormIgnoresPadding` state its properties |
| JsText.TrimStart | script.js:12 | the result is a suffix of the input; what was dropped is all white space; the result does not start with white space |
| JsText.TrimEnd | script.js:12 | the result is a prefix of the input; what was dropped is all white space; the result does not end with white space |
| JsText.TrimFrames | script.js:12 | `trim` returns the input minus white space on both sides, and the result starts and ends with a non-white-space character |
| JsText.TrimIgnoresPadding | script.js:18 | adding white space on either side of a string does not change its trimmed form |
| JsText.TrimIdempotent | upload.js:46-47 | trimming a value that is already trimmed leaves it unchanged |
| JsText.LowerTrimCommute | upload.js:39 | lower-casing and trimming commute |
| JsText.NormIdempotent | upload.js:39-40 | normalising a normalised question changes nothing |
| JsText.NormOfTrim | upload.js:39 | trimming a question before normalising it changes nothing, so a trimmed question and the typed one normalise alike |
| JsText.NormIgnoresPadding | script.js:12 | white space around a string is invisible to the normal form |
| JsText.Split | script.js:7-8 | `split(" ")` always gives at least one token, no token holds a space, and joining the tokens with single spaces gives back the input |
| JsText.SplitJoin | script.js:7-8 | splitting a space-joined list of space-free tokens gives back the list |
| JsText.Includes | script.js:7 | `b.includes(w)`; `IncludesIff` states what it means |
| JsText.IncludesIff | script.js:7 | `b.includes(w)` holds exactly when `w` occurs at some position of `b` |
| JsText.IncludesEmpty | script.js:7 | the empty token is included in every string |
| JsArray.Distinct | upload.js:18-19 | spreading a Set filled from a list gives no duplicates, and exactly the list's values |
| JsArray.DistinctInFirstOccurrenceOrder | script.js:75 | the distinct values come in the order of their first occurrence in the list |
| JsArray.NoDuplicatesPermutation | upload.js:22 | sorting a list without duplicates gives a list without duplicates |
| JsArray.Sort | upload.js:22 | `sort()` returns a sorted permutation of its input |
| JsArray.SortedPermutationUnique | upload.js:22 | two sorted permutations of one list are equal, so the sorted order is fully determined |
| Sheet.Categories | script.js:75 | `map(row => row.Category)` keeps the length and takes each row's category |
| Matcher.CommonTokens | script.js:7 | the filter keeps each token of `a` that `b` includes, as many times as it occurs, and drops every other token |
| Matcher.Common | script.js:7 | the number of tokens of `a` that `b` includes; `CommonTokens` and `SimilarityThreshold` state what it counts |
| Matcher.Score | script.js:8 | the score formula; `ScoreArithmetic` states its range, its threshold test and its zero case |
| Matcher.ScoreArithmetic | script.js:8 | the score formula lies in [0, 200), passes 40 exactly when five times the common tokens exceed all tokens, and is 0 exactly when no token is common |
| Matcher.Similarity | script.js:6-9 | the score is at least 0 and below 200 |
| Matcher.SimilarityThreshold | script.js:6-9 | a score is above 40 exactly when 5 × common > tokens(a) + tokens(b), and is 0 exactly when no token of `a` is found in `b` |
| Matcher.SelfSimilarity | script.js:6-9 | a string scores exactly 100 against itself |
| Matcher.SimilarityCanExceed100 | script.js:7-8 | "a a" scores above 100 against "a" |
| Matcher.EmptyUtteranceScore | script.js:7-8 | the empty utterance is above the threshold against `b` exactly when `b` has at most three tokens |
| Matcher.SubstringTokenMatch | script.js:7 | "me" scores 100 against "name", because `includes` tests for a substring |
| Matcher.UnrelatedQuestionPasses | script.js:6-9 | "tell me a joke" scores exactly 50 against "what is your name", which is above the threshold |
| Matcher.Eligible | script.js:17 | the rows the scan does not skip; `MatchRespectsFilter` and `BestIsFirstMaximum` state what it admits |
| Matcher.BestIsFirstMaximum | script.js:13-23 | after the scan, `best` is empty exactly when every eligible row scores 0; otherwise it holds the first eligible row of maximal score |
| Matcher.RowScore | script.js:18-19 | the score of one row's normalised question; `BestIsFirstMaximum` and `FuzzyMatch` state how it decides the match |
| Matcher.Hit | script.js:21 | the `best` object built from a row; `BestIsFirstMaximum` and `FuzzyMatch` state which row it is built from |
| Matcher.BestScore | script.js:13-20 | `best.score`, 0 before any row is taken; `BestIsFirstMaximum` and `FuzzyMatch` state its value after the scan |
| Matcher.Best | script.js:13-23 | the scan over the rows; `BestIsFirstMaximum` states what it computes |
| Matcher.Accept | script.js:25 | the final `best.score > 40` test; `AcceptIsFirstBest` states what it returns |
| Matcher.AcceptIsFirstBest | script.js:25 | the reported match scores above 40 and is the first eligible row of maximal score; there is none exactly when no eligible row scores above 40 |
| Matcher.FuzzyMatch | script.js:11-26 | the loop computes the scan over the normalised input; its result is the first best eligible row above 40, and it is null exactly when no eligible row scores above 40 |
| Matcher.MatchRespectsFilter | script.js:17 | with a category other than "All", a match always comes from a row of that category |
| Matcher.MatchIgnoresPadding | script.js:12 | white space around the utterance and its letter case do not change the scan |
| Matcher.CategoryOptions | script.js:74-82 | the filter options are "All" and then each category of the list once, in first-occurrence order, and nothing else |
| QuestionLog.PrependCapped | script.js:45-46 | the new block goes first; below three blocks nothing is removed and the log grows by one; otherwise exactly one block, the last, is removed, so the length stays the same; a log of at most three blocks stays at most three; the older blocks keep their order |
| QuestionLog.AskedLog.constructor | script.js:3 | the page starts with an empty set and an empty log |
| QuestionLog.AskedLog.DisplayLog | script.js:34-49 | a question already asked changes nothing; a new one joins the set and is prepended to the capped log; the log never exceeds three blocks, never repeats a question, and only holds asked questions |
| QuestionLog.AskedLog.ClearHistory | script.js:69-72 | both the set and the log become empty |
| QuestionLog.AskedLog.Hear | script.js:57-63 | the transcript is matched, and a match is logged as by `displayLog`; without a match nothing changes |
| QuestionLog.LogScenario | script.js:34-49 | four distinct questions leave the three newest in the log, newest first; a repeat changes nothing; after a clear, a question is shown again |
| Upload.NormalQuestions | upload.js:40 | the stored questions in normal form, one per row |
| Upload.AnyQuestionIs | upload.js:40 | `some` holds exactly when some stored question normalises to the given text |
| Upload.IsDuplicate | upload.js:38-41 | a question is a duplicate exactly when some stored question has the same normal form |
| Upload.DuplicateIgnoresCaseAndPadding | upload.js:38-41 | letter case and white space around the question do not change the answer |
| Upload.ChosenCategory | upload.js:48 | the category the form submits; `Submit` states how it enters the posted record |
| Upload.Submit | upload.js:43-66 | the form stops with "fill all fields" exactly when the category, the trimmed question or the trimmed answer is empty, so this is decided before any duplicate test; it stops with "already exists" exactly when all fields are filled and the question is a duplicate; otherwise it posts the category (the trimmed new-category text when "__new__" is selected, else the selection as it is) with the trimmed question and answer, all non-empty and not a duplicate |
| Upload.Status | upload.js:51-60 | the status line is empty exactly when the form goes on to post |
| Upload.ResubmitIsDuplicate | upload.js:58-61 | once a posted record is in the list, the same question in any case and with any padding is refused as a duplicate |
| Upload.PopulateCategoryDropdown | upload.js:17-31 | the options are the distinct categories, sorted and each once, followed by "__new__" last; if no row has the category "__new__", that option appears exactly once |
| Upload.SortedCategories | upload.js:18-22 | the sorted spread of the Set is sorted, has no duplicates, and contains exactly the categories of the rows |
| Upload.PrependLine | upload.js:89-91 | the new line goes first; below five lines nothing is removed; otherwise only the old line at index 4 (index 5 after the prepend) goes; a history of at most five stays at most five |
| Upload.HistoryIsNewestFirst | upload.js:84-91 | starting from an empty history, the history holds the newest five lines, newest first |
| Upload.HistoryLine | upload.js:88 | the text of one history line; `ShowHistory` states where it goes |
| Upload.UploadHistory.constructor | upload.js:85 | the history element starts with no lines |
| Upload.UploadHistory.ShowHistory | upload.js:84-91 | the history gets the new line by the capped prepend and stays within five lines |

## Left out

- Network access is not modelled. This covers `fetch` against the sheet
  endpoint, its `.then`/`.catch` messages ("Uploaded successfully",
  "Upload failed", "Failed to load data") and the reload after an upload.
  The loaded rows are a parameter. `Upload.Submit` stops where the request
  would be sent and returns the record it would post.
- Speech recognition, speech synthesis and the speak toggle are not
  modelled. `QuestionLog.AskedLog.Hear` receives the final transcript as a
  string.
- DOM construction, HTML templates, CSS classes, event wiring and showing or
  hiding the new-category input are not modelled. The log and the history
  are modelled as sequences of their entries.
- `toLocaleTimeString` depends on the locale and the clock.
  `Upload.UploadHistory.ShowHistory` receives the time as an opaque string.
- JsText.ToLower: maps only the ASCII letters A–Z. `toLowerCase` also maps
  other letters, and this model does not.
- JsArray.Sort: compares characters by code point. The default `sort`
  compares UTF-16 code units. The two orders differ only for characters above
  U+FFFF.
- Matcher.Similarity: uses exact rational arithmetic instead of
  floating point. Rounding could matter only for token counts far beyond any
  real utterance.
- QuestionLog.PrependCapped: `removeChild(lastChild)` is modelled as
  removing the last block. Whitespace text nodes in the log element are not
  modelled.
- Rows are modelled with three string fields. A missing or non-string
  `Question` makes the code throw (script.js:18, upload.js:40). A missing
  `Category` or `Answer` shows up as `undefined`: the answer is shown and
  spoken as such (script.js:21, 43, 48), and the category goes into the Set
  and is sorted last (script.js:75, upload.js:19, 22). A non-string
  `Category` never equals the selected filter value (script.js:17). None of
  these cases is modelled.
