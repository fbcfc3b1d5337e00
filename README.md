# Rabbit Brain core, modelled in Dafny

Rabbit Brain turns saved posts into a learning feed. A user captures a post from X or any
web page; an analysis action extracts the concepts the post is about. It does this with a
language model when one is configured, and otherwise with a word-frequency fallback. The
action upserts those concepts into a shared catalogue, links the post's author and stores
one scored suggestion per concept. Users vote on suggestions, follow concepts and authors,
build learning tracks from concepts, and read a feed of recent posts that match what they
follow. A separate capture worker opens a page in a headless browser and returns its text,
a screenshot and the author handle read off the URL. X API usage is logged and counted
against a fifteen-minute rate-limit window.

The model keeps the source's form. Pure helpers are functions, with lemmas about them:
- the concept-name policy and sanitiser
- the naive extractor
- URL parsing
- title building and feed assembly

The database is one `Database.Db` class. Each table is a `map<Id, _>` field, and all tables
share one id counter, so id order is insertion order. The usage log is a `seq`. Each
mutation and action is a `method` that `modifies` exactly the tables it writes. A loop in
the source is a `while` loop with its invariants, proved against a reference function.

- `Database.Db.Valid()` holds before and after every mutation. It says that:
  - every key is below the counter;
  - author handles are unique;
  - there is one vote per user and suggestion;
  - there is one follow per user and target.
- A mutation that throws writes nothing, as a Convex transaction is rolled back.
- The database throws from two places, and both are modelled as errors:
  - `.unique()` throws when a look-up finds more than one document;
  - `patch` throws when the document is missing.

Modules follow the source files:

| module | models |
|---|---|
| `Analysis` | the name policy and `sanitizeConcepts` |
| `NaiveExtract` | `naiveExtract` and `extractAuthorHandle` |
| `LlmExtract` | `llmExtract` |
| `AnalyzePost` | `analyzePost` |
| `Concepts` | convex/concepts.ts |
| `Authors` | convex/authors.ts |
| `Feedback` | convex/feedback.ts |
| `Follows` | convex/follows.ts |
| `Tracks` | convex/tracks.ts |
| `Posts` | the mutations of convex/posts.ts |
| `Feed` | its queries |
| `XImport` | convex/x.ts |
| `XUsage` | convex/xUsage.ts |
| `CaptureWorker` | cloudflare/capture-worker/src/index.ts |

`Wrappers`, `Seqs`, `Text`, `Urls` and `Database` are shared helpers.

## Model

| member | source | states |
|---|---|---|
| Analysis.NormalizedNameIsNormal | convex/analysis.ts:158-160 | A normalised name is made only of `[a-z0-9]` words separated by single spaces, with no leading or trailing space. |
| Analysis.NormalizeIdempotent | convex/analysis.ts:158-160 | Normalising a normalised name changes nothing. |
| Analysis.WeakSingleWordByLength | convex/analysis.ts:170-181 | A name of several words is never weak. For a single word on none of the three lists, weak means shorter than four characters. |
| Analysis.AllowListedWordsAreNeverWeak | convex/analysis.ts:95-144 | No allow-listed word is a stop word or weak-listed, so the allow list wins for each of its words, whatever its length. |
| Analysis.AllowListedNameIsAcceptable | convex/analysis.ts:162-181 | A one-word allow-listed name passes every check of the sanitiser. |
| Analysis.WeakSingleWordIsRejected | convex/analysis.ts:170-181 | A one-word name is rejected when it is a stop word, is weak-listed, or is short and not allow-listed. |
| Analysis.SanitizeConcepts | convex/analysis.ts:183-207 | The filter loop with its mutable `seen` set returns the reference filter: keep a concept when it is acceptable and its normalised name was not kept before. |
| Analysis.SanitizedIsSubsequence | convex/analysis.ts:193-206 | The result is an order-preserving subsequence of the input. |
| Analysis.SanitizedAreAcceptableAndDistinct | convex/analysis.ts:188-206 | No kept concept is empty, all stop words, weak, or on the avoid list, and no two kept concepts share a normalised name. |
| Analysis.SanitizedKeepsFirstOccurrence | convex/analysis.ts:193-206 | The first acceptable concept of each normalised name is kept; a rejected concept does not block a later one. |
| Analysis.SanitizeExample | convex/analysis.ts:183-207 | On a worked input, the stop word, the weak-listed word and the short word are dropped, and the short allow-listed word is kept. |
| NaiveExtract.TokensAreTokens | convex/analysis.ts:213 | Every regular-expression match is at least three characters from `[a-z0-9+-]`. |
| NaiveExtract.TokensOfSpacedWords | convex/analysis.ts:213 | Tokenising valid words joined by spaces gives the words back. |
| NaiveExtract.CandidateWordsAreTokens | convex/analysis.ts:213-215 | At most 40 words are counted; each is a match and none is a stop word. |
| NaiveExtract.Tally | convex/analysis.ts:216-221 | The counting loop over an insertion-ordered map gives the reference tally: each distinct word once, in first-occurrence order, with its count. |
| NaiveExtract.TalliedIsCount | convex/analysis.ts:216-221 | The tally lists each distinct word once, each count is positive and is the word's true count, and the counts add up to the number of words. |
| NaiveExtract.SortByCountSpec | convex/analysis.ts:222 | The sort orders by decreasing count, is a permutation, and is stable for equal counts. |
| NaiveExtract.TitleCaseKeepsNormalizedName | convex/analysis.ts:146-151 | Title-casing changes only letter case, so the sanitiser judges the lower-case word. |
| NaiveExtract.ScoreBounds | convex/analysis.ts:227 | A word counted at least once scores between 0.5 and 0.9, and a larger count never scores lower. |
| NaiveExtract.TopEntriesSpec | convex/analysis.ts:221-228 | At most six entries, most frequent first. Each is a tallied word with its true count. |
| NaiveExtract.CandidatesSpec | convex/analysis.ts:221-228 | At most six candidates, with non-increasing scores in [0.5, 0.9]. Each candidate's rationale and score carry the true count of a counted word. |
| NaiveExtract.AuthorHandleAbsent | convex/analysis.ts:153-156 | There is no handle exactly when no `@` in the text is followed by a word character. |
| NaiveExtract.AuthorHandleFound | convex/analysis.ts:153-156 | The handle is the 1 to 15 word characters after the first `@` that has one. It is cut short of 15 only where the word ends. |
| NaiveExtract.NaiveExtract | convex/analysis.ts:209-234 | The extractor returns the sanitised top candidates of the text and its first handle. |
| LlmExtract.Extract | convex/analysis.ts:236-327 | The model-backed extractor, early return by early return, equals the reference answer. That answer is the sanitised model concepts with the model's handle, the naive answer on every fallback, or the thrown message. |
| LlmExtract.LlmResultSpec | convex/analysis.ts:236-327 | It fails exactly when the request throws. Every answer's concepts pass the sanitiser and have distinct names. The model's concepts are used only when usable; they are then a non-empty, in-order subsequence of the reply's, with the reply's handle. Otherwise the answer is the naive one. |
| AnalyzePost.PayloadSpec | convex/analysis.ts:347-354 | The upsert payload keeps each name, is active and has no aliases. A concept's own description wins over "Category: ...". |
| AnalyzePost.UpsertPayload | convex/analysis.ts:347-358 | The concept upsert throws exactly on a name that two concepts share, and then writes nothing. Otherwise each extracted concept gets the id of a concept with its name, nothing stored changes, and every concept added is the new concept made from the payload entry whose id it is. |
| AnalyzePost.LinkAuthor | convex/analysis.ts:360-366 | With a non-empty handle, `upsertAuthor` runs without a display name: the author with the handle is linked, or a new one is inserted under the next id and linked. Otherwise no author is linked and nothing is written. |
| AnalyzePost.Record | convex/analysis.ts:360-376 | Once the concepts are upserted, the author step runs as in `LinkAuthor`, one suggestion per concept is stored under the ids that follow, and the post is analysed with that author. |
| AnalyzePost.StoredSuggestions | convex/analysis.ts:368-376 | After a successful run, each extracted concept has a new suggestion on the post under fresh ids. It has the concept's score and rationale and points at a concept with its name. Earlier suggestions are kept and no other ids are new. |
| AnalyzePost.StoredConcepts | convex/analysis.ts:347-358 | After a successful run, earlier concepts are kept, and every concept added is, for one extracted concept, an active concept with its name, no aliases, its own description or "Category: ...", and the run's time. |
| AnalyzePost.StoredAuthor | convex/analysis.ts:360-366 | After a successful run, the authors table gains exactly one author, with the handle and no display name, when the handle is non-empty and new; otherwise it is unchanged, and the linked author is the existing one with the handle. |
| AnalyzePost.Store | convex/analysis.ts:347-385 | After extraction, the post is marked failed with the `.unique()` error exactly on a name conflict. Otherwise the concepts, the author and the suggestions are stored, with no other concept or author added. |
| AnalyzePost.AnalyzePost | convex/analysis.ts:329-387 | A missing post gives "missing" and no write. An extractor error or a name conflict marks the post failed with that reason. Otherwise the run stores the concepts, the author and the suggestions, and answers "ok"; every concept or author it adds is the one those steps insert. |
| Concepts.UpsertedIndex | convex/concepts.ts:4-27 | After a successful upsert, exactly one concept has the name, the returned one, and every other name looks up as before. |
| Concepts.UpsertConcept | convex/concepts.ts:4-27 | Two concepts with the name make it throw with no write. One is returned as it is. With none, a new active concept is inserted under the next id. |
| Concepts.UpsertAllIn | convex/concepts.ts:29-62 | The loop throws exactly when some input name is shared by two concepts on entry. Otherwise each input gets the one concept with its name, old rows are kept, and each new row is some input's concept. |
| Concepts.UpsertConcepts | convex/concepts.ts:29-62 | The mutation returns one id per input, in order. A throw writes nothing. Nothing already stored changes, and every new concept comes from an input. |
| Concepts.RepeatUpsertInsertsNothing | convex/concepts.ts:29-62 | After a successful upsert each input name names exactly the concept whose id it returned. Repeating the upsert with the same names then leaves the table as it was and returns those same ids, in the same order. |
| Concepts.ListConceptsIsActiveConcepts | convex/concepts.ts:64-72 | The list holds every active concept and nothing else, each once, in strictly increasing id order, which is oldest first. |
| Authors.WithHandleIsUnique | convex/authors.ts:4-12 | With unique handles, the index finds one author exactly when some author has the handle, and never more. |
| Authors.GetByHandleFinds | convex/authors.ts:4-12 | In a valid database the look-up never throws; it returns the author with the handle, or nothing. |
| Authors.AuthorUpsertedKeepsHandlesUnique | convex/authors.ts:14-33 | An upsert keeps handles unique and leaves exactly one author with the handle, the returned one. |
| Authors.UpsertAuthorTwice | convex/authors.ts:14-33 | A second upsert with the same handle returns the same id and writes nothing. |
| Authors.UpsertAuthor | convex/authors.ts:14-33 | The mutation returns the existing author or inserts one under the next id; the result has the handle and the database stays valid. |
| Feedback.VotedKeepsOneVote | convex/feedback.ts:6-36 | After a vote the user has exactly one record on the suggestion, holding the new vote. Every other record is unchanged and votes stay unique. |
| Feedback.VoteTwiceKeepsOneRecord | convex/feedback.ts:6-36 | Voting twice leaves one record, with the second vote. |
| Feedback.SubmitFeedback | convex/feedback.ts:6-36 | The mutation updates the existing vote or inserts one, and keeps the database valid. |
| Feedback.NamesOfMembers | convex/feedback.ts:51-63 | A name is collected exactly when one of the votes contributes it. |
| Feedback.DownvotedNamesSpec | convex/feedback.ts:38-67 | The names are distinct, non-empty and at most `limit`. A name is listed exactly when one of the user's oldest `limit` down votes is on a suggestion whose concept has that name. |
| Feedback.ListDownvotedConceptNames | convex/feedback.ts:38-67 | The query equals the reference answer, with a missing limit meaning 50. |
| Feedback.CollectNames | convex/feedback.ts:51-63 | The loop that fills the name set gives the distinct names in vote order. |
| Follows.ToggledFlipsKey | convex/follows.ts:5-36 | A toggle flips the key in or out of the followed set and answers whether it is now in. Follows stay unique per key, and follows with other keys are untouched. |
| Follows.ToggleTwiceRestores | convex/follows.ts:5-36 | Toggling twice restores the followed keys and every other follow, and the two answers are opposite. |
| Follows.ToggleIn | convex/follows.ts:12-34 | The look-up then delete or insert on the table performs the toggle, keeps follows unique and keeps ids below the counter. |
| Follows.ToggleFollow | convex/follows.ts:5-36 | The mutation performs the toggle and keeps the database valid. |
| Follows.ListFollowsIsCallersFollows | convex/follows.ts:38-47 | The list holds exactly the caller's follows, each once, in strictly increasing id order, which is oldest first. |
| Tracks.BuildTrackTitleShowsFirstThree | convex/tracks.ts:6-14 | The title is "Learn " with the first three names joined by " + ". When more names remain, " + n more" is appended, and n reads back as the count of the rest. With no names the title is "Learning track". |
| Tracks.ExistingNamesMembers | convex/tracks.ts:28-34 | The title names are exactly the non-empty names of the chosen concepts that exist. |
| Tracks.ExistingNamesInOrder | convex/tracks.ts:28-34 | The title names keep the order of the chosen ids: the names for a prefix of the ids come before those for the rest. |
| Tracks.OneLinkPerConcept | convex/tracks.ts:43-49 | With distinct concept ids, there is one new link per id, each to the new track. |
| Tracks.InsertTrack | convex/tracks.ts:28-49 | The inserts put the track under the next id, with the given or built title, followed by one link per distinct concept id in first-occurrence order. Every id stays below the advanced counter. |
| Tracks.CreateTrack | convex/tracks.ts:16-53 | No concept ids is an error with no write. Otherwise the track takes the next id, with the given or built title. One link per distinct id follows, in first-occurrence order. |
| Tracks.ExistingLinkedMembers | convex/tracks.ts:75-86 | A track's view lists exactly the linked concepts that still exist. |
| Tracks.ExistingLinkedInOrder | convex/tracks.ts:75-86 | A track's view keeps link order: the concepts of a prefix of the links come before those of the rest. |
| Tracks.NewestTracksSpec | convex/tracks.ts:59-63 | At most 50 of the user's tracks, newest first. A track of the user left out is older than all listed, and then 50 are listed. |
| Tracks.ViewOfSpec | convex/tracks.ts:70-91 | A track's view is its own links' existing concepts. |
| Tracks.ViewsOfSpec | convex/tracks.ts:70-92 | There is one view per track, in order. |
| Tracks.TrackListSpec | convex/tracks.ts:55-96 | At most 50 of the user's tracks, newest first, each with its own view. |
| Tracks.ListTracks | convex/tracks.ts:55-96 | The loop equals the reference answer. |
| Posts.MaxCreatedAtIsMax | convex/posts.ts:11-22 | The running maximum is the largest timestamp and belongs to an item. |
| Posts.AtLeastSpec | convex/posts.ts:19-21 | The filter keeps, in order, exactly the items stamped at or after the threshold. |
| Posts.LatestBatchSpec | convex/posts.ts:11-22 | Empty stays empty. Otherwise the batch is, in order, exactly the items within two seconds of the newest, so the newest is always kept. |
| Posts.LatestBatchKeepsMax | convex/posts.ts:11-22 | The batch has the same newest timestamp as the items. |
| Posts.LatestBatchIdempotent | convex/posts.ts:11-22 | Picking the batch of a batch changes nothing. |
| Posts.PickLatestSuggestions | convex/posts.ts:11-22 | The loop and filter equal the reference batch. |
| Posts.CreatePost | convex/posts.ts:24-41 | One pending manual post is inserted under the next id, and nothing else changes. |
| Posts.StripLeadingAtSpec | convex/posts.ts:52 | Only one leading "@" is removed; putting it back gives the handle. |
| Posts.CreatePostInternal | convex/posts.ts:43-63 | One pending post with the given source and the stripped handle is inserted under the next id. |
| Posts.AppliedSuggestions | convex/posts.ts:246-274 | One suggestion per input is inserted under consecutive ids, carrying the post and the input's concept, score and rationale. The other suggestions are kept. |
| Posts.ApplyAnalysis | convex/posts.ts:246-274 | It throws with no write exactly when the post is missing. Otherwise the suggestions are inserted, and the post is analysed with the given author, replacing the previous one. |
| Posts.MarkFailed | convex/posts.ts:276-298 | It throws with no write when the post is missing. Otherwise the post is marked failed. A non-empty reason adds a pending "Analysis failed" concept and a zero-score suggestion linking it; with no reason nothing else is written. |
| Posts.FailureConceptNotListed | convex/posts.ts:276-298 | The placeholder concept never shows in the active catalogue, and only the "Analysis failed" name look-up changes. |
| Posts.DeleteFeedbackOn | convex/posts.ts:115-123 | The inner loop deletes exactly the feedback on the suggestion. |
| Posts.DeleteAnalysis | convex/posts.ts:109-125 | The nested loops delete exactly the post's suggestions and the feedback on them. |
| Posts.RemovedAreThePostsSuggestions | convex/posts.ts:109-125 | Deleting what the index returns removes exactly the post's suggestions and their feedback. |
| Posts.ResetPostAnalysis | convex/posts.ts:100-133 | Only the owner's existing post can be reset; any other call is an error with no write. The reset deletes the post's suggestions and their feedback and makes the post pending. |
| Posts.ResetLeavesNoTrace | convex/posts.ts:100-133 | After a reset, no suggestion of the post remains and every other suggestion is kept. No feedback points at a deleted suggestion, and votes stay unique. |
| Feed.NewestPostsSpec | convex/posts.ts:158 | At most fifty posts, newest first. A post left out is older than all listed ones, and then fifty are listed. |
| Feed.PostSuggestionsSpec | convex/posts.ts:174-177 | The index look-up lists exactly the post's suggestions, oldest first: the k-th row is the document of the k-th selected id, and those ids increase. |
| Feed.MatchedConceptsSpec | convex/posts.ts:178-180 | The filter keeps exactly the suggestions on followed concepts, and its result is an order-preserving subsequence of the batch. |
| Feed.ItemForShape | convex/posts.ts:171-200 | A post makes an entry exactly when its author is followed or one of its latest suggestions is on a followed concept. The entry carries the post and whether the author matched. |
| Feed.ItemForSuggestions | convex/posts.ts:178-191 | An entry's suggestions are exactly the post's latest suggestions on followed concepts, each named after its concept. |
| Feed.ItemsSpec | convex/posts.ts:171-201 | The entries are those the posts have, at most one per post. |
| Feed.ItemsInPostOrder | convex/posts.ts:158-203 | Posts newest first give entries newest first. |
| Feed.NothingFollowedNoItems | convex/posts.ts:139-145 | With nothing followed no post makes an entry, so the early empty return agrees with the loop. |
| Feed.FeedSpec | convex/posts.ts:135-205 | A user without follows gets an empty feed. Otherwise there are at most fifty entries, newest first, each one of the fifty newest posts and matching a follow. Every such matching post has its entry. |
| Feed.ListFeed | convex/posts.ts:135-205 | The loop equals the reference feed. |
| Feed.NewestOfUrl | convex/posts.ts:217-221 | The URL look-up selects the one newest post with the URL, or nothing when none has it. |
| Feed.GetCachedAnalysisByUrlSpec | convex/posts.ts:214-244 | An answer is the newest post with the URL, analysed, with all of its suggestions and at least one. There is no answer exactly when no post has the URL, or the newest is not analysed or has no suggestion. A non-empty handle stored on the post wins. A missing or empty one falls back to the linked author's handle, or to none when that author is gone. Without a linked author the post's own handle is kept. |
| XImport.ExtractTweetIdSpec | convex/x.ts:10-34 | An id is found exactly for an X or Twitter URL with a segment after its first "status" segment; the id is that segment. |
| XImport.WebStatusAddsNothing | convex/x.ts:24-31 | The `/i/web/status` branch never finds an id the first branch misses. |
| XImport.StatusUrlYieldsId | convex/x.ts:10-34 | A post page `/<handle>/status/<id>` on an X host yields its id. |
| XImport.WebStatusUrlYieldsId | convex/x.ts:10-34 | `/i/web/status/<id>` yields its id. |
| XImport.XHosts | convex/x.ts:18-21 | Exactly the four spellings x.com, twitter.com and their www. forms are accepted. |
| XImport.FetchTweetSpec | convex/x.ts:36-63 | A missing token, a rejected exchange, a failed response and a missing text each fail with their message. The API error carries the status in decimal, which reads back. Otherwise the post is the text with the first user's name. |
| XImport.ImportPost | convex/x.ts:71-92 | An unsupported URL fails before the fetch, and a failed fetch fails with its error; neither writes. Otherwise one pending post from X is stored with the URL and the fetched text. |
| XUsage.LogRequest | convex/xUsage.ts:7-31 | One entry stamped `now` is appended to the log. |
| XUsage.SinceCount | convex/xUsage.ts:36-39 | The index range holds exactly the entries stamped at or after `since`. |
| XUsage.FoldMaxResetIsMax | convex/xUsage.ts:40-44 | The fold is the largest positive reset time, or zero when there is none. |
| XUsage.LastResetAtIsLargestPositive | convex/xUsage.ts:40-44 | The last reset is null exactly when no entry has a positive reset time; otherwise it is the largest one, and some entry has it. |
| XUsage.CountRecentSpec | convex/xUsage.ts:33-47 | The total counts the entries in the window. The last reset is null exactly when no entry in the window has a positive reset. Otherwise some entry in the window has it, and it is at least every positive reset in the window. |
| XUsage.LogRequestCounted | convex/xUsage.ts:20-45 | A request logged inside the window adds one to the count. |
| XUsage.RateLimitedAtMostAll | convex/xUsage.ts:57-59 | Rate-limited entries are some of those counted. |
| XUsage.GetUsageSpec | convex/xUsage.ts:49-74 | The window is fifteen minutes and the limit is fifty. `remaining` is what is left of the limit, never negative, and zero from fifty requests on. |
| Urls.PathSegmentsSpec | convex/x.ts:23 | Every path segment is non-empty and has no slash. |
| Urls.PathOfSegments | cloudflare/capture-worker/src/index.ts:9 | Splitting a path built from segments gives the segments back. |
| CaptureWorker.ExtractAuthorHandleSpec | cloudflare/capture-worker/src/index.ts:6-18 | A handle is found exactly when the path has a "status" segment that is not the first. It is the segment just before the first "status". |
| CaptureWorker.StatusUrlYieldsHandle | cloudflare/capture-worker/src/index.ts:6-18 | A post page `/<handle>/status/<id>` yields the handle, whatever the host. |
| CaptureWorker.WebStatusUrlYieldsWeb | cloudflare/capture-worker/src/index.ts:6-18 | On `/i/web/status/<id>` the answer is "web". |
| CaptureWorker.GateSpec | cloudflare/capture-worker/src/index.ts:22-48 | Not POST gives 405. With a token set, a request without "Bearer <token>" gives 401. Invalid JSON or a missing URL gives 400. Only a request passing every check goes ahead, with its URL and mode. |
| CaptureWorker.CapturedTextPriority | cloudflare/capture-worker/src/index.ts:58-71 | Screenshot-only gives no text. Otherwise the text is the tweet texts joined by newlines, else the article, else the body cut to 4000 characters, else nothing. |
| CaptureWorker.HandleAsWritten | cloudflare/capture-worker/src/index.ts:20-98 | The handler as written. When the browser is launched but the page does not open, the exception leaves and the browser is not closed. |
| CaptureWorker.LeakIsReachable | cloudflare/capture-worker/src/index.ts:20-49 | A POST with a URL and no token configured passes the gate and reaches the launch. |
| CaptureWorker.HandleRequest | cloudflare/capture-worker/src/index.ts:20-98 | The corrected handler closes the browser on every exit after launch, and closes the page whenever it was opened. Its answer is the gate's response, the capture when launch, page and load succeed, and otherwise a thrown error: the same answers as the handler as written. |

## Left out

- `getPost` (convex/posts.ts:65-86), `listUserPosts` (convex/posts.ts:88-98) and `getAuthor` (convex/authors.ts:35-40) are single look-ups with no logic beyond the index read; they are not modelled.
- `getPostForAnalysis` (convex/posts.ts:207-212) is the post look-up at the start of `AnalyzePost.AnalyzePost`.
- Authentication is a parameter: every user-facing mutation and query takes the signed-in `userId`. The signed-out error paths of convex/lib/users.ts are not modelled.
- Time is the `now` parameter, not `Date.now()`.
- Three things outside the code are parameters: the OpenAI exchange (`LlmExtract.Reply`), the X API response (`XImport.XResponse`) and the browser run (`CaptureWorker.Page`, `CaptureWorker.BrowserRun`). The prompt text, the request bodies and `JSON.parse` are not modelled.
- `new URL` is abstract: a URL is its hostname and pathname, or `None` when parsing throws.
- Scores are exact rationals (`real`); floating-point rounding of `0.4 + count * 0.1` is not modelled.
- The screenshot's bytes and their base64 encoding are not modelled; only which element is photographed is modelled.
- The `Promise.all` batches in the feed, the track listing and the name collection are modelled as sequential loops. Convex queries see one snapshot, so order does not matter there.
- `analyzePost` runs its queries and mutations as separate transactions. Writes by other clients between them are not modelled: each step sees the state the previous one left.
- Concept-name uniqueness is not a database invariant, because `markFailed` inserts "Analysis failed" concepts without a look-up. The `.unique()` throw on two matches is modelled instead.
- Digests, cron jobs, user profiles and the web front end are not part of this model.
- Strings are taken to be ASCII. `Text.Lower`, `Text.LowerChar` and `Text.UpperChar` map letter case for ASCII letters only, while JavaScript's `toLowerCase` and `toUpperCase` also map letters such as U+212A (Kelvin sign) and U+0130. So for non-ASCII text the name normaliser, the naive extractor's tokens and title case can differ from the source.
- `CaptureWorker.CapturedText` cuts the body's text at 4000 characters, while `slice(0, 4000)` counts UTF-16 code units. For ASCII text the two agree; text with characters outside the Basic Multilingual Plane is cut shorter in the source, which may split a surrogate pair.
- `Database.UniqueError` and `Database.MissingDocumentError` are fixed stand-in texts for the error messages of Convex's `.unique()` and `patch`, which are not part of this model. Because `AnalyzePost.AnalyzePost` records the `.unique()` message as a failure reason, the stored description of that "Analysis failed" concept holds the stand-in text rather than Convex's wording.
- A rejection in the exchange with the X API (`fetch`, reading a failed response's body, or parsing a successful response as JSON) is one case, `XImport.XResponse.Rejected`, carrying the thrown message; which of the three steps threw is not distinguished.

## Findings

| source | as written | input that shows it | evidently intended | confidence | as-written member | corrected member |
|---|---|---|---|---|---|---|
| cloudflare/capture-worker/src/index.ts:49-52 | `browser.newPage` runs before the `try` whose `finally` closes the page and the browser, so an exception from `newPage` leaves the launched browser open | a POST with a non-empty `url` and no `CAPTURE_TOKEN` set, where the browser launches and `newPage` throws | the browser is closed on every exit after it was launched | not executed | CaptureWorker.HandleAsWritten | CaptureWorker.HandleRequest |
