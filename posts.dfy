/** Posts and their suggestions (convex/posts.ts): creating a post, recording an analysis
    or its failure, resetting it, and the rule that picks a post's current batch of
    suggestions. */
module Posts {
  import opened Wrappers
  import opened Seqs
  import opened Database
  import Concepts

  /** `LATEST_SUGGESTION_WINDOW_MS`. */
  const LatestWindowMs: int := 2000

  /** The largest timestamp of a non-empty sequence. */
  function MaxCreatedAt<T>(items: seq<T>, at: T -> Time): Time
    requires items != []
    decreases |items|
  {
    if |items| == 1 then at(items[0])
    else
      var m := MaxCreatedAt(items[..|items| - 1], at);
      var last := at(items[|items| - 1]);
      if last > m then last else m
  }

  lemma {:induction false} MaxCreatedAtIsMax<T>(items: seq<T>, at: T -> Time)
    requires items != []
    ensures forall k | 0 <= k < |items| :: at(items[k]) <= MaxCreatedAt(items, at)
    ensures exists k | 0 <= k < |items| :: at(items[k]) == MaxCreatedAt(items, at)
    decreases |items|
  {
    if |items| > 1 {
      var init := items[..|items| - 1];
      MaxCreatedAtIsMax(init, at);
      assert forall k | 0 <= k < |init| :: items[k] == init[k];
      if MaxCreatedAt(items, at) == MaxCreatedAt(init, at) {
        var k :| 0 <= k < |init| && at(init[k]) == MaxCreatedAt(init, at);
        assert at(items[k]) == MaxCreatedAt(items, at);
      } else {
        assert at(items[|items| - 1]) == MaxCreatedAt(items, at);
      }
    } else {
      assert at(items[0]) == MaxCreatedAt(items, at);
    }
  }

  /** The items stamped `threshold` or later, in order: `items.filter`. */
  function AtLeast<T>(items: seq<T>, at: T -> Time, threshold: Time): seq<T>
    decreases |items|
  {
    if items == [] then []
    else
      var last := items[|items| - 1];
      AtLeast(items[..|items| - 1], at, threshold) + (if at(last) >= threshold then [last] else [])
  }

  lemma {:induction false} AtLeastSpec<T>(items: seq<T>, at: T -> Time, threshold: Time)
    ensures IsSubsequence(AtLeast(items, at, threshold), items)
    ensures forall x :: x in AtLeast(items, at, threshold) <==> x in items && at(x) >= threshold
    ensures (forall k | 0 <= k < |items| :: at(items[k]) >= threshold) ==> AtLeast(items, at, threshold) == items
    decreases |items|
  {
    if items != [] {
      var init := items[..|items| - 1];
      var last := items[|items| - 1];
      AtLeastSpec(init, at, threshold);
      assert items == init + [last];
      SubsequenceSnoc(AtLeast(init, at, threshold), init, last, at(last) >= threshold);
    }
  }

  /** A subsequence of `ys` extended by an element, or not, is one of `ys + [y]`. */
  lemma {:induction false} SubsequenceSnoc<T>(xs: seq<T>, ys: seq<T>, y: T, keep: bool)
    requires IsSubsequence(xs, ys)
    ensures IsSubsequence(xs + (if keep then [y] else []), ys + [y])
    decreases |ys|
  {
    if ys == [] {
      if keep {
        assert xs + [y] == [y];
        assert (ys + [y])[1..] == [];
      }
    } else if xs == [] {
      assert (ys + [y])[1..] == ys[1..] + [y];
      SubsequenceSnoc(xs, ys[1..], y, keep);
      if keep {
        assert [] + [y] == [y];
      }
    } else {
      var xs' := xs + (if keep then [y] else []);
      assert (ys + [y])[1..] == ys[1..] + [y];
      assert xs'[0] == xs[0];
      if xs[0] == ys[0] && IsSubsequence(xs[1..], ys[1..]) {
        SubsequenceSnoc(xs[1..], ys[1..], y, keep);
        assert xs'[1..] == xs[1..] + (if keep then [y] else []);
      } else {
        SubsequenceSnoc(xs, ys[1..], y, keep);
      }
    }
  }

  /** The batch `pickLatestSuggestions` keeps: the items stamped at most two seconds
      before the newest one. */
  function LatestBatch<T>(items: seq<T>, at: T -> Time): seq<T> {
    if items == [] then [] else AtLeast(items, at, MaxCreatedAt(items, at) - LatestWindowMs)
  }

  /** Empty stays empty; otherwise the batch holds, in their order, exactly the items
      within two seconds of the newest, so the newest item is always kept. */
  lemma LatestBatchSpec<T>(items: seq<T>, at: T -> Time)
    ensures items == [] ==> LatestBatch(items, at) == []
    ensures IsSubsequence(LatestBatch(items, at), items)
    ensures items != [] ==>
              forall x :: x in LatestBatch(items, at) <==> x in items && at(x) >= MaxCreatedAt(items, at) - LatestWindowMs
    ensures items != [] ==> exists x | x in LatestBatch(items, at) :: at(x) == MaxCreatedAt(items, at)
  {
    if items == [] {
      SubsequenceOfSelf(items);
    } else {
      AtLeastSpec(items, at, MaxCreatedAt(items, at) - LatestWindowMs);
      MaxCreatedAtIsMax(items, at);
      var k :| 0 <= k < |items| && at(items[k]) == MaxCreatedAt(items, at);
      assert items[k] in LatestBatch(items, at);
    }
  }

  /** The batch has the same newest timestamp as the items. */
  lemma LatestBatchKeepsMax<T>(items: seq<T>, at: T -> Time)
    requires items != []
    ensures LatestBatch(items, at) != []
    ensures MaxCreatedAt(LatestBatch(items, at), at) == MaxCreatedAt(items, at)
  {
    var batch := LatestBatch(items, at);
    var m := MaxCreatedAt(items, at);
    LatestBatchSpec(items, at);
    var x :| x in batch && at(x) == m;
    var i :| 0 <= i < |batch| && batch[i] == x;
    MaxCreatedAtIsMax(batch, at);
    var mb := MaxCreatedAt(batch, at);
    assert m <= mb by {
      assert at(batch[i]) <= mb;
    }
    var j :| 0 <= j < |batch| && at(batch[j]) == mb;
    assert mb <= m by {
      assert batch[j] in batch;
      assert batch[j] in items;
      var k :| 0 <= k < |items| && items[k] == batch[j];
      MaxCreatedAtIsMax(items, at);
      assert at(items[k]) <= m;
    }
  }

  /** Picking the batch again changes nothing: the newest item survives, so the
      threshold is the same, and every kept item passes it. */
  lemma LatestBatchIdempotent<T>(items: seq<T>, at: T -> Time)
    ensures LatestBatch(LatestBatch(items, at), at) == LatestBatch(items, at)
  {
    if items != [] {
      var batch := LatestBatch(items, at);
      var m := MaxCreatedAt(items, at);
      var t := m - LatestWindowMs;
      LatestBatchKeepsMax(items, at);
      assert LatestBatch(batch, at) == AtLeast(batch, at, t);
      AtLeastSpec(items, at, t);
      forall k | 0 <= k < |batch|
        ensures at(batch[k]) >= t
      {
        assert batch[k] in AtLeast(items, at, t);
      }
      AtLeastSpec(batch, at, t);
    }
  }

  /** `pickLatestSuggestions`: the loop that finds the newest timestamp, then the filter. */
  method PickLatestSuggestions<T>(items: seq<T>, at: T -> Time) returns (r: seq<T>)
    ensures r == LatestBatch(items, at)
  {
    if |items| == 0 {
      return items;
    }
    var newest := at(items[0]);
    for i := 0 to |items|
      invariant i == 0 ==> newest == at(items[0])
      invariant i > 0 ==> newest == MaxCreatedAt(items[..i], at)
    {
      assert items[..i + 1][..i] == items[..i];
      if at(items[i]) > newest {
        newest := at(items[i]);
      }
    }
    assert items[..|items|] == items;
    r := AtLeast(items, at, newest - LatestWindowMs);
  }

  /** `createPost` for the signed-in user `userId`: one pending manual post. */
  method CreatePost(db: Db, userId: Id, text: string, url: Option<string>, now: Time) returns (postId: Id)
    requires db.Valid()
    modifies db`posts, db`nextId
    ensures db.Valid()
    ensures postId == old(db.nextId) && db.nextId == postId + 1
    ensures db.posts == old(db.posts)[postId := Post(userId, None, None, text, url, Some(Manual), Pending, now)]
  {
    postId := db.nextId;
    db.posts, db.nextId := db.posts[postId := Post(userId, None, None, text, url, Some(Manual), Pending, now)], postId + 1;
  }

  /** `replace(/^@/, "")`: one leading "@" removed. */
  function StripLeadingAt(handle: string): string {
    if handle != [] && handle[0] == '@' then handle[1..] else handle
  }

  /** Only one "@" is removed, and only at the start: putting it back gives the handle. */
  lemma StripLeadingAtSpec(handle: string)
    ensures handle != [] && handle[0] == '@' ==> "@" + StripLeadingAt(handle) == handle
    ensures handle == [] || handle[0] != '@' ==> StripLeadingAt(handle) == handle
    ensures handle == "@@x" ==> StripLeadingAt(handle) == "@x"
  {
    if handle != [] && handle[0] == '@' {
      assert "@" + handle[1..] == handle;
    }
  }

  /** `args.authorHandle?.replace(/^@/, "")`. */
  function NormalizedHandle(authorHandle: Option<string>): Option<string> {
    if authorHandle.Some? then Some(StripLeadingAt(authorHandle.value)) else None
  }

  /** `createPostInternal` for the signed-in user `userId`: one pending post with the
      handle stripped of one leading "@". */
  method CreatePostInternal(db: Db, userId: Id, text: string, url: Option<string>, source: Option<PostSource>,
                            authorHandle: Option<string>, now: Time) returns (postId: Id)
    requires db.Valid()
    modifies db`posts, db`nextId
    ensures db.Valid()
    ensures postId == old(db.nextId) && db.nextId == postId + 1
    ensures db.posts == old(db.posts)[postId := Post(userId, None, NormalizedHandle(authorHandle), text, url, source, Pending, now)]
  {
    postId := db.nextId;
    var post := Post(userId, None, NormalizedHandle(authorHandle), text, url, source, Pending, now);
    db.posts, db.nextId := db.posts[postId := post], postId + 1;
  }

  /** One element of `applyAnalysis`' `suggestions` argument. */
  datatype SuggestionInput = SuggestionInput(conceptId: Id, score: real, rationale: string)

  /** The suggestions `applyAnalysis` inserts, one per input, in order. */
  function SuggestionsFor(postId: Id, inputs: seq<SuggestionInput>, now: Time): (r: seq<Suggestion>)
    ensures |r| == |inputs|
  {
    seq(|inputs|, k requires 0 <= k < |inputs| => Suggestion(postId, inputs[k].conceptId, inputs[k].score, inputs[k].rationale, now))
  }

  /** The suggestions inserted for an analysis are one per input, under consecutive ids
      from `next`, each carrying the post and the input's concept, score and rationale;
      the other suggestions are kept. */
  lemma AppliedSuggestions(rows: map<Id, Suggestion>, next: nat, postId: Id, inputs: seq<SuggestionInput>, now: Time)
    requires forall id | id in rows :: id < next
    ensures var after := InsertAll(rows, next, SuggestionsFor(postId, inputs, now));
            && (forall id | id in rows :: id in after && after[id] == rows[id])
            && (forall id | next <= id < next + |inputs| ::
                  id !in rows && id in after
                  && after[id] == Suggestion(postId, inputs[id - next].conceptId, inputs[id - next].score, inputs[id - next].rationale, now))
            && (forall id | id in after && id !in rows :: next <= id < next + |inputs| && after[id].postId == postId)
  {
    var vals := SuggestionsFor(postId, inputs, now);
    InsertAllSpec(rows, next, vals);
  }

  /** `applyAnalysis`: the suggestions are inserted in a loop, then the post is patched to
      "analyzed" with the given author, which replaces the one it had (an absent author
      clears it). A patch of a missing post throws and the inserts are rolled back. */
  method ApplyAnalysis(db: Db, postId: Id, authorId: Option<Id>, inputs: seq<SuggestionInput>, now: Time)
    returns (r: Result<()>)
    requires db.Valid()
    modifies db`posts, db`suggestions, db`nextId
    ensures db.Valid()
    ensures r.Failure? <==> postId !in old(db.posts)
    ensures r.Failure? ==> r.error == MissingDocumentError && unchanged(db)
    ensures r.Success? ==>
              && db.suggestions == InsertAll(old(db.suggestions), old(db.nextId), SuggestionsFor(postId, inputs, now))
              && db.nextId == old(db.nextId) + |inputs|
              && db.posts == old(db.posts)[postId := old(db.posts)[postId].(authorId := authorId, status := Analyzed)]
  {
    var rows, next := InsertEach(db.suggestions, db.nextId, SuggestionsFor(postId, inputs, now));
    if postId !in db.posts {
      return Failure(MissingDocumentError);
    }
    InsertAllSpec(db.suggestions, db.nextId, SuggestionsFor(postId, inputs, now));
    db.suggestions, db.nextId := rows, next;
    db.posts := db.posts[postId := db.posts[postId].(authorId := authorId, status := Analyzed)];
    r := Success(());
  }

  /** The name and rationale of the placeholder `markFailed` records. */
  const AnalysisFailed := "Analysis failed"

  /** The placeholder concept for a failure with this reason; it is pending. */
  function FailureConcept(reason: string, now: Time): Concept {
    Concept(AnalysisFailed, Some(reason), [], ConceptPending, now)
  }

  /** A reason is recorded when it is a non-empty string: `if (args.reason)`. */
  predicate Recorded(reason: Option<string>) {
    reason.Some? && reason.value != ""
  }

  /** `markFailed`: the post is patched to "failed"; with a reason, a pending "Analysis
      failed" concept is inserted, then a zero-score suggestion linking the post to it. */
  method MarkFailed(db: Db, postId: Id, reason: Option<string>, now: Time) returns (r: Result<()>)
    requires db.Valid()
    modifies db`posts, db`concepts, db`suggestions, db`nextId
    ensures db.Valid()
    ensures r.Failure? <==> postId !in old(db.posts)
    ensures r.Failure? ==> r.error == MissingDocumentError && unchanged(db)
    ensures r.Success? ==> db.posts == old(db.posts)[postId := old(db.posts)[postId].(status := Failed)]
    ensures r.Success? && !Recorded(reason) ==>
              db.concepts == old(db.concepts) && db.suggestions == old(db.suggestions) && db.nextId == old(db.nextId)
    ensures r.Success? && Recorded(reason) ==>
              var conceptId := old(db.nextId);
              && db.concepts == old(db.concepts)[conceptId := FailureConcept(reason.value, now)]
              && db.suggestions == old(db.suggestions)[conceptId + 1 := Suggestion(postId, conceptId, 0.0, AnalysisFailed, now)]
              && db.nextId == conceptId + 2
  {
    if postId !in db.posts {
      return Failure(MissingDocumentError);
    }
    db.posts := db.posts[postId := db.posts[postId].(status := Failed)];
    if Recorded(reason) {
      var conceptId := db.nextId;
      db.concepts, db.nextId := db.concepts[conceptId := FailureConcept(reason.value, now)], conceptId + 1;
      var suggestionId := db.nextId;
      db.suggestions, db.nextId := db.suggestions[suggestionId := Suggestion(postId, conceptId, 0.0, AnalysisFailed, now)], suggestionId + 1;
    }
    r := Success(());
  }

  /** The placeholder concept is pending, so it never joins the active catalogue that
      `listConcepts` shows, and no name look-up other than "Analysis failed" changes. */
  lemma FailureConceptNotListed(concepts: map<Id, Concept>, next: nat, reason: string, now: Time)
    requires forall id | id in concepts :: id < next
    ensures Select(concepts[next := FailureConcept(reason, now)], next + 1, Concepts.IsActive)
         == Select(concepts, next, Concepts.IsActive)
    ensures forall name | name != AnalysisFailed ::
              Concepts.Named(concepts[next := FailureConcept(reason, now)], next + 1, name) == Concepts.Named(concepts, next, name)
  {
    SelectAfterInsert(concepts, next, Concepts.IsActive, FailureConcept(reason, now));
    forall name | name != AnalysisFailed
      ensures Concepts.Named(concepts[next := FailureConcept(reason, now)], next + 1, name) == Concepts.Named(concepts, next, name)
    {
      SelectAfterInsert(concepts, next, Concepts.NamedAs(name), FailureConcept(reason, now));
    }
  }

  const PostNotFound := "Post not found."

  function OfPost(postId: Id): Suggestion -> bool {
    (s: Suggestion) => s.postId == postId
  }

  function OnSuggestion(suggestionId: Id): Feedback -> bool {
    (f: Feedback) => f.suggestionId == suggestionId
  }

  /** The suggestions of every post but `postId`. */
  function WithoutPost(suggestions: map<Id, Suggestion>, postId: Id): map<Id, Suggestion> {
    map id | id in suggestions && suggestions[id].postId != postId :: suggestions[id]
  }

  /** The feedback on suggestions other than those of `postId`. */
  function WithoutFeedbackOnPost(feedback: map<Id, Feedback>, suggestions: map<Id, Suggestion>, postId: Id): map<Id, Feedback> {
    map id | id in feedback && !(feedback[id].suggestionId in suggestions && suggestions[feedback[id].suggestionId].postId == postId)
      :: feedback[id]
  }

  /** The feedback whose suggestion is not among `removed`. */
  function WithoutFeedbackOn(feedback: map<Id, Feedback>, removed: seq<Id>): map<Id, Feedback> {
    map id | id in feedback && feedback[id].suggestionId !in removed :: feedback[id]
  }

  /** The documents whose id is not among `removed`. */
  function WithoutIds<T>(rows: map<Id, T>, removed: seq<Id>): map<Id, T> {
    map id | id in rows && id !in removed :: rows[id]
  }

  lemma WithoutIdsSnoc<T>(rows: map<Id, T>, removed: seq<Id>, x: Id)
    ensures WithoutIds(rows, removed + [x]) == WithoutIds(rows, removed) - {x}
  {
  }

  lemma WithoutFeedbackOnSnoc(feedback: map<Id, Feedback>, removed: seq<Id>, x: Id)
    ensures WithoutFeedbackOn(feedback, removed + [x])
         == map id | id in WithoutFeedbackOn(feedback, removed) && WithoutFeedbackOn(feedback, removed)[id].suggestionId != x
              :: WithoutFeedbackOn(feedback, removed)[id]
  {
  }

  /** The inner loop: deletes the feedback the `bySuggestion` query returns. */
  method DeleteFeedbackOn(feedback: map<Id, Feedback>, bound: nat, suggestionId: Id)
    returns (after: map<Id, Feedback>)
    requires forall id | id in feedback :: id < bound
    ensures after == map id | id in feedback && feedback[id].suggestionId != suggestionId :: feedback[id]
  {
    var entries := Select(feedback, bound, OnSuggestion(suggestionId));
    SelectMembers(feedback, bound, OnSuggestion(suggestionId));
    after := feedback;
    for j := 0 to |entries|
      invariant after == WithoutIds(feedback, entries[..j])
    {
      assert entries[..j + 1] == entries[..j] + [entries[j]];
      WithoutIdsSnoc(feedback, entries[..j], entries[j]);
      after := after - {entries[j]};
    }
    assert entries[..|entries|] == entries;
  }

  /** Deleting every suggestion the `byPost` query returns, and the feedback on each,
      removes exactly the post's suggestions and the feedback on them. */
  lemma RemovedAreThePostsSuggestions(suggestions: map<Id, Suggestion>, feedback: map<Id, Feedback>, bound: nat, postId: Id)
    requires forall id | id in suggestions :: id < bound
    ensures WithoutIds(suggestions, Select(suggestions, bound, OfPost(postId))) == WithoutPost(suggestions, postId)
    ensures WithoutFeedbackOn(feedback, Select(suggestions, bound, OfPost(postId))) == WithoutFeedbackOnPost(feedback, suggestions, postId)
  {
    SelectMembers(suggestions, bound, OfPost(postId));
  }

  /** The nested delete loops of `resetPostAnalysis`, on the tables as the transaction
      sees them. */
  method DeleteAnalysis(suggestions: map<Id, Suggestion>, feedback: map<Id, Feedback>, bound: nat, postId: Id)
    returns (suggestions': map<Id, Suggestion>, feedback': map<Id, Feedback>)
    requires forall id | id in suggestions :: id < bound
    requires forall id | id in feedback :: id < bound
    ensures suggestions' == WithoutPost(suggestions, postId)
    ensures feedback' == WithoutFeedbackOnPost(feedback, suggestions, postId)
  {
    var removed := Select(suggestions, bound, OfPost(postId));
    suggestions', feedback' := suggestions, feedback;
    for i := 0 to |removed|
      invariant suggestions' == WithoutIds(suggestions, removed[..i])
      invariant feedback' == WithoutFeedbackOn(feedback, removed[..i])
      invariant forall id | id in feedback' :: id < bound
    {
      assert removed[..i + 1] == removed[..i] + [removed[i]];
      WithoutIdsSnoc(suggestions, removed[..i], removed[i]);
      WithoutFeedbackOnSnoc(feedback, removed[..i], removed[i]);
      feedback' := DeleteFeedbackOn(feedback', bound, removed[i]);
      suggestions' := suggestions' - {removed[i]};
    }
    assert removed[..|removed|] == removed;
    RemovedAreThePostsSuggestions(suggestions, feedback, bound, postId);
  }

  /** `resetPostAnalysis` for the signed-in user `userId`: only the owner's existing post
      can be reset; its suggestions and the feedback on them are deleted and it becomes
      pending again. */
  method ResetPostAnalysis(db: Db, userId: Id, postId: Id) returns (r: Result<()>)
    requires db.Valid()
    modifies db`posts, db`suggestions, db`feedback
    ensures db.Valid()
    ensures r.Failure? <==> postId !in old(db.posts) || old(db.posts)[postId].userId != userId
    ensures r.Failure? ==> r.error == PostNotFound && unchanged(db)
    ensures r.Success? ==>
              && db.suggestions == WithoutPost(old(db.suggestions), postId)
              && db.feedback == WithoutFeedbackOnPost(old(db.feedback), old(db.suggestions), postId)
              && db.posts == old(db.posts)[postId := old(db.posts)[postId].(status := Pending)]
  {
    if postId !in db.posts || db.posts[postId].userId != userId {
      return Failure(PostNotFound);
    }
    var suggestions, feedback := DeleteAnalysis(db.suggestions, db.feedback, db.nextId, postId);
    db.suggestions, db.feedback := suggestions, feedback;
    db.posts := db.posts[postId := db.posts[postId].(status := Pending)];
    r := Success(());
  }

  /** After a reset no suggestion of the post is left, every other suggestion is kept,
      no remaining feedback points at a suggestion the reset deleted, and votes stay
      unique. */
  lemma ResetLeavesNoTrace(suggestions: map<Id, Suggestion>, feedback: map<Id, Feedback>, postId: Id)
    ensures forall id | id in WithoutPost(suggestions, postId) :: WithoutPost(suggestions, postId)[id].postId != postId
    ensures forall id | id in suggestions && suggestions[id].postId != postId ::
              id in WithoutPost(suggestions, postId) && WithoutPost(suggestions, postId)[id] == suggestions[id]
    ensures forall id | id in WithoutFeedbackOnPost(feedback, suggestions, postId) ::
              var sid := WithoutFeedbackOnPost(feedback, suggestions, postId)[id].suggestionId;
              sid in suggestions ==> sid in WithoutPost(suggestions, postId)
    ensures UniqueVotes(feedback) ==> UniqueVotes(WithoutFeedbackOnPost(feedback, suggestions, postId))
  {
  }
}
