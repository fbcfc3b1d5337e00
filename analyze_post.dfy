/** The `analyzePost` action (convex/analysis.ts): extract concepts from a stored post,
    upsert them, link the post's author, and store the suggestions, or mark the post as
    failed when a step throws. Each query and mutation it runs is a call into the
    modules of those files. */
module AnalyzePost {
  import opened Wrappers
  import opened Database
  import opened Analysis
  import opened LlmExtract
  import Concepts
  import Authors
  import Feedback
  import Posts

  /** The action asks for at most this many downvoted concept names. */
  const AvoidLimit: nat := 40

  /** The action's answer: `{ status: "missing" | "ok" | "failed" }`. */
  datatype Status = Missing | Ok | Failed

  /** `"Category: " + category` when a concept comes without a description. */
  function DescriptionOf(c: ConceptSuggestion): Option<string> {
    if c.description.Some? then c.description
    else if c.category.Some? && c.category.value != "" then Some("Category: " + c.category.value)
    else None
  }

  /** The `upsertConcepts` payload: one active concept without aliases per extracted
      concept, in order. */
  function Payload(cs: seq<ConceptSuggestion>): seq<Concepts.ConceptInput> {
    seq(|cs|, k requires 0 <= k < |cs| => Concepts.ConceptInput(cs[k].name, DescriptionOf(cs[k]), [], Some(ConceptActive)))
  }

  /** The `applyAnalysis` suggestions: the k-th concept's id with its score and rationale. */
  function Inputs(cs: seq<ConceptSuggestion>, conceptIds: seq<Id>): seq<Posts.SuggestionInput>
    requires |conceptIds| == |cs|
  {
    seq(|cs|, k requires 0 <= k < |cs| => Posts.SuggestionInput(conceptIds[k], cs[k].score, cs[k].rationale))
  }

  /** `analysis.authorHandle ?? post.authorHandle`: only a missing handle falls back. */
  function HandleFor(analysis: AnalysisResult, post: Post): Option<string> {
    if analysis.authorHandle.Some? then analysis.authorHandle else post.authorHandle
  }

  /** What the extractor answers for `post`, given the user's downvoted names. */
  ghost function AnalysisFor(db: Db, post: Post, reply: Reply): Result<AnalysisResult>
    reads db
  {
    LlmResult(post.text, Some(Feedback.DownvotedNames(db.feedback, db.suggestions, db.concepts, db.nextId,
                                                       post.userId, AvoidLimit)), reply)
  }

  /** Some extracted name already names two concepts, so `upsertConcepts` throws. */
  ghost predicate NameConflict(concepts: map<Id, Concept>, bound: nat, cs: seq<ConceptSuggestion>) {
    exists k | 0 <= k < |cs| :: |Concepts.Named(concepts, bound, cs[k].name)| > 1
  }

  /** The reason a failing run records: the extractor's message, or the `.unique()`
      error of the concept upsert. */
  ghost function FailureReason(analysis: Result<AnalysisResult>): string {
    if analysis.Failure? then analysis.error else UniqueError
  }

  /** The payload keeps each concept's name, is active and has no aliases; a concept's
      own description wins over its category. */
  lemma PayloadSpec(cs: seq<ConceptSuggestion>)
    ensures |Payload(cs)| == |cs|
    ensures forall k | 0 <= k < |cs| ::
              && Payload(cs)[k].name == cs[k].name
              && Payload(cs)[k].status == Some(ConceptActive) && Payload(cs)[k].aliases == []
              && (cs[k].description.Some? ==> Payload(cs)[k].description == cs[k].description)
              && (cs[k].description.None? && cs[k].category.Some? && cs[k].category.value != "" ==>
                    Payload(cs)[k].description == Some("Category: " + cs[k].category.value))
              && (cs[k].description.None? && (cs[k].category.None? || cs[k].category.value == "") ==>
                    Payload(cs)[k].description.None?)
  {
  }

  /** Every row of `before` is in `after`, unchanged. */
  ghost predicate Keeps<T>(before: map<Id, T>, after: map<Id, T>) {
    forall id | id in before :: id in after && after[id] == before[id]
  }

  /** `conceptIds[k]` is a concept named like the k-th extracted concept. */
  ghost predicate NamesAre(concepts: map<Id, Concept>, conceptIds: seq<Id>, cs: seq<ConceptSuggestion>) {
    && |conceptIds| == |cs|
    && forall k | 0 <= k < |cs| :: conceptIds[k] in concepts && concepts[conceptIds[k]].name == cs[k].name
  }

  /** Every concept row in `after` and not in `before` is the new concept made from the
      payload entry whose id it is. */
  ghost predicate NewRowsFrom(before: map<Id, Concept>, after: map<Id, Concept>, conceptIds: seq<Id>,
                              cs: seq<ConceptSuggestion>, now: Time)
  {
    && |conceptIds| == |cs|
    && forall id | id in after && id !in before ::
         exists k | 0 <= k < |cs| :: conceptIds[k] == id && after[id] == Concepts.NewConcept(Payload(cs)[k], now)
  }

  /** The `upsertConcepts` call: it throws exactly on a name conflict and writes nothing
      then; otherwise every extracted concept gets the id of a concept with its name, and
      every concept it inserts is made from the payload entry it answers. */
  method UpsertPayload(db: Db, cs: seq<ConceptSuggestion>, now: Time) returns (r: Result<seq<Id>>)
    requires db.Valid()
    modifies db`concepts, db`nextId
    ensures db.Valid()
    ensures r.Failure? <==> NameConflict(old(db.concepts), old(db.nextId), cs)
    ensures r.Failure? ==> r.error == UniqueError && db.concepts == old(db.concepts) && db.nextId == old(db.nextId)
    ensures r.Success? ==> NamesAre(db.concepts, r.value, cs) && Keeps(old(db.concepts), db.concepts)
    ensures r.Success? ==> NewRowsFrom(old(db.concepts), db.concepts, r.value, cs, now)
    ensures old(db.nextId) <= db.nextId
  {
    var payload := Payload(cs);
    r := Concepts.UpsertConcepts(db, payload, now);
    if r.Success? {
      forall k | 0 <= k < |cs|
        ensures r.value[k] in db.concepts && db.concepts[r.value[k]].name == cs[k].name
      {
        SelectMembers(db.concepts, db.nextId, Concepts.NamedAs(payload[k].name));
        assert r.value[k] in Concepts.Named(db.concepts, db.nextId, payload[k].name);
      }
    }
  }

  /** What the author step leaves: with a non-empty handle, `upsertAuthor` (without a
      display name) has run and its id is linked; otherwise no author is linked and
      nothing is written. */
  ghost predicate AuthorLinked(before: map<Id, Author>, beforeNext: nat, handle: Option<string>, now: Time,
                               authorId: Option<Id>, after: map<Id, Author>, afterNext: nat)
  {
    if handle.Some? && handle.value != "" then
      authorId.Some? && Authors.AuthorUpserted(before, beforeNext, handle.value, None, now, authorId.value, after, afterNext)
    else
      authorId.None? && after == before && afterNext == beforeNext
  }

  /** The author step: with a non-empty handle, `upsertAuthor` gives the author's id. */
  method LinkAuthor(db: Db, handle: Option<string>, now: Time) returns (authorId: Option<Id>)
    requires db.Valid()
    modifies db`authors, db`nextId
    ensures db.Valid()
    ensures AuthorLinked(old(db.authors), old(db.nextId), handle, now, authorId, db.authors, db.nextId)
    ensures authorId.Some? ==> authorId.value in db.authors && db.authors[authorId.value].handle == handle.value
  {
    authorId := None;
    if handle.Some? && handle.value != "" {
      var id := Authors.UpsertAuthor(db, handle.value, None, now);
      authorId := Some(id);
    }
  }

  /** The tables the action writes, with the id counter. */
  datatype Tables = Tables(posts: map<Id, Post>, concepts: map<Id, Concept>, authors: map<Id, Author>,
                          suggestions: map<Id, Suggestion>, nextId: nat)

  function TablesOf(db: Db): Tables
    reads db
  {
    Tables(db.posts, db.concepts, db.authors, db.suggestions, db.nextId)
  }

  /** What `markFailed` with `reason` leaves: the post is failed, and a non-empty reason
      is recorded as a pending "Analysis failed" concept linked to the post by a
      zero-score suggestion. */
  ghost predicate MarkedFailed(before: Tables, after: Tables, postId: Id, reason: string, now: Time) {
    && postId in before.posts
    && after.authors == before.authors
    && after.posts == before.posts[postId := before.posts[postId].(status := PostStatus.Failed)]
    && if reason != "" then
         && after.concepts == before.concepts[before.nextId := Posts.FailureConcept(reason, now)]
         && after.suggestions == before.suggestions[before.nextId + 1 :=
                                   Suggestion(postId, before.nextId, 0.0, Posts.AnalysisFailed, now)]
         && after.nextId == before.nextId + 2
       else
         after.concepts == before.concepts && after.suggestions == before.suggestions && after.nextId == before.nextId
  }

  /** What a successful run leaves: each extracted concept has the id of a concept with
      its name, and each concept inserted is made from its payload entry; the concept
      upsert leaves the counter at `mid`, from which the author step runs `upsertAuthor`
      when there is a non-empty handle; the post is analysed, and one suggestion per
      extracted concept is stored under the ids from `first` on. Nothing already stored
      is changed except the post. */
  ghost predicate Stored(before: Tables, after: Tables, postId: Id, analysis: AnalysisResult,
                         conceptIds: seq<Id>, authorId: Option<Id>, mid: nat, first: Id, now: Time)
  {
    && postId in before.posts
    && var handle := HandleFor(analysis, before.posts[postId]);
    && NamesAre(after.concepts, conceptIds, analysis.concepts)
    && Keeps(before.concepts, after.concepts)
    && NewRowsFrom(before.concepts, after.concepts, conceptIds, analysis.concepts, now)
    && before.nextId <= mid
    && AuthorLinked(before.authors, mid, handle, now, authorId, after.authors, first)
    && after.posts == before.posts[postId := before.posts[postId].(authorId := authorId, status := Analyzed)]
    && after.nextId == first + |analysis.concepts|
    && SuggestionsStored(before, after, postId, analysis, conceptIds, first, now)
  }

  /** The suggestion part of `Stored`: one suggestion per extracted concept, on the post,
      pointing at a concept with its name, inserted under the ids from `first` on. */
  ghost predicate SuggestionsStored(before: Tables, after: Tables, postId: Id, analysis: AnalysisResult,
                                    conceptIds: seq<Id>, first: Id, now: Time)
  {
    && NamesAre(after.concepts, conceptIds, analysis.concepts)
    && before.nextId <= first
    && after.suggestions == InsertAll(before.suggestions, first,
                                      Posts.SuggestionsFor(postId, Inputs(analysis.concepts, conceptIds), now))
  }

  /** After a successful run the post carries, under fresh ids, one suggestion per
      extracted concept, with its score and rationale, pointing at a concept with its
      name; the suggestions stored before are all still there. `Stored` includes the
      `SuggestionsStored` this lemma requires. */
  lemma StoredSuggestions(before: Tables, after: Tables, postId: Id, analysis: AnalysisResult,
                          conceptIds: seq<Id>, first: Id, now: Time)
    requires SuggestionsStored(before, after, postId, analysis, conceptIds, first, now)
    requires forall id | id in before.suggestions :: id < before.nextId
    ensures Keeps(before.suggestions, after.suggestions)
    ensures forall id | first <= id < first + |analysis.concepts| ::
              && id !in before.suggestions && id in after.suggestions
              && after.suggestions[id].postId == postId
              && after.suggestions[id].score == analysis.concepts[id - first].score
              && after.suggestions[id].rationale == analysis.concepts[id - first].rationale
              && after.suggestions[id].conceptId in after.concepts
              && after.concepts[after.suggestions[id].conceptId].name == analysis.concepts[id - first].name
    ensures forall id | id in after.suggestions && id !in before.suggestions :: first <= id < first + |analysis.concepts|
  {
    var cs := analysis.concepts;
    var vals := Posts.SuggestionsFor(postId, Inputs(cs, conceptIds), now);
    InsertAllSpec(before.suggestions, first, vals);
    assert |vals| == |cs|;
    assert after.suggestions == InsertAll(before.suggestions, first, vals);
    forall id | first <= id < first + |cs|
      ensures && id !in before.suggestions && id in after.suggestions
              && after.suggestions[id].postId == postId
              && after.suggestions[id].score == cs[id - first].score
              && after.suggestions[id].rationale == cs[id - first].rationale
              && after.suggestions[id].conceptId in after.concepts
              && after.concepts[after.suggestions[id].conceptId].name == cs[id - first].name
    {
      var k := id - first;
      assert after.suggestions[id] == vals[k];
      assert vals[k].conceptId == conceptIds[k];
    }
  }

  /** After a successful run every concept row added is, for some extracted concept, an
      active concept with its name, no aliases, the payload description and the run's
      time, and that concept's id is the row's. */
  lemma StoredConcepts(before: Tables, after: Tables, postId: Id, analysis: AnalysisResult,
                       conceptIds: seq<Id>, authorId: Option<Id>, mid: nat, first: Id, now: Time)
    requires Stored(before, after, postId, analysis, conceptIds, authorId, mid, first, now)
    ensures Keeps(before.concepts, after.concepts)
    ensures forall id | id in after.concepts && id !in before.concepts ::
              exists k | 0 <= k < |analysis.concepts| ::
                && conceptIds[k] == id
                && after.concepts[id] == Concept(analysis.concepts[k].name, DescriptionOf(analysis.concepts[k]),
                                                 [], ConceptActive, now)
  {
    var cs := analysis.concepts;
    forall id | id in after.concepts && id !in before.concepts
      ensures exists k | 0 <= k < |cs| ::
                conceptIds[k] == id && after.concepts[id] == Concept(cs[k].name, DescriptionOf(cs[k]), [], ConceptActive, now)
    {
      var k :| 0 <= k < |cs| && conceptIds[k] == id && after.concepts[id] == Concepts.NewConcept(Payload(cs)[k], now);
      PayloadSpec(cs);
    }
  }

  /** After a successful run the authors table is unchanged, except that a non-empty
      handle no author had before is added, under a fresh id, as an author without a
      display name; the linked author is the one with the handle. */
  lemma StoredAuthor(before: Tables, after: Tables, postId: Id, analysis: AnalysisResult,
                     conceptIds: seq<Id>, authorId: Option<Id>, mid: nat, first: Id, now: Time)
    requires Stored(before, after, postId, analysis, conceptIds, authorId, mid, first, now)
    requires forall a | a in before.authors :: a < before.nextId
    ensures var handle := HandleFor(analysis, before.posts[postId]);
            if handle.Some? && handle.value != "" && !Authors.HasHandle(before.authors, handle.value) then
              && authorId.Some? && authorId.value !in before.authors
              && after.authors == before.authors[authorId.value := Author(handle.value, None, now)]
            else
              && after.authors == before.authors
              && (authorId.Some? <==> handle.Some? && handle.value != "")
              && (authorId.Some? ==> authorId.value in before.authors && before.authors[authorId.value].handle == handle.value)
  {
  }

  /** The author and suggestion steps, once the concepts are upserted. */
  method Record(db: Db, postId: Id, post: Post, analysis: AnalysisResult, conceptIds: seq<Id>, now: Time)
    returns (authorId: Option<Id>, first: Id)
    requires db.Valid() && postId in db.posts && db.posts[postId] == post
    requires NamesAre(db.concepts, conceptIds, analysis.concepts)
    modifies db`posts, db`suggestions, db`authors, db`nextId
    ensures db.Valid()
    ensures AuthorLinked(old(db.authors), old(db.nextId), HandleFor(analysis, post), now, authorId, db.authors, first)
    ensures db.posts == old(db.posts)[postId := post.(authorId := authorId, status := Analyzed)]
    ensures old(db.nextId) <= first && db.nextId == first + |analysis.concepts|
    ensures db.suggestions == InsertAll(old(db.suggestions), first,
                                        Posts.SuggestionsFor(postId, Inputs(analysis.concepts, conceptIds), now))
  {
    authorId := LinkAuthor(db, HandleFor(analysis, post), now);
    first := db.nextId;
    var applied := Posts.ApplyAnalysis(db, postId, authorId, Inputs(analysis.concepts, conceptIds), now);
    assert applied.Success?;
  }

  /** The steps after a successful extraction, on a post that exists: upsert the concepts,
      link the author, store the suggestions; a name conflict marks the post failed with
      the `.unique()` error as its reason. */
  method Store(db: Db, postId: Id, analysis: AnalysisResult, now: Time)
    returns (status: Status, conceptIds: seq<Id>, authorId: Option<Id>, mid: nat, first: Id)
    requires db.Valid() && postId in db.posts
    modifies db`posts, db`concepts, db`suggestions, db`authors, db`nextId
    ensures db.Valid()
    ensures status != Missing
    ensures status == Status.Failed <==> NameConflict(old(db.concepts), old(db.nextId), analysis.concepts)
    ensures status == Status.Failed ==> MarkedFailed(old(TablesOf(db)), TablesOf(db), postId, UniqueError, now)
    ensures status == Ok ==> Stored(old(TablesOf(db)), TablesOf(db), postId, analysis, conceptIds, authorId, mid, first, now)
  {
    var post := db.posts[postId];
    var ids := UpsertPayload(db, analysis.concepts, now);
    if ids.Failure? {
      var marked := Posts.MarkFailed(db, postId, Some(ids.error), now);
      return Status.Failed, [], None, 0, 0;
    }
    conceptIds := ids.value;
    mid := db.nextId;
    authorId, first := Record(db, postId, post, analysis, conceptIds, now);
    status := Ok;
  }

  /** `analyzePost`. A missing post is answered "missing" and nothing is written. An
      extractor that throws, or a name conflict in the concept upsert, marks the post
      failed with the thrown message. Otherwise the concepts, the author and the
      suggestions are stored and the post is analysed. The ghost outputs name the ids
      the run used. */
  method AnalyzePost(db: Db, postId: Id, reply: Reply, now: Time)
    returns (status: Status, ghost conceptIds: seq<Id>, ghost authorId: Option<Id>, ghost mid: nat, ghost first: Id)
    requires db.Valid()
    modifies db`posts, db`concepts, db`suggestions, db`authors, db`nextId
    ensures db.Valid()
    ensures status == Missing <==> postId !in old(db.posts)
    ensures status == Missing ==> unchanged(db)
    ensures postId in old(db.posts) ==>
              var analysis := old(AnalysisFor(db, db.posts[postId], reply));
              && (status == Status.Failed <==>
                    analysis.Failure? || NameConflict(old(db.concepts), old(db.nextId), analysis.value.concepts))
              && (status == Status.Failed ==>
                    MarkedFailed(old(TablesOf(db)), TablesOf(db), postId, FailureReason(analysis), now))
              && (status == Ok ==>
                    Stored(old(TablesOf(db)), TablesOf(db), postId, analysis.value, conceptIds, authorId, mid, first, now))
  {
    if postId !in db.posts {
      return Missing, [], None, 0, 0;
    }
    var post := db.posts[postId];
    var avoid := Feedback.ListDownvotedConceptNames(db, post.userId, Some(AvoidLimit));
    var analysis := Extract(post.text, Some(avoid), reply);
    if analysis.Failure? {
      var marked := Posts.MarkFailed(db, postId, Some(analysis.error), now);
      return Status.Failed, [], None, 0, 0;
    }
    status, conceptIds, authorId, mid, first := Store(db, postId, analysis.value, now);
  }
}
