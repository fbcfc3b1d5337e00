/** The Convex tables the core reads and writes (convex/schema.ts, plus the `tracks`,
    `trackConcepts` and `xRequests` tables and the `byUrl` index that the functions use),
    held in memory as maps from id to document. */
module Database {
  import opened Wrappers

  /** Document ids. One counter serves every table, so a larger id means a later insert:
      id order is Convex's `_creationTime` order. */
  type Id = nat

  /** Milliseconds since the epoch; `Date.now()` is passed in as a parameter. */
  type Time = int

  datatype PostSource = Manual | FromX
  datatype PostStatus = Pending | Analyzed | Failed
  datatype ConceptStatus = ConceptActive | ConceptPending
  datatype TargetType = ConceptTarget | AuthorTarget
  datatype Vote = Up | Down
  datatype XRequestStatus = RequestOk | RateLimited | RequestError

  datatype Post = Post(
    userId: Id,
    authorId: Option<Id>,
    authorHandle: Option<string>,
    text: string,
    url: Option<string>,
    source: Option<PostSource>,
    status: PostStatus,
    createdAt: Time)

  datatype Concept = Concept(
    name: string,
    description: Option<string>,
    aliases: seq<string>,
    status: ConceptStatus,
    createdAt: Time)

  datatype Suggestion = Suggestion(postId: Id, conceptId: Id, score: real, rationale: string, createdAt: Time)

  datatype Author = Author(handle: string, displayName: Option<string>, createdAt: Time)

  datatype Follow = Follow(userId: Id, targetType: TargetType, targetId: Id, createdAt: Time)

  datatype Feedback = Feedback(userId: Id, suggestionId: Id, vote: Vote, createdAt: Time)

  datatype Track = Track(userId: Id, title: string, sourcePostId: Option<Id>, createdAt: Time)

  datatype TrackConcept = TrackConcept(trackId: Id, conceptId: Id, createdAt: Time)

  datatype XRequest = XRequest(
    endpoint: string,
    tweetId: Option<string>,
    status: XRequestStatus,
    responseStatus: Option<int>,
    message: Option<string>,
    resetAt: Option<int>,
    createdAt: Time)

  /** The key of the `byUserAndTarget` index. */
  datatype FollowKey = FollowKey(userId: Id, targetType: TargetType, targetId: Id)

  function KeyOf(f: Follow): FollowKey {
    FollowKey(f.userId, f.targetType, f.targetId)
  }

  /** The deployment's database. */
  class Db {
    var posts: map<Id, Post>
    var concepts: map<Id, Concept>
    var suggestions: map<Id, Suggestion>
    var authors: map<Id, Author>
    var follows: map<Id, Follow>
    var feedback: map<Id, Feedback>
    var tracks: map<Id, Track>
    var trackConcepts: map<Id, TrackConcept>
    /** The usage ledger, in insertion order. */
    var xRequests: seq<XRequest>
    /** The next id `insert` hands out. */
    var nextId: Id

    /** Every id is below `nextId`; author handles are unique, and so are feedback per
        (user, suggestion) and follows per (user, target type, target), because the only
        inserts into those tables are the look-up-then-insert mutations. Concept names are
        not unique: `markFailed` inserts "Analysis failed" concepts without a look-up. */
    ghost predicate Valid()
      reads this
    {
      && (forall id | id in posts :: id < nextId)
      && (forall id | id in concepts :: id < nextId)
      && (forall id | id in suggestions :: id < nextId)
      && (forall id | id in authors :: id < nextId)
      && (forall id | id in follows :: id < nextId)
      && (forall id | id in feedback :: id < nextId)
      && (forall id | id in tracks :: id < nextId)
      && (forall id | id in trackConcepts :: id < nextId)
      && UniqueHandles(authors)
      && UniqueVotes(feedback)
      && UniqueFollows(follows)
    }

    constructor ()
      ensures Valid()
      ensures posts == map[] && concepts == map[] && suggestions == map[] && authors == map[]
      ensures follows == map[] && feedback == map[] && tracks == map[] && trackConcepts == map[]
      ensures xRequests == [] && nextId == 0
    {
      posts, concepts, suggestions, authors := map[], map[], map[], map[];
      follows, feedback, tracks, trackConcepts := map[], map[], map[], map[];
      xRequests, nextId := [], 0;
    }

    /** Writes back the follows and the counter after a change that keeps follows unique
        and ids below the new counter; nothing else changes, so the database stays valid. */
    method SetFollows(follows': map<Id, Follow>, nextId': Id)
      requires Valid()
      requires nextId <= nextId'
      requires forall id | id in follows' :: id < nextId'
      requires UniqueFollows(follows')
      modifies this`follows, this`nextId
      ensures Valid()
      ensures follows == follows' && nextId == nextId'
    {
      follows, nextId := follows', nextId';
    }

    /** Writes back the two track tables and the counter after inserts below the new
        counter; nothing else changes, so the database stays valid. */
    method SetTrackTables(tracks': map<Id, Track>, trackConcepts': map<Id, TrackConcept>, nextId': Id)
      requires Valid()
      requires nextId <= nextId'
      requires forall id | id in tracks' :: id < nextId'
      requires forall id | id in trackConcepts' :: id < nextId'
      modifies this`tracks, this`trackConcepts, this`nextId
      ensures Valid()
      ensures tracks == tracks' && trackConcepts == trackConcepts' && nextId == nextId'
    {
      tracks, trackConcepts, nextId := tracks', trackConcepts', nextId';
    }
  }

  ghost predicate UniqueHandles(authors: map<Id, Author>) {
    forall a, b | a in authors && b in authors && authors[a].handle == authors[b].handle :: a == b
  }

  ghost predicate UniqueVotes(feedback: map<Id, Feedback>) {
    forall a, b | a in feedback && b in feedback
                  && feedback[a].userId == feedback[b].userId
                  && feedback[a].suggestionId == feedback[b].suggestionId :: a == b
  }

  ghost predicate UniqueFollows(follows: map<Id, Follow>) {
    forall a, b | a in follows && b in follows && KeyOf(follows[a]) == KeyOf(follows[b]) :: a == b
  }

  /** The ids below `n` of the documents of `m` that satisfy `p`, oldest first: an index
      query with `.collect()`. */
  function Select<T>(m: map<Id, T>, n: nat, p: T -> bool): seq<Id>
    decreases n
  {
    if n == 0 then []
    else Select(m, n - 1, p) + (if n - 1 in m && p(m[n - 1]) then [n - 1] else [])
  }

  /** A selected id is a document below `n` that satisfies `p`, and every such document
      is selected, in strictly increasing id order. */
  lemma {:induction false} SelectMembers<T>(m: map<Id, T>, n: nat, p: T -> bool)
    ensures forall id | id in Select(m, n, p) :: id in m && id < n && p(m[id])
    ensures forall id | id in m && id < n && p(m[id]) :: id in Select(m, n, p)
    ensures forall i, j | 0 <= i < j < |Select(m, n, p)| :: Select(m, n, p)[i] < Select(m, n, p)[j]
    decreases n
  {
    if n > 0 {
      SelectMembers(m, n - 1, p);
      var prev := Select(m, n - 1, p);
      var s := Select(m, n, p);
      forall i, j | 0 <= i < j < |s|
        ensures s[i] < s[j]
      {
        if j < |prev| {
          assert s[i] == prev[i] && s[j] == prev[j];
        } else {
          assert s[i] == prev[i] && prev[i] in prev;
        }
      }
    }
  }

  /** When no two documents satisfy `p`, a selection holds at most one id. */
  lemma {:induction false} SelectAtMostOne<T>(m: map<Id, T>, n: nat, p: T -> bool)
    requires forall a, b | a in m && b in m && p(m[a]) && p(m[b]) :: a == b
    ensures |Select(m, n, p)| <= 1
    decreases n
  {
    if n > 0 {
      var prev := Select(m, n - 1, p);
      SelectAtMostOne(m, n - 1, p);
      SelectMembers(m, n - 1, p);
      assert prev != [] ==> prev[0] in prev;
    }
  }

  /** When no two documents satisfy `p`, the selection finds at most one, and finds one
      exactly when some document satisfies `p`. */
  lemma SelectUnique<T>(m: map<Id, T>, n: nat, p: T -> bool)
    requires forall a, b | a in m && b in m && p(m[a]) && p(m[b]) :: a == b
    requires forall id | id in m :: id < n
    ensures |Select(m, n, p)| <= 1
    ensures Select(m, n, p) != [] <==> exists id | id in m :: p(m[id])
    ensures forall id | id in Select(m, n, p) :: id in m && p(m[id])
  {
    var found := Select(m, n, p);
    SelectAtMostOne(m, n, p);
    SelectMembers(m, n, p);
    assert found != [] ==> found[0] in found;
  }

  /** Selecting again from the same documents after a write that did not touch them gives
      the same ids. */
  lemma {:induction false} SelectSameOnAgreeingMaps<T>(m: map<Id, T>, m': map<Id, T>, n: nat, p: T -> bool)
    requires forall id | id < n :: (id in m <==> id in m') && (id in m ==> m[id] == m'[id])
    ensures Select(m, n, p) == Select(m', n, p)
    decreases n
  {
    if n > 0 {
      SelectSameOnAgreeingMaps(m, m', n - 1, p);
    }
  }

  /** Inserting a document under the next id adds that id at the end of every selection
      it satisfies and leaves every other selection as it was. */
  lemma SelectAfterInsert<T>(m: map<Id, T>, n: nat, p: T -> bool, v: T)
    requires forall id | id in m :: id < n
    ensures Select(m[n := v], n + 1, p) == Select(m, n, p) + (if p(v) then [n] else [])
  {
    SelectSameOnAgreeingMaps(m, m[n := v], n, p);
  }

  /** The documents of the ids `ids`, in order: what `.collect()` hands back. */
  function Rows<T>(m: map<Id, T>, ids: seq<Id>): (r: seq<T>)
    requires forall id | id in ids :: id in m
    ensures |r| == |ids|
  {
    seq(|ids|, k requires 0 <= k < |ids| => m[ids[k]])
  }

  /** `vals` inserted one after another from id `next` on. */
  function InsertAll<T>(rows: map<Id, T>, next: nat, vals: seq<T>): map<Id, T>
    decreases |vals|
  {
    if vals == [] then rows
    else InsertAll(rows, next, vals[..|vals| - 1])[next + |vals| - 1 := vals[|vals| - 1]]
  }

  /** The inserted documents are the ids `next` to `next + |vals| - 1`, in order, and the
      other documents are kept. */
  lemma {:induction false} InsertAllSpec<T>(rows: map<Id, T>, next: nat, vals: seq<T>)
    requires forall id | id in rows :: id < next
    ensures var after := InsertAll(rows, next, vals);
            && (forall id | id in rows :: id in after && after[id] == rows[id])
            && (forall id | next <= id < next + |vals| :: id in after && after[id] == vals[id - next])
            && (forall id | id in after :: id in rows || next <= id < next + |vals|)
    decreases |vals|
  {
    if vals != [] {
      var init := vals[..|vals| - 1];
      InsertAllSpec(rows, next, init);
      var after := InsertAll(rows, next, vals);
      assert after == InsertAll(rows, next, init)[next + |init| := vals[|init|]];
      forall id | next <= id < next + |vals|
        ensures id in after && after[id] == vals[id - next]
      {
        if id < next + |init| {
          assert vals[id - next] == init[id - next];
        }
      }
    }
  }

  /** The k-th value inserted is under id `next + k`, which was not in use before. */
  lemma InsertAllAt<T>(rows: map<Id, T>, next: nat, vals: seq<T>, k: nat)
    requires forall id | id in rows :: id < next
    requires k < |vals|
    ensures next + k !in rows && next + k in InsertAll(rows, next, vals)
    ensures InsertAll(rows, next, vals)[next + k] == vals[k]
  {
    InsertAllSpec(rows, next, vals);
    var id := next + k;
    assert next <= id < next + |vals|;
    assert vals[id - next] == vals[k];
  }

  /** An id that the inserts added holds the value inserted under it. */
  lemma InsertAllNew<T>(rows: map<Id, T>, next: nat, vals: seq<T>, id: Id)
    requires forall a | a in rows :: a < next
    requires id in InsertAll(rows, next, vals) && id !in rows
    ensures next <= id < next + |vals| && InsertAll(rows, next, vals)[id] == vals[id - next]
  {
    InsertAllSpec(rows, next, vals);
  }

  /** The ids after the inserts stay below the advanced counter. */
  lemma InsertAllBelow<T>(rows: map<Id, T>, next: nat, vals: seq<T>)
    requires forall id | id in rows :: id < next
    ensures forall id | id in InsertAll(rows, next, vals) :: id < next + |vals|
  {
    InsertAllSpec(rows, next, vals);
  }

  /** A loop of `insert`s, on the table as the transaction sees it. */
  method InsertEach<T>(rows: map<Id, T>, next: nat, vals: seq<T>) returns (after: map<Id, T>, afterNext: nat)
    ensures after == InsertAll(rows, next, vals)
    ensures afterNext == next + |vals|
  {
    after, afterNext := rows, next;
    for i := 0 to |vals|
      invariant after == InsertAll(rows, next, vals[..i])
      invariant afterNext == next + i
    {
      assert vals[..i + 1][..i] == vals[..i];
      after := after[afterNext := vals[i]];
      afterNext := afterNext + 1;
    }
    assert vals[..|vals|] == vals;
  }

  /** Convex's `.unique()`: no match gives null, one match gives it, and more than one
      throws. */
  function Unique(ids: seq<Id>): (r: Result<Option<Id>>)
    ensures r.Success? <==> |ids| <= 1
    ensures r.Success? && r.value.Some? ==> |ids| == 1 && r.value.value == ids[0]
    ensures r.Success? && r.value.None? ==> ids == []
    ensures r.Failure? ==> r.error == UniqueError
  {
    if |ids| == 0 then Success(None)
    else if |ids| == 1 then Success(Some(ids[0]))
    else Failure(UniqueError)
  }

  /** Convex's own message is not part of this model; one fixed string stands for it. */
  const UniqueError := "unique() query returned more than one document"

  /** `patch` of an id with no document throws; one fixed string stands for Convex's
      message. */
  const MissingDocumentError := "patch of a document that does not exist"
}
