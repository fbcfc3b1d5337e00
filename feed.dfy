/** The read side of posts (convex/posts.ts): the feed of recent posts that match what a
    user follows, and the look-up of a finished analysis by URL that lets a second capture
    of the same page reuse it. */
module Feed {
  import opened Wrappers
  import opened Seqs
  import opened Database
  import Follows
  import Posts

  /** `listFeed` looks at the fifty newest posts. */
  const FeedPage: nat := 50
  /** The name shown for a suggestion whose concept is gone. */
  const UnknownConcept := "Unknown concept"

  /** One matched suggestion of a feed entry, with its concept's name. */
  datatype NamedSuggestion = NamedSuggestion(conceptId: Id, name: string, score: real, rationale: string)

  /** One feed entry. */
  datatype FeedItem = FeedItem(postId: Id, post: Post, suggestions: seq<NamedSuggestion>, matchedAuthor: bool,
                               authorHandle: Option<string>)

  /** The two id sets `listFeed` builds from the user's follows. */
  datatype Following = Following(concepts: set<Id>, authors: set<Id>)

  /** The targets of the user's follows of one type. */
  function FollowedTargets(follows: map<Id, Follow>, userId: Id, targetType: TargetType): set<Id> {
    set id | id in follows && follows[id].userId == userId && follows[id].targetType == targetType :: follows[id].targetId
  }

  function FollowingOf(follows: map<Id, Follow>, userId: Id): Following {
    Following(FollowedTargets(follows, userId, ConceptTarget), FollowedTargets(follows, userId, AuthorTarget))
  }

  function EveryPost(): Post -> bool {
    (p: Post) => true
  }

  /** `query("posts").order("desc").take(50)`. */
  function NewestPosts(posts: map<Id, Post>, bound: nat): seq<Id> {
    Take(Reverse(Select(posts, bound, EveryPost())), FeedPage)
  }

  /** At most fifty posts, newest first, and every post left out is older than all of
      them, which are then fifty. */
  lemma NewestPostsSpec(posts: map<Id, Post>, bound: nat)
    ensures var r := NewestPosts(posts, bound);
            && |r| <= FeedPage
            && (forall id | id in r :: id in posts && id < bound)
            && (forall k, l | 0 <= k < l < |r| :: r[k] > r[l])
            && (forall id | id in posts && id < bound && id !in r :: |r| == FeedPage && forall k | 0 <= k < |r| :: r[k] > id)
  {
    SelectMembers(posts, bound, EveryPost());
    TakeLargest(Select(posts, bound, EveryPost()), FeedPage);
  }

  /** The timestamp `pickLatestSuggestions` compares. */
  function CreatedAtOf(s: Suggestion): Time {
    s.createdAt
  }

  /** A post's suggestions through the `byPost` index, oldest first. */
  function PostSuggestions(suggestions: map<Id, Suggestion>, bound: nat, postId: Id): seq<Suggestion> {
    var ids := Select(suggestions, bound, Posts.OfPost(postId));
    SelectMembers(suggestions, bound, Posts.OfPost(postId));
    Rows(suggestions, ids)
  }

  /** The listed suggestions are exactly the post's suggestions, oldest first: the k-th
      is the document of the k-th id the index selects, and those ids increase. */
  lemma PostSuggestionsSpec(suggestions: map<Id, Suggestion>, bound: nat, postId: Id)
    ensures forall s | s in PostSuggestions(suggestions, bound, postId) ::
              s.postId == postId && exists id | id in suggestions && id < bound :: suggestions[id] == s
    ensures forall id | id in suggestions && id < bound && suggestions[id].postId == postId ::
              suggestions[id] in PostSuggestions(suggestions, bound, postId)
    ensures var ids := Select(suggestions, bound, Posts.OfPost(postId));
            && |ids| == |PostSuggestions(suggestions, bound, postId)|
            && (forall k | 0 <= k < |ids| ::
                  ids[k] in suggestions && PostSuggestions(suggestions, bound, postId)[k] == suggestions[ids[k]])
            && (forall i, j | 0 <= i < j < |ids| :: ids[i] < ids[j])
  {
    var ids := Select(suggestions, bound, Posts.OfPost(postId));
    var rows := PostSuggestions(suggestions, bound, postId);
    SelectMembers(suggestions, bound, Posts.OfPost(postId));
    forall s | s in rows
      ensures s.postId == postId && exists id | id in suggestions && id < bound :: suggestions[id] == s
    {
      var k :| 0 <= k < |rows| && rows[k] == s;
      assert ids[k] in ids;
    }
    forall id | id in suggestions && id < bound && suggestions[id].postId == postId
      ensures suggestions[id] in rows
    {
      var k :| 0 <= k < |ids| && ids[k] == id;
      assert rows[k] == suggestions[id];
    }
  }

  /** `.filter((suggestion) => conceptIds.has(suggestion.conceptId))`. */
  function MatchedConcepts(batch: seq<Suggestion>, conceptIds: set<Id>): seq<Suggestion>
    decreases |batch|
  {
    if batch == [] then []
    else
      var last := batch[|batch| - 1];
      MatchedConcepts(batch[..|batch| - 1], conceptIds) + (if last.conceptId in conceptIds then [last] else [])
  }

  lemma {:induction false} MatchedConceptsSpec(batch: seq<Suggestion>, conceptIds: set<Id>)
    ensures forall s :: s in MatchedConcepts(batch, conceptIds) <==> s in batch && s.conceptId in conceptIds
    ensures |MatchedConcepts(batch, conceptIds)| <= |batch|
    ensures IsSubsequence(MatchedConcepts(batch, conceptIds), batch)
    decreases |batch|
  {
    if batch != [] {
      var init, last := batch[..|batch| - 1], batch[|batch| - 1];
      MatchedConceptsSpec(init, conceptIds);
      assert batch == init + [last];
      Posts.SubsequenceSnoc(MatchedConcepts(init, conceptIds), init, last, last.conceptId in conceptIds);
    }
  }

  /** `concept?.name ?? "Unknown concept"`. */
  function NameOf(concepts: map<Id, Concept>, conceptId: Id): string {
    if conceptId in concepts then concepts[conceptId].name else UnknownConcept
  }

  function WithNames(concepts: map<Id, Concept>, matched: seq<Suggestion>): (r: seq<NamedSuggestion>)
    ensures |r| == |matched|
  {
    seq(|matched|, k requires 0 <= k < |matched| =>
      NamedSuggestion(matched[k].conceptId, NameOf(concepts, matched[k].conceptId), matched[k].score, matched[k].rationale))
  }

  /** `author?.handle ?? post.authorHandle ?? null`. */
  function FeedHandle(authors: map<Id, Author>, post: Post): Option<string> {
    if post.authorId.Some? && post.authorId.value in authors then Some(authors[post.authorId.value].handle)
    else post.authorHandle
  }

  /** The tables `listFeed` reads, as one snapshot: a query sees one consistent state. */
  datatype Snapshot = Snapshot(posts: map<Id, Post>, suggestions: map<Id, Suggestion>, concepts: map<Id, Concept>,
                               authors: map<Id, Author>, bound: nat)

  function SnapshotOf(db: Db): Snapshot
    reads db
  {
    Snapshot(db.posts, db.suggestions, db.concepts, db.authors, db.nextId)
  }

  /** The post's latest batch of suggestions. */
  function LatestOf(t: Snapshot, postId: Id): seq<Suggestion> {
    Posts.LatestBatch(PostSuggestions(t.suggestions, t.bound, postId), CreatedAtOf)
  }

  /** `!!post.authorId && authorIds.has(post.authorId)`. */
  predicate AuthorFollowed(post: Post, f: Following) {
    post.authorId.Some? && post.authorId.value in f.authors
  }

  /** The feed entry for one post, or nothing when neither its author nor a concept of its
      latest batch of suggestions is followed. */
  function ItemFor(t: Snapshot, f: Following, postId: Id): Option<FeedItem>
    requires postId in t.posts
  {
    var post := t.posts[postId];
    var named := WithNames(t.concepts, MatchedConcepts(LatestOf(t, postId), f.concepts));
    if AuthorFollowed(post, f) || named != [] then Some(FeedItem(postId, post, named, AuthorFollowed(post, f), FeedHandle(t.authors, post)))
    else None
  }

  /** An entry is made exactly when the post's author is followed or one of the post's
      latest suggestions is on a followed concept; it carries the post and says whether
      the author matched. */
  lemma ItemForShape(t: Snapshot, f: Following, postId: Id)
    requires postId in t.posts
    ensures var r := ItemFor(t, f, postId);
            && (r.Some? <==> AuthorFollowed(t.posts[postId], f) || exists s | s in LatestOf(t, postId) :: s.conceptId in f.concepts)
            && (r.Some? ==> r.value.postId == postId && r.value.post == t.posts[postId]
                            && (r.value.matchedAuthor <==> AuthorFollowed(t.posts[postId], f)))
  {
    var batch := LatestOf(t, postId);
    var matched := MatchedConcepts(batch, f.concepts);
    MatchedConceptsSpec(batch, f.concepts);
    assert matched != [] ==> matched[0] in matched;
    if exists s | s in batch :: s.conceptId in f.concepts {
      var s :| s in batch && s.conceptId in f.concepts;
      assert s in MatchedConcepts(batch, f.concepts);
    }
  }

  /** Each listed suggestion of an entry is one of the post's latest suggestions on a
      followed concept, named after that concept, and every such suggestion is listed. */
  lemma ItemForSuggestions(t: Snapshot, f: Following, postId: Id)
    requires postId in t.posts
    requires ItemFor(t, f, postId).Some?
    ensures var named := ItemFor(t, f, postId).value.suggestions;
            var batch := LatestOf(t, postId);
            && (forall n | n in named ::
                  && n.conceptId in f.concepts && n.name == NameOf(t.concepts, n.conceptId)
                  && exists s | s in batch :: s.postId == postId && s.conceptId == n.conceptId
                                              && s.score == n.score && s.rationale == n.rationale)
            && (forall s | s in batch && s.conceptId in f.concepts ::
                  NamedSuggestion(s.conceptId, NameOf(t.concepts, s.conceptId), s.score, s.rationale) in named)
  {
    var rows := PostSuggestions(t.suggestions, t.bound, postId);
    var batch := LatestOf(t, postId);
    var matched := MatchedConcepts(batch, f.concepts);
    var named := WithNames(t.concepts, matched);
    assert ItemFor(t, f, postId).value.suggestions == named;
    PostSuggestionsSpec(t.suggestions, t.bound, postId);
    Posts.LatestBatchSpec(rows, CreatedAtOf);
    SubsequenceElements(batch, rows);
    MatchedConceptsSpec(batch, f.concepts);
    forall n | n in named
      ensures n.conceptId in f.concepts && n.name == NameOf(t.concepts, n.conceptId)
              && exists s | s in batch :: s.postId == postId && s.conceptId == n.conceptId
                                          && s.score == n.score && s.rationale == n.rationale
    {
      var k :| 0 <= k < |named| && named[k] == n;
      assert matched[k] in matched;
    }
    forall s | s in batch && s.conceptId in f.concepts
      ensures NamedSuggestion(s.conceptId, NameOf(t.concepts, s.conceptId), s.score, s.rationale) in named
    {
      assert s in matched;
      var k :| 0 <= k < |matched| && matched[k] == s;
      assert named[k] == NamedSuggestion(s.conceptId, NameOf(t.concepts, s.conceptId), s.score, s.rationale);
    }
  }

  /** The entries for the posts `ids`, in their order. */
  function Items(t: Snapshot, f: Following, ids: seq<Id>): seq<FeedItem>
    requires forall id | id in ids :: id in t.posts
    decreases |ids|
  {
    if ids == [] then []
    else
      var item := ItemFor(t, f, ids[|ids| - 1]);
      Items(t, f, ids[..|ids| - 1]) + (if item.Some? then [item.value] else [])
  }

  /** The entries are those the posts have, one per post at most. */
  lemma {:induction false} ItemsSpec(t: Snapshot, f: Following, ids: seq<Id>)
    requires forall id | id in ids :: id in t.posts
    ensures |Items(t, f, ids)| <= |ids|
    ensures forall x | x in Items(t, f, ids) :: x.postId in ids && ItemFor(t, f, x.postId) == Some(x)
    ensures forall id | id in ids && ItemFor(t, f, id).Some? :: ItemFor(t, f, id).value in Items(t, f, ids)
    decreases |ids|
  {
    if ids != [] {
      var init := ids[..|ids| - 1];
      var last := ids[|ids| - 1];
      ItemsSpec(t, f, init);
      assert ids == init + [last];
      ItemForShape(t, f, last);
    }
  }

  /** One more post adds its entry, if it has one, at the end. */
  lemma ItemsStep(t: Snapshot, f: Following, ids: seq<Id>, i: nat)
    requires forall id | id in ids :: id in t.posts
    requires i < |ids|
    ensures var item := ItemFor(t, f, ids[i]);
            Items(t, f, ids[..i + 1]) == Items(t, f, ids[..i]) + (if item.Some? then [item.value] else [])
  {
    assert ids[..i + 1][..i] == ids[..i];
  }

  /** Entries in decreasing post order. */
  ghost predicate NewestFirst(items: seq<FeedItem>) {
    forall k, l | 0 <= k < l < |items| :: items[k].postId > items[l].postId
  }

  /** Appending an entry for a post older than every listed one keeps the order. */
  lemma NewestFirstSnoc(items: seq<FeedItem>, item: FeedItem)
    requires NewestFirst(items)
    requires forall x | x in items :: x.postId > item.postId
    ensures NewestFirst(items + [item])
  {
    var r := items + [item];
    forall k, l | 0 <= k < l < |r|
      ensures r[k].postId > r[l].postId
    {
      assert r[k] == items[k] && items[k] in items;
      if l < |items| {
        assert r[l] == items[l];
      }
    }
  }

  /** Entries keep the order of their posts: posts newest first give entries newest
      first. */
  lemma {:induction false} ItemsInPostOrder(t: Snapshot, f: Following, ids: seq<Id>)
    requires forall id | id in ids :: id in t.posts
    requires forall k, l | 0 <= k < l < |ids| :: ids[k] > ids[l]
    ensures NewestFirst(Items(t, f, ids))
    decreases |ids|
  {
    if ids != [] {
      var init := ids[..|ids| - 1];
      var last := ids[|ids| - 1];
      assert forall k, l | 0 <= k < l < |init| :: init[k] == ids[k] && init[l] == ids[l];
      ItemsInPostOrder(t, f, init);
      var item := ItemFor(t, f, last);
      if item.Some? {
        ItemsSpec(t, f, init);
        ItemForShape(t, f, last);
        forall x | x in Items(t, f, init)
          ensures x.postId > last
        {
          var j :| 0 <= j < |init| && init[j] == x.postId;
          assert ids[j] == init[j];
        }
        NewestFirstSnoc(Items(t, f, init), item.value);
      }
    }
  }

  /** With nothing followed no post makes an entry, so the early return of an empty feed
      for a user without follows agrees with the loop. */
  lemma {:induction false} NothingFollowedNoItems(t: Snapshot, ids: seq<Id>)
    requires forall id | id in ids :: id in t.posts
    ensures Items(t, Following({}, {}), ids) == []
    decreases |ids|
  {
    if ids != [] {
      NothingFollowedNoItems(t, ids[..|ids| - 1]);
      ItemForShape(t, Following({}, {}), ids[|ids| - 1]);
    }
  }

  /** The answer of `listFeed` for the signed-in user `userId`. */
  function FeedFor(db: Db, userId: Id): seq<FeedItem>
    reads db
  {
    if Follows.ListFollows(db, userId) == [] then []
    else
      var ids := NewestPosts(db.posts, db.nextId);
      NewestPostsSpec(db.posts, db.nextId);
      Items(SnapshotOf(db), FollowingOf(db.follows, userId), ids)
  }

  /** A user without follows gets an empty feed. Otherwise the feed holds at most fifty
      entries, newest post first; every entry is one of the fifty newest posts and matches
      a follow of the user; and each of those posts that matches one has its entry. */
  lemma FeedSpec(db: Db, userId: Id)
    ensures Follows.ListFollows(db, userId) == [] ==> FeedFor(db, userId) == []
    ensures var r := FeedFor(db, userId);
            var f := FollowingOf(db.follows, userId);
            && |r| <= FeedPage
            && NewestFirst(r)
            && (forall x | x in r :: x.postId in NewestPosts(db.posts, db.nextId) && x.postId in db.posts
                                      && ItemFor(SnapshotOf(db), f, x.postId) == Some(x))
            && (Follows.ListFollows(db, userId) != [] ==>
                  forall id | id in NewestPosts(db.posts, db.nextId) && id in db.posts && ItemFor(SnapshotOf(db), f, id).Some? ::
                    ItemFor(SnapshotOf(db), f, id).value in r)
  {
    var ids := NewestPosts(db.posts, db.nextId);
    NewestPostsSpec(db.posts, db.nextId);
    ItemsSpec(SnapshotOf(db), FollowingOf(db.follows, userId), ids);
    ItemsInPostOrder(SnapshotOf(db), FollowingOf(db.follows, userId), ids);
  }

  /** `listFeed`: the loop over the newest posts that pushes each post that matches. */
  method ListFeed(db: Db, userId: Id) returns (r: seq<FeedItem>)
    ensures r == FeedFor(db, userId)
  {
    if Follows.ListFollows(db, userId) == [] {
      return [];
    }
    var f := FollowingOf(db.follows, userId);
    var t := SnapshotOf(db);
    var ids := NewestPosts(t.posts, t.bound);
    NewestPostsSpec(t.posts, t.bound);
    r := [];
    for i := 0 to |ids|
      invariant r == Items(t, f, ids[..i])
    {
      ItemsStep(t, f, ids, i);
      var post := t.posts[ids[i]];
      var matchedAuthor := post.authorId.Some? && post.authorId.value in f.authors;
      var suggestions := PostSuggestions(t.suggestions, t.bound, ids[i]);
      var batch := Posts.PickLatestSuggestions(suggestions, CreatedAtOf);
      var named := WithNames(t.concepts, MatchedConcepts(batch, f.concepts));
      assert batch == LatestOf(t, ids[i]);
      if matchedAuthor || |named| > 0 {
        r := r + [FeedItem(ids[i], post, named, matchedAuthor, FeedHandle(t.authors, post))];
      }
    }
    assert ids[..|ids|] == ids;
  }

  /** The answer of `getCachedAnalysisByUrl`. */
  datatype CachedAnalysis = CachedAnalysis(postId: Id, post: Post, suggestions: seq<Suggestion>, authorHandle: Option<string>)

  function HasUrl(url: string): Post -> bool {
    (p: Post) => p.url == Some(url)
  }

  /** The post's own handle unless it is missing or empty; then, when the post has an
      author, that author's handle, or nothing when the author is gone. */
  function CachedHandle(authors: map<Id, Author>, post: Post): Option<string> {
    if (post.authorHandle.None? || post.authorHandle.value == "") && post.authorId.Some? then
      if post.authorId.value in authors then Some(authors[post.authorId.value].handle) else None
    else post.authorHandle
  }

  /** `postId` is the newest post captured from `url`. */
  ghost predicate NewestWithUrl(posts: map<Id, Post>, bound: nat, url: string, postId: Id) {
    && postId in posts && postId < bound && posts[postId].url == Some(url)
    && forall id | id in posts && id < bound && posts[id].url == Some(url) :: id <= postId
  }

  /** `getCachedAnalysisByUrl`: the newest post with the URL through the `byUrl` index;
      nothing unless it is analysed and has suggestions. */
  function GetCachedAnalysisByUrl(db: Db, url: string): Option<CachedAnalysis>
    reads db
  {
    var ids := Select(db.posts, db.nextId, HasUrl(url));
    if ids == [] then None
    else
      SelectMembers(db.posts, db.nextId, HasUrl(url));
      var postId := ids[|ids| - 1];
      assert postId in ids;
      var post := db.posts[postId];
      if post.status != Analyzed then None
      else
        var rows := PostSuggestions(db.suggestions, db.nextId, postId);
        if rows == [] then None
        else Some(CachedAnalysis(postId, post, rows, CachedHandle(db.authors, post)))
  }

  /** An answer is the newest post with the URL, analysed, with all of its suggestions and
      at least one; there is no answer exactly when no post has the URL or the newest one
      is not analysed or has no suggestion. A non-empty handle stored on the post wins over
      the author's; a missing or empty one falls back to the linked author's handle, or to
      nothing when that author is gone; without a linked author the post's own is kept. */
  lemma GetCachedAnalysisByUrlSpec(db: Db, url: string)
    ensures var r := GetCachedAnalysisByUrl(db, url);
            && (r.None? <==> forall id | NewestWithUrl(db.posts, db.nextId, url, id) ::
                               db.posts[id].status != Analyzed
                               || forall sid | sid in db.suggestions && sid < db.nextId :: db.suggestions[sid].postId != id)
            && (r.Some? ==>
                  && NewestWithUrl(db.posts, db.nextId, url, r.value.postId)
                  && r.value.post == db.posts[r.value.postId] && r.value.post.status == Analyzed
                  && r.value.suggestions != []
                  && (forall s | s in r.value.suggestions :: s.postId == r.value.postId)
                  && (forall sid | sid in db.suggestions && sid < db.nextId && db.suggestions[sid].postId == r.value.postId ::
                        db.suggestions[sid] in r.value.suggestions)
                  && (r.value.post.authorHandle.Some? && r.value.post.authorHandle.value != "" ==>
                        r.value.authorHandle == r.value.post.authorHandle)
                  && ((r.value.post.authorHandle.None? || r.value.post.authorHandle.value == "") &&
                      r.value.post.authorId.Some? ==>
                        r.value.authorHandle == (if r.value.post.authorId.value in db.authors
                                                 then Some(db.authors[r.value.post.authorId.value].handle) else None))
                  && (r.value.post.authorId.None? ==> r.value.authorHandle == r.value.post.authorHandle))
  {
    var ids := Select(db.posts, db.nextId, HasUrl(url));
    NewestOfUrl(db.posts, db.nextId, url);
    if ids != [] {
      var postId := ids[|ids| - 1];
      PostSuggestionsSpec(db.suggestions, db.nextId, postId);
      var rows := PostSuggestions(db.suggestions, db.nextId, postId);
      if rows != [] {
        assert rows[0] in rows;
      }
    }
  }

  /** The last id the `byUrl` look-up selects is the one newest post with the URL, and
      there is none when it selects nothing. */
  lemma NewestOfUrl(posts: map<Id, Post>, bound: nat, url: string)
    ensures var ids := Select(posts, bound, HasUrl(url));
            && (ids == [] ==> forall id :: !NewestWithUrl(posts, bound, url, id))
            && (ids != [] ==> forall id :: NewestWithUrl(posts, bound, url, id) <==> id == ids[|ids| - 1])
  {
    var ids := Select(posts, bound, HasUrl(url));
    SelectMembers(posts, bound, HasUrl(url));
    if ids != [] {
      var postId := ids[|ids| - 1];
      assert postId in ids;
      LastIsLargest(ids);
      assert NewestWithUrl(posts, bound, url, postId);
    }
  }
}
