/** Learning tracks (convex/tracks.ts): a titled track per user with one link per
    selected concept. */
module Tracks {
  import opened Wrappers
  import opened Seqs
  import opened Text
  import opened Database

  /** How many concept names a built title shows. */
  const VisibleNames: nat := 3

  /** `buildTrackTitle`. */
  function BuildTrackTitle(names: seq<string>): string {
    if |names| == 0 then "Learning track"
    else if |names| == 1 then "Learn " + names[0]
    else
      var visible := Take(names, VisibleNames);
      var remaining := |names| - |visible|;
      "Learn " + Join(visible, " + ") + (if remaining > 0 then " + " + NatToString(remaining) + " more" else "")
  }

  /** Where the pieces of `shown + " + " + digits + " more"` sit. */
  lemma CountSuffixParts(shown: string, digits: string)
    ensures var t := shown + " + " + digits + " more";
            && |t| == |shown| + |digits| + 8
            && t[..|shown|] == shown
            && t[|shown|..|shown| + 3] == " + "
            && t[|shown| + 3..|t| - 5] == digits
            && t[|t| - 5..] == " more"
  {
  }

  /** A title built from names is "Learn " followed by the first three names joined by
      " + "; when names are left over, it ends with " + <count> more", from which their
      number can be read back. With no names it is "Learning track". */
  lemma BuildTrackTitleShowsFirstThree(names: seq<string>)
    ensures names == [] ==> BuildTrackTitle(names) == "Learning track"
    ensures var t := BuildTrackTitle(names);
            var shown := "Learn " + Join(Take(names, VisibleNames), " + ");
            names != [] ==> |shown| <= |t| && t[..|shown|] == shown
    ensures 1 <= |names| <= VisibleNames ==> BuildTrackTitle(names) == "Learn " + Join(names, " + ")
    ensures var t := BuildTrackTitle(names);
            var shown := "Learn " + Join(Take(names, VisibleNames), " + ");
            |names| > VisibleNames ==>
              && |shown| + 8 < |t|
              && t[|shown|..|shown| + 3] == " + "
              && t[|t| - 5..] == " more"
              && (forall i | |shown| + 3 <= i < |t| - 5 :: IsDigit(t[i]))
              && DigitsValue(t[|shown| + 3..|t| - 5]) == |names| - VisibleNames
  {
    var t := BuildTrackTitle(names);
    var shown := "Learn " + Join(Take(names, VisibleNames), " + ");
    if |names| > VisibleNames {
      var digits := NatToString(|names| - VisibleNames);
      NatToStringRoundTrip(|names| - VisibleNames);
      assert t == shown + " + " + digits + " more";
      CountSuffixParts(shown, digits);
    } else if |names| == 1 {
      assert Take(names, VisibleNames) == names;
    } else if names != [] {
      assert Take(names, VisibleNames) == names;
      assert t == shown;
    }
  }

  /** The names of the concepts `ids` that exist and have a non-empty name, in order:
      `concept?.name` filtered by `Boolean`. */
  function ExistingNames(concepts: map<Id, Concept>, ids: seq<Id>): seq<string>
    decreases |ids|
  {
    if ids == [] then []
    else
      var id := ids[|ids| - 1];
      ExistingNames(concepts, ids[..|ids| - 1])
        + (if id in concepts && concepts[id].name != "" then [concepts[id].name] else [])
  }

  lemma {:induction false} ExistingNamesMembers(concepts: map<Id, Concept>, ids: seq<Id>)
    ensures forall name | name in ExistingNames(concepts, ids) ::
              name != "" && exists id | id in ids :: id in concepts && concepts[id].name == name
    ensures forall id | id in ids && id in concepts && concepts[id].name != "" ::
              concepts[id].name in ExistingNames(concepts, ids)
    decreases |ids|
  {
    if ids != [] {
      var init := ids[..|ids| - 1];
      ExistingNamesMembers(concepts, init);
      assert ids == init + [ids[|ids| - 1]];
      forall name | name in ExistingNames(concepts, ids)
        ensures name != "" && exists id | id in ids :: id in concepts && concepts[id].name == name
      {
        if name in ExistingNames(concepts, init) {
          var id :| id in init && id in concepts && concepts[id].name == name;
          assert id in ids;
        }
      }
    }
  }

  /** The names keep the order of the ids: those of earlier ids come first. Together
      with the one-id case of the definition, this fixes the whole list. */
  lemma {:induction false} ExistingNamesInOrder(concepts: map<Id, Concept>, a: seq<Id>, b: seq<Id>)
    ensures ExistingNames(concepts, a + b) == ExistingNames(concepts, a) + ExistingNames(concepts, b)
    decreases |b|
  {
    if b != [] {
      var init, last := b[..|b| - 1], b[|b| - 1];
      ExistingNamesInOrder(concepts, a, init);
      assert (a + b)[..|a + b| - 1] == a + init;
      assert (a + b)[|a + b| - 1] == last;
    } else {
      assert a + b == a;
    }
  }

  /** The links `createTrack` inserts, one per concept id, in order. */
  function LinksFor(trackId: Id, ids: seq<Id>, now: Time): (r: seq<TrackConcept>)
    ensures |r| == |ids|
  {
    seq(|ids|, k requires 0 <= k < |ids| => TrackConcept(trackId, ids[k], now))
  }

  /** With distinct concept ids, the new links are one per concept id, each linking the
      track. */
  lemma OneLinkPerConcept(rows: map<Id, TrackConcept>, next: nat, trackId: Id, ids: seq<Id>, now: Time)
    requires forall id | id in rows :: id < next
    requires Distinct(ids)
    ensures var after := InsertAll(rows, next, LinksFor(trackId, ids, now));
            && (forall c | c in ids :: exists id | id in after && id !in rows :: after[id] == TrackConcept(trackId, c, now))
            && (forall a, b | a in after && b in after && a !in rows && b !in rows && after[a].conceptId == after[b].conceptId :: a == b)
            && (forall id | id in after && id !in rows :: after[id].trackId == trackId && after[id].conceptId in ids)
            && (forall id | id in rows :: id in after && after[id] == rows[id])
  {
    var links := LinksFor(trackId, ids, now);
    LinkForEachId(rows, next, trackId, ids, now);
    NewLinksAreOfIds(rows, next, trackId, ids, now);
    NewLinksDistinct(rows, next, trackId, ids, now);
    InsertAllSpec(rows, next, links);
  }

  /** Every concept id has a new link to the track. */
  lemma LinkForEachId(rows: map<Id, TrackConcept>, next: nat, trackId: Id, ids: seq<Id>, now: Time)
    requires forall id | id in rows :: id < next
    ensures var after := InsertAll(rows, next, LinksFor(trackId, ids, now));
            forall c | c in ids :: exists id | id in after && id !in rows :: after[id] == TrackConcept(trackId, c, now)
  {
    var links := LinksFor(trackId, ids, now);
    var after := InsertAll(rows, next, links);
    forall c | c in ids
      ensures exists id | id in after && id !in rows :: after[id] == TrackConcept(trackId, c, now)
    {
      var k :| 0 <= k < |ids| && ids[k] == c;
      InsertAllAt(rows, next, links, k);
    }
  }

  /** Every new link links the track to one of the concept ids. */
  lemma NewLinksAreOfIds(rows: map<Id, TrackConcept>, next: nat, trackId: Id, ids: seq<Id>, now: Time)
    requires forall id | id in rows :: id < next
    ensures var after := InsertAll(rows, next, LinksFor(trackId, ids, now));
            forall id | id in after && id !in rows :: after[id].trackId == trackId && after[id].conceptId in ids
  {
    var links := LinksFor(trackId, ids, now);
    var after := InsertAll(rows, next, links);
    forall id | id in after && id !in rows
      ensures after[id].trackId == trackId && after[id].conceptId in ids
    {
      InsertAllNew(rows, next, links, id);
      assert ids[id - next] in ids;
    }
  }

  /** With distinct concept ids, no two new links share a concept. */
  lemma NewLinksDistinct(rows: map<Id, TrackConcept>, next: nat, trackId: Id, ids: seq<Id>, now: Time)
    requires forall id | id in rows :: id < next
    requires Distinct(ids)
    ensures var after := InsertAll(rows, next, LinksFor(trackId, ids, now));
            forall a, b | a in after && b in after && a !in rows && b !in rows && after[a].conceptId == after[b].conceptId :: a == b
  {
    var links := LinksFor(trackId, ids, now);
    var after := InsertAll(rows, next, links);
    forall a, b | a in after && b in after && a !in rows && b !in rows && after[a].conceptId == after[b].conceptId
      ensures a == b
    {
      InsertAllNew(rows, next, links, a);
      InsertAllNew(rows, next, links, b);
      var i, j := a - next, b - next;
      assert ids[i] == links[i].conceptId == links[j].conceptId == ids[j];
      if i < j || j < i {
        assert false;
      }
    }
  }

  const NoConceptsError := "Select at least one concept."

  /** The inserts of `createTrack` on the tables as the transaction sees it: the track
      under the next id, then one link per distinct concept id. */
  method InsertTrack(tracks: map<Id, Track>, trackConcepts: map<Id, TrackConcept>, concepts: map<Id, Concept>,
                     next: nat, userId: Id, conceptIds: seq<Id>, postId: Option<Id>, title: Option<string>, now: Time)
    returns (trackId: Id, tracks': map<Id, Track>, trackConcepts': map<Id, TrackConcept>, next': nat)
    requires forall id | id in tracks :: id < next
    requires forall id | id in trackConcepts :: id < next
    ensures var uniqueIds := Dedup(conceptIds);
            && trackId == next
            && tracks' == tracks[trackId := Track(userId, title.GetOr(BuildTrackTitle(ExistingNames(concepts, uniqueIds))), postId, now)]
            && trackConcepts' == InsertAll(trackConcepts, trackId + 1, LinksFor(trackId, uniqueIds, now))
            && next' == trackId + 1 + |uniqueIds|
    ensures next < next'
    ensures forall id | id in tracks' :: id < next'
    ensures forall id | id in trackConcepts' :: id < next'
  {
    var uniqueIds := Dedup(conceptIds);
    var names := ExistingNames(concepts, uniqueIds);
    trackId := next;
    tracks' := tracks[trackId := Track(userId, title.GetOr(BuildTrackTitle(names)), postId, now)];
    var newLinks := LinksFor(trackId, uniqueIds, now);
    trackConcepts', next' := InsertEach(trackConcepts, trackId + 1, newLinks);
    InsertAllBelow(trackConcepts, trackId + 1, newLinks);
  }

  /** `createTrack` for the signed-in user `userId`: the track takes the next id and its
      links the ids after it, one per distinct concept id in first-occurrence order. */
  method CreateTrack(db: Db, userId: Id, conceptIds: seq<Id>, postId: Option<Id>, title: Option<string>, now: Time)
    returns (r: Result<Id>)
    requires db.Valid()
    modifies db`tracks, db`trackConcepts, db`nextId
    ensures db.Valid()
    ensures r.Failure? <==> conceptIds == []
    ensures r.Failure? ==> r.error == NoConceptsError && unchanged(db)
    ensures r.Success? ==>
              var uniqueIds := Dedup(conceptIds);
              && r.value == old(db.nextId)
              && db.tracks == old(db.tracks)[r.value := Track(userId,
                                                              title.GetOr(BuildTrackTitle(ExistingNames(old(db.concepts), uniqueIds))),
                                                              postId, now)]
              && db.trackConcepts == InsertAll(old(db.trackConcepts), r.value + 1, LinksFor(r.value, uniqueIds, now))
              && db.nextId == r.value + 1 + |uniqueIds|
  {
    if conceptIds == [] {
      return Failure(NoConceptsError);
    }
    var trackId, tracks, links, next := InsertTrack(db.tracks, db.trackConcepts, db.concepts, db.nextId,
                                                    userId, conceptIds, postId, title, now);
    db.SetTrackTables(tracks, links, next);
    r := Success(trackId);
  }

  /** A concept listed with a track. */
  datatype LinkedConcept = LinkedConcept(conceptId: Id, name: string)

  /** One element of `listTracks`' answer. */
  datatype TrackView = TrackView(trackId: Id, track: Track, concepts: seq<LinkedConcept>)

  /** How many tracks `listTracks` returns at most. */
  const TrackPage: nat := 50

  function OwnerIs(userId: Id): Track -> bool {
    (t: Track) => t.userId == userId
  }

  function LinkOf(trackId: Id): TrackConcept -> bool {
    (l: TrackConcept) => l.trackId == trackId
  }

  /** The `byUser` index in descending order, cut at 50: the user's newest tracks. */
  function NewestTracks(tracks: map<Id, Track>, bound: nat, userId: Id): seq<Id> {
    Take(Reverse(Select(tracks, bound, OwnerIs(userId))), TrackPage)
  }

  /** At most 50 of the user's tracks, newest first; a track of the user left out is
      older than all of them, which are then 50. */
  lemma NewestTracksSpec(tracks: map<Id, Track>, bound: nat, userId: Id)
    ensures var r := NewestTracks(tracks, bound, userId);
            && |r| <= TrackPage
            && (forall id | id in r :: id in tracks && id < bound && tracks[id].userId == userId)
            && (forall k, l | 0 <= k < l < |r| :: r[k] > r[l])
            && (forall id | id in tracks && id < bound && tracks[id].userId == userId && id !in r ::
                  |r| == TrackPage && forall k | 0 <= k < |r| :: r[k] > id)
  {
    SelectMembers(tracks, bound, OwnerIs(userId));
    TakeLargest(Select(tracks, bound, OwnerIs(userId)), TrackPage);
  }

  /** The concepts of the links `links` that still exist, in link order. */
  function ExistingLinked(trackConcepts: map<Id, TrackConcept>, concepts: map<Id, Concept>, links: seq<Id>): seq<LinkedConcept>
    decreases |links|
  {
    if links == [] then []
    else
      var link := links[|links| - 1];
      ExistingLinked(trackConcepts, concepts, links[..|links| - 1])
        + (if link in trackConcepts && trackConcepts[link].conceptId in concepts
           then [LinkedConcept(trackConcepts[link].conceptId, concepts[trackConcepts[link].conceptId].name)]
           else [])
  }

  lemma {:induction false} ExistingLinkedMembers(trackConcepts: map<Id, TrackConcept>, concepts: map<Id, Concept>, links: seq<Id>)
    ensures forall c | c in ExistingLinked(trackConcepts, concepts, links) ::
              c.conceptId in concepts && c.name == concepts[c.conceptId].name
              && exists link | link in links :: link in trackConcepts && trackConcepts[link].conceptId == c.conceptId
    ensures forall link | link in links && link in trackConcepts && trackConcepts[link].conceptId in concepts ::
              LinkedConcept(trackConcepts[link].conceptId, concepts[trackConcepts[link].conceptId].name)
                in ExistingLinked(trackConcepts, concepts, links)
    decreases |links|
  {
    if links != [] {
      var init := links[..|links| - 1];
      ExistingLinkedMembers(trackConcepts, concepts, init);
      assert links == init + [links[|links| - 1]];
      forall c | c in ExistingLinked(trackConcepts, concepts, links)
        ensures exists link | link in links :: link in trackConcepts && trackConcepts[link].conceptId == c.conceptId
      {
        if c in ExistingLinked(trackConcepts, concepts, init) {
          var link :| link in init && link in trackConcepts && trackConcepts[link].conceptId == c.conceptId;
          assert link in links;
        }
      }
    }
  }

  /** The view keeps the order of the links: the concepts of earlier links come first.
      Together with the one-link case of the definition, this fixes the whole view. */
  lemma {:induction false} ExistingLinkedInOrder(trackConcepts: map<Id, TrackConcept>, concepts: map<Id, Concept>,
                                                 a: seq<Id>, b: seq<Id>)
    ensures ExistingLinked(trackConcepts, concepts, a + b)
              == ExistingLinked(trackConcepts, concepts, a) + ExistingLinked(trackConcepts, concepts, b)
    decreases |b|
  {
    if b != [] {
      var init, last := b[..|b| - 1], b[|b| - 1];
      ExistingLinkedInOrder(trackConcepts, concepts, a, init);
      assert (a + b)[..|a + b| - 1] == a + init;
      assert (a + b)[|a + b| - 1] == last;
    } else {
      assert a + b == a;
    }
  }
  /** The view of one track: its links through the `byTrack` index, oldest first, with
      those whose concept is gone dropped. */
  function ViewOf(tracks: map<Id, Track>, trackConcepts: map<Id, TrackConcept>, concepts: map<Id, Concept>,
                  bound: nat, trackId: Id): TrackView
    requires trackId in tracks
  {
    TrackView(trackId, tracks[trackId], ExistingLinked(trackConcepts, concepts, Select(trackConcepts, bound, LinkOf(trackId))))
  }

  /** `listTracks`' answer for the tracks `ids`. */
  function ViewsOf(tracks: map<Id, Track>, trackConcepts: map<Id, TrackConcept>, concepts: map<Id, Concept>,
                   bound: nat, ids: seq<Id>): seq<TrackView>
    requires forall id | id in ids :: id in tracks
    decreases |ids|
  {
    if ids == [] then []
    else ViewsOf(tracks, trackConcepts, concepts, bound, ids[..|ids| - 1])
           + [ViewOf(tracks, trackConcepts, concepts, bound, ids[|ids| - 1])]
  }

  lemma {:induction false} ViewsOfSpec(tracks: map<Id, Track>, trackConcepts: map<Id, TrackConcept>, concepts: map<Id, Concept>,
                                       bound: nat, ids: seq<Id>)
    requires forall id | id in ids :: id in tracks
    ensures |ViewsOf(tracks, trackConcepts, concepts, bound, ids)| == |ids|
    ensures forall k | 0 <= k < |ids| :: ViewsOf(tracks, trackConcepts, concepts, bound, ids)[k]
                                          == ViewOf(tracks, trackConcepts, concepts, bound, ids[k])
    decreases |ids|
  {
    if ids != [] {
      var init := ids[..|ids| - 1];
      ViewsOfSpec(tracks, trackConcepts, concepts, bound, init);
      var views := ViewsOf(tracks, trackConcepts, concepts, bound, ids);
      assert views == ViewsOf(tracks, trackConcepts, concepts, bound, init)
                      + [ViewOf(tracks, trackConcepts, concepts, bound, ids[|init|])];
      forall k | 0 <= k < |ids|
        ensures views[k] == ViewOf(tracks, trackConcepts, concepts, bound, ids[k])
      {
        if k < |init| {
          assert ids[k] == init[k];
        }
      }
    }
  }

  /** One more track adds its view at the end. */
  lemma ViewsOfStep(tracks: map<Id, Track>, trackConcepts: map<Id, TrackConcept>, concepts: map<Id, Concept>,
                    bound: nat, ids: seq<Id>, i: nat)
    requires forall id | id in ids :: id in tracks
    requires i < |ids|
    ensures ViewsOf(tracks, trackConcepts, concepts, bound, ids[..i + 1])
            == ViewsOf(tracks, trackConcepts, concepts, bound, ids[..i]) + [ViewOf(tracks, trackConcepts, concepts, bound, ids[i])]
  {
    assert ids[..i + 1][..i] == ids[..i];
  }

  /** The answer of `listTracks` for the signed-in user `userId`. */
  function TrackList(db: Db, userId: Id): seq<TrackView>
    reads db
  {
    var ids := NewestTracks(db.tracks, db.nextId, userId);
    SelectMembers(db.tracks, db.nextId, OwnerIs(userId));
    ViewsOf(db.tracks, db.trackConcepts, db.concepts, db.nextId, ids)
  }

  /** A track's view lists exactly the concepts linked to it that still exist. */
  lemma ViewOfSpec(tracks: map<Id, Track>, trackConcepts: map<Id, TrackConcept>, concepts: map<Id, Concept>,
                   bound: nat, trackId: Id)
    requires trackId in tracks
    ensures var v := ViewOf(tracks, trackConcepts, concepts, bound, trackId);
            && (forall c | c in v.concepts ::
                  c.conceptId in concepts && c.name == concepts[c.conceptId].name
                  && exists link | link in trackConcepts && link < bound ::
                       trackConcepts[link].trackId == trackId && trackConcepts[link].conceptId == c.conceptId)
            && (forall link | link in trackConcepts && link < bound && trackConcepts[link].trackId == trackId
                              && trackConcepts[link].conceptId in concepts ::
                  LinkedConcept(trackConcepts[link].conceptId, concepts[trackConcepts[link].conceptId].name) in v.concepts)
  {
    var links := Select(trackConcepts, bound, LinkOf(trackId));
    SelectMembers(trackConcepts, bound, LinkOf(trackId));
    ExistingLinkedMembers(trackConcepts, concepts, links);
  }

  /** At most 50 of the user's tracks, newest first, each with its own view. */
  lemma TrackListSpec(db: Db, userId: Id)
    ensures var r := TrackList(db, userId);
            && |r| <= TrackPage
            && (forall k | 0 <= k < |r| :: r[k].trackId in db.tracks && db.tracks[r[k].trackId].userId == userId
                                            && r[k] == ViewOf(db.tracks, db.trackConcepts, db.concepts, db.nextId, r[k].trackId))
            && (forall k, l | 0 <= k < l < |r| :: r[k].trackId > r[l].trackId)
  {
    var ids := NewestTracks(db.tracks, db.nextId, userId);
    NewestTracksSpec(db.tracks, db.nextId, userId);
    ViewsOfSpec(db.tracks, db.trackConcepts, db.concepts, db.nextId, ids);
    var r := TrackList(db, userId);
    forall k | 0 <= k < |r|
      ensures r[k].trackId == ids[k]
    {
      assert ids[k] in ids;
    }
  }

  /** `listTracks`: the loop that pushes one view per track. */
  method ListTracks(db: Db, userId: Id) returns (r: seq<TrackView>)
    ensures r == TrackList(db, userId)
  {
    var tracks, trackConcepts, concepts, bound := db.tracks, db.trackConcepts, db.concepts, db.nextId;
    var ids := NewestTracks(tracks, bound, userId);
    NewestTracksSpec(tracks, bound, userId);
    r := [];
    for i := 0 to |ids|
      invariant r == ViewsOf(tracks, trackConcepts, concepts, bound, ids[..i])
    {
      ViewsOfStep(tracks, trackConcepts, concepts, bound, ids, i);
      var links := Select(trackConcepts, bound, LinkOf(ids[i]));
      var linked := ExistingLinked(trackConcepts, concepts, links);
      r := r + [TrackView(ids[i], tracks[ids[i]], linked)];
    }
    assert ids[..|ids|] == ids;
  }
}
