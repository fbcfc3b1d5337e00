/** Votes on suggestions (convex/feedback.ts): one vote per user and suggestion, and the
    names of the concepts a user voted down, which the analyser avoids. */
module Feedback {
  import opened Wrappers
  import opened Seqs
  import opened Database

  /** The `status` field of `submitFeedback`'s answer. */
  datatype FeedbackStatus = Updated | Created

  function VoteKeyIs(userId: Id, suggestionId: Id): Feedback -> bool {
    (f: Feedback) => f.userId == userId && f.suggestionId == suggestionId
  }

  /** The `byUserAndSuggestion` index. */
  function VotesOn(feedback: map<Id, Feedback>, bound: nat, userId: Id, suggestionId: Id): seq<Id> {
    Select(feedback, bound, VoteKeyIs(userId, suggestionId))
  }

  /** The user has voted on the suggestion. */
  ghost predicate HasVote(feedback: map<Id, Feedback>, userId: Id, suggestionId: Id) {
    exists id | id in feedback :: feedback[id].userId == userId && feedback[id].suggestionId == suggestionId
  }

  /** What one `submitFeedback` does to the table: an existing vote of the user on the
      suggestion has its `vote` field, and nothing else, replaced; otherwise one record is
      inserted under the next id. */
  ghost predicate Voted(before: map<Id, Feedback>, beforeNext: nat, userId: Id, suggestionId: Id,
                        vote: Vote, now: Time, status: FeedbackStatus, after: map<Id, Feedback>, afterNext: nat)
  {
    if HasVote(before, userId, suggestionId) then
      && status == Updated && afterNext == beforeNext
      && exists id | id in before && before[id].userId == userId && before[id].suggestionId == suggestionId ::
           after == before[id := before[id].(vote := vote)]
    else
      && status == Created && afterNext == beforeNext + 1
      && after == before[beforeNext := Feedback(userId, suggestionId, vote, now)]
  }

  /** After a vote the user has exactly one record on the suggestion, holding the new
      vote; votes stay unique per user and suggestion, and every other record is as it
      was. */
  lemma VotedKeepsOneVote(before: map<Id, Feedback>, beforeNext: nat, userId: Id, suggestionId: Id,
                          vote: Vote, now: Time, status: FeedbackStatus, after: map<Id, Feedback>, afterNext: nat)
    requires UniqueVotes(before) && forall id | id in before :: id < beforeNext
    requires Voted(before, beforeNext, userId, suggestionId, vote, now, status, after, afterNext)
    ensures UniqueVotes(after) && forall id | id in after :: id < afterNext
    ensures HasVote(after, userId, suggestionId)
    ensures forall id | id in after && after[id].userId == userId && after[id].suggestionId == suggestionId ::
              after[id].vote == vote
    ensures forall id | id in before && (before[id].userId != userId || before[id].suggestionId != suggestionId) ::
              id in after && after[id] == before[id]
    ensures forall id | id in after && (after[id].userId != userId || after[id].suggestionId != suggestionId) ::
              id in before
  {
    if HasVote(before, userId, suggestionId) {
      var id :| id in before && before[id].userId == userId && before[id].suggestionId == suggestionId
                && after == before[id := before[id].(vote := vote)];
      assert after[id].userId == userId && after[id].suggestionId == suggestionId;
    } else {
      assert after[beforeNext].userId == userId && after[beforeNext].suggestionId == suggestionId;
    }
  }

  /** Voting twice on one suggestion leaves one record, with the second vote. */
  lemma VoteTwiceKeepsOneRecord(m0: map<Id, Feedback>, n0: nat, userId: Id, suggestionId: Id,
                                vote1: Vote, now1: Time, status1: FeedbackStatus, m1: map<Id, Feedback>, n1: nat,
                                vote2: Vote, now2: Time, status2: FeedbackStatus, m2: map<Id, Feedback>, n2: nat)
    requires UniqueVotes(m0) && forall id | id in m0 :: id < n0
    requires Voted(m0, n0, userId, suggestionId, vote1, now1, status1, m1, n1)
    requires Voted(m1, n1, userId, suggestionId, vote2, now2, status2, m2, n2)
    ensures status2 == Updated && n2 == n1 && m2.Keys == m1.Keys
    ensures forall id | id in m2 && m2[id].userId == userId && m2[id].suggestionId == suggestionId :: m2[id].vote == vote2
  {
    VotedKeepsOneVote(m0, n0, userId, suggestionId, vote1, now1, status1, m1, n1);
    VotedKeepsOneVote(m1, n1, userId, suggestionId, vote2, now2, status2, m2, n2);
  }

  /** `submitFeedback` for the signed-in user `userId`. */
  method SubmitFeedback(db: Db, userId: Id, suggestionId: Id, vote: Vote, now: Time) returns (status: FeedbackStatus)
    requires db.Valid()
    modifies db`feedback, db`nextId
    ensures db.Valid()
    ensures Voted(old(db.feedback), old(db.nextId), userId, suggestionId, vote, now, status, db.feedback, db.nextId)
  {
    SelectUnique(db.feedback, db.nextId, VoteKeyIs(userId, suggestionId));
    var existing := Unique(VotesOn(db.feedback, db.nextId, userId, suggestionId));
    if existing.value.Some? {
      var id := existing.value.value;
      db.feedback := db.feedback[id := db.feedback[id].(vote := vote)];
      return Updated;
    }
    db.feedback, db.nextId := db.feedback[db.nextId := Feedback(userId, suggestionId, vote, now)], db.nextId + 1;
    status := Created;
  }

  /** The default of `limit`. */
  const DefaultLimit: nat := 50

  function IsDownBy(userId: Id): Feedback -> bool {
    (f: Feedback) => f.userId == userId && f.vote == Down
  }

  /** The `byUser` index filtered to down votes, cut at `limit`: the user's oldest
      down votes. */
  function DownVotes(feedback: map<Id, Feedback>, bound: nat, userId: Id, limit: nat): seq<Id> {
    Take(Select(feedback, bound, IsDownBy(userId)), limit)
  }

  /** The name a vote contributes: that of the concept of its suggestion, when both
      exist and the name is not empty. */
  function VotedConceptName(suggestions: map<Id, Suggestion>, concepts: map<Id, Concept>, f: Feedback): Option<string> {
    if f.suggestionId !in suggestions then None
    else
      var conceptId := suggestions[f.suggestionId].conceptId;
      if conceptId !in concepts || concepts[conceptId].name == "" then None
      else Some(concepts[conceptId].name)
  }

  /** The names the votes `ids` contribute, with repeats. */
  function NamesOf(feedback: map<Id, Feedback>, suggestions: map<Id, Suggestion>, concepts: map<Id, Concept>,
                   ids: seq<Id>): seq<string>
    decreases |ids|
  {
    if ids == [] then []
    else
      var last := ids[|ids| - 1];
      var name := if last in feedback then VotedConceptName(suggestions, concepts, feedback[last]) else None;
      NamesOf(feedback, suggestions, concepts, ids[..|ids| - 1]) + (if name.Some? then [name.value] else [])
  }

  /** A name is listed exactly when one of the votes contributes it. */
  lemma {:induction false} NamesOfMembers(feedback: map<Id, Feedback>, suggestions: map<Id, Suggestion>,
                                          concepts: map<Id, Concept>, ids: seq<Id>)
    requires forall id | id in ids :: id in feedback
    ensures forall name | name in NamesOf(feedback, suggestions, concepts, ids) ::
              exists k | 0 <= k < |ids| :: VotedConceptName(suggestions, concepts, feedback[ids[k]]) == Some(name)
    ensures forall k | 0 <= k < |ids| && VotedConceptName(suggestions, concepts, feedback[ids[k]]).Some? ::
              VotedConceptName(suggestions, concepts, feedback[ids[k]]).value in NamesOf(feedback, suggestions, concepts, ids)
    ensures forall name | name in NamesOf(feedback, suggestions, concepts, ids) :: name != ""
    ensures |NamesOf(feedback, suggestions, concepts, ids)| <= |ids|
    decreases |ids|
  {
    if ids != [] {
      var init := ids[..|ids| - 1];
      NamesOfMembers(feedback, suggestions, concepts, init);
      forall name | name in NamesOf(feedback, suggestions, concepts, ids)
        ensures exists k | 0 <= k < |ids| :: VotedConceptName(suggestions, concepts, feedback[ids[k]]) == Some(name)
      {
        if name in NamesOf(feedback, suggestions, concepts, init) {
          var k :| 0 <= k < |init| && VotedConceptName(suggestions, concepts, feedback[init[k]]) == Some(name);
          assert ids[k] == init[k];
        } else {
          assert VotedConceptName(suggestions, concepts, feedback[ids[|ids| - 1]]) == Some(name);
        }
      }
      forall k | 0 <= k < |ids| && VotedConceptName(suggestions, concepts, feedback[ids[k]]).Some?
        ensures VotedConceptName(suggestions, concepts, feedback[ids[k]]).value in NamesOf(feedback, suggestions, concepts, ids)
      {
        if k < |init| {
          assert ids[k] == init[k];
        }
      }
    }
  }

  /** The answer of `listDownvotedConceptNames`: the distinct names the user's oldest
      `limit` down votes contribute, in vote order, cut at `limit`. */
  function DownvotedNames(feedback: map<Id, Feedback>, suggestions: map<Id, Suggestion>, concepts: map<Id, Concept>,
                          bound: nat, userId: Id, limit: nat): seq<string>
  {
    Take(Dedup(NamesOf(feedback, suggestions, concepts, DownVotes(feedback, bound, userId, limit))), limit)
  }

  /** The names are distinct, non-empty and at most `limit`; a name is listed exactly
      when one of the user's oldest `limit` down votes is on a suggestion of an existing
      concept with that name. */
  lemma DownvotedNamesSpec(feedback: map<Id, Feedback>, suggestions: map<Id, Suggestion>, concepts: map<Id, Concept>,
                           bound: nat, userId: Id, limit: nat)
    ensures var r := DownvotedNames(feedback, suggestions, concepts, bound, userId, limit);
            && Distinct(r) && |r| <= limit
            && (forall name | name in r :: name != "")
    ensures var votes := DownVotes(feedback, bound, userId, limit);
            && |votes| <= limit
            && (forall k | 0 <= k < |votes| :: votes[k] in feedback && feedback[votes[k]].userId == userId
                                               && feedback[votes[k]].vote == Down)
    ensures var votes := DownVotes(feedback, bound, userId, limit);
            forall name :: name in DownvotedNames(feedback, suggestions, concepts, bound, userId, limit) <==>
              exists k | 0 <= k < |votes| :: VotedConceptName(suggestions, concepts, feedback[votes[k]]) == Some(name)
  {
    var all := Select(feedback, bound, IsDownBy(userId));
    SelectMembers(feedback, bound, IsDownBy(userId));
    var votes := DownVotes(feedback, bound, userId, limit);
    assert forall k | 0 <= k < |votes| :: votes[k] == all[k] && all[k] in all;
    NamesOfMembers(feedback, suggestions, concepts, votes);
    var names := NamesOf(feedback, suggestions, concepts, votes);
    var d := Dedup(names);
    assert |d| <= limit;
    assert DownvotedNames(feedback, suggestions, concepts, bound, userId, limit) == d;
  }

  /** `listDownvotedConceptNames`; a missing `limit` means 50. */
  method ListDownvotedConceptNames(db: Db, userId: Id, limit: Option<nat>) returns (names: seq<string>)
    ensures names == DownvotedNames(db.feedback, db.suggestions, db.concepts, db.nextId, userId, limit.GetOr(DefaultLimit))
  {
    var feedback, suggestions, concepts := db.feedback, db.suggestions, db.concepts;
    var n := limit.GetOr(DefaultLimit);
    var votes := DownVotes(feedback, db.nextId, userId, n);
    names := CollectNames(feedback, suggestions, concepts, votes);
    names := Take(names, n);
  }

  /** The loop that adds each vote's concept name to the `names` set. */
  method CollectNames(feedback: map<Id, Feedback>, suggestions: map<Id, Suggestion>, concepts: map<Id, Concept>,
                      votes: seq<Id>) returns (names: seq<string>)
    ensures names == Dedup(NamesOf(feedback, suggestions, concepts, votes))
  {
    names := [];
    for i := 0 to |votes|
      invariant names == Dedup(NamesOf(feedback, suggestions, concepts, votes[..i]))
    {
      ghost var before := NamesOf(feedback, suggestions, concepts, votes[..i]);
      assert votes[..i + 1][..i] == votes[..i];
      var vote := votes[i];
      if vote in feedback {
        var name := VotedConceptName(suggestions, concepts, feedback[vote]);
        if name.Some? {
          assert NamesOf(feedback, suggestions, concepts, votes[..i + 1]) == before + [name.value];
          assert (before + [name.value])[..|before|] == before;
          if name.value !in names {
            names := names + [name.value];
          }
        } else {
          assert NamesOf(feedback, suggestions, concepts, votes[..i + 1]) == before;
        }
      } else {
        assert NamesOf(feedback, suggestions, concepts, votes[..i + 1]) == before;
      }
    }
    assert votes[..|votes|] == votes;
  }
}
