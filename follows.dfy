/** Follows of concepts and authors (convex/follows.ts): a toggle on the key
    (user, target type, target). */
module Follows {
  import opened Seqs
  import opened Database

  function KeyIs(key: FollowKey): Follow -> bool {
    (f: Follow) => KeyOf(f) == key
  }

  /** The `byUserAndTarget` index. */
  function FollowsWithKey(follows: map<Id, Follow>, bound: nat, key: FollowKey): seq<Id> {
    Select(follows, bound, KeyIs(key))
  }

  /** The keys that have a follow. */
  ghost function Keys(follows: map<Id, Follow>): set<FollowKey> {
    set id | id in follows :: KeyOf(follows[id])
  }

  /** What one `toggleFollow` does to the table: the follow with the key is deleted and
      `following` is false, or, when there is none, one is inserted under the next id and
      `following` is true. */
  ghost predicate Toggled(before: map<Id, Follow>, beforeNext: nat, key: FollowKey, now: Time,
                          following: bool, after: map<Id, Follow>, afterNext: nat)
  {
    if key in Keys(before) then
      && !following && afterNext == beforeNext
      && exists id | id in before && KeyOf(before[id]) == key :: after == before - {id}
    else
      && following && afterNext == beforeNext + 1
      && after == before[beforeNext := Follow(key.userId, key.targetType, key.targetId, now)]
  }

  /** A toggle flips the key in or out of the followed keys, keeps follows unique per
      key, and touches no follow with another key. */
  lemma ToggledFlipsKey(before: map<Id, Follow>, beforeNext: nat, key: FollowKey, now: Time,
                        following: bool, after: map<Id, Follow>, afterNext: nat)
    requires UniqueFollows(before) && forall id | id in before :: id < beforeNext
    requires Toggled(before, beforeNext, key, now, following, after, afterNext)
    ensures UniqueFollows(after) && forall id | id in after :: id < afterNext
    ensures Keys(after) == if key in Keys(before) then Keys(before) - {key} else Keys(before) + {key}
    ensures following <==> key in Keys(after)
    ensures forall id | id in before && KeyOf(before[id]) != key :: id in after && after[id] == before[id]
    ensures forall id | id in after && KeyOf(after[id]) != key :: id in before
  {
    if key in Keys(before) {
      var id :| id in before && KeyOf(before[id]) == key && after == before - {id};
      forall k | k in Keys(before) - {key}
        ensures k in Keys(after)
      {
        var j :| j in before && KeyOf(before[j]) == k;
        assert j in after;
      }
    } else {
      var f := Follow(key.userId, key.targetType, key.targetId, now);
      assert KeyOf(f) == key && after[beforeNext] == f;
      forall k | k in Keys(before)
        ensures k in Keys(after)
      {
        var j :| j in before && KeyOf(before[j]) == k;
        assert j in after;
      }
    }
  }

  /** Toggling the same key twice gives back the followed keys and every follow with
      another key, and the two answers are opposite. */
  lemma ToggleTwiceRestores(m0: map<Id, Follow>, n0: nat, key: FollowKey,
                            now1: Time, following1: bool, m1: map<Id, Follow>, n1: nat,
                            now2: Time, following2: bool, m2: map<Id, Follow>, n2: nat)
    requires UniqueFollows(m0) && forall id | id in m0 :: id < n0
    requires Toggled(m0, n0, key, now1, following1, m1, n1)
    requires Toggled(m1, n1, key, now2, following2, m2, n2)
    ensures Keys(m2) == Keys(m0)
    ensures following2 == !following1
    ensures forall id | id in m0 && KeyOf(m0[id]) != key :: id in m2 && m2[id] == m0[id]
    ensures forall id | id in m2 && KeyOf(m2[id]) != key :: id in m0
  {
    ToggledFlipsKey(m0, n0, key, now1, following1, m1, n1);
    ToggledFlipsKey(m1, n1, key, now2, following2, m2, n2);
  }

  /** The look-up and the delete or insert of `toggleFollow`, on the table as the
      transaction sees it. */
  method ToggleIn(follows: map<Id, Follow>, next: nat, key: FollowKey, now: Time)
    returns (following: bool, follows': map<Id, Follow>, next': nat)
    requires UniqueFollows(follows) && forall id | id in follows :: id < next
    ensures Toggled(follows, next, key, now, following, follows', next')
    ensures UniqueFollows(follows') && forall id | id in follows' :: id < next'
    ensures next <= next'
  {
    SelectUnique(follows, next, KeyIs(key));
    var existing := Unique(FollowsWithKey(follows, next, key));
    if existing.value.Some? {
      following, follows', next' := false, follows - {existing.value.value}, next;
    } else {
      assert key !in Keys(follows);
      following, follows', next' := true, follows[next := Follow(key.userId, key.targetType, key.targetId, now)], next + 1;
    }
    ToggledFlipsKey(follows, next, key, now, following, follows', next');
  }

  /** `toggleFollow` for the signed-in user `userId`. */
  method ToggleFollow(db: Db, userId: Id, targetType: TargetType, targetId: Id, now: Time) returns (following: bool)
    requires db.Valid()
    modifies db`follows, db`nextId
    ensures db.Valid()
    ensures Toggled(old(db.follows), old(db.nextId), FollowKey(userId, targetType, targetId), now,
                    following, db.follows, db.nextId)
  {
    var follows, next;
    following, follows, next := ToggleIn(db.follows, db.nextId, FollowKey(userId, targetType, targetId), now);
    db.SetFollows(follows, next);
  }

  function FollowerIs(userId: Id): Follow -> bool {
    (f: Follow) => f.userId == userId
  }

  /** `listFollows` for the signed-in user `userId`, through the `byUser` index. */
  function ListFollows(db: Db, userId: Id): seq<Id>
    reads db
  {
    Select(db.follows, db.nextId, FollowerIs(userId))
  }

  /** The list holds exactly the caller's follows, each once, oldest first. */
  lemma ListFollowsIsCallersFollows(db: Db, userId: Id)
    requires db.Valid()
    ensures forall id | id in ListFollows(db, userId) :: id in db.follows && db.follows[id].userId == userId
    ensures forall id | id in db.follows && db.follows[id].userId == userId :: id in ListFollows(db, userId)
    ensures Distinct(ListFollows(db, userId))
    ensures forall i, j | 0 <= i < j < |ListFollows(db, userId)| :: ListFollows(db, userId)[i] < ListFollows(db, userId)[j]
  {
    SelectMembers(db.follows, db.nextId, FollowerIs(userId));
  }
}
