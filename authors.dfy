/** The authors table (convex/authors.ts): look-up by handle through the `byHandle`
    index, and insert when there is none. */
module Authors {
  import opened Wrappers
  import opened Database

  function HandleIs(handle: string): Author -> bool {
    (a: Author) => a.handle == handle
  }

  /** The `byHandle` index: the ids of the authors with exactly this handle, oldest first. */
  function WithHandle(authors: map<Id, Author>, bound: nat, handle: string): seq<Id> {
    Select(authors, bound, HandleIs(handle))
  }

  /** Some author has the handle. */
  ghost predicate HasHandle(authors: map<Id, Author>, handle: string) {
    exists id | id in authors :: authors[id].handle == handle
  }

  /** Handles being unique, the index finds at most one author, and finds one exactly
      when some author has the handle. */
  lemma WithHandleIsUnique(authors: map<Id, Author>, bound: nat, handle: string)
    requires UniqueHandles(authors)
    requires forall id | id in authors :: id < bound
    ensures |WithHandle(authors, bound, handle)| <= 1
    ensures WithHandle(authors, bound, handle) != [] <==> HasHandle(authors, handle)
    ensures forall id | id in WithHandle(authors, bound, handle) :: id in authors && authors[id].handle == handle
  {
    SelectUnique(authors, bound, HandleIs(handle));
  }

  /** `getByHandle`. */
  function GetByHandle(db: Db, handle: string): Result<Option<Id>>
    reads db
  {
    Unique(WithHandle(db.authors, db.nextId, handle))
  }

  /** In a valid database `getByHandle` never throws: it returns the author with the
      handle, or null when there is none. */
  lemma GetByHandleFinds(db: Db, handle: string)
    requires db.Valid()
    ensures GetByHandle(db, handle).Success?
    ensures GetByHandle(db, handle).value.None? <==> !HasHandle(db.authors, handle)
    ensures GetByHandle(db, handle).value.Some? ==>
              var id := GetByHandle(db, handle).value.value;
              id in db.authors && db.authors[id].handle == handle
  {
    WithHandleIsUnique(db.authors, db.nextId, handle);
  }

  /** What one `upsertAuthor` does to the table: the author with the handle is returned
      and nothing is written, or, when there is none, a new author is inserted under the
      next id, which is returned. */
  ghost predicate AuthorUpserted(before: map<Id, Author>, beforeNext: nat, handle: string,
                                 displayName: Option<string>, now: Time,
                                 id: Id, after: map<Id, Author>, afterNext: nat)
  {
    if HasHandle(before, handle) then
      id in before && before[id].handle == handle && after == before && afterNext == beforeNext
    else
      id == beforeNext && after == before[id := Author(handle, displayName, now)] && afterNext == beforeNext + 1
  }

  /** An upsert keeps the handles unique and leaves exactly one author, the returned
      one, with the handle. */
  lemma AuthorUpsertedKeepsHandlesUnique(before: map<Id, Author>, beforeNext: nat, handle: string,
                                         displayName: Option<string>, now: Time,
                                         id: Id, after: map<Id, Author>, afterNext: nat)
    requires UniqueHandles(before) && forall a | a in before :: a < beforeNext
    requires AuthorUpserted(before, beforeNext, handle, displayName, now, id, after, afterNext)
    ensures UniqueHandles(after) && forall a | a in after :: a < afterNext
    ensures forall a | a in after && after[a].handle == handle :: a == id
  {
  }

  /** Calling `upsertAuthor` twice with one handle returns the same id both times and the
      second call writes nothing, whatever display name it passes. */
  lemma UpsertAuthorTwice(m0: map<Id, Author>, n0: nat, handle: string,
                          name1: Option<string>, now1: Time, id1: Id, m1: map<Id, Author>, n1: nat,
                          name2: Option<string>, now2: Time, id2: Id, m2: map<Id, Author>, n2: nat)
    requires UniqueHandles(m0) && forall a | a in m0 :: a < n0
    requires AuthorUpserted(m0, n0, handle, name1, now1, id1, m1, n1)
    requires AuthorUpserted(m1, n1, handle, name2, now2, id2, m2, n2)
    ensures id2 == id1 && m2 == m1 && n2 == n1
  {
    AuthorUpsertedKeepsHandlesUnique(m0, n0, handle, name1, now1, id1, m1, n1);
    assert m1[id1].handle == handle;
  }

  /** `upsertAuthor`. */
  method UpsertAuthor(db: Db, handle: string, displayName: Option<string>, now: Time) returns (id: Id)
    requires db.Valid()
    modifies db`authors, db`nextId
    ensures db.Valid()
    ensures AuthorUpserted(old(db.authors), old(db.nextId), handle, displayName, now, id, db.authors, db.nextId)
    ensures id in db.authors && db.authors[id].handle == handle
  {
    GetByHandleFinds(db, handle);
    var existing := GetByHandle(db, handle);
    if existing.value.Some? {
      return existing.value.value;
    }
    id := db.nextId;
    db.authors, db.nextId := db.authors[id := Author(handle, displayName, now)], id + 1;
  }
}
