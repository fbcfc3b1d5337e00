/** The concept catalogue (convex/concepts.ts): look-up by exact name through the
    `byName` index, and insert when there is none. */
module Concepts {
  import opened Wrappers
  import opened Seqs
  import opened Database

  /** The arguments of `upsertConcept`, one element of those of `upsertConcepts`. */
  datatype ConceptInput = ConceptInput(
    name: string,
    description: Option<string>,
    aliases: seq<string>,
    status: Option<ConceptStatus>)

  function NamedAs(name: string): Concept -> bool {
    (c: Concept) => c.name == name
  }

  /** The `byName` index: the ids of the concepts called exactly `name`, oldest first. */
  function Named(concepts: map<Id, Concept>, bound: nat, name: string): seq<Id> {
    Select(concepts, bound, NamedAs(name))
  }

  /** The document inserted for `input`; the status defaults to active. */
  function NewConcept(input: ConceptInput, now: Time): Concept {
    Concept(input.name, input.description, input.aliases, input.status.GetOr(ConceptActive), now)
  }

  /** What one `upsertConcept` does, as a relation between the table before and after:
      two concepts with the name make `.unique()` throw and nothing is written; one is
      returned and nothing is written; none, and the new concept is inserted under the
      next id, which is returned. */
  ghost predicate Upserted(before: map<Id, Concept>, beforeNext: nat, input: ConceptInput, now: Time,
                           r: Result<Id>, after: map<Id, Concept>, afterNext: nat)
  {
    var found := Named(before, beforeNext, input.name);
    && (|found| > 1 ==> r == Failure(UniqueError) && after == before && afterNext == beforeNext)
    && (|found| == 1 ==> r == Success(found[0]) && after == before && afterNext == beforeNext)
    && (found == [] ==> && r == Success(beforeNext)
                        && after == before[beforeNext := NewConcept(input, now)]
                        && afterNext == beforeNext + 1)
  }

  /** After an upsert that succeeds, exactly one concept has the name, the returned one,
      and the look-up of every other name is as before. */
  lemma UpsertedIndex(before: map<Id, Concept>, beforeNext: nat, input: ConceptInput, now: Time,
                      r: Result<Id>, after: map<Id, Concept>, afterNext: nat)
    requires forall id | id in before :: id < beforeNext
    requires Upserted(before, beforeNext, input, now, r, after, afterNext)
    ensures r.Success? ==> Named(after, afterNext, input.name) == [r.value]
    ensures forall name | name != input.name :: Named(after, afterNext, name) == Named(before, beforeNext, name)
    ensures forall id | id in after :: id < afterNext
  {
    if Named(before, beforeNext, input.name) == [] {
      forall name
        ensures Named(after, afterNext, name)
             == Named(before, beforeNext, name) + (if name == input.name then [beforeNext] else [])
      {
        SelectAfterInsert(before, beforeNext, NamedAs(name), NewConcept(input, now));
      }
    }
  }

  /** The look-up and conditional insert on a table and its id counter. */
  function UpsertIn(rows: map<Id, Concept>, next: nat, input: ConceptInput, now: Time): (r: (Result<Id>, map<Id, Concept>, nat))
    ensures Upserted(rows, next, input, now, r.0, r.1, r.2)
  {
    var existing := Unique(Named(rows, next, input.name));
    if existing.Failure? then (Failure(existing.error), rows, next)
    else if existing.value.Some? then (Success(existing.value.value), rows, next)
    else (Success(next), rows[next := NewConcept(input, now)], next + 1)
  }

  /** `upsertConcept`. */
  method UpsertConcept(db: Db, input: ConceptInput, now: Time) returns (r: Result<Id>)
    requires db.Valid()
    modifies db`concepts, db`nextId
    ensures db.Valid()
    ensures Upserted(old(db.concepts), old(db.nextId), input, now, r, db.concepts, db.nextId)
    ensures r.Success? ==> Named(db.concepts, db.nextId, input.name) == [r.value]
    ensures forall name | name != input.name ::
              Named(db.concepts, db.nextId, name) == Named(old(db.concepts), old(db.nextId), name)
  {
    var step := UpsertIn(db.concepts, db.nextId, input, now);
    r := step.0;
    db.concepts, db.nextId := step.1, step.2;
    UpsertedIndex(old(db.concepts), old(db.nextId), input, now, r, db.concepts, db.nextId);
  }

  // The loop invariant of `upsertConcepts` after `i` inputs, split into its parts; `cur`
  // is the table now and `start` the table on entry.

  /** Ids stay below the counter, which only grows. */
  ghost predicate Bounded(start: map<Id, Concept>, startNext: nat, cur: map<Id, Concept>, curNext: nat) {
    && (forall id | id in start :: id < startNext)
    && (forall id | id in cur :: id < curNext)
    && startNext <= curNext
  }

  /** Every name seen so far names exactly one concept: the one returned for it. */
  ghost predicate SeenResolved(inputs: seq<ConceptInput>, i: nat, ids: seq<Id>, names: set<string>,
                               cur: map<Id, Concept>, curNext: nat)
  {
    && i <= |inputs| && |ids| == i
    && (forall k | 0 <= k < i :: inputs[k].name in names)
    && (forall k | 0 <= k < i :: Named(cur, curNext, inputs[k].name) == [ids[k]])
    && (forall name | name in names :: |Named(cur, curNext, name)| == 1)
  }

  /** Names not seen yet look up as on entry; seen names had at most one concept then. */
  ghost predicate UnseenAsOnEntry(names: set<string>, start: map<Id, Concept>, startNext: nat,
                                  cur: map<Id, Concept>, curNext: nat)
  {
    && (forall name | name !in names :: Named(cur, curNext, name) == Named(start, startNext, name))
    && (forall name | name in names :: |Named(start, startNext, name)| <= 1)
  }

  /** No document present on entry changed. */
  ghost predicate EntryKept(start: map<Id, Concept>, cur: map<Id, Concept>) {
    forall id | id in start :: id in cur && cur[id] == start[id]
  }

  /** Every new document was inserted for input `origin[id]`, whose id it is. */
  ghost predicate NewFromInputs(inputs: seq<ConceptInput>, now: Time, i: nat, ids: seq<Id>, origin: map<Id, nat>,
                                start: map<Id, Concept>, cur: map<Id, Concept>)
  {
    forall id | id in cur && id !in start ::
      id in origin && origin[id] < i && origin[id] < |ids| && ids[origin[id]] == id
      && origin[id] < |inputs| && cur[id] == NewConcept(inputs[origin[id]], now)
  }

  lemma StepSeenResolved(inputs: seq<ConceptInput>, now: Time, i: nat, ids: seq<Id>, names: set<string>,
                         cur: map<Id, Concept>, curNext: nat, r: Result<Id>, after: map<Id, Concept>, afterNext: nat)
    requires SeenResolved(inputs, i, ids, names, cur, curNext) && i < |inputs|
    requires forall id | id in cur :: id < curNext
    requires Upserted(cur, curNext, inputs[i], now, r, after, afterNext) && r.Success?
    ensures SeenResolved(inputs, i + 1, ids + [r.value], names + {inputs[i].name}, after, afterNext)
  {
    var name := inputs[i].name;
    UpsertedIndex(cur, curNext, inputs[i], now, r, after, afterNext);
    var ids' := ids + [r.value];
    forall k | 0 <= k < i + 1
      ensures Named(after, afterNext, inputs[k].name) == [ids'[k]]
    {
      if k < i {
        assert ids'[k] == ids[k];
        if inputs[k].name == name {
          assert Named(cur, curNext, name) == [ids[k]];
        }
      }
    }
  }

  lemma StepUnseen(inputs: seq<ConceptInput>, now: Time, i: nat, ids: seq<Id>, names: set<string>,
                   start: map<Id, Concept>, startNext: nat,
                   cur: map<Id, Concept>, curNext: nat, r: Result<Id>, after: map<Id, Concept>, afterNext: nat)
    requires SeenResolved(inputs, i, ids, names, cur, curNext) && i < |inputs|
    requires UnseenAsOnEntry(names, start, startNext, cur, curNext)
    requires forall id | id in cur :: id < curNext
    requires Upserted(cur, curNext, inputs[i], now, r, after, afterNext) && r.Success?
    ensures UnseenAsOnEntry(names + {inputs[i].name}, start, startNext, after, afterNext)
  {
    UpsertedIndex(cur, curNext, inputs[i], now, r, after, afterNext);
    var name := inputs[i].name;
    if name !in names {
      assert Named(cur, curNext, name) == Named(start, startNext, name);
    }
  }

  lemma StepNew(inputs: seq<ConceptInput>, now: Time, i: nat, ids: seq<Id>, origin: map<Id, nat>,
                start: map<Id, Concept>, startNext: nat,
                cur: map<Id, Concept>, curNext: nat, r: Result<Id>, after: map<Id, Concept>, afterNext: nat)
    requires NewFromInputs(inputs, now, i, ids, origin, start, cur) && |ids| == i < |inputs|
    requires EntryKept(start, cur) && Bounded(start, startNext, cur, curNext)
    requires Upserted(cur, curNext, inputs[i], now, r, after, afterNext) && r.Success?
    ensures NewFromInputs(inputs, now, i + 1, ids + [r.value],
                          if afterNext != curNext then origin[curNext := i] else origin, start, after)
    ensures EntryKept(start, after)
    ensures Bounded(start, startNext, after, afterNext)
  {
    var ids' := ids + [r.value];
    var origin' := if afterNext != curNext then origin[curNext := i] else origin;
    forall id | id in after && id !in start
      ensures id in origin' && origin'[id] < i + 1 && origin'[id] < |ids'| && ids'[origin'[id]] == id
           && origin'[id] < |inputs| && after[id] == NewConcept(inputs[origin'[id]], now)
    {
      if afterNext != curNext && id == curNext {
      } else {
        assert id in cur;
        assert ids'[origin[id]] == ids[origin[id]];
      }
    }
  }

  /** The whole loop invariant of `upsertConcepts`. */
  ghost predicate Progress(inputs: seq<ConceptInput>, now: Time, start: map<Id, Concept>, startNext: nat,
                           i: nat, ids: seq<Id>, names: set<string>, origin: map<Id, nat>,
                           cur: map<Id, Concept>, curNext: nat)
  {
    && Bounded(start, startNext, cur, curNext)
    && SeenResolved(inputs, i, ids, names, cur, curNext)
    && UnseenAsOnEntry(names, start, startNext, cur, curNext)
    && EntryKept(start, cur)
    && NewFromInputs(inputs, now, i, ids, origin, start, cur)
  }

  /** One successful upsert keeps the loop invariant. */
  lemma ProgressStep(inputs: seq<ConceptInput>, now: Time, start: map<Id, Concept>, startNext: nat,
                     i: nat, ids: seq<Id>, names: set<string>, origin: map<Id, nat>,
                     cur: map<Id, Concept>, curNext: nat, r: Result<Id>, after: map<Id, Concept>, afterNext: nat)
    requires Progress(inputs, now, start, startNext, i, ids, names, origin, cur, curNext) && i < |inputs|
    requires Upserted(cur, curNext, inputs[i], now, r, after, afterNext) && r.Success?
    ensures Progress(inputs, now, start, startNext, i + 1, ids + [r.value], names + {inputs[i].name},
                     if afterNext != curNext then origin[curNext := i] else origin, after, afterNext)
  {
    StepSeenResolved(inputs, now, i, ids, names, cur, curNext, r, after, afterNext);
    StepUnseen(inputs, now, i, ids, names, start, startNext, cur, curNext, r, after, afterNext);
    StepNew(inputs, now, i, ids, origin, start, startNext, cur, curNext, r, after, afterNext);
  }

  /** A failing upsert is a name that two concepts held on entry. */
  lemma StepFailure(inputs: seq<ConceptInput>, now: Time, i: nat, ids: seq<Id>, names: set<string>,
                    start: map<Id, Concept>, startNext: nat,
                    cur: map<Id, Concept>, curNext: nat, r: Result<Id>, after: map<Id, Concept>, afterNext: nat)
    requires SeenResolved(inputs, i, ids, names, cur, curNext) && i < |inputs|
    requires UnseenAsOnEntry(names, start, startNext, cur, curNext)
    requires Upserted(cur, curNext, inputs[i], now, r, after, afterNext) && r.Failure?
    ensures |Named(start, startNext, inputs[i].name)| > 1
  {
    var name := inputs[i].name;
    assert |Named(cur, curNext, name)| > 1;
    assert name !in names;
  }

  /** The invariant after the last input gives the postcondition of a successful call. */
  lemma Finish(inputs: seq<ConceptInput>, now: Time, ids: seq<Id>, names: set<string>, origin: map<Id, nat>,
               start: map<Id, Concept>, startNext: nat, cur: map<Id, Concept>, curNext: nat)
    requires SeenResolved(inputs, |inputs|, ids, names, cur, curNext)
    requires UnseenAsOnEntry(names, start, startNext, cur, curNext)
    requires NewFromInputs(inputs, now, |inputs|, ids, origin, start, cur)
    ensures forall k | 0 <= k < |inputs| :: |Named(start, startNext, inputs[k].name)| <= 1
    ensures forall id | id in cur && id !in start ::
              exists k | 0 <= k < |inputs| :: ids[k] == id && cur[id] == NewConcept(inputs[k], now)
  {
    forall id | id in cur && id !in start
      ensures exists k | 0 <= k < |inputs| :: ids[k] == id && cur[id] == NewConcept(inputs[k], now)
    {
      var k := origin[id];
    }
  }

  /** A successful `upsertConcepts` leaves each input name naming exactly one concept,
      the one whose id it returned (`firstIds`); calling it again with those names
      therefore finds every one of them, inserts nothing and returns the same ids:
      `start` is the table before the repeat call, `cur` and `ids` what it leaves and
      returns. */
  lemma RepeatUpsertInsertsNothing(inputs: seq<ConceptInput>, now: Time, firstIds: seq<Id>, ids: seq<Id>,
                                   start: map<Id, Concept>, startNext: nat, cur: map<Id, Concept>, curNext: nat)
    requires |firstIds| == |inputs| && |ids| == |inputs|
    requires Bounded(start, startNext, cur, curNext)
    requires forall k | 0 <= k < |inputs| :: Named(start, startNext, inputs[k].name) == [firstIds[k]]
    requires forall k | 0 <= k < |inputs| :: Named(cur, curNext, inputs[k].name) == [ids[k]]
    requires forall id | id in start :: id in cur && cur[id] == start[id]
    requires forall id | id in cur && id !in start ::
               exists k | 0 <= k < |inputs| :: ids[k] == id && cur[id] == NewConcept(inputs[k], now)
    ensures cur == start
    ensures ids == firstIds
  {
    forall k | 0 <= k < |inputs|
      ensures ids[k] in start && ids[k] == firstIds[k]
    {
      var name := inputs[k].name;
      SelectMembers(start, startNext, NamedAs(name));
      SelectMembers(cur, curNext, NamedAs(name));
      var x := Named(start, startNext, name)[0];
      assert x in Named(start, startNext, name);
      assert x in Named(cur, curNext, name);
    }
  }

  /** The loop of `upsertConcepts` on the table as the transaction sees it: the
      look-up-or-insert of `upsertConcept` for each input in turn, stopping at the first
      one that throws. */
  method UpsertAllIn(start: map<Id, Concept>, startNext: nat, inputs: seq<ConceptInput>, now: Time)
    returns (r: Result<seq<Id>>, rows: map<Id, Concept>, next: nat)
    requires forall id | id in start :: id < startNext
    ensures r.Failure? <==> exists k | 0 <= k < |inputs| :: |Named(start, startNext, inputs[k].name)| > 1
    ensures r.Failure? ==> r.error == UniqueError
    ensures forall id | id in rows :: id < next
    ensures startNext <= next
    ensures r.Success? ==> |r.value| == |inputs|
    ensures r.Success? ==> forall k | 0 <= k < |inputs| :: Named(rows, next, inputs[k].name) == [r.value[k]]
    ensures forall id | id in start :: id in rows && rows[id] == start[id]
    ensures forall id | id in rows && id !in start ::
              exists k | 0 <= k < |inputs| :: r.Success? && r.value[k] == id && rows[id] == NewConcept(inputs[k], now)
  {
    rows, next := start, startNext;
    var ids: seq<Id> := [];
    ghost var names: set<string> := {};
    ghost var origin: map<Id, nat> := map[];
    var i := 0;
    while i < |inputs|
      invariant Progress(inputs, now, start, startNext, i, ids, names, origin, rows, next)
    {
      var input := inputs[i];
      var step := UpsertIn(rows, next, input, now);
      var id, rows', next' := step.0, step.1, step.2;
      if id.Failure? {
        StepFailure(inputs, now, i, ids, names, start, startNext, rows, next, id, rows', next');
        return Failure(id.error), start, startNext;
      }
      ProgressStep(inputs, now, start, startNext, i, ids, names, origin, rows, next, id, rows', next');
      if next' != next {
        origin := origin[next := i];
      }
      ids := ids + [id.value];
      names := names + {input.name};
      rows, next := rows', next';
      i := i + 1;
    }
    Finish(inputs, now, ids, names, origin, start, startNext, rows, next);
    r := Success(ids);
  }

  /** `upsertConcepts`: one id per input, in input order. Convex applies a mutation's
      writes when it commits and drops them when it throws, so the table is written only
      when every input succeeded. */
  method UpsertConcepts(db: Db, inputs: seq<ConceptInput>, now: Time) returns (r: Result<seq<Id>>)
    requires db.Valid()
    modifies db`concepts, db`nextId
    ensures db.Valid()
    ensures r.Failure? <==> exists k | 0 <= k < |inputs| :: |Named(old(db.concepts), old(db.nextId), inputs[k].name)| > 1
    ensures r.Failure? ==> r.error == UniqueError && db.concepts == old(db.concepts) && db.nextId == old(db.nextId)
    ensures r.Success? ==> |r.value| == |inputs|
    ensures r.Success? ==> forall k | 0 <= k < |inputs| :: Named(db.concepts, db.nextId, inputs[k].name) == [r.value[k]]
    ensures old(db.nextId) <= db.nextId
    ensures forall id | id in old(db.concepts) :: id in db.concepts && db.concepts[id] == old(db.concepts)[id]
    ensures r.Success? ==> forall id | id in db.concepts && id !in old(db.concepts) ::
              exists k | 0 <= k < |inputs| :: r.value[k] == id && db.concepts[id] == NewConcept(inputs[k], now)
  {
    var rows, next;
    r, rows, next := UpsertAllIn(db.concepts, db.nextId, inputs, now);
    if r.Success? {
      db.concepts, db.nextId := rows, next;
    }
  }

  function IsActive(c: Concept): bool {
    c.status == ConceptActive
  }

  /** `listConcepts`: the active concepts, through the `byStatus` index. */
  function ListConcepts(db: Db): seq<Id>
    reads db
  {
    Select(db.concepts, db.nextId, IsActive)
  }

  /** The list holds every active concept and nothing else, oldest first. */
  lemma ListConceptsIsActiveConcepts(db: Db)
    requires db.Valid()
    ensures forall id | id in ListConcepts(db) :: id in db.concepts && db.concepts[id].status == ConceptActive
    ensures forall id | id in db.concepts && db.concepts[id].status == ConceptActive :: id in ListConcepts(db)
    ensures Distinct(ListConcepts(db))
    ensures forall i, j | 0 <= i < j < |ListConcepts(db)| :: ListConcepts(db)[i] < ListConcepts(db)[j]
  {
    SelectMembers(db.concepts, db.nextId, IsActive);
  }
}
