/** The metadata service: a table of baselines keyed by image id, with the two
    request handlers that write and read it. The embedded database is a map;
    its storage errors are inputs, and the JSON encoding of a baseline is the
    identity. */
module MetadataService {
  import opened IntegrityCommon

  /** The handlers' responses: 201 with the stored baseline, 200 with the
      found baseline, 404, or 500 with the storage error. */
  datatype HttpResponse =
    | Created(baseline: Baseline)
    | Retrieved(baseline: Baseline)
    | NotFound(message: string)
    | InternalError(message: string)

  /** Every stored baseline sits under its own image id. */
  predicate WellKeyed(db: map<string, Baseline>) {
    forall id :: id in db ==> db[id].imageId == id
  }

  /** Inserting a baseline under its image id, replacing any earlier one. No
      field is validated: every id, the empty one included, is a key. */
  function Upsert(db: map<string, Baseline>, b: Baseline): (r: map<string, Baseline>)
    ensures r.Keys == db.Keys + {b.imageId}
    ensures r[b.imageId] == b
    ensures forall id :: id in db && id != b.imageId ==> r[id] == db[id]
  {
    db[b.imageId := b]
  }

  /** The answer to a read that the database served: the stored baseline, or
      404 naming the id. */
  function Lookup(db: map<string, Baseline>, imageId: string): (r: HttpResponse)
    ensures r.Retrieved? <==> imageId in db
    ensures r.Retrieved? ==> r.baseline == db[imageId]
    ensures !r.Retrieved? ==> r == NotFound("Baseline not found: " + imageId)
  {
    if imageId in db then Retrieved(db[imageId]) else NotFound("Baseline not found: " + imageId)
  }

  /** Storing keeps every baseline under its own id. */
  lemma UpsertWellKeyed(db: map<string, Baseline>, b: Baseline)
    requires WellKeyed(db)
    ensures WellKeyed(Upsert(db, b))
  {
  }

  /** A stored baseline is read back unchanged. */
  lemma LookupAfterUpsert(db: map<string, Baseline>, b: Baseline)
    ensures Lookup(Upsert(db, b), b.imageId) == Retrieved(b)
  {
  }

  /** A second store under the same image id replaces the first. */
  lemma UpsertLastWins(db: map<string, Baseline>, b1: Baseline, b2: Baseline)
    requires b1.imageId == b2.imageId
    ensures Upsert(Upsert(db, b1), b2) == Upsert(db, b2)
    ensures Lookup(Upsert(Upsert(db, b1), b2), b1.imageId) == Retrieved(b2)
  {
  }

  /** Storing under one id leaves the answer for every other id unchanged. */
  lemma UpsertOthersUnchanged(db: map<string, Baseline>, b: Baseline, imageId: string)
    requires imageId != b.imageId
    ensures Lookup(Upsert(db, b), imageId) == Lookup(db, imageId)
  {
  }

  /** Reading from an empty table answers 404, not an empty baseline; so does
      reading an id that was never stored, whatever else was. */
  lemma {:induction false} NeverStoredNotFound(stored: seq<Baseline>, imageId: string)
    requires forall i :: 0 <= i < |stored| ==> stored[i].imageId != imageId
    ensures Lookup(UpsertAll(map[], stored), imageId) == NotFound("Baseline not found: " + imageId)
  {
    UpsertAllKeys(map[], stored, imageId);
  }

  /** Storing a sequence of baselines in order. */
  function UpsertAll(db: map<string, Baseline>, stored: seq<Baseline>): map<string, Baseline>
  {
    if stored == [] then db
    else Upsert(UpsertAll(db, stored[..|stored| - 1]), stored[|stored| - 1])
  }

  lemma {:induction false} UpsertAllKeys(db: map<string, Baseline>, stored: seq<Baseline>, imageId: string)
    ensures imageId in UpsertAll(db, stored) <==>
      imageId in db || exists i :: 0 <= i < |stored| && stored[i].imageId == imageId
  {
    if stored != [] {
      var front := stored[..|stored| - 1];
      UpsertAllKeys(db, front, imageId);
      if exists i :: 0 <= i < |front| && front[i].imageId == imageId {
        var i :| 0 <= i < |front| && front[i].imageId == imageId;
        assert stored[i].imageId == imageId;
      }
      if exists i :: 0 <= i < |stored| && stored[i].imageId == imageId {
        var i :| 0 <= i < |stored| && stored[i].imageId == imageId;
        if i < |front| {
          assert front[i].imageId == imageId;
        }
      }
    }
  }

  /** Even the empty image id is accepted and read back. */
  lemma EmptyImageIdAccepted(db: map<string, Baseline>, b: Baseline)
    requires b.imageId == ""
    ensures "" in Upsert(db, b) && Lookup(Upsert(db, b), "") == Retrieved(b)
  {
  }

  /** The service's shared state: the open database. */
  class BaselineStore {
    var db: map<string, Baseline>

    constructor ()
      ensures db == map[]
    {
      db := map[];
    }

    /** `POST /baselines`. `insertError` and `flushError` are what the
        database's insert and flush return. A failed insert changes nothing;
        once the insert succeeds the baseline is stored under its image id
        even when the flush then fails, and only when both succeed is the
        answer 201 echoing the baseline. */
    method StoreBaseline(baseline: Baseline, insertError: Option<string>, flushError: Option<string>)
      returns (resp: HttpResponse)
      modifies this
      ensures insertError.Some? ==> db == old(db) && resp == InternalError(insertError.value)
      ensures insertError.None? ==> db == Upsert(old(db), baseline)
      ensures insertError.None? ==>
        resp == if flushError.None? then Created(baseline) else InternalError(flushError.value)
      ensures WellKeyed(old(db)) ==> WellKeyed(db)
    {
      if insertError.Some? {
        return InternalError(insertError.value);
      }
      db := db[baseline.imageId := baseline];
      if flushError.Some? {
        return InternalError(flushError.value);
      }
      return Created(baseline);
    }

    /** `GET /baselines/{image_id}`. `readError` is what a failing database
        read returns. A served read answers with the stored baseline, or 404
        when the id was never stored. */
    method GetBaseline(imageId: string, readError: Option<string>) returns (resp: HttpResponse)
      ensures readError.Some? ==> resp == InternalError(readError.value)
      ensures readError.None? ==> (resp.Retrieved? <==> imageId in db)
      ensures readError.None? && imageId in db ==> resp == Retrieved(db[imageId])
      ensures readError.None? && imageId !in db ==> resp == NotFound("Baseline not found: " + imageId)
    {
      if readError.Some? {
        return InternalError(readError.value);
      }
      if imageId in db {
        return Retrieved(db[imageId]);
      }
      return NotFound("Baseline not found: " + imageId);
    }
  }

  /** A client that stores a baseline and reads it back, with the database
      working, gets 201 and then 200 with the same baseline. */
  method StoreThenGet(store: BaselineStore, b: Baseline) returns (stored: HttpResponse, fetched: HttpResponse)
    modifies store
    ensures stored == Created(b) && fetched == Retrieved(b)
    ensures store.db == Upsert(old(store.db), b)
  {
    stored := store.StoreBaseline(b, None, None);
    fetched := store.GetBaseline(b.imageId, None);
  }
}
