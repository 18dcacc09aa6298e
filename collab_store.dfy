/**
 The per-user document store that a user-data migration works against: committed
 documents keyed by object id, and a write transaction that stages flushes in an
 overlay and makes them visible all at once on commit.
 */
module CollabStore {

  newtype byte = x: int | 0 <= x < 256

  /** View ids and workspace ids share one key space in the store. */
  type ObjectId = string

  datatype Option<T> = None | Some(value: T)

  /** The persisted form of one collab document: its full state and its state vector. */
  datatype EncodedDoc = EncodedDoc(docState: seq<byte>, stateVector: seq<byte>)

  /** A store: at most one encoded document per object id. */
  type Docs = map<ObjectId, EncodedDoc>

  /**
   What a read through a transaction sees: the committed documents, overlaid with the
   staged ones when the transaction reads its own writes.
   */
  function Visible(committed: Docs, pending: Docs, readYourWrites: bool): Docs
  {
    if readYourWrites then committed + pending else committed
  }

  /**
   Loading a collab document: it fails when nothing is stored under `id` and also when the
   stored bytes are among those the loader rejects (`unreadable`); a miss changes nothing.
   */
  function LoadCollab(docs: Docs, unreadable: set<EncodedDoc>, id: ObjectId): Option<EncodedDoc>
  {
    if id in docs && docs[id] !in unreadable then Some(docs[id]) else None
  }

  /** A key that nothing has been staged under reads the same with or without the overlay. */
  lemma LoadBeneathOverlay(committed: Docs, pending: Docs, readYourWrites: bool,
                           unreadable: set<EncodedDoc>, id: ObjectId)
    requires id !in pending
    ensures LoadCollab(Visible(committed, pending, readYourWrites), unreadable, id)
         == LoadCollab(committed, unreadable, id)
  {
  }

  /** The user's collab database: the committed documents. */
  class CollabDb {
    var docs: Docs

    constructor (docs: Docs)
      ensures this.docs == docs
    {
      this.docs := docs;
    }
  }

  /**
   A write transaction on one database. Flushes are staged in `pending` and recorded in
   `flushed`, in the order they were staged; nothing reaches `db` before `Commit`.
   */
  class WriteTxn {
    const db: CollabDb
    const readYourWrites: bool
    var pending: Docs
    var flushed: seq<ObjectId>

    constructor (db: CollabDb, readYourWrites: bool)
      ensures this.db == db && this.readYourWrites == readYourWrites
      ensures pending == map[] && flushed == []
    {
      this.db := db;
      this.readYourWrites := readYourWrites;
      pending := map[];
      flushed := [];
    }

    /** The documents a load through this transaction sees. */
    function Reads(): Docs
      reads this, db
    {
      Visible(db.docs, pending, readYourWrites)
    }

    /** Loads the document stored under `id`, as this transaction sees the store. */
    method Load(unreadable: set<EncodedDoc>, id: ObjectId) returns (r: Option<EncodedDoc>)
      ensures r.Some? <==> id in Reads() && Reads()[id] !in unreadable
      ensures r.Some? ==> r.value == Reads()[id]
      ensures r == LoadCollab(Reads(), unreadable, id)
    {
      var visible := Reads();
      if id in visible && visible[id] !in unreadable {
        r := Some(visible[id]);
      } else {
        r := None;
      }
    }

    /**
     Stages `doc` under `id`. `accepted` is the storage layer's verdict on the write: a
     rejected flush stages nothing.
     */
    method FlushDocWith(id: ObjectId, doc: EncodedDoc, accepted: bool) returns (ok: bool)
      modifies this
      ensures ok == accepted
      ensures pending == if ok then old(pending)[id := doc] else old(pending)
      ensures flushed == if ok then old(flushed) + [id] else old(flushed)
    {
      ok := accepted;
      if ok {
        pending := pending[id := doc];
        flushed := flushed + [id];
      }
    }

    /**
     Commits the transaction. `accepted` is the storage layer's verdict: on success every
     staged document becomes visible in `db` at once, on failure none does.
     */
    method Commit(accepted: bool) returns (ok: bool)
      modifies db
      ensures ok == accepted
      ensures db.docs == if ok then old(db.docs) + pending else old(db.docs)
    {
      ok := accepted;
      if ok {
        db.docs := db.docs + pending;
      }
    }
  }
}
