/**
 The "historical_empty_document" user-data migration: for every first-level view of the
 user's workspace that has no loadable document, stage a flush of the default document,
 isolating per-view failures, then commit the transaction once.
 */
module EmptyDocumentMigration {
  import opened CollabStore

  /** The part of the session the migration uses. */
  datatype Session = Session(workspaceId: ObjectId)

  datatype MigrationError =
    | FolderOpenFailed     // Folder::open rejected the loaded folder collab
    | DocumentWriteFailed  // building or flushing one view's default document failed
    | CommitFailed         // the write transaction could not be committed

  datatype Outcome = Pass | Fail(error: MigrationError)

  /**
   The collaborators whose answers depend only on stored bytes:
   - `unreadable`: encodings the collab loader rejects;
   - `folders`: the folder collabs Folder::open accepts, each with its first-level views
     in stored order;
   - `emptyDoc`: the encoded default document, the same pair on every call.
   */
  datatype Adapter = Adapter(unreadable: set<EncodedDoc>,
                             folders: map<EncodedDoc, seq<ObjectId>>,
                             emptyDoc: EncodedDoc)

  /**
   The faults of one run: the positions in the view list whose build or flush fails,
   and whether the final commit succeeds.
   */
  datatype Faults = Faults(failingViews: set<nat>, commitOk: bool)

  /** The staged part of a write transaction. */
  datatype TxnState = TxnState(pending: Docs, flushed: seq<ObjectId>)

  /** What a run leaves behind: its result, the committed store, the flushes it staged. */
  datatype RunState = RunState(outcome: Outcome, docs: Docs, flushed: seq<ObjectId>)

  /** The durable key under which the outer registry records that this migration ran. */
  function Name(): (r: string)
    ensures r == "historical_empty_document"
  {
    "historical_empty_document"
  }

  /**
   One view: skipped when its document loads through the transaction, otherwise the
   default document is staged under its id unless the write fails.
   */
  function StageView(ad: Adapter, readYourWrites: bool, committed: Docs, st: TxnState,
                     id: ObjectId, writeOk: bool): TxnState
  {
    if LoadCollab(Visible(committed, st.pending, readYourWrites), ad.unreadable, id).Some? then st
    else if !writeOk then st
    else TxnState(st.pending[id := ad.emptyDoc], st.flushed + [id])
  }

  /** All views, in order, starting from an empty transaction. */
  function StageViews(ad: Adapter, readYourWrites: bool, committed: Docs,
                      views: seq<ObjectId>, failing: set<nat>): TxnState
    decreases |views|
  {
    if views == [] then TxnState(map[], [])
    else
      var n := |views| - 1;
      StageView(ad, readYourWrites, committed,
                StageViews(ad, readYourWrites, committed, views[..n], failing),
                views[n], n !in failing)
  }

  /** The first-level views the run visits: none unless the folder loads and opens. */
  function WorkspaceViews(ad: Adapter, session: Session, docs: Docs): seq<ObjectId>
  {
    match LoadCollab(docs, ad.unreadable, session.workspaceId)
    case None => []
    case Some(folder) => if folder in ad.folders then ad.folders[folder] else []
  }

  /** A whole run of the migration against the committed store `docs`. */
  function RunSpec(ad: Adapter, readYourWrites: bool, faults: Faults, session: Session,
                   docs: Docs): RunState
  {
    match LoadCollab(docs, ad.unreadable, session.workspaceId)
    case None => RunState(Pass, docs, [])
    case Some(folder) =>
      if folder !in ad.folders then RunState(Fail(FolderOpenFailed), docs, [])
      else
        var st := StageViews(ad, readYourWrites, docs, ad.folders[folder], faults.failingViews);
        if faults.commitOk then RunState(Pass, docs + st.pending, st.flushed)
        else RunState(Fail(CommitFailed), docs, st.flushed)
  }

  /**
   The existence check and default-content flush for one view. `writeOk` is the oracle
   for building and flushing the default document.
   */
  method MigrateEmptyDocument(txn: WriteTxn, ad: Adapter, id: ObjectId, writeOk: bool)
    returns (r: Outcome)
    modifies txn
    ensures TxnState(txn.pending, txn.flushed)
         == StageView(ad, txn.readYourWrites, txn.db.docs,
                      TxnState(old(txn.pending), old(txn.flushed)), id, writeOk)
    ensures r.Fail? <==> old(LoadCollab(txn.Reads(), ad.unreadable, id)).None? && !writeOk
    ensures r.Fail? ==> r.error == DocumentWriteFailed
  {
    var existing := txn.Load(ad.unreadable, id);
    if existing.None? {
      var ok := txn.FlushDocWith(id, ad.emptyDoc, writeOk);
      if !ok {
        return Fail(DocumentWriteFailed);
      }
    }
    return Pass;
  }

  /**
   The migration's run. `readYourWrites` states whether loads through the write
   transaction see its own staged flushes. The ghost `flushed` is the flush log of the
   transaction, in staging order.
   */
  method Run(session: Session, db: CollabDb, ad: Adapter, faults: Faults, readYourWrites: bool)
    returns (r: Outcome, ghost flushed: seq<ObjectId>)
    modifies db
    ensures RunState(r, db.docs, flushed) == RunSpec(ad, readYourWrites, faults, session, old(db.docs))
  {
    var txn := new WriteTxn(db, readYourWrites);
    var folder := txn.Load(ad.unreadable, session.workspaceId);
    if folder.None? {
      return Pass, [];
    }
    if folder.value !in ad.folders {
      return Fail(FolderOpenFailed), [];
    }
    var views := ad.folders[folder.value];
    var i := 0;
    while i < |views|
      invariant 0 <= i <= |views|
      invariant db.docs == old(db.docs)
      invariant TxnState(txn.pending, txn.flushed)
             == StageViews(ad, readYourWrites, db.docs, views[..i], faults.failingViews)
    {
      // a failure here is only logged; the loop goes on with the next view
      var _ := MigrateEmptyDocument(txn, ad, views[i], i !in faults.failingViews);
      assert views[..i + 1][..i] == views[..i];
      i := i + 1;
    }
    assert views[..i] == views;
    flushed := txn.flushed;
    var committed := txn.Commit(faults.commitOk);
    if !committed {
      return Fail(CommitFailed), flushed;
    }
    return Pass, flushed;
  }
}
