/**
 Properties of the "historical_empty_document" migration: what one pass over the views
 stages, and what a whole run leaves in the store.
 */
module EmptyDocumentMigrationProofs {
  import opened CollabStore
  import opened EmptyDocumentMigration

  /**
   `id` gets the default document from a pass over `views`: it does not load from the
   committed store, and it is listed at some position whose write does not fail.
   */
  ghost predicate Backfillable(ad: Adapter, docs: Docs, views: seq<ObjectId>, failing: set<nat>,
                               id: ObjectId)
  {
    && LoadCollab(docs, ad.unreadable, id).None?
    && exists i :: 0 <= i < |views| && views[i] == id && i !in failing
  }

  lemma BackfillableSnoc(ad: Adapter, docs: Docs, views: seq<ObjectId>, failing: set<nat>,
                         id: ObjectId)
    requires views != []
    ensures var n := |views| - 1;
            (Backfillable(ad, docs, views, failing, id)
             <==> Backfillable(ad, docs, views[..n], failing, id)
                  || (views[n] == id && n !in failing && LoadCollab(docs, ad.unreadable, id).None?))
  {
    var n := |views| - 1;
    if Backfillable(ad, docs, views, failing, id) {
      var i :| 0 <= i < |views| && views[i] == id && i !in failing;
      if i < n {
        assert views[..n][i] == id;
      }
    }
    if Backfillable(ad, docs, views[..n], failing, id) {
      var i :| 0 <= i < n && views[..n][i] == id && i !in failing;
      assert views[i] == id;
    }
  }

  /**
   A pass stages exactly the backfillable ids, each with the default document, whether
   or not loads see the transaction's own writes.
   */
  lemma {:induction false} StagedDocs(ad: Adapter, readYourWrites: bool, docs: Docs,
                                      views: seq<ObjectId>, failing: set<nat>, id: ObjectId)
    ensures var st := StageViews(ad, readYourWrites, docs, views, failing);
            && (id in st.pending <==> Backfillable(ad, docs, views, failing, id))
            && (id in st.pending ==> st.pending[id] == ad.emptyDoc)
    decreases |views|
  {
    if views != [] {
      var n := |views| - 1;
      var prev := StageViews(ad, readYourWrites, docs, views[..n], failing);
      StagedDocs(ad, readYourWrites, docs, views[..n], failing, id);
      BackfillableSnoc(ad, docs, views, failing, id);
      if id !in prev.pending {
        LoadBeneathOverlay(docs, prev.pending, readYourWrites, ad.unreadable, id);
      }
    }
  }

  /** Every flush in the log is staged in the overlay, and the log is no longer than the view list. */
  lemma {:induction false} FlushedAreStaged(ad: Adapter, readYourWrites: bool, docs: Docs,
                                            views: seq<ObjectId>, failing: set<nat>)
    ensures var st := StageViews(ad, readYourWrites, docs, views, failing);
            && |st.flushed| <= |views|
            && forall k :: 0 <= k < |st.flushed| ==> st.flushed[k] in st.pending
    decreases |views|
  {
    if views != [] {
      FlushedAreStaged(ad, readYourWrites, docs, views[..|views| - 1], failing);
    }
  }

  /**
   With read-your-writes and a readable default document, a pass flushes each id at
   most once, even when the view list repeats it.
   */
  lemma {:induction false} FlushedOnceWithReadYourWrites(ad: Adapter, docs: Docs,
                                                         views: seq<ObjectId>, failing: set<nat>)
    requires ad.emptyDoc !in ad.unreadable
    ensures var fl := StageViews(ad, true, docs, views, failing).flushed;
            forall j, k :: 0 <= j < k < |fl| ==> fl[j] != fl[k]
    decreases |views|
  {
    if views != [] {
      var n := |views| - 1;
      var prev := StageViews(ad, true, docs, views[..n], failing);
      FlushedOnceWithReadYourWrites(ad, docs, views[..n], failing);
      FlushedAreStaged(ad, true, docs, views[..n], failing);
      StagedDocs(ad, true, docs, views[..n], failing, views[n]);
      var fl := StageViews(ad, true, docs, views, failing).flushed;
      if |fl| > |prev.flushed| {
        assert fl == prev.flushed + [views[n]];
        assert views[n] !in prev.pending;
        forall j | 0 <= j < |prev.flushed|
          ensures fl[j] != fl[|prev.flushed|]
        {
          assert fl[j] == prev.flushed[j] && prev.flushed[j] in prev.pending;
        }
      }
    }
  }

  /** A witness that the bound of FlushedOnceWithReadYourWrites needs read-your-writes. */
  lemma FlushedTwiceWithoutReadYourWrites()
    ensures var ad := Adapter({}, map[], EncodedDoc([1], [0]));
            && StageViews(ad, false, map[], ["v", "v"], {}).flushed == ["v", "v"]
            && StageViews(ad, true, map[], ["v", "v"], {}).flushed == ["v"]
  {
  }

  /** The positions of `views` that list `id` and whose write does not fail. */
  ghost function WritablePositions(views: seq<ObjectId>, failing: set<nat>, id: ObjectId): set<int>
  {
    set n | 0 <= n < |views| && views[n] == id && n !in failing
  }

  /**
   Without read-your-writes, an id that does not load from the committed store is
   flushed once for every non-failing position that lists it.
   */
  lemma {:induction false} FlushCountWithoutReadYourWrites(ad: Adapter, docs: Docs,
                                                           views: seq<ObjectId>, failing: set<nat>,
                                                           id: ObjectId)
    requires LoadCollab(docs, ad.unreadable, id).None?
    ensures multiset(StageViews(ad, false, docs, views, failing).flushed)[id]
         == |WritablePositions(views, failing, id)|
    decreases |views|
  {
    if views != [] {
      var n := |views| - 1;
      FlushCountWithoutReadYourWrites(ad, docs, views[..n], failing, id);
      var before := WritablePositions(views[..n], failing, id);
      var here := if views[n] == id && n !in failing then {n} else {};
      assert WritablePositions(views, failing, id) == before + here;
      assert n !in before;
    }
  }

  /** The staging positions of the flushes of a pass, in the order they were staged. */
  ghost function FlushPositions(ad: Adapter, readYourWrites: bool, docs: Docs,
                                views: seq<ObjectId>, failing: set<nat>): seq<nat>
    decreases |views|
  {
    if views == [] then []
    else
      var n := |views| - 1;
      var before := FlushPositions(ad, readYourWrites, docs, views[..n], failing);
      if |StageViews(ad, readYourWrites, docs, views, failing).flushed|
         > |StageViews(ad, readYourWrites, docs, views[..n], failing).flushed|
      then before + [n] else before
  }

  /**
   The views are visited once each, in list order: the k-th flush is of the view at the
   k-th of a strictly increasing series of non-failing positions.
   */
  lemma {:induction false} FlushedInViewOrder(ad: Adapter, readYourWrites: bool, docs: Docs,
                                              views: seq<ObjectId>, failing: set<nat>)
    ensures var fl := StageViews(ad, readYourWrites, docs, views, failing).flushed;
            var pos := FlushPositions(ad, readYourWrites, docs, views, failing);
            && |pos| == |fl|
            && (forall k :: 0 <= k < |pos| ==>
                  pos[k] < |views| && pos[k] !in failing && fl[k] == views[pos[k]])
            && (forall j, k :: 0 <= j < k < |pos| ==> pos[j] < pos[k])
    decreases |views|
  {
    if views != [] {
      var n := |views| - 1;
      FlushedInViewOrder(ad, readYourWrites, docs, views[..n], failing);
      var prevFl := StageViews(ad, readYourWrites, docs, views[..n], failing).flushed;
      var before := FlushPositions(ad, readYourWrites, docs, views[..n], failing);
      var fl := StageViews(ad, readYourWrites, docs, views, failing).flushed;
      forall k | 0 <= k < |before|
        ensures fl[k] == views[before[k]]
      {
        assert fl[k] == prevFl[k];
        assert views[..n][before[k]] == views[before[k]];
      }
    }
  }

  /** When every view loads, a pass stages nothing. */
  lemma {:induction false} NothingStagedWhenAllLoad(ad: Adapter, readYourWrites: bool, docs: Docs,
                                                    views: seq<ObjectId>, failing: set<nat>)
    requires forall i :: 0 <= i < |views| ==> LoadCollab(docs, ad.unreadable, views[i]).Some?
    ensures StageViews(ad, readYourWrites, docs, views, failing) == TxnState(map[], [])
    decreases |views|
  {
    if views != [] {
      var n := |views| - 1;
      assert forall i :: 0 <= i < n ==> views[..n][i] == views[i];
      NothingStagedWhenAllLoad(ad, readYourWrites, docs, views[..n], failing);
      assert Visible(docs, map[], readYourWrites) == docs;
    }
  }

  /** A folder collab that does not load ends the run early and successfully, writing nothing. */
  lemma SoftExitWhenFolderMissing(ad: Adapter, readYourWrites: bool, faults: Faults,
                                  session: Session, docs: Docs)
    requires LoadCollab(docs, ad.unreadable, session.workspaceId).None?
    ensures RunSpec(ad, readYourWrites, faults, session, docs) == RunState(Pass, docs, [])
  {
  }

  /** A folder collab that Folder::open rejects fails the run before anything is staged. */
  lemma FolderOpenFailurePropagates(ad: Adapter, readYourWrites: bool, faults: Faults,
                                    session: Session, docs: Docs)
    requires LoadCollab(docs, ad.unreadable, session.workspaceId).Some?
    requires LoadCollab(docs, ad.unreadable, session.workspaceId).value !in ad.folders
    ensures RunSpec(ad, readYourWrites, faults, session, docs)
         == RunState(Fail(FolderOpenFailed), docs, [])
  {
  }

  /**
   The run fails exactly when the folder opens wrongly or the commit fails; per-view
   failures never decide the result, and a failed run commits nothing.
   */
  lemma OutcomeIgnoresViewFailures(ad: Adapter, readYourWrites: bool, faults: Faults,
                                   session: Session, docs: Docs)
    ensures var run := RunSpec(ad, readYourWrites, faults, session, docs);
            var folder := LoadCollab(docs, ad.unreadable, session.workspaceId);
            && (run.outcome == Pass <==> folder.None? || (folder.value in ad.folders && faults.commitOk))
            && (run.outcome == Fail(FolderOpenFailed) <==> folder.Some? && folder.value !in ad.folders)
            && (run.outcome.Fail? ==> run.outcome.error != DocumentWriteFailed && run.docs == docs)
  {
  }

  /** A failed commit leaves the store exactly as it was, whatever was staged. */
  lemma CommitFailureIsAtomic(ad: Adapter, readYourWrites: bool, faults: Faults,
                              session: Session, docs: Docs)
    requires !faults.commitOk
    ensures var run := RunSpec(ad, readYourWrites, faults, session, docs);
            && run.docs == docs
            && (run.outcome == Pass <==> LoadCollab(docs, ad.unreadable, session.workspaceId).None?)
  {
  }

  /**
   No document that loads is touched, nothing is deleted, and every changed entry is a
   backfillable first-level view now holding the default document.
   */
  lemma NonDestructive(ad: Adapter, readYourWrites: bool, faults: Faults, session: Session,
                       docs: Docs)
    ensures var run := RunSpec(ad, readYourWrites, faults, session, docs);
            var views := WorkspaceViews(ad, session, docs);
            && docs.Keys <= run.docs.Keys
            && (forall id :: LoadCollab(docs, ad.unreadable, id).Some? ==> run.docs[id] == docs[id])
            && (forall id :: id in run.docs && (id !in docs || run.docs[id] != docs[id]) ==>
                  Backfillable(ad, docs, views, faults.failingViews, id) && run.docs[id] == ad.emptyDoc)
  {
    var run := RunSpec(ad, readYourWrites, faults, session, docs);
    var views := WorkspaceViews(ad, session, docs);
    var folder := LoadCollab(docs, ad.unreadable, session.workspaceId);
    if folder.Some? && folder.value in ad.folders && faults.commitOk {
      forall id
        ensures LoadCollab(docs, ad.unreadable, id).Some? ==> run.docs[id] == docs[id]
        ensures id in run.docs && (id !in docs || run.docs[id] != docs[id]) ==>
                  Backfillable(ad, docs, views, faults.failingViews, id) && run.docs[id] == ad.emptyDoc
      {
        StagedDocs(ad, readYourWrites, docs, views, faults.failingViews, id);
      }
    }
  }

  /**
   With a successful commit the run fails only when Folder::open does, however many views
   fail, and every view at a non-failing position that had no loadable document now
   holds the default document.
   */
  lemma BackfillDespiteViewFailures(ad: Adapter, readYourWrites: bool, faults: Faults,
                                    session: Session, docs: Docs)
    requires faults.commitOk
    ensures var run := RunSpec(ad, readYourWrites, faults, session, docs);
            var views := WorkspaceViews(ad, session, docs);
            && (run.outcome.Fail? ==> run.outcome.error == FolderOpenFailed)
            && forall i :: 0 <= i < |views| && i !in faults.failingViews
                             && LoadCollab(docs, ad.unreadable, views[i]).None? ==>
                  && views[i] in run.docs && run.docs[views[i]] == ad.emptyDoc
                  && (ad.emptyDoc !in ad.unreadable ==>
                        LoadCollab(run.docs, ad.unreadable, views[i]) == Some(ad.emptyDoc))
  {
    var run := RunSpec(ad, readYourWrites, faults, session, docs);
    var views := WorkspaceViews(ad, session, docs);
    forall i | 0 <= i < |views| && i !in faults.failingViews
                 && LoadCollab(docs, ad.unreadable, views[i]).None?
      ensures views[i] in run.docs && run.docs[views[i]] == ad.emptyDoc
      ensures ad.emptyDoc !in ad.unreadable ==>
                LoadCollab(run.docs, ad.unreadable, views[i]) == Some(ad.emptyDoc)
    {
      StagedDocs(ad, readYourWrites, docs, views, faults.failingViews, views[i]);
    }
  }

  /** Whether loads see staged writes changes the flush log at most, never the committed store. */
  lemma CommittedStoreIndependentOfReadYourWrites(ad: Adapter, faults: Faults, session: Session,
                                                  docs: Docs)
    ensures RunSpec(ad, true, faults, session, docs).outcome
         == RunSpec(ad, false, faults, session, docs).outcome
    ensures RunSpec(ad, true, faults, session, docs).docs
         == RunSpec(ad, false, faults, session, docs).docs
  {
    var views := WorkspaceViews(ad, session, docs);
    var p1 := StageViews(ad, true, docs, views, faults.failingViews).pending;
    var p2 := StageViews(ad, false, docs, views, faults.failingViews).pending;
    forall id
      ensures (id in p1 <==> id in p2) && (id in p1 ==> p1[id] == p2[id])
    {
      StagedDocs(ad, true, docs, views, faults.failingViews, id);
      StagedDocs(ad, false, docs, views, faults.failingViews, id);
    }
    assert p1 == p2;
  }

  /**
   After a fully successful run (commit succeeded, no view failed) and with a readable
   default document, a second run stages no flush and leaves the store as the first did.
   */
  lemma Idempotent(ad: Adapter, readYourWrites: bool, faults: Faults,
                   readYourWrites': bool, faults': Faults, session: Session, docs: Docs)
    requires faults.commitOk
    requires forall i :: 0 <= i < |WorkspaceViews(ad, session, docs)| ==> i !in faults.failingViews
    requires ad.emptyDoc !in ad.unreadable
    ensures var first := RunSpec(ad, readYourWrites, faults, session, docs);
            var second := RunSpec(ad, readYourWrites', faults', session, first.docs);
            && second.flushed == []
            && second.docs == first.docs
            && (faults'.commitOk ==> second.outcome == first.outcome)
  {
    var first := RunSpec(ad, readYourWrites, faults, session, docs);
    var folder := LoadCollab(docs, ad.unreadable, session.workspaceId);
    if folder.Some? && folder.value in ad.folders {
      var views := ad.folders[folder.value];
      var failing := faults.failingViews;
      NonDestructive(ad, readYourWrites, faults, session, docs);
      assert LoadCollab(first.docs, ad.unreadable, session.workspaceId) == folder;
      forall i | 0 <= i < |views|
        ensures LoadCollab(first.docs, ad.unreadable, views[i]).Some?
      {
        StagedDocs(ad, readYourWrites, docs, views, failing, views[i]);
      }
      NothingStagedWhenAllLoad(ad, readYourWrites', first.docs, views, faults'.failingViews);
      assert first.docs + map[] == first.docs;
    }
  }
}
