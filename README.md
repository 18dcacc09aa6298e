# Historical empty-document migration

A model of the AppFlowy user-data migration `HistoricalEmptyDocumentMigration`
(the migration named `historical_empty_document`). The migration runs once per user.
It opens one write transaction on the user's collab database and loads the workspace
folder collab. It then visits the workspace's first-level views in stored order. For
each view whose document does not load, it stages a flush of the default document.
Finally it commits the transaction once.

The model has three parts:

- `collab_store.dfy`, module `CollabStore`: the store.
  - `CollabDb` holds the committed documents as a `map<ObjectId, EncodedDoc>`.
    An `EncodedDoc` is the pair (doc state, state vector) of byte sequences.
  - `WriteTxn` is a write transaction. It keeps a `pending` overlay of staged flushes
    and a `flushed` log. `Commit` merges the overlay into the database on success and
    drops it on failure.
  - `LoadCollab` is the collab loader. A load fails when the key is absent. It also
    fails when the stored bytes are among the encodings the loader rejects
    (`unreadable`). So "load failed" means any error, not only "not found".
- `document_empty_content.dfy`, module `EmptyDocumentMigration`: the migration itself.
  - `Run` and `MigrateEmptyDocument` are imperative methods over the two classes.
  - `StageView`, `StageViews` and `RunSpec` are the functions that specify them.
  - Each fallible step is a parameter:
    - `Adapter.folders` is `Folder::open`: it accepts a folder collab and gives its
      first-level views.
    - `Faults.failingViews` marks the positions whose build or flush fails.
    - `Faults.commitOk` is whether the commit succeeds.
  - `Adapter.emptyDoc` is the encoded default document. It is an opaque constant pair.
- `document_empty_content_proofs.dfy`, module `EmptyDocumentMigrationProofs`: the
  properties, as lemmas about `StageViews` and `RunSpec`.

Store semantics are stated as assumptions, because the adapter code is not part of this
model:

- Whether a load through the write transaction sees writes staged earlier in it
  ("read-your-writes") is the parameter `readYourWrites`. Every property holds under
  both settings, except two that depend on it:
  - With read-your-writes and a readable default document, each id is flushed at most
    once (`FlushedOnceWithReadYourWrites`).
  - Without it, an id that does not load is flushed once per non-failing position that
    lists it (`FlushCountWithoutReadYourWrites`), so a duplicated view id can be flushed twice.

  The committed store is the same under both settings
  (`CommittedStoreIndependentOfReadYourWrites`).
- Committed writes are visible to later loads. This holds because a later run reads
  the map the commit produced.
- A rejected flush stages nothing.
- The loader's and `Folder::open`'s answers depend only on the stored bytes.

Two behaviours of the code are easy to miss, and the model keeps both:

- Only a failure to load the folder collab is a soft exit. A `Folder::open` failure is
  propagated as an error.
- Every load error counts as "no document". So a stored document that the loader rejects
  is overwritten with the default document.

## Model

| member | source | states |
|---|---|---|
| `EmptyDocumentMigration.Name` | frontend/rust-lib/flowy-user/src/migrations/document_empty_content.rs:21-23 | The migration's bookkeeping key is always `"historical_empty_document"`. |
| `CollabStore.WriteTxn.constructor` | frontend/rust-lib/flowy-user/src/migrations/document_empty_content.rs:27 | A new transaction on the database has an empty overlay and an empty flush log. |
| `CollabStore.WriteTxn.Load` | frontend/rust-lib/flowy-user/src/migrations/document_empty_content.rs:65 | A load through the transaction succeeds exactly when the id is visible and its bytes are readable, and it returns the stored pair. The load reads the store without changing it. |
| `CollabStore.WriteTxn.FlushDocWith` | frontend/rust-lib/flowy-user/src/migrations/document_empty_content.rs:69 | An accepted flush stages the pair under the id and appends the id to the flush log. A rejected flush changes nothing. |
| `CollabStore.WriteTxn.Commit` | frontend/rust-lib/flowy-user/src/migrations/document_empty_content.rs:50 | A successful commit makes every staged document visible at once. A failed commit leaves the committed store unchanged. |
| `EmptyDocumentMigration.MigrateEmptyDocument` | frontend/rust-lib/flowy-user/src/migrations/document_empty_content.rs:55-78 | The new transaction state is one `StageView` step. The method errs exactly when the document did not load and the build or flush failed. |
| `EmptyDocumentMigration.Run` | frontend/rust-lib/flowy-user/src/migrations/document_empty_content.rs:26-52 | The result, the committed store and the flush log are those of `RunSpec`. The loop stages views one by one and then commits once. |
| `EmptyDocumentMigrationProofs.StagedDocs` | frontend/rust-lib/flowy-user/src/migrations/document_empty_content.rs:39-47 | After the pass, an id is staged exactly when it did not load from the committed store and some non-failing position lists it. Its staged value is the default document. This holds with or without read-your-writes. |
| `EmptyDocumentMigrationProofs.FlushedAreStaged` | frontend/rust-lib/flowy-user/src/migrations/document_empty_content.rs:39-47 | Every id in the flush log is in the overlay, and the flush log is no longer than the view list. The one-flush-per-position bound is `FlushedInViewOrder`. |
| `EmptyDocumentMigrationProofs.FlushedOnceWithReadYourWrites` | frontend/rust-lib/flowy-user/src/migrations/document_empty_content.rs:65-69 | Assume loads see staged writes and the default document is readable. Then no id is flushed twice, even when the view list repeats it. |
| `EmptyDocumentMigrationProofs.FlushedTwiceWithoutReadYourWrites` | frontend/rust-lib/flowy-user/src/migrations/document_empty_content.rs:65-69 | A witness that `FlushedOnceWithReadYourWrites` needs read-your-writes: on an empty store with views `["v", "v"]` and no faults, the pass flushes `"v"` twice without read-your-writes and once with it. |
| `EmptyDocumentMigrationProofs.FlushCountWithoutReadYourWrites` | frontend/rust-lib/flowy-user/src/migrations/document_empty_content.rs:65-69 | Without read-your-writes, an id that does not load from the committed store appears in the flush log exactly once for each non-failing position that lists it. |
| `EmptyDocumentMigrationProofs.FlushedInViewOrder` | frontend/rust-lib/flowy-user/src/migrations/document_empty_content.rs:35-39 | The k-th flush is of the view at the k-th position of a strictly increasing series of non-failing positions. So views are visited once each, in stored order. |
| `EmptyDocumentMigrationProofs.NothingStagedWhenAllLoad` | frontend/rust-lib/flowy-user/src/migrations/document_empty_content.rs:65 | When every listed view loads, the pass stages no document and logs no flush. |
| `EmptyDocumentMigrationProofs.SoftExitWhenFolderMissing` | frontend/rust-lib/flowy-user/src/migrations/document_empty_content.rs:29-32 | If the folder collab does not load, the run succeeds, stages nothing and leaves the store as it was. |
| `EmptyDocumentMigrationProofs.FolderOpenFailurePropagates` | frontend/rust-lib/flowy-user/src/migrations/document_empty_content.rs:34 | If the folder loads but `Folder::open` rejects it, the run fails with `FolderOpenFailed`. Nothing is staged or committed. |
| `EmptyDocumentMigrationProofs.OutcomeIgnoresViewFailures` | frontend/rust-lib/flowy-user/src/migrations/document_empty_content.rs:29-51 | The run succeeds exactly when the folder is missing, or when it opens and the commit succeeds. It fails with `FolderOpenFailed` exactly when `Folder::open` rejects the folder. A per-view error is never the result. A failed run commits nothing. |
| `EmptyDocumentMigrationProofs.CommitFailureIsAtomic` | frontend/rust-lib/flowy-user/src/migrations/document_empty_content.rs:50 | A failed commit leaves the store exactly as it was. The run then succeeds only if it never reached the commit. |
| `EmptyDocumentMigrationProofs.NonDestructive` | frontend/rust-lib/flowy-user/src/migrations/document_empty_content.rs:65 | Every document that loads keeps its bytes, and no key is removed. Every changed or new entry is a first-level view that did not load and that some non-failing position lists. That entry now holds the default document. |
| `EmptyDocumentMigrationProofs.BackfillDespiteViewFailures` | frontend/rust-lib/flowy-user/src/migrations/document_empty_content.rs:39-51 | Assume the commit succeeds. Then the run can fail only in `Folder::open`, whatever happens to the views. Every view at a non-failing position that had no loadable document now holds the default document. That document loads when it is readable. |
| `EmptyDocumentMigrationProofs.CommittedStoreIndependentOfReadYourWrites` | frontend/rust-lib/flowy-user/src/migrations/document_empty_content.rs:65-69 | Read-your-writes does not change the run's result or the committed store. |
| `EmptyDocumentMigrationProofs.Idempotent` | frontend/rust-lib/flowy-user/src/migrations/document_empty_content.rs:50-51 | Assume the first run committed with no view failure and the default document is readable. Then a second run stages no flush and leaves the store as the first run did. If the second run commits, its result equals the first's. |

## Left out

- Building the default document (`MutexCollab::new`, `Document::create_with_data`, `default_document_data`, `encode_collab_v1`): these are calls into the CRDT library. They become the constant pair `Adapter.emptyDoc`. Whether it decodes to a single empty block is not modelled.
- The `CollabOrigin`/`CollabClient "phantom"` identity: it only feeds the CRDT calls above.
- `Folder` internals and the `load_collab` helper: a load is a lookup plus the `unreadable` set. `Folder::open` with `get_workspace_views` is the `folders` map from a folder collab to its first-level views.
- Build failure and flush failure of one view are one oracle (`failingViews`): both end that view's step with an error and nothing staged.
- RocksDB and the `YrsDocAction` internals: only load, flush and commit over a map with an overlay are kept.
- The user id: the store is one user's documents. Keys of other users are not modelled.
- Logging (`event!`, `#[instrument]`), `Arc`, and the `FlowyError` conversions: an error is modelled only by its kind.
- `EmptyDocumentMigration.Run`: its flush log is a ghost output, because the code returns only `Ok(())` or an error.
- The outer registry that decides whether a migration has already run: it is not part of this model.
- Concurrency: the run is modelled as exclusive owner of the store for its duration.
