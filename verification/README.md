# Contacts datatable: draft management and upload payload

A Dafny model of the client-side logic of an editable contacts grid for an
account. The grid shows a contact's Name and Lead Source, with an inline
picklist editor for Lead Source and a file-upload cell on every row. The
model covers two components.

- **The grid controller** (`contactsDatatable`). It keeps the rows, a list of
  pending edits ("drafts", at most one per contact `Id`), a snapshot of the
  rows as last loaded, and a spinner flag. Loading stamps every row with the
  picklist options and takes the snapshot. A cell change upserts each edit
  into the drafts, merging field by field with the last write winning.
  `updateDataValues` patches the matching row. Cancel restores the snapshot
  and drops the drafts. Save builds one update request per draft. Once every
  update has fulfilled, or as soon as one rejects, it drops the drafts and
  hides the spinner.
- **The upload cell** (`uploadFileCustomComponent`). When the file picker
  finishes, it maps the uploaded files to their document ids, dispatches one
  bubbling, composed, cancelable `uploadfinished` event carrying
  `{recordId, uploadedFileIds}`, and then shows a completion toast.

Rows and drafts are immutable maps from field name to `Value`, held in
sequences. The controller is a record (`ContactsDatatable.Grid`) whose
handlers are pure functions. The platform calls are not modelled: a fetch or
a save outcome is an input value. What the controller asks of the platform
(update calls, toasts, a refresh) is returned as a trace of `Effect`s. What
the upload cell dispatches is returned as a sequence of `Dispatched` events.

Files: `wrappers.dfy` (Option, Result), `records.dfy` (rows, `Id`, the field
merge), `drafts.dfy` (upsert, edit batches, last-write-wins), `grid.dfy`
(the controller's state machine), `upload.dfy` (the upload cell).

Some choices follow the code where a looser reading would differ:
- Two records match on `Id` when both have the same `Id`, and also when
  neither has one, because JavaScript's `undefined === undefined` is true.
- An empty fetched array is truthy, so it is loaded like any other. A wire
  result carrying neither data nor error changes nothing.
- Loading does not touch the drafts. Cancel does not touch the spinner.
- Every draft whose `Id` matches receives the edit, not only the first one.
- A refresh that rejects after a successful save falls into the same `catch`.
  So the error toast then follows the success toast.

## Model

| member | source | states |
|---|---|---|
| Records.Merge | force-app/main/default/lwc/contactsDatatable/contactsDatatable.js:91-93 | Copying an edit's fields onto a record yields the fields of both; the edit's value wins wherever it has the field and the record's value stands elsewhere; a record merged with an edit of its own `Id` keeps that `Id` |
| Drafts.MergeMatching | force-app/main/default/lwc/contactsDatatable/contactsDatatable.js:89-96 | The merge loop keeps the list's length, order and identities; each record with the edit's `Id` gets every edited field and keeps its others; records with another `Id` are unchanged |
| Drafts.UpsertDraft | force-app/main/default/lwc/contactsDatatable/contactsDatatable.js:86-103 | With no draft for the edit's `Id`, the result is the old drafts unchanged and in order, with the edit appended. With one, the length is unchanged, the matching draft is overridden by the edit and the others stay in place. The edit's `Id` is present afterwards and no other `Id` appears. One draft per `Id` stays one draft per `Id` |
| Drafts.ApplyEdits | force-app/main/default/lwc/contactsDatatable/contactsDatatable.js:105-110 | Applying a batch of edits left to right never shrinks the list. Old drafts keep their positions and `Id`s. The `Id`s present are exactly those of the old drafts and of the edits. One draft per `Id` is preserved |
| Drafts.ApplyEditsIdOrder | force-app/main/default/lwc/contactsDatatable/contactsDatatable.js:105-110 | After a batch, the draft `Id`s are the old ones in order, followed by each new `Id` in the order of its first edit in the batch; so the draft count is the old count plus the number of new `Id`s |
| Drafts.UpsertRecordFor | force-app/main/default/lwc/contactsDatatable/contactsDatatable.js:86-103 | Seen from one `Id`, an upsert merges the edit into that `Id`'s draft (into an empty record if there was none) when the edit has that `Id`, and otherwise leaves that draft as it was |
| Drafts.ApplyEditsRecordFor | force-app/main/default/lwc/contactsDatatable/contactsDatatable.js:105-110 | After a batch, the draft for any `Id` equals that `Id`'s edits folded in order onto its previous draft |
| Drafts.FoldEditsField | force-app/main/default/lwc/contactsDatatable/contactsDatatable.js:91-93 | Folding edits keeps, for each field, the value of the last edit that set it, and otherwise the base's value (or no value) |
| Drafts.ApplyEditsLastWriteWins | force-app/main/default/lwc/contactsDatatable/contactsDatatable.js:105-110 | For any batch of edits, each draft's field holds the value of the last edit of that draft's `Id` that set the field; where no edit set it, the value the draft had before, or nothing |
| Drafts.TwoEditsMerge | force-app/main/default/lwc/contactsDatatable/contactsDatatable.js:105-110 | Two edits of the same `Id` give exactly one draft for it. That draft holds every field of both edits, and the later edit wins on a shared field |
| ContactsDatatable.Stamp | force-app/main/default/lwc/contactsDatatable/contactsDatatable.js:59-61 | Each row gets `pickListOptions` equal to the current option set and keeps every other field; the row count is unchanged |
| ContactsDatatable.Load | force-app/main/default/lwc/contactsDatatable/contactsDatatable.js:53-69 | Fetched rows become the stamped data, one row per fetched row, and the snapshot equals the data. An error makes the data undefined and keeps the snapshot. An unprovisioned result changes nothing. Drafts and spinner are untouched |
| ContactsDatatable.CellChange | force-app/main/default/lwc/contactsDatatable/contactsDatatable.js:105-110 | A change event touches only the drafts. It keeps one draft per `Id` and keeps old drafts in place. Afterwards the drafts hold exactly the old `Id`s plus the edits' `Id`s |
| ContactsDatatable.UpdateDataValues | force-app/main/default/lwc/contactsDatatable/contactsDatatable.js:72-84 | The operation throws exactly when data is undefined. Otherwise the row count and order are kept. Rows with another `Id` are unchanged, and the matching row gets every edited field and keeps its others. Drafts, snapshot and spinner stay as they were |
| ContactsDatatable.Cancel | force-app/main/default/lwc/contactsDatatable/contactsDatatable.js:165-168 | Data equals the snapshot and no draft remains; the snapshot is kept |
| ContactsDatatable.StartSave | force-app/main/default/lwc/contactsDatatable/contactsDatatable.js:141-149 | The spinner turns on. There is exactly one update request per draft, in draft order, each carrying that draft's fields. The drafts stay pending |
| ContactsDatatable.FinishSave | force-app/main/default/lwc/contactsDatatable/contactsDatatable.js:152-162 | Whatever the outcome, drafts are empty and the spinner is off. Success gives exactly the success toast and a refresh request, followed by an error toast when the refresh rejects and by nothing else. A rejected update shows only the generic error toast |
| ContactsDatatable.Save | force-app/main/default/lwc/contactsDatatable/contactsDatatable.js:141-163 | The whole save first issues the update requests, one per draft in order. What follows is exactly the effects of the settled save: the success toast and refresh (with the error toast only when the refresh rejects), or the single error toast. It ends with no draft and the spinner off |
| ContactsDatatable.RunSnapshot | force-app/main/default/lwc/contactsDatatable/contactsDatatable.js:63 | After any run of events, the snapshot is the stamped rows of the last successful fetch, or the earlier snapshot if no fetch succeeded |
| ContactsDatatable.CancelRestoresLastFetch | force-app/main/default/lwc/contactsDatatable/contactsDatatable.js:165-168 | Cancel after any run of events restores exactly the rows of the last successful fetch and leaves no draft |
| ContactsDatatable.LastFetchedWithoutFetch | force-app/main/default/lwc/contactsDatatable/contactsDatatable.js:63 | Only a successful fetch writes the snapshot. A run with no successful fetch leaves it as it was |
| ContactsDatatable.CancelAfterEdits | force-app/main/default/lwc/contactsDatatable/contactsDatatable.js:165-168 | After a successful load, then any run of edits, patches, saves, cancels and unsuccessful fetches, cancel gives back the loaded rows stamped with the options. No draft remains |
| ContactsDatatable.RunKeepsUniqueDrafts | force-app/main/default/lwc/contactsDatatable/contactsDatatable.js:86-110 | If the drafts start with at most one entry per `Id`, they keep that property across any run of events |
| ContactsDatatable.ReachableDraftsUnique | force-app/main/default/lwc/contactsDatatable/contactsDatatable.js:32 | Starting from the component's initial empty draft list, every reachable state has at most one draft per `Id` |
| UploadFileCustomComponent.DocumentIds | force-app/main/default/lwc/uploadFileCustomComponent/uploadFileCustomComponent.js:12-17 | The id list has one entry per uploaded file, and entry i is the `documentId` of file i |
| UploadFileCustomComponent.HandleUploadFinished | force-app/main/default/lwc/uploadFileCustomComponent/uploadFileCustomComponent.js:7-33 | Exactly one `uploadfinished` event goes out, and it bubbles, is composed and is cancelable. Its detail carries the cell's own `recordId` and the documents' ids in file order, so an empty upload still sends an empty list. The completion toast comes after it |

## Left out

- Wire adapters and platform services are not modelled: `getObjectInfo`, `getPicklistValues`, the `getAccountContacts` wire, `updateRecord`, `refreshApex`, `attachFilesToRecord`. A fetch is a `FetchResult` input, and a save's settlement is a `SaveOutcome` input. The picklist option set is a parameter of `Load`, so `wirePickList` is not modelled either.
- ContactsDatatable.Load: takes the option set as a defined list, so a load that runs before the picklist wire has delivered is not modelled. In the code, that load would stamp `undefined`.
- Promise concurrency in `handleSave` (`Promise.all`, `then`, `catch`, `finally`) is reduced to one settled outcome. The order in which individual update calls settle is not modelled. When one update rejects, the other update calls may still be pending after the drafts are dropped and the spinner goes off; the atomic save transition does not show them.
- Toasts, update requests, the refresh and dispatched events are entries in a trace; how the platform delivers them is not modelled. `console.log` and the `debugger` statement are dropped.
- The `saveDraftValues` field written by `handleSave`, and the `contactsData` field keeping the wire result for the refresh, are not modelled. Nothing else reads them.
- `JSON.parse(JSON.stringify(...))` deep copies are the identity under value semantics. So is `Object.assign({}, draft)`. The aliasing of draft objects shared through the shallow copy in `updateDraftValues` is unobservable here, because the result is reassigned. The one exception is the copy of undefined data, which throws; that case is modelled as `Err(SyntaxError)`.
- ContactsDatatable.Save: admits `SomeUpdateRejected` when there is no draft. In the code, waiting on an empty set of update calls always succeeds, so that case never arises; the model's result for it is a state the component never reaches.
- Key order of JavaScript objects is not modelled: records are maps.
- JavaScript `===` on object-valued `Id`s would compare references. The model compares values, and real `Id`s are strings.
- UploadFileCustomComponent.HandleUploadFinished: the cell's `recordId` is a defined string. An unset `@api recordId` would send `undefined`.
- The custom cell type registry (`customDatatableType.js`) is purely declarative, so it has no logic to verify.
- The grid's own `handleUploadFinished` is not modelled. It copies the id list and calls the attachment service. Its callbacks call `this.ShowToast`, but the component defines only `showToast`. So either callback would throw a `TypeError` instead of showing its toast.
