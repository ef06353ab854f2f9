/**
 * The contacts grid controller as a record-valued state machine: loading
 * the contacts, recording cell edits as drafts, patching rows locally,
 * cancelling back to the last loaded snapshot, and saving the drafts. The
 * platform calls (fetch, record update, refresh) are cut away: what they
 * return is a parameter, and what is sent to them is an effect in a trace.
 */
module ContactsDatatable {
  import opened Wrappers
  import opened Records
  import opened Drafts

  /** The component state the handlers read and write. `data` is `None` once a fetch failed. */
  datatype Grid = Grid(
    data: Option<seq<Row>>,
    draftValues: seq<Row>,
    lastSavedData: seq<Row>,
    showSpinner: bool)

  /** The field initialisers of the component. */
  const Initial: Grid := Grid(Some([]), [], [], false)

  /**
   * What the contacts wire delivers: rows (any array, even an empty one, is
   * truthy), an error, or neither (the wire has not provisioned yet).
   */
  datatype FetchResult = Fetched(rows: seq<Row>) | FetchFailed(error: string) | NotProvisioned

  /**
   * How a save settles: every update fulfilled (and the refresh that
   * follows either fulfils or rejects), or, as soon as one update rejects,
   * a rejection (other updates may still be in flight).
   */
  datatype SaveOutcome = AllUpdated(refreshRejected: bool) | SomeUpdateRejected

  /** What an `updateRecord` call receives: the fields of one draft. */
  datatype RecordInput = RecordInput(fields: Row)

  /** A notification toast: title, message, and the optional variant and mode. */
  datatype Toast = Toast(title: string, message: string, variant: Option<string>, mode: Option<string>)

  /** What the controller hands to the platform, in the order it does so. */
  datatype Effect = UpdateRecord(input: RecordInput) | ShowToast(toast: Toast) | RefreshContacts

  /** The error `JSON.parse` throws when handed `undefined`. */
  datatype JsError = SyntaxError

  const SuccessToast: Toast := Toast("Success", "Records Updated Successfully!", Some("success"), Some("dismissable"))
  const ErrorToast: Toast := Toast("Error", "An Error Occured!!", Some("error"), Some("dismissable"))

  /** Every row carries the picklist options in `pickListOptions` and is otherwise the fetched row. */
  ghost predicate Stamped(rows: seq<Row>, fetched: seq<Row>, options: seq<PicklistOption>) {
    && |rows| == |fetched|
    && forall i :: 0 <= i < |rows| ==>
         && OptionsField in rows[i]
         && rows[i][OptionsField] == Options(options)
         && rows[i] - {OptionsField} == fetched[i] - {OptionsField}
  }

  /** Stamp each fetched row with the current picklist options. */
  function Stamp(fetched: seq<Row>, options: seq<PicklistOption>): (rows: seq<Row>)
    ensures Stamped(rows, fetched, options)
  {
    seq(|fetched|, i requires 0 <= i < |fetched| => fetched[i][OptionsField := Options(options)])
  }

  /**
   * `contactsData`: fetched rows are stamped with the current picklist
   * options and become both the displayed data and the snapshot; a failed
   * fetch leaves no data; a wire that has not provisioned changes nothing.
   * Drafts and the spinner are never touched.
   */
  function Load(g: Grid, result: FetchResult, options: seq<PicklistOption>): (g': Grid)
    ensures g'.draftValues == g.draftValues && g'.showSpinner == g.showSpinner
    ensures result.Fetched? ==>
      && g'.data.Some?
      && Stamped(g'.data.value, result.rows, options)
      && g'.lastSavedData == g'.data.value
    ensures result.FetchFailed? ==> g'.data.None? && g'.lastSavedData == g.lastSavedData
    ensures result.NotProvisioned? ==> g' == g
  {
    match result
    case Fetched(rows) =>
      var stamped := Stamp(rows, options);
      g.(data := Some(stamped), lastSavedData := stamped)
    case FetchFailed(_) => g.(data := None)
    case NotProvisioned => g
  }

  /**
   * `handleCellChange`: every edit of the event is upserted into the
   * drafts, in order. One draft per `Id` is kept, drafts keep their place,
   * and the rows and the snapshot are not touched.
   */
  function CellChange(g: Grid, edits: seq<Row>): (g': Grid)
    ensures g'.data == g.data && g'.lastSavedData == g.lastSavedData && g'.showSpinner == g.showSpinner
    ensures UniqueIds(g.draftValues) ==> UniqueIds(g'.draftValues)
    ensures |g.draftValues| <= |g'.draftValues|
    ensures forall i :: 0 <= i < |g.draftValues| ==> IdOf(g'.draftValues[i]) == IdOf(g.draftValues[i])
    ensures forall k :: HasId(g'.draftValues, k) <==> HasId(g.draftValues, k) || HasId(edits, k)
    ensures IdList(g'.draftValues) == AppendNew(IdList(g.draftValues), IdList(edits))
  {
    ApplyEditsIdOrder(g.draftValues, edits);
    g.(draftValues := ApplyEdits(g.draftValues, edits))
  }

  /**
   * `updateDataValues`: the row whose `Id` matches the edit receives every
   * field of the edit; all other rows, the row count and the row order stay.
   * With no data (after a failed fetch) the deep copy throws.
   */
  function UpdateDataValues(g: Grid, edit: Row): (r: Result<Grid, JsError>)
    ensures g.data.None? <==> r.Err?
    ensures r.Ok? ==>
      var rows := g.data.value;
      var rows' := r.value.data;
      && rows'.Some?
      && |rows'.value| == |rows|
      && (forall i :: 0 <= i < |rows| && SameId(rows[i], edit) ==> Overrides(rows'.value[i], rows[i], edit))
      && (forall i :: 0 <= i < |rows| && !SameId(rows[i], edit) ==> rows'.value[i] == rows[i])
      && r.value.draftValues == g.draftValues
      && r.value.lastSavedData == g.lastSavedData
      && r.value.showSpinner == g.showSpinner
  {
    match g.data
    case None => Err(SyntaxError)
    case Some(rows) => Ok(g.(data := Some(MergeMatching(rows, edit))))
  }

  /** `handleCancel`: the rows become the snapshot again and every draft is dropped. */
  function Cancel(g: Grid): (g': Grid)
    ensures g'.data == Some(g.lastSavedData)
    ensures g'.draftValues == []
    ensures g'.lastSavedData == g.lastSavedData && g'.showSpinner == g.showSpinner
  {
    g.(data := Some(g.lastSavedData), draftValues := [])
  }

  /** The state of a save while its update calls are in flight, and those calls. */
  datatype SaveStart = SaveStart(grid: Grid, requests: seq<RecordInput>)

  /**
   * The synchronous part of `handleSave`: the spinner goes on and one
   * update request is built per draft, in draft order, carrying that
   * draft's fields. The drafts stay until the calls settle.
   */
  function StartSave(g: Grid): (s: SaveStart)
    ensures s.grid.showSpinner
    ensures s.grid.draftValues == g.draftValues && s.grid.data == g.data
    ensures s.grid.lastSavedData == g.lastSavedData
    ensures |s.requests| == |g.draftValues|
    ensures forall i :: 0 <= i < |s.requests| ==> s.requests[i].fields == g.draftValues[i]
  {
    var requests := seq(|g.draftValues|, i requires 0 <= i < |g.draftValues| => RecordInput(g.draftValues[i]));
    SaveStart(g.(showSpinner := true), requests)
  }

  /** The state once the save settled, and what was shown or requested. */
  datatype SaveEnd = SaveEnd(grid: Grid, effects: seq<Effect>)

  /**
   * The settled part of `handleSave`: a full success shows the success
   * toast and asks for a refresh (a rejected refresh falls through to the
   * error toast); any rejected update shows the one generic error toast and
   * asks for no refresh. Whatever the outcome, the drafts are dropped and
   * the spinner goes off; rows and snapshot are left as they are.
   */
  function FinishSave(g: Grid, outcome: SaveOutcome): (e: SaveEnd)
    ensures e.grid.draftValues == [] && !e.grid.showSpinner
    ensures e.grid.data == g.data && e.grid.lastSavedData == g.lastSavedData
    ensures outcome.AllUpdated? ==>
      && |e.effects| >= 2
      && e.effects[0] == ShowToast(SuccessToast)
      && e.effects[1] == RefreshContacts
      // restated for the reader: follows from the exact length and the third effect
      && (ShowToast(ErrorToast) in e.effects <==> outcome.refreshRejected)
      && |e.effects| == (if outcome.refreshRejected then 3 else 2)
      && (outcome.refreshRejected ==> e.effects[2] == ShowToast(ErrorToast))
    ensures outcome.SomeUpdateRejected? ==> e.effects == [ShowToast(ErrorToast)]
  {
    var effects :=
      match outcome
      case AllUpdated(refreshRejected) =>
        [ShowToast(SuccessToast), RefreshContacts] + (if refreshRejected then [ShowToast(ErrorToast)] else [])
      case SomeUpdateRejected => [ShowToast(ErrorToast)];
    SaveEnd(g.(draftValues := [], showSpinner := false), effects)
  }

  /**
   * `handleSave` taken as one transition: one update request per draft, in
   * draft order, goes out before any toast; afterwards no draft is left and
   * the spinner is off, on success and on failure alike.
   */
  function Save(g: Grid, outcome: SaveOutcome): (e: SaveEnd)
    ensures e.grid.draftValues == [] && !e.grid.showSpinner
    ensures e.grid.data == g.data && e.grid.lastSavedData == g.lastSavedData
    ensures |e.effects| > |g.draftValues|
    ensures forall i :: 0 <= i < |g.draftValues| ==> e.effects[i] == UpdateRecord(RecordInput(g.draftValues[i]))
    // the next two are restated for the reader: they follow from the last
    // ensures and the contract of FinishSave
    ensures outcome.SomeUpdateRejected? ==> e.effects[|g.draftValues|..] == [ShowToast(ErrorToast)]
    ensures outcome.AllUpdated? ==>
      && |e.effects| >= |g.draftValues| + 2
      && e.effects[|g.draftValues|] == ShowToast(SuccessToast)
      && e.effects[|g.draftValues| + 1] == RefreshContacts
    ensures e.effects[|g.draftValues|..] == FinishSave(g, outcome).effects
  {
    var start := StartSave(g);
    var end := FinishSave(start.grid, outcome);
    var updates := seq(|start.requests|, i requires 0 <= i < |start.requests| => UpdateRecord(start.requests[i]));
    SaveEnd(end.grid, updates + end.effects)
  }

  // ---------------------------------------------------------------------------
  // Runs of user and platform events, and what cancel restores after them.
  // ---------------------------------------------------------------------------

  /** One event the controller handles. */
  datatype Action =
    | Deliver(result: FetchResult, options: seq<PicklistOption>)
    | EditCells(edits: seq<Row>)
    | PatchRow(edit: Row)
    | Discard
    | Submit(outcome: SaveOutcome)

  /** The state after one action; a patch that throws leaves the state as it was. */
  function Step(g: Grid, a: Action): Grid {
    match a
    case Deliver(result, options) => Load(g, result, options)
    case EditCells(edits) => CellChange(g, edits)
    case PatchRow(edit) =>
      (match UpdateDataValues(g, edit)
       case Ok(g') => g'
       case Err(_) => g)
    case Discard => Cancel(g)
    case Submit(outcome) => Save(g, outcome).grid
  }

  function Run(g: Grid, actions: seq<Action>): Grid
    decreases |actions|
  {
    if actions == [] then g else Run(Step(g, actions[0]), actions[1..])
  }

  /** The rows of the last successful fetch among `actions`, stamped; `snapshot` if there was none. */
  function LastFetched(snapshot: seq<Row>, actions: seq<Action>): seq<Row>
    decreases |actions|
  {
    if actions == [] then snapshot
    else
      var next :=
        match actions[0]
        case Deliver(Fetched(rows), options) => Stamp(rows, options)
        case _ => snapshot;
      LastFetched(next, actions[1..])
  }

  /** The snapshot after any run is the one taken at the last successful fetch. */
  lemma {:induction false} RunSnapshot(g: Grid, actions: seq<Action>)
    ensures Run(g, actions).lastSavedData == LastFetched(g.lastSavedData, actions)
    decreases |actions|
  {
    if actions != [] {
      RunSnapshot(Step(g, actions[0]), actions[1..]);
    }
  }

  /**
   * Cancel, after any run of loads, edits, patches, cancels and saves,
   * restores exactly the rows of the last successful fetch and leaves no draft.
   */
  lemma CancelRestoresLastFetch(g: Grid, actions: seq<Action>)
    ensures Cancel(Run(g, actions)).data == Some(LastFetched(g.lastSavedData, actions))
    ensures Cancel(Run(g, actions)).draftValues == []
  {
    RunSnapshot(g, actions);
  }

  /** No action of the run delivers fetched rows. */
  predicate NoSuccessfulFetch(actions: seq<Action>) {
    forall i :: 0 <= i < |actions| ==> !(actions[i].Deliver? && actions[i].result.Fetched?)
  }

  /** A run with no successful fetch in it leaves the snapshot where it was. */
  lemma {:induction false} LastFetchedWithoutFetch(snapshot: seq<Row>, actions: seq<Action>)
    requires NoSuccessfulFetch(actions)
    ensures LastFetched(snapshot, actions) == snapshot
    decreases |actions|
  {
    if actions != [] {
      assert !(actions[0].Deliver? && actions[0].result.Fetched?);
      LastFetchedWithoutFetch(snapshot, actions[1..]);
    }
  }

  /**
   * After a successful fetch, any run of edits, patches, cancels, saves and
   * failed or unprovisioned fetches, followed by cancel, gives back the
   * stamped fetched rows and an empty draft list.
   */
  lemma CancelAfterEdits(g: Grid, rows: seq<Row>, options: seq<PicklistOption>, actions: seq<Action>)
    requires NoSuccessfulFetch(actions)
    ensures Cancel(Run(Load(g, Fetched(rows), options), actions)).data.Some?
    ensures Stamped(Cancel(Run(Load(g, Fetched(rows), options), actions)).data.value, rows, options)
    ensures Cancel(Run(Load(g, Fetched(rows), options), actions)).draftValues == []
  {
    var loaded := Load(g, Fetched(rows), options);
    CancelRestoresLastFetch(loaded, actions);
    LastFetchedWithoutFetch(loaded.lastSavedData, actions);
  }

  /** Whatever happens, the drafts keep at most one entry per `Id` if they started that way. */
  lemma {:induction false} RunKeepsUniqueDrafts(g: Grid, actions: seq<Action>)
    requires UniqueIds(g.draftValues)
    ensures UniqueIds(Run(g, actions).draftValues)
    decreases |actions|
  {
    if actions != [] {
      RunKeepsUniqueDrafts(Step(g, actions[0]), actions[1..]);
    }
  }

  /** Every state reachable from the component's initial fields has one draft per `Id`. */
  lemma ReachableDraftsUnique(actions: seq<Action>)
    ensures UniqueIds(Run(Initial, actions).draftValues)
  {
    RunKeepsUniqueDrafts(Initial, actions);
  }
}
