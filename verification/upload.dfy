/**
 * The upload cell: when the file picker reports finished uploads, the cell
 * collects the uploaded documents' ids, announces them to its parent with
 * one `uploadfinished` event, then shows a completion toast.
 */
module UploadFileCustomComponent {

  /** One entry of the picker's `files` list. */
  datatype UploadedFile = UploadedFile(name: string, documentId: string, contentVersionId: string)

  /** The cell's public properties. */
  datatype UploadCell = UploadCell(recordId: string, acceptedFormats: string)

  /** The detail of the `uploadfinished` event. */
  datatype UploadPayload = UploadPayload(recordId: string, uploadedFileIds: seq<string>)

  /** What the cell dispatches: a custom event with its flags, or a toast (title and message only). */
  datatype Dispatched =
    | CustomEvent(name: string, bubbles: bool, composed: bool, cancelable: bool, detail: UploadPayload)
    | ToastEvent(title: string, message: string)

  const UploadFinished: string := "uploadfinished"

  /** The completion toast shown after the event. */
  const CompletedToast: Dispatched := ToastEvent("Completed", "File has been uploaded")

  /** The number of dispatched custom events named `name`. */
  function CountNamed(events: seq<Dispatched>, name: string): nat
    decreases |events|
  {
    if events == [] then 0
    else (if events[0].CustomEvent? && events[0].name == name then 1 else 0) + CountNamed(events[1..], name)
  }

  /** The ids of the uploaded documents, one per file, in file order. */
  function DocumentIds(files: seq<UploadedFile>): (ids: seq<string>)
    ensures |ids| == |files|
    ensures forall i :: 0 <= i < |files| ==> ids[i] == files[i].documentId
  {
    seq(|files|, i requires 0 <= i < |files| => files[i].documentId)
  }

  /**
   * `handleUploadFinished`: exactly one `uploadfinished` event goes out,
   * bubbling, composed and cancelable, whose detail pairs the cell's own
   * `recordId` with the uploaded documents' ids in file order (an empty
   * list when no file came back); the completion toast follows it.
   */
  function HandleUploadFinished(cell: UploadCell, files: seq<UploadedFile>): (dispatched: seq<Dispatched>)
    ensures |dispatched| == 2
    ensures CountNamed(dispatched, UploadFinished) == 1
    ensures dispatched[0].CustomEvent? && dispatched[0].name == UploadFinished
    ensures dispatched[0].bubbles && dispatched[0].composed && dispatched[0].cancelable
    ensures dispatched[0].detail.recordId == cell.recordId
    ensures |dispatched[0].detail.uploadedFileIds| == |files|
    ensures forall i :: 0 <= i < |files| ==> dispatched[0].detail.uploadedFileIds[i] == files[i].documentId
    ensures dispatched[1] == CompletedToast
  {
    var payload := UploadPayload(cell.recordId, DocumentIds(files));
    var dispatched := [CustomEvent(UploadFinished, true, true, true, payload), CompletedToast];
    assert CountNamed(dispatched[1..], UploadFinished) == 0 by {
      assert dispatched[1..][1..] == [];
    }
    dispatched
  }
}
