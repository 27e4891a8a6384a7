/**
 The `viewModel` projector of src/js/main.js: three display strings computed
 from a session state.
 */
module View {
  import opened Optional
  import opened Session
  import Model

  datatype Display = Display(lastFileMsg: string, currStatus: string, dropZoneText: string)

  const NothingYet: string := "You haven't uploaded anything yet"
  const FailureDisplayPrefix: string := "Upload failed with status "
  const SucceededPrefix: string := "Upload succeeded for file "
  const Waiting: string := "Waiting for file..."
  const UploadingPrefix: string := "Currently uploading "
  const DropHere: string := "Drop here!"
  const DragHint: string := "Drag-and-drop the file here"

  /** A possibly absent file interpolated into a template literal: a file
      record renders as "[object Object]", and the absent value as "undefined".
      JavaScript would render `null` as "null"; the only absent value that
      reaches this interpolation is the `undefined` read by the success
      transition, so "undefined" is right here, but it is not a general fact
      about absent values. */
  function Interpolate(v: Option<File>): (r: string)
    ensures r == "undefined" <==> v.Absent?
  {
    match v
    case Absent => "undefined"
    case Present(_) => "[object Object]"
  }

  /** A last-modified date interpolated into a template literal; the date's
      own text is kept opaque, and a missing date renders as "undefined". */
  function StampText(t: Option<string>): (r: string)
    ensures t.Present? ==> r == t.value
    ensures t.Absent? ==> r == "undefined"
  {
    match t
    case Absent => "undefined"
    case Present(text) => text
  }

  /** The status line for a file being uploaded: a fixed lead-in naming the
      file, then the date text, which can be read back from the line. */
  function StatusText(f: File): (r: string)
    ensures UploadingPrefix + f.name + " with last modify " <= r
    ensures r[|UploadingPrefix + f.name + " with last modify "|..] == StampText(f.maybeTimestamp)
  {
    var lead := UploadingPrefix + f.name + " with last modify ";
    var r := lead + StampText(f.maybeTimestamp);
    assert r[|lead|..] == StampText(f.maybeTimestamp);
    r
  }

  /** The projection. Each field depends on one state field only, and every
      case of that field yields a distinguishable text. */
  function ViewModel(s: State): (d: Display)
    ensures d.dropZoneText == DropHere <==> s.hasNewFile
    ensures d.dropZoneText == DragHint <==> !s.hasNewFile
    ensures d.currStatus == Waiting <==> s.maybeCurrentFile.Absent?
    ensures s.maybeCurrentFile.Present? ==>
              d.currStatus == UploadingPrefix + s.maybeCurrentFile.value.name + " with last modify "
                              + StampText(s.maybeCurrentFile.value.maybeTimestamp)
    ensures d.lastFileMsg == NothingYet <==> s.lastFile.None?
    ensures FailureDisplayPrefix <= d.lastFileMsg <==> s.lastFile.Fail?
    ensures SucceededPrefix <= d.lastFileMsg <==> s.lastFile.Some?
    ensures s.lastFile.Fail? ==> d.lastFileMsg[|FailureDisplayPrefix|..] == s.lastFile.msg
  {
    var last := s.lastFile.Match(NothingYet, (msg: string) => FailureDisplayPrefix + msg,
                                 (file: Option<File>) => SucceededPrefix + Interpolate(file));
    var status := LiftOption(s.maybeCurrentFile, () => Waiting, StatusText);
    var zone := if s.hasNewFile then DropHere else DragHint;
    MessagesDistinct();
    assert s.lastFile.Fail? ==> last[|FailureDisplayPrefix|..] == s.lastFile.msg;
    Display(last, status, zone)
  }

  /** The three outcome lines cannot be confused, whatever follows their
      prefixes, and no uploading line reads as the waiting line. */
  lemma MessagesDistinct()
    ensures forall x: string :: !(FailureDisplayPrefix <= SucceededPrefix + x)
    ensures forall x: string :: !(SucceededPrefix <= FailureDisplayPrefix + x)
    ensures !(FailureDisplayPrefix <= NothingYet) && !(SucceededPrefix <= NothingYet)
    ensures forall x: string :: NothingYet != FailureDisplayPrefix + x && NothingYet != SucceededPrefix + x
    ensures forall x: string :: Waiting != UploadingPrefix + x
  {
    forall x: string ensures !(FailureDisplayPrefix <= SucceededPrefix + x) {
      assert (SucceededPrefix + x)[7] == 's' != FailureDisplayPrefix[7];
    }
    forall x: string ensures !(SucceededPrefix <= FailureDisplayPrefix + x) {
      assert (FailureDisplayPrefix + x)[7] == 'f' != SucceededPrefix[7];
    }
    forall x: string ensures NothingYet != FailureDisplayPrefix + x && NothingYet != SucceededPrefix + x {
      assert (FailureDisplayPrefix + x)[0] == 'U' != NothingYet[0];
      assert (SucceededPrefix + x)[0] == 'U';
    }
    forall x: string ensures Waiting != UploadingPrefix + x {
      assert (UploadingPrefix + x)[0] == 'C' != Waiting[0];
    }
  }

  /** A successful outcome is always displayed without a file. */
  lemma SuccessShowsNoFile(events: seq<Event>, i: nat)
    requires i < |Model.States(events)|
    requires Model.States(events)[i].lastFile.Some?
    ensures ViewModel(Model.States(events)[i]).lastFileMsg == "Upload succeeded for file undefined"
  {
    Model.OutcomeInvariant(events, i);
  }

  /** A failed response is displayed with the failure text appended to the
      display prefix, and the status can be read back from the display. */
  lemma FailureShowsStatus(status: int, s: State)
    ensures ViewModel(OnResponse(false, status, s)).lastFileMsg == FailureDisplayPrefix + FailureText(status)
    ensures ViewModel(OnResponse(false, status, s)).currStatus == Waiting
  {
  }

  /** Before any upload response the outcome line says nothing was uploaded. */
  lemma NothingShownBeforeFirstResponse(events: seq<Event>, i: nat)
    requires i < |Model.States(events)|
    requires forall k :: 0 <= k < i ==> !Model.Accepted(events)[k].Response?
    ensures ViewModel(Model.States(events)[i]).lastFileMsg == NothingYet
  {
    Model.OutcomeInvariant(events, i);
  }
}
