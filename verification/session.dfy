/**
 The upload session: the file descriptor, the session state, the events that
 drive it, and one pure transition per kind of event, as built by
 `makeModification$` in src/js/main.js.
 */
module Session {
  import opened Optional
  import opened Outcome
  import opened Decimal

  /** The only endpoint the widget uploads to and listens for. */
  const UploadUrl: string := "/upload"

  /** A dropped file: its name and its last-modified date, the latter already
      rendered as text (the browser's `Date` rendering is not modelled). The
      binary contents handle is never read by the core and is left out. */
  datatype File = File(name: string, maybeTimestamp: Option<string>)

  /** The whole session state. `lastFile` records the most recent upload
      outcome; on success it carries whatever the success transition read. */
  datatype State = State(hasNewFile: bool, maybeCurrentFile: Option<File>, lastFile: Last<Option<File>>)

  /** The initial state `source`: no drag in progress, no file, no outcome. */
  const Source: State := State(false, Absent, None)

  /** The semantic events reaching the model, in arrival order. A response
      carries the URL of the request it answers, its `ok` flag and status. */
  datatype Event = Enter | Leave | Drop(file: File) | Response(url: string, ok: bool, status: int)

  const FailureMessagePrefix: string := "upload failed with status: "

  /** The text a failed response records as its outcome message: a fixed
      prefix and then the status, which can be read back from the text. */
  function FailureText(status: int): (t: string)
    ensures FailureMessagePrefix <= t
    ensures ParseDecimal(t[|FailureMessagePrefix|..]) == Present(status)
  {
    DecimalRoundTrip(status);
    var t := FailureMessagePrefix + DecimalText(status);
    assert t[|FailureMessagePrefix|..] == DecimalText(status);
    t
  }

  /** Reads a file-valued property of a state record by its name, as a
      JavaScript property access does. Only file-valued keys are modelled:
      the record has exactly one, `maybeCurrentFile`, and a key the record
      does not have at all yields `undefined`. */
  function FileProperty(s: State, key: string): (r: Option<File>)
    ensures key == "maybeCurrentFile" ==> r == s.maybeCurrentFile
    ensures key != "maybeCurrentFile" ==> r == Absent
  {
    if key == "maybeCurrentFile" then s.maybeCurrentFile else Absent
  }

  /** Drag-enter: raise the drop hint, keep everything else. */
  function OnEnter(s: State): (r: State)
    ensures r.hasNewFile
    ensures r.maybeCurrentFile == s.maybeCurrentFile && r.lastFile == s.lastFile
  {
    State(true, s.maybeCurrentFile, s.lastFile)
  }

  /** Drag-leave: lower the drop hint, keep everything else. */
  function OnLeave(s: State): (r: State)
    ensures !r.hasNewFile
    ensures r.maybeCurrentFile == s.maybeCurrentFile && r.lastFile == s.lastFile
  {
    State(false, s.maybeCurrentFile, s.lastFile)
  }

  /** Drop: the dropped file becomes the current one whatever came before;
      the last outcome is kept. */
  function OnDrop(f: File, s: State): (r: State)
    ensures !r.hasNewFile && r.maybeCurrentFile == Present(f)
    ensures r.lastFile == s.lastFile
  {
    State(false, Present(f), s.lastFile)
  }

  /** Upload response: the current file is cleared whatever the result. A
      failure records its status text. A success records the property
      `maybeCurentFile` (sic) of the prior state, a key no state has, so the
      recorded success never carries a file. */
  function OnResponse(ok: bool, status: int, s: State): (r: State)
    ensures !r.hasNewFile && r.maybeCurrentFile == Absent
    ensures ok ==> r.lastFile == Some(Absent)
    ensures !ok ==> r.lastFile == Fail(FailureText(status))
  {
    if ok then State(false, Absent, Some(FileProperty(s, "maybeCurentFile")))
    else State(false, Absent, Fail(FailureText(status)))
  }

  /** The transition an event stands for. Every transition clears the drop
      hint except drag-enter, which sets it; only a response changes the
      recorded outcome; the current file is set by a drop, cleared by a
      response and kept by a drag. */
  function Step(s: State, e: Event): (r: State)
    ensures r.hasNewFile <==> e.Enter?
    ensures !e.Response? ==> r.lastFile == s.lastFile
    ensures e.Drop? ==> r.maybeCurrentFile == Present(e.file)
    ensures e.Response? ==> r.maybeCurrentFile == Absent
    ensures (e.Enter? || e.Leave?) ==> r.maybeCurrentFile == s.maybeCurrentFile
  {
    match e
    case Enter => OnEnter(s)
    case Leave => OnLeave(s)
    case Drop(f) => OnDrop(f, s)
    case Response(_, ok, status) => OnResponse(ok, status, s)
  }

  /** The key the success transition reads is not the key the drop writes:
      reading it yields nothing, while the intended key yields the file. */
  lemma MisspelledKeyReadsNothing(s: State)
    ensures FileProperty(s, "maybeCurentFile") == Absent
    ensures FileProperty(s, "maybeCurrentFile") == s.maybeCurrentFile
  {
  }

  /** A successful upload of a dropped file does not record that file. */
  lemma SuccessForgetsDroppedFile(f: File, status: int, s: State)
    ensures OnResponse(true, status, OnDrop(f, s)).lastFile != Some(Present(f))
  {
  }

  /** A response transition is a constant function of the prior state. */
  lemma ResponseIgnoresPriorState(ok: bool, status: int, s: State, t: State)
    ensures OnResponse(ok, status, s) == OnResponse(ok, status, t)
  {
  }

  /** A drop overrides the drag flag and the current file; two states that
      agree on their outcome agree after the same drop. */
  lemma DropIgnoresPriorFile(f: File, s: State, t: State)
    requires s.lastFile == t.lastFile
    ensures OnDrop(f, s) == OnDrop(f, t)
  {
  }

  /** Leaving undoes entering, and both are idempotent. */
  lemma DragTransitionsAbsorb(s: State)
    ensures OnLeave(OnEnter(s)) == OnLeave(s)
    ensures OnEnter(OnLeave(s)) == OnEnter(s)
    ensures OnEnter(OnEnter(s)) == OnEnter(s)
    ensures OnLeave(OnLeave(s)) == OnLeave(s)
    ensures !s.hasNewFile ==> OnLeave(OnEnter(s)) == s
  {
  }
}
