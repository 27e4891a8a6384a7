# Drag-and-drop upload session, modelled in Dafny

A model of the single-page drag-and-drop upload widget whose logic lives in
`src/js/main.js`. Drag-enter, drag-leave, drop and upload-response events
each become a pure transition on one session state. The state records
whether a drag is hovering over the drop zone, the file being uploaded, and
the outcome of the last upload. The `model` folds these transitions over the
initial state, after keeping only responses addressed to `/upload`, and emits
one POST request per dropped file. The `viewModel` projects every state onto
three display strings.

The reactive streams are replaced by one finite sequence of events in arrival
order. The fold becomes a recursive function over that sequence. The state
stream becomes the sequence of all states it emits, starting with the
initial state.

Modules:

- `Optional`: the absent/present value and the `liftOption` eliminator.
- `Outcome`: the Church-encoded three-state `Last` as a datatype with its
  three-branch eliminator.
- `Decimal`: how an integer status is rendered into text, with its inverse.
- `Session`: the file, the state, the events, the initial state and the
  four transitions of `makeModification$`.
- `Model`: the URL filter, the fold with its prepended initial state, a
  reference description of every state read backwards from the latest
  event, and the request stream.
- `View`: the `viewModel` projector.
- `Scenarios`: short end-to-end event sequences with their displays.

Two behaviours of the code are kept exactly as written:

- A successful response records `Last.Some(state.maybeCurentFile)`. That
  property name is misspelled, and no state has such a property. So every
  recorded success carries `undefined` and displays as
  "Upload succeeded for file undefined". The model reads the property by
  name (`Session.FileProperty`) and proves that a success never carries a
  file. It does not repair the name.
- A failed response records the message "upload failed with status: 500".
  The projector then prefixes it with "Upload failed with status ", so the
  displayed line is "Upload failed with status upload failed with status: 500".
  It is not the shorter "Upload failed with status 500". The model keeps
  the doubled text.

## Model

| member | source | states |
|---|---|---|
| Optional.LiftOption | src/js/main.js:15-17 | the absent branch runs exactly when there is no value; otherwise the present branch receives the value |
| Optional.LiftOptionRebuilds | src/js/main.js:15-17 | eliminating with the two constructors gives back the original optional value |
| Optional.LiftOptionNatural | src/js/main.js:15-17 | post-processing the eliminator's result equals post-processing each branch |
| Outcome.Last.Match | src/js/main.js:9-13 | each of the three outcome cases selects its own continuation, with its payload |
| Outcome.MatchSelectsOwnBranch | src/js/main.js:9-13 | the outcome eliminator is total and selects exactly one branch, the one of the value's case |
| Outcome.MatchRebuilds | src/js/main.js:9-13 | eliminating with the three constructors gives back the original outcome |
| Decimal.Digits | src/js/main.js:81 | a number's digit text is non-empty, all digits, and has no leading zero |
| Decimal.DecimalText | src/js/main.js:81 | an interpolated status is non-empty; it is all digits exactly when non-negative and starts with a minus exactly when negative |
| Decimal.DigitsRoundTrip | src/js/main.js:81 | reading a number's digit text back gives the number |
| Decimal.DecimalRoundTrip | src/js/main.js:81 | the status can be parsed back from its interpolated text |
| Decimal.DecimalTextInjective | src/js/main.js:81 | distinct statuses render as distinct texts |
| Session.FailureText | src/js/main.js:79-81 | a failure message starts with "upload failed with status: " and the status can be read back from the rest |
| Session.OnEnter | src/js/main.js:54-59 | drag-enter sets the drop hint and leaves the current file and the last outcome unchanged |
| Session.OnLeave | src/js/main.js:60-65 | drag-leave clears the drop hint and leaves the current file and the last outcome unchanged |
| Session.OnDrop | src/js/main.js:66-71 | a drop clears the hint, makes the dropped file current whatever came before, and keeps the last outcome |
| Session.OnResponse | src/js/main.js:72-82 | any upload response clears the hint and the current file; a failure records the status message; a success records a success carrying nothing |
| Session.MisspelledKeyReadsNothing | src/js/main.js:77 | the property the success branch reads yields nothing on every state, while the property a drop writes yields the current file |
| Session.SuccessForgetsDroppedFile | src/js/main.js:66-82 | a successful response right after a drop does not record the dropped file |
| Session.ResponseIgnoresPriorState | src/js/main.js:72-82 | the state after a response does not depend on the state before it |
| Session.DropIgnoresPriorFile | src/js/main.js:66-71 | states that agree on their last outcome agree after the same drop |
| Session.DragTransitionsAbsorb | src/js/main.js:54-65 | leave undoes enter, enter and leave are idempotent, and enter then leave returns a state without the hint to itself |
| Session.Step | src/js/main.js:84-86 | the merged transition of an event: the hint is up afterwards exactly when the event was a drag-enter; only a response changes the outcome; a drop makes its file current, a response clears the file and a drag keeps it |
| Session.FileProperty | src/js/main.js:77 | reading the state's file-valued property by name yields the current file for "maybeCurrentFile" and nothing for any other key, the misspelled one included |
| Model.IsAccepted | src/js/main.js:90 | every user event reaches the fold; a response reaches it exactly when its request URL is exactly "/upload" |
| Model.SourceIsEmptyHistory | src/js/main.js:140-144 | the initial state is the reference description of no events (no hint, no current file, no outcome) and the stream of no events is that state alone |
| Model.Accepted | src/js/main.js:90 | the kept events are exactly the user events and the responses for exactly "/upload", never more events than arrived |
| Model.Scan | src/js/main.js:94-96 | the fold emits one state per event, each the previous state with that event's transition applied |
| Model.States | src/js/main.js:94-99 | the state stream is the initial state followed by one state per kept event, each the previous one with that event's transition applied |
| Model.CurrentAfter | src/js/main.js:66-82 | in the reference description, a present current file is always one that was dropped |
| Model.OutcomeAfter | src/js/main.js:72-82 | in the reference description, the outcome is "none yet" exactly when no response has been kept |
| Model.StatesCharacterised | src/js/main.js:53-99 | every state in the stream equals the reference description of the kept events before it |
| Model.AcceptedAppend | src/js/main.js:90 | the filter works event by event: the kept events of a concatenation are the kept events of each part in order |
| Model.StatesExtend | src/js/main.js:94-99 | later events never change the states already emitted |
| Model.ForeignResponseIgnored | src/js/main.js:90-92 | a response to any URL other than "/upload" adds no state |
| Model.AcceptedEventEmitsOneState | src/js/main.js:94-99 | each kept event adds exactly one state, the current state with its transition applied |
| Model.HintMeansEnteredLast | src/js/main.js:54-71 | the drop hint is up exactly when the most recent kept event was a drag-enter |
| Model.OutcomeChangesOnlyOnResponse | src/js/main.js:54-82 | the recorded outcome changes only on a response |
| Model.OutcomeInvariant | src/js/main.js:72-82 | no state records a success carrying a file, and the outcome is "none yet" exactly until the first upload response |
| Model.SuccessNeverCarriesFile | src/js/main.js:77 | in the reference description, a recorded success never carries a file |
| Model.Drops | src/js/main.js:100 | the dropped files are exactly the files of the drop events |
| Model.DropsAppend | src/js/main.js:100 | the dropped files keep the count and order of the drops: a concatenation's drops are each part's drops in order, and one drop contributes exactly its file |
| Model.UploadRequest | src/js/main.js:101-103 | the request for a file is a POST to "/upload" whose body names that file |
| Model.Requests | src/js/main.js:100-104 | there is one request per drop, in drop order, each a POST to "/upload" naming that drop's file |
| Model.RequestsAppend | src/js/main.js:100-104 | requests are emitted event by event: the requests of a concatenation are those of each part in order |
| Model.OneRequestPerDrop | src/js/main.js:100-104 | a drop adds exactly one request for its file and any other event adds none |
| Model.RequestsUnaffectedByFilter | src/js/main.js:90-104 | filtering responses does not change the requests, since they come from drops alone |
| Model.DropStateMatchesRequest | src/js/main.js:66-104 | the state a drop produces and the request it issues name the same file |
| View.Interpolate | src/js/main.js:114 | an interpolated outcome value renders as "undefined" exactly when it is absent |
| View.StampText | src/js/main.js:117 | an interpolated last-modified date renders as its own text, or as "undefined" when there is none |
| View.StatusText | src/js/main.js:117 | the uploading line is "Currently uploading ", the file name and " with last modify ", followed by the date text, which can be read back from the line |
| View.MessagesDistinct | src/js/main.js:111-117 | the none, failure and success outcome lines cannot be mistaken for one another whatever follows their prefixes, and no uploading line equals the waiting line |
| View.ViewModel | src/js/main.js:108-122 | the drop-zone text shows only the hint; the status line is "Waiting for file..." exactly when no file is current, and otherwise the uploading line built from the file's name and date text; the outcome line is in exactly one of three forms, one per outcome case, and a failure's message can be read back from it |
| View.SuccessShowsNoFile | src/js/main.js:111-114 | every success reached by the fold is displayed as "Upload succeeded for file undefined" |
| View.FailureShowsStatus | src/js/main.js:79-81 | after a failed response the outcome line is the display prefix followed by the failure message, and the status line waits for a file |
| View.NothingShownBeforeFirstResponse | src/js/main.js:111-112 | until the first upload response the outcome line says nothing has been uploaded |
| Scenarios.InitialDisplay | src/js/main.js:140-144 | the initial state displays the three initial texts |
| Scenarios.EnterThenLeave | src/js/main.js:54-65 | drag-enter shows "Drop here!" and a following drag-leave restores the hint text |
| Scenarios.DropShowsUpload | src/js/main.js:100-117 | a drop displays the file being uploaded and issues exactly one POST to "/upload" naming it |
| Scenarios.FailureText500 | src/js/main.js:81 | the failure message for status 500 is "upload failed with status: 500" |
| Scenarios.DropThenFailure | src/js/main.js:72-114 | a failed response with status 500 displays the doubled failure text and clears the current file |
| Scenarios.DropThenSuccess | src/js/main.js:72-114 | a successful response displays a success without a file and clears the current file |
| Scenarios.ForeignResponseLeavesDisplay | src/js/main.js:90-92 | a response to another URL leaves the display unchanged |

## Left out

- DOM event decoding and side effects (`fileFromEvent`, `handleDragEvent`, `intent`): browser plumbing. Events arrive already decoded, and a `File` keeps only its name and the rendered text of its last-modified date.
- The file's binary contents handle: the core never reads it.
- The reactive operators `merge`, `scan` and `startWith`: they are replaced by one finite event sequence in arrival order and a recursive fold over it.
- `switch` over response streams: it concerns concurrent in-flight responses. Responses are events in arrival order here.
- The `console.log` calls in the transitions: output only.
- The JSX `view`, the driver setup and `Cycle.run`: rendering and start-up.
- How the browser renders a `Date` as text: the model keeps that text opaque. An absent date renders as "undefined".
- Decimal.DecimalText: matches JavaScript's rendering of a number only below 10^21 in magnitude. JavaScript writes larger numbers in exponent form, and the model writes all their digits. HTTP statuses never come near that bound.
- A transport failure signalled as an error on a response stream: the source does not handle it, and it would end the state stream (src/js/main.js:72-99) while drops still issue requests. The model has no error event and does not represent that end. A failure that yields no response at all leaves the session waiting, with the current file still set.
- `webpack.config.js`: build configuration, with no logic.
