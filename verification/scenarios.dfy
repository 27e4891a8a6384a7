/**
 Short event traces of the widget, followed from the initial state to the
 displayed texts and the issued requests.
 */
module Scenarios {
  import opened Optional
  import opened Outcome
  import opened Session
  import opened Model
  import opened View

  const A: File := File("a.txt", Present("Thu Jan 01 1970"))

  /** Before any event the display shows the initial texts. */
  lemma InitialDisplay()
    ensures ViewModel(Current([])) == Display(NothingYet, Waiting, DragHint)
  {
  }

  /** Entering raises the drop hint; leaving lowers it again. */
  lemma EnterThenLeave()
    ensures ViewModel(Current([Enter])).dropZoneText == DropHere
    ensures ViewModel(Current([Enter, Leave])).dropZoneText == DragHint
  {
    AcceptedEventEmitsOneState([], Enter);
    AcceptedEventEmitsOneState([Enter], Leave);
    assert [Enter] + [Leave] == [Enter, Leave];
  }

  /** A drop shows the file being uploaded and issues one request. */
  lemma DropShowsUpload()
    ensures ViewModel(Current([Drop(A)])).currStatus
         == "Currently uploading " + "a.txt" + " with last modify " + "Thu Jan 01 1970"
    ensures Requests([Drop(A)]) == [Request("/upload", "POST", Body("a.txt"))]
  {
    AcceptedEventEmitsOneState([], Drop(A));
    var s := Current([Drop(A)]);
    assert s == State(false, Present(A), None);
    assert ViewModel(s).currStatus == StatusText(A);
  }

  lemma FailureText500()
    ensures FailureText(500) == "upload failed with status: " + "500"
  {
    assert Decimal.Digits(5) == "5";
    assert Decimal.Digits(50) == "50";
    assert Decimal.Digits(500) == "500";
  }

  /** A failed response after the drop shows the status inside the doubled
      failure text and clears the current file. */
  lemma DropThenFailure()
    ensures ViewModel(Current([Drop(A), Response("/upload", false, 500)]))
         == Display("Upload failed with status " + "upload failed with status: " + "500", Waiting, DragHint)
  {
    var evs := [Drop(A), Response("/upload", false, 500)];
    AcceptedEventEmitsOneState([], Drop(A));
    AcceptedEventEmitsOneState([Drop(A)], Response("/upload", false, 500));
    assert [Drop(A)] + [Response("/upload", false, 500)] == evs;
    FailureText500();
    var after := State(false, Absent, Fail("upload failed with status: " + "500"));
    assert Current(evs) == after;
    assert ViewModel(after).lastFileMsg == "Upload failed with status " + "upload failed with status: " + "500";
  }

  /** A successful response after the drop shows the success line, without
      the file, and clears the current file. */
  lemma DropThenSuccess()
    ensures ViewModel(Current([Drop(A), Response("/upload", true, 200)]))
         == Display("Upload succeeded for file " + "undefined", Waiting, DragHint)
  {
    var evs := [Drop(A), Response("/upload", true, 200)];
    AcceptedEventEmitsOneState([], Drop(A));
    AcceptedEventEmitsOneState([Drop(A)], Response("/upload", true, 200));
    assert [Drop(A)] + [Response("/upload", true, 200)] == evs;
  }

  /** A response to another URL leaves the display as it was. */
  lemma ForeignResponseLeavesDisplay()
    ensures ViewModel(Current([Drop(A), Response("/other", false, 404)])) == ViewModel(Current([Drop(A)]))
  {
    ForeignResponseIgnored([Drop(A)], "/other", false, 404);
    assert [Drop(A)] + [Response("/other", false, 404)] == [Drop(A), Response("/other", false, 404)];
  }
}
