/**
 The `model` of src/js/main.js with its reactive streams replaced by a finite
 sequence of events in arrival order: responses to other URLs are filtered
 out, the transitions of the remaining events are folded left over the
 initial state, the initial state is prepended, and every drop independently
 yields one upload request.
 */
module Model {
  import opened Optional
  import opened Outcome
  import opened Session

  /** Whether an event reaches the fold: every user event does, a response
      only when it answers a request to exactly the upload URL. */
  function IsAccepted(e: Event): (b: bool)
    ensures !e.Response? ==> b
    ensures e.Response? ==> (b <==> e.url == "/upload")
  {
    !e.Response? || e.url == UploadUrl
  }

  /** The events that reach the fold, in their original order. */
  function Accepted(events: seq<Event>): (r: seq<Event>)
    ensures |r| <= |events|
    ensures forall e :: e in r <==> e in events && IsAccepted(e)
    decreases |events|
  {
    if events == [] then []
    else
      assert forall e :: e in events <==> e == events[0] || e in events[1..];
      (if IsAccepted(events[0]) then [events[0]] else []) + Accepted(events[1..])
  }

  /** The states emitted by folding `evs` over `s`, one per event, without
      the seed itself. */
  function Scan(s: State, evs: seq<Event>): (r: seq<State>)
    ensures |r| == |evs|
    ensures forall i :: 0 <= i < |evs| ==> r[i] == Step(if i == 0 then s else r[i - 1], evs[i])
    decreases |evs|
  {
    if evs == [] then []
    else
      var t := Step(s, evs[0]);
      [t] + Scan(t, evs[1..])
  }

  /** The state stream: the initial state, then one state per accepted event,
      each the previous one with that event's transition applied. */
  function States(events: seq<Event>): (r: seq<State>)
    ensures |r| == |Accepted(events)| + 1
    ensures r[0] == Source
    ensures forall i :: 0 <= i < |Accepted(events)| ==> r[i + 1] == Step(r[i], Accepted(events)[i])
  {
    [Source] + Scan(Source, Accepted(events))
  }

  /** The current state after all of `events`. */
  function Current(events: seq<Event>): State
  {
    var r := States(events);
    r[|r| - 1]
  }

  // A reference description of the state after a sequence of accepted
  // events, read from the most recent event backwards instead of folded
  // forwards.

  /** The drop hint is up exactly when the most recent event was a drag-enter. */
  predicate EnteredLast(acc: seq<Event>)
  {
    |acc| > 0 && acc[|acc| - 1].Enter?
  }

  /** The current file is decided by the most recent drop or response: the
      dropped file after a drop, nothing after a response or with neither. */
  function CurrentAfter(acc: seq<Event>): (r: Option<File>)
    ensures r.Present? ==> Drop(r.value) in acc
    decreases |acc|
  {
    if acc == [] then Absent
    else
      var init := acc[..|acc| - 1];
      assert forall e :: e in init ==> e in acc;
      match acc[|acc| - 1]
      case Drop(f) => Present(f)
      case Response(_, _, _) => Absent
      case _ => CurrentAfter(init)
  }

  /** The outcome is decided by the most recent response; there is none
      exactly when no response has arrived. */
  function OutcomeAfter(acc: seq<Event>): (r: Last<Option<File>>)
    ensures r.None? <==> forall k :: 0 <= k < |acc| ==> !acc[k].Response?
    decreases |acc|
  {
    if acc == [] then None
    else
      var init := acc[..|acc| - 1];
      match acc[|acc| - 1]
      case Response(_, ok, status) => if ok then Some(Absent) else Fail(FailureText(status))
      case _ => OutcomeAfter(init)
  }

  function Expected(acc: seq<Event>): State
  {
    State(EnteredLast(acc), CurrentAfter(acc), OutcomeAfter(acc))
  }

  /** The fold agrees with the reference description at every point of the
      state stream. */
  lemma {:induction false} StatesCharacterised(events: seq<Event>, i: nat)
    requires i < |States(events)|
    ensures States(events)[i] == Expected(Accepted(events)[..i])
    decreases i
  {
    var acc := Accepted(events);
    if i == 0 {
      assert acc[..0] == [];
    } else {
      StatesCharacterised(events, i - 1);
      assert acc[..i][..i - 1] == acc[..i - 1];
      assert acc[..i][i - 1] == acc[i - 1];
    }
  }

  lemma {:induction false} AcceptedAppend(a: seq<Event>, b: seq<Event>)
    ensures Accepted(a + b) == Accepted(a) + Accepted(b)
    decreases |a|
  {
    if a == [] {
      assert a + b == b;
    } else {
      assert (a + b)[0] == a[0];
      assert (a + b)[1..] == a[1..] + b;
      AcceptedAppend(a[1..], b);
    }
  }

  /** Appending events never rewrites the states already emitted. */
  lemma StatesExtend(a: seq<Event>, b: seq<Event>)
    ensures States(a) <= States(a + b)
  {
    AcceptedAppend(a, b);
    var accA, accAB := Accepted(a), Accepted(a + b);
    forall i | 0 <= i < |States(a)|
      ensures States(a)[i] == States(a + b)[i]
    {
      StatesCharacterised(a, i);
      StatesCharacterised(a + b, i);
      assert accAB[..i] == accA[..i];
    }
  }

  /** A response to any URL other than the upload URL emits no state. */
  lemma ForeignResponseIgnored(events: seq<Event>, url: string, ok: bool, status: int)
    requires url != UploadUrl
    ensures States(events + [Response(url, ok, status)]) == States(events)
  {
    var e := Response(url, ok, status);
    AcceptedAppend(events, [e]);
    assert Accepted([e]) == [];
    assert Accepted(events + [e]) == Accepted(events);
  }

  /** An accepted event emits exactly one new state, the current state with
      that event's transition applied; nothing is coalesced. */
  lemma AcceptedEventEmitsOneState(events: seq<Event>, e: Event)
    requires IsAccepted(e)
    ensures States(events + [e]) == States(events) + [Step(Current(events), e)]
  {
    AcceptedAppend(events, [e]);
    assert [e][1..] == [];
    assert Accepted([e]) == [e];
    StatesExtend(events, [e]);
    var r, r' := States(events), States(events + [e]);
    var n := |r|;
    assert r'[n] == Step(r'[n - 1], Accepted(events + [e])[n - 1]);
    assert r'[..n] == r;
    assert r' == r'[..n] + [r'[n]];
  }

  /** The drop hint is up exactly when the latest accepted event was a
      drag-enter. */
  lemma HintMeansEnteredLast(events: seq<Event>, i: nat)
    requires i < |States(events)|
    ensures States(events)[i].hasNewFile <==> i > 0 && Accepted(events)[i - 1].Enter?
  {
  }

  /** The recorded outcome changes only on a response. */
  lemma OutcomeChangesOnlyOnResponse(events: seq<Event>, i: nat)
    requires i < |Accepted(events)|
    requires !Accepted(events)[i].Response?
    ensures States(events)[i + 1].lastFile == States(events)[i].lastFile
  {
  }

  /** No state ever records a successful upload carrying a file, and the
      outcome is still "none yet" exactly until the first upload response. */
  lemma OutcomeInvariant(events: seq<Event>, i: nat)
    requires i < |States(events)|
    ensures States(events)[i].lastFile.Some? ==> States(events)[i].lastFile.v == Absent
    ensures States(events)[i].lastFile.None? <==> forall k :: 0 <= k < i ==> !Accepted(events)[k].Response?
  {
    var acc := Accepted(events);
    StatesCharacterised(events, i);
    assert forall k :: 0 <= k < i ==> acc[..i][k] == acc[k];
    SuccessNeverCarriesFile(acc[..i]);
  }

  lemma {:induction false} SuccessNeverCarriesFile(acc: seq<Event>)
    ensures OutcomeAfter(acc).Some? ==> OutcomeAfter(acc).v == Absent
    decreases |acc|
  {
    if acc != [] && !acc[|acc| - 1].Response? {
      SuccessNeverCarriesFile(acc[..|acc| - 1]);
    }
  }

  // Outgoing upload requests.

  datatype Body = Body(name: string)

  datatype Request = Request(url: string, httpMethod: string, send: Body)

  /** The request issued for one dropped file. */
  function UploadRequest(f: File): (r: Request)
    ensures r.url == "/upload" && r.httpMethod == "POST"
    ensures r.send.name == f.name
  {
    Request(UploadUrl, "POST", Body(f.name))
  }

  /** The dropped files, in drop order. */
  function Drops(events: seq<Event>): (r: seq<File>)
    ensures forall f :: f in r <==> Drop(f) in events
    decreases |events|
  {
    if events == [] then []
    else
      assert forall e :: e in events <==> e == events[0] || e in events[1..];
      match events[0]
      case Drop(f) => [f] + Drops(events[1..])
      case _ => Drops(events[1..])
  }

  /** The dropped files keep the count and order of the drops: the drops of
      a concatenation are the drops of each part, and a single drop event
      contributes exactly its file. */
  lemma {:induction false} DropsAppend(a: seq<Event>, b: seq<Event>)
    ensures Drops(a + b) == Drops(a) + Drops(b)
    ensures forall f :: Drops([Drop(f)]) == [f]
    decreases |a|
  {
    forall f ensures Drops([Drop(f)]) == [f] {
      assert [Drop(f)][1..] == [];
    }
    if a == [] {
      assert a + b == b;
    } else {
      assert (a + b)[0] == a[0];
      assert (a + b)[1..] == a[1..] + b;
      DropsAppend(a[1..], b);
    }
  }

  /** The initial state is the reference description of an empty history. */
  lemma SourceIsEmptyHistory()
    ensures Source == Expected([])
    ensures States([]) == [Source]
  {
  }

  /** The request stream: derived from the events alone, never from the state. */
  function Requests(events: seq<Event>): (r: seq<Request>)
    ensures |r| == |Drops(events)|
    ensures forall i :: 0 <= i < |r| ==> r[i] == UploadRequest(Drops(events)[i])
    decreases |events|
  {
    if events == [] then []
    else
      match events[0]
      case Drop(f) => [UploadRequest(f)] + Requests(events[1..])
      case _ => Requests(events[1..])
  }

  /** Requests are emitted event by event: the requests of a concatenation
      are the requests of each part, in order. */
  lemma RequestsAppend(a: seq<Event>, b: seq<Event>)
    ensures Requests(a + b) == Requests(a) + Requests(b)
  {
    DropsAppend(a, b);
    var ra, rb, rab := Requests(a), Requests(b), Requests(a + b);
    assert |rab| == |ra + rb|;
    forall i | 0 <= i < |rab|
      ensures rab[i] == (ra + rb)[i]
    {
      if i < |ra| {
        assert Drops(a + b)[i] == Drops(a)[i];
      } else {
        assert Drops(a + b)[i] == Drops(b)[i - |ra|];
      }
    }
  }

  /** A drop adds exactly one request, for that file; any other event adds
      none. */
  lemma OneRequestPerDrop(events: seq<Event>, e: Event)
    ensures e.Drop? ==> Requests(events + [e]) == Requests(events) + [UploadRequest(e.file)]
    ensures !e.Drop? ==> Requests(events + [e]) == Requests(events)
  {
    RequestsAppend(events, [e]);
    assert [e][1..] == [];
  }

  /** The requests do not depend on which responses were filtered out:
      responses never produce requests. */
  lemma {:induction false} RequestsUnaffectedByFilter(events: seq<Event>)
    ensures Requests(Accepted(events)) == Requests(events)
    decreases |events|
  {
    if events != [] {
      var e := events[0];
      assert events == [e] + events[1..];
      AcceptedAppend([e], events[1..]);
      RequestsAppend(Accepted([e]), Accepted(events[1..]));
      RequestsUnaffectedByFilter(events[1..]);
      assert [e][1..] == [];
      if IsAccepted(e) {
        assert Accepted([e]) == [e];
      } else {
        assert Accepted([e]) == [];
      }
    }
  }

  /** Each drop's request and the state that drop produced name the same
      file. */
  lemma DropStateMatchesRequest(events: seq<Event>, i: nat)
    requires i < |Accepted(events)|
    requires Accepted(events)[i].Drop?
    ensures States(events)[i + 1].maybeCurrentFile == Present(Accepted(events)[i].file)
    ensures UploadRequest(Accepted(events)[i].file) in Requests(events)
  {
    var acc := Accepted(events);
    var f := acc[i].file;
    assert Drop(f) in acc;
    assert Drop(f) in events;
    assert f in Drops(events);
    var k :| 0 <= k < |Drops(events)| && Drops(events)[k] == f;
    assert Requests(events)[k] == UploadRequest(f);
  }
}
