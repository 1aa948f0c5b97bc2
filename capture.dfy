/** The `captured` record and the `on_request` / `on_response` observers that fill it.
    Browser events arrive as a sequence; each observer looks for the `/cfnl` marker in
    the URL and, on a match, overwrites its slot and raises `xhr_found`. */
module Capture {
  import opened Common
  import Strings

  /** The path fragment that identifies the challenge endpoint. */
  const Marker: string := "/cfnl"
  /** What is recorded when a response's text cannot be read. */
  const NoText: string := "<no text>"

  /** A request as the browser reports it (`verb` is the HTTP method); `postData` is `Failed` when reading the
      body raised, `Ok(None)` when the request has no body. */
  datatype RequestEvent = RequestEvent(url: string, verb: string, postData: Read<Option<string>>,
                                       headers: map<string, string>)
  /** A response as the browser reports it; `text` is `Failed` when reading it raised. */
  datatype ResponseEvent = ResponseEvent(url: string, status: int, text: Read<string>)

  datatype Event = Request(request: RequestEvent) | Response(response: ResponseEvent)

  /** The `cfnl_request` entry. */
  datatype RequestRecord = RequestRecord(url: string, verb: string, postData: Option<string>,
                                         headers: map<string, string>)
  /** The `cfnl_response` entry. */
  datatype ResponseRecord = ResponseRecord(url: string, status: int, text: string)

  /** The three entries of `captured`, as a value. */
  datatype CaptureState = CaptureState(xhrFound: bool, request: Option<RequestRecord>,
                                       response: Option<ResponseRecord>)

  const Initial := CaptureState(false, None, None)

  /** The flag is up exactly when a slot is filled. */
  predicate Consistent(st: CaptureState)
  {
    st.xhrFound <==> st.request.Some? || st.response.Some?
  }

  /** Whether an event's URL carries the marker. */
  predicate IsMatching(e: Event)
  {
    match e
    case Request(r) => Strings.Contains(r.url, Marker)
    case Response(r) => Strings.Contains(r.url, Marker)
  }

  /** The entry `on_request` stores: a body that cannot be read is recorded as None. */
  function RecordRequest(e: RequestEvent): RequestRecord
  {
    var postData := match e.postData
      case Ok(body) => body
      case Failed => None;
    RequestRecord(e.url, e.verb, postData, e.headers)
  }

  /** The entry `on_response` stores: text that cannot be read is recorded as the sentinel. */
  function RecordResponse(e: ResponseEvent): ResponseRecord
  {
    var text := match e.text
      case Ok(t) => t
      case Failed => NoText;
    ResponseRecord(e.url, e.status, text)
  }

  /** The effect of one event on the record. */
  function Observe(st: CaptureState, e: Event): (st': CaptureState)
    ensures !IsMatching(e) ==> st' == st
    ensures e.Request? && IsMatching(e) ==>
              st'.xhrFound && st'.request.Some? && st'.response == st.response
    ensures e.Response? && IsMatching(e) ==>
              st'.xhrFound && st'.response.Some? && st'.request == st.request
  {
    match e
    case Request(r) =>
      if Strings.Contains(r.url, Marker)
      then st.(request := Some(RecordRequest(r)), xhrFound := true)
      else st
    case Response(r) =>
      if Strings.Contains(r.url, Marker)
      then st.(response := Some(RecordResponse(r)), xhrFound := true)
      else st
  }

  /** The record after the observers have seen `events` in order. */
  function Replay(events: seq<Event>): CaptureState
    decreases |events|
  {
    if events == [] then Initial
    else Observe(Replay(events[..|events| - 1]), events[|events| - 1])
  }

  /** A matching request event at index `i`. */
  predicate MatchingRequestAt(events: seq<Event>, i: int)
  {
    0 <= i < |events| && events[i].Request? && IsMatching(events[i])
  }

  /** A matching response event at index `i`. */
  predicate MatchingResponseAt(events: seq<Event>, i: int)
  {
    0 <= i < |events| && events[i].Response? && IsMatching(events[i])
  }

  /** The flag is raised only together with a slot, so it holds exactly when a slot is filled. */
  lemma {:induction false} ReplayConsistent(events: seq<Event>)
    ensures Consistent(Replay(events))
    decreases |events|
  {
    if events != [] {
      ReplayConsistent(events[..|events| - 1]);
    }
  }

  /** One more event changes the request slot only when it is a matching request. */
  lemma ReplayStepRequest(events: seq<Event>)
    requires events != []
    ensures Replay(events).request ==
              if MatchingRequestAt(events, |events| - 1)
              then Some(RecordRequest(events[|events| - 1].request))
              else Replay(events[..|events| - 1]).request
  {
  }

  /** One more event changes the response slot only when it is a matching response. */
  lemma ReplayStepResponse(events: seq<Event>)
    requires events != []
    ensures Replay(events).response ==
              if MatchingResponseAt(events, |events| - 1)
              then Some(RecordResponse(events[|events| - 1].response))
              else Replay(events[..|events| - 1]).response
  {
  }

  /** The request slot holds the record of the LAST matching request, and is empty
      exactly when no request matched: a later match overwrites an earlier one. */
  lemma {:induction false} ReplayRequestLast(events: seq<Event>)
    ensures Replay(events).request.None? <==> forall i :: !MatchingRequestAt(events, i)
    ensures Replay(events).request.Some? ==>
              exists i :: MatchingRequestAt(events, i)
                && Replay(events).request.value == RecordRequest(events[i].request)
                && forall j :: i < j ==> !MatchingRequestAt(events, j)
    decreases |events|
  {
    if events != [] {
      var n := |events| - 1;
      var prefix := events[..n];
      ReplayRequestLast(prefix);
      ReplayStepRequest(events);
      forall i | i != n
        ensures MatchingRequestAt(events, i) == MatchingRequestAt(prefix, i)
      {
        if 0 <= i < n {
          assert events[i] == prefix[i];
        }
      }
      if MatchingRequestAt(events, n) {
        assert MatchingRequestAt(events, n)
          && Replay(events).request.value == RecordRequest(events[n].request)
          && forall j :: n < j ==> !MatchingRequestAt(events, j);
      } else if Replay(prefix).request.Some? {
        var i :| MatchingRequestAt(prefix, i)
          && Replay(prefix).request.value == RecordRequest(prefix[i].request)
          && forall j :: i < j ==> !MatchingRequestAt(prefix, j);
        assert MatchingRequestAt(events, i) && events[i] == prefix[i];
      }
    }
  }

  /** The mirror image for the response slot. */
  lemma {:induction false} ReplayResponseLast(events: seq<Event>)
    ensures Replay(events).response.None? <==> forall i :: !MatchingResponseAt(events, i)
    ensures Replay(events).response.Some? ==>
              exists i :: MatchingResponseAt(events, i)
                && Replay(events).response.value == RecordResponse(events[i].response)
                && forall j :: i < j ==> !MatchingResponseAt(events, j)
    decreases |events|
  {
    if events != [] {
      var n := |events| - 1;
      var prefix := events[..n];
      ReplayResponseLast(prefix);
      ReplayStepResponse(events);
      forall i | i != n
        ensures MatchingResponseAt(events, i) == MatchingResponseAt(prefix, i)
      {
        if 0 <= i < n {
          assert events[i] == prefix[i];
        }
      }
      if MatchingResponseAt(events, n) {
        assert MatchingResponseAt(events, n)
          && Replay(events).response.value == RecordResponse(events[n].response)
          && forall j :: n < j ==> !MatchingResponseAt(events, j);
      } else if Replay(prefix).response.Some? {
        var i :| MatchingResponseAt(prefix, i)
          && Replay(prefix).response.value == RecordResponse(prefix[i].response)
          && forall j :: i < j ==> !MatchingResponseAt(prefix, j);
        assert MatchingResponseAt(events, i) && events[i] == prefix[i];
      }
    }
  }

  /** `xhr_found` holds exactly when some event carried the marker. */
  lemma ReplayXhrFound(events: seq<Event>)
    ensures Replay(events).xhrFound <==> exists i :: 0 <= i < |events| && IsMatching(events[i])
  {
    ReplayConsistent(events);
    ReplayRequestLast(events);
    ReplayResponseLast(events);
    if exists i :: 0 <= i < |events| && IsMatching(events[i]) {
      var i :| 0 <= i < |events| && IsMatching(events[i]);
      assert MatchingRequestAt(events, i) || MatchingResponseAt(events, i);
    }
  }

  /** A body-read failure is recorded as a request without body, a text-read failure
      as the `<no text>` sentinel. */
  lemma ReadFailuresRecorded(req: RequestEvent, resp: ResponseEvent)
    ensures req.postData.Failed? ==> RecordRequest(req).postData == None
    ensures resp.text.Failed? ==> RecordResponse(resp).text == NoText
  {
  }

  /** The `captured` dict, updated in place by the two observers. */
  class Capture {
    var xhrFound: bool
    var request: Option<RequestRecord>
    var response: Option<ResponseRecord>

    /** The record as a value. */
    function State(): CaptureState
      reads this
    {
      CaptureState(xhrFound, request, response)
    }

    ghost predicate Valid()
      reads this
    {
      Consistent(State())
    }

    constructor ()
      ensures Valid() && State() == Initial
    {
      xhrFound, request, response := false, None, None;
    }

    /** `on_request`: a request whose URL carries the marker overwrites the request
        slot and raises the flag; any other request changes nothing. */
    method OnRequest(e: RequestEvent)
      requires Valid()
      modifies this
      ensures Valid()
      ensures State() == Observe(old(State()), Request(e))
      ensures response == old(response)
    {
      if Strings.Contains(e.url, Marker) {
        var postData: Option<string> := None;
        match e.postData {
          case Ok(body) => postData := body;
          case Failed =>
        }
        request := Some(RequestRecord(e.url, e.verb, postData, e.headers));
        xhrFound := true;
      }
    }

    /** `on_response`: the mirror image of `OnRequest` for the response slot. */
    method OnResponse(e: ResponseEvent)
      requires Valid()
      modifies this
      ensures Valid()
      ensures State() == Observe(old(State()), Response(e))
      ensures request == old(request)
    {
      if Strings.Contains(e.url, Marker) {
        var text: string;
        match e.text {
          case Ok(t) => text := t;
          case Failed => text := NoText;
        }
        response := Some(ResponseRecord(e.url, e.status, text));
        xhrFound := true;
      }
    }
  }
}
