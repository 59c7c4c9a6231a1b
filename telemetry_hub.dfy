/**
 * The shared worker's telemetry hub (frontend/src/worker.ts): the last value
 * of every telemetry stream and the streams the pages have opened. One
 * telemetry feed delivers frames one at a time; each frame replaces the
 * cached value of its name and goes to every open stream of that name. A new
 * stream first receives the cached value of its name, if there is one.
 *
 * A stream (`ReadableStream` with its event handler) is a numbered sink; what
 * `controller.enqueue` hands to it is kept as that sink's delivery log.
 */
module TelemetryHub {
  import opened Wrappers
  import opened SeqLemmas
  import TelemetryView

  /** A telemetry frame (`Tmiv`): its stream name and its fields. */
  datatype Tmiv = Tmiv(name: string, fields: seq<TelemetryView.TmivField>)

  type Sink = nat

  /** The hub's whole state: the cache, the open streams with the name each
    * listens to, everything delivered to each stream so far, and the next
    * stream number. */
  datatype HubState = HubState(
    lastValues: map<string, Tmiv>,
    listeners: map<Sink, string>,
    delivered: map<Sink, seq<Tmiv>>,
    nextSink: Sink)

  /** Every open stream has a log, and every stream number in use is below
    * the next one. */
  predicate Valid(st: HubState)
  {
    && st.listeners.Keys <= st.delivered.Keys
    && forall s :: s in st.delivered ==> s < st.nextSink
  }

  const Initial: HubState := HubState(map[], map[], map[], 0)

  /** One item of the feed (`startTelemetryStream`): a response without a
    * frame is skipped; a frame replaces its name's cached value and is
    * appended to the log of every stream listening to that name. */
  function Publish(st: HubState, response: Option<Tmiv>): (r: HubState)
    ensures r.listeners == st.listeners && r.delivered.Keys == st.delivered.Keys && r.nextSink == st.nextSink
  {
    match response
    case None => st
    case Some(tmiv) =>
      st.(lastValues := st.lastValues[tmiv.name := tmiv],
          delivered := map s | s in st.delivered ::
            if s in st.listeners && st.listeners[s] == tmiv.name then st.delivered[s] + [tmiv] else st.delivered[s])
  }

  /** `openTelemetryStream(tmivName)`'s `start`: a fresh stream listens to
    * the name and receives the cached value first, if there is one. */
  function Open(st: HubState, tmivName: string): (r: (HubState, Sink))
    ensures Valid(st) ==> r.1 !in st.delivered
    ensures r.1 in r.0.listeners && r.0.listeners[r.1] == tmivName
    ensures r.0.lastValues == st.lastValues
  {
    var sink := st.nextSink;
    var first := if tmivName in st.lastValues then [st.lastValues[tmivName]] else [];
    (st.(listeners := st.listeners[sink := tmivName],
         delivered := st.delivered[sink := first],
         nextSink := sink + 1),
     sink)
  }

  /** The stream's `cancel`: its handler is removed from the bus. */
  function Cancel(st: HubState, sink: Sink): (r: HubState)
    ensures sink !in r.listeners
    ensures r.lastValues == st.lastValues && r.delivered == st.delivered && r.nextSink == st.nextSink
  {
    st.(listeners := st.listeners - {sink})
  }

  /** A whole feed, item by item. */
  function Feed(st: HubState, responses: seq<Option<Tmiv>>): (r: HubState)
    ensures r.listeners == st.listeners && r.delivered.Keys == st.delivered.Keys && r.nextSink == st.nextSink
    decreases |responses|
  {
    if responses == [] then st else Feed(Publish(st, responses[0]), responses[1..])
  }

  /** The frames of a feed with the given name, in feed order. */
  function Matching(responses: seq<Option<Tmiv>>, tmivName: string): seq<Tmiv>
  {
    if responses == [] then []
    else
      var rest := Matching(responses[1..], tmivName);
      if responses[0].Some? && responses[0].value.name == tmivName then [responses[0].value] + rest else rest
  }

  // ---------------------------------------------------------------------------
  // Properties of one step

  /** Every operation keeps the state valid. */
  lemma OperationsKeepValid(st: HubState, response: Option<Tmiv>, tmivName: string, sink: Sink)
    requires Valid(st)
    ensures Valid(Publish(st, response))
    ensures Valid(Open(st, tmivName).0)
    ensures Valid(Cancel(st, sink))
  {
  }

  /** A response without a frame changes nothing: no cache change and no
    * delivery. */
  lemma PublishSkipsEmpty(st: HubState)
    ensures Publish(st, None) == st
  {
  }

  /** A frame overwrites the cached value of its name wholesale, leaves every
    * other cached value as it was and deletes nothing. */
  lemma PublishCaches(st: HubState, tmiv: Tmiv, name: string)
    ensures var after := Publish(st, Some(tmiv)).lastValues;
      && after.Keys == st.lastValues.Keys + {tmiv.name}
      && after[tmiv.name] == tmiv
      && (name != tmiv.name && name in st.lastValues ==> after[name] == st.lastValues[name])
  {
  }

  /** A frame is appended to the log of exactly the streams listening to its
    * name; every other log is unchanged, and the set of open streams too. */
  lemma PublishDelivers(st: HubState, tmiv: Tmiv, sink: Sink)
    requires sink in st.delivered
    ensures var after := Publish(st, Some(tmiv));
      && after.listeners == st.listeners
      && after.delivered.Keys == st.delivered.Keys
      && (sink in st.listeners && st.listeners[sink] == tmiv.name ==> after.delivered[sink] == st.delivered[sink] + [tmiv])
      && (!(sink in st.listeners && st.listeners[sink] == tmiv.name) ==> after.delivered[sink] == st.delivered[sink])
  {
  }

  /** A new stream is a fresh number listening to its name; it starts with the
    * cached value of that name, or with nothing for a name never seen. The
    * cache and the other streams are untouched. */
  lemma OpenStarts(st: HubState, tmivName: string)
    requires Valid(st)
    ensures var after := Open(st, tmivName).0;
      var sink := Open(st, tmivName).1;
      && sink !in st.delivered
      && after.listeners == st.listeners[sink := tmivName]
      && after.lastValues == st.lastValues
      && (tmivName in st.lastValues ==> after.delivered[sink] == [st.lastValues[tmivName]])
      && (tmivName !in st.lastValues ==> after.delivered[sink] == [])
      && forall s :: s in st.delivered ==> s in after.delivered && after.delivered[s] == st.delivered[s]
  {
  }

  /** Cancelling removes only that stream's listener, changes no log and no
    * cached value, and cancelling twice is cancelling once. */
  lemma CancelIsolated(st: HubState, sink: Sink, other: Sink)
    requires other != sink
    ensures var after := Cancel(st, sink);
      && sink !in after.listeners
      && (other in st.listeners <==> other in after.listeners)
      && (other in st.listeners ==> after.listeners[other] == st.listeners[other])
      && after.delivered == st.delivered && after.lastValues == st.lastValues
      && Cancel(after, sink) == after
  {
  }

  /** After cancelling, no later frame reaches the stream. */
  lemma CancelledReceivesNothing(st: HubState, sink: Sink, response: Option<Tmiv>)
    requires sink in st.delivered
    ensures var after := Publish(Cancel(st, sink), response);
      sink in after.delivered && after.delivered[sink] == st.delivered[sink]
  {
  }

  // ---------------------------------------------------------------------------
  // Properties of a whole feed

  /** One response appends to a listening stream's log exactly the frames of
    * its name among that response. */
  lemma PublishAppendsMatching(st: HubState, response: Option<Tmiv>, sink: Sink)
    requires sink in st.listeners && sink in st.delivered
    ensures var next := Publish(st, response);
      && next.listeners == st.listeners
      && sink in next.delivered
      && next.delivered[sink] == st.delivered[sink] + Matching([response], st.listeners[sink])
  {
    assert [response][1..] == [];
    if response.Some? {
      PublishDelivers(st, response.value, sink);
    }
  }

  /** Over a feed, a stream that stays open receives exactly the frames of its
    * name, in feed order, after what it already had. */
  lemma {:induction false} FeedDelivers(st: HubState, responses: seq<Option<Tmiv>>, sink: Sink)
    requires sink in st.listeners && sink in st.delivered
    ensures var after := Feed(st, responses);
      && after.listeners == st.listeners
      && sink in after.delivered
      && after.delivered[sink] == st.delivered[sink] + Matching(responses, st.listeners[sink])
    decreases |responses|
  {
    if responses != [] {
      var name := st.listeners[sink];
      var next := Publish(st, responses[0]);
      PublishAppendsMatching(st, responses[0], sink);
      FeedDelivers(next, responses[1..], sink);
      MatchingCons(responses, name);
      assert Feed(st, responses) == Feed(next, responses[1..]);
      var before := st.delivered[sink];
      var m0 := Matching([responses[0]], name);
      var rest := Matching(responses[1..], name);
      assert Feed(st, responses).delivered[sink] == (before + m0) + rest;
      AppendAssociative(before, m0, rest);
    }
  }


  lemma MatchingCons(responses: seq<Option<Tmiv>>, name: string)
    requires responses != []
    ensures Matching(responses, name) == Matching([responses[0]], name) + Matching(responses[1..], name)
  {
    var head := [responses[0]];
    assert head[1..] == [] && head[0] == responses[0];
    assert Matching(head[1..], name) == [];
    if responses[0].Some? && responses[0].value.name == name {
      assert Matching(head, name) == [responses[0].value];
    } else {
      assert Matching(head, name) == [];
    }
  }

  /** The cache only grows over a feed, and ends with the last frame of each
    * name that occurs in the feed. */
  lemma {:induction false} FeedKeepsCache(st: HubState, responses: seq<Option<Tmiv>>, name: string)
    ensures Feed(st, responses).lastValues.Keys >= st.lastValues.Keys
    ensures name in st.lastValues && Matching(responses, name) == [] ==>
      Feed(st, responses).lastValues[name] == st.lastValues[name]
    ensures Matching(responses, name) != [] ==>
      var m := Matching(responses, name);
      name in Feed(st, responses).lastValues && Feed(st, responses).lastValues[name] == m[|m| - 1]
    decreases |responses|
  {
    if responses != [] {
      FeedKeepsCache(Publish(st, responses[0]), responses[1..], name);
    }
  }

  /** A stream opened on a name gets the cached value of the name before every
    * frame the feed brings later; for a name never seen it gets nothing until
    * the first frame of that name. */
  lemma OpenThenFeed(st: HubState, tmivName: string, responses: seq<Option<Tmiv>>)
    requires Valid(st)
    ensures var started := Open(st, tmivName).0;
      var sink := Open(st, tmivName).1;
      var log := Feed(started, responses).delivered[sink];
      && (tmivName in st.lastValues ==> log == [st.lastValues[tmivName]] + Matching(responses, tmivName))
      && (tmivName !in st.lastValues ==> log == Matching(responses, tmivName))
  {
    var (started, sink) := Open(st, tmivName);
    FeedDelivers(started, responses, sink);
  }

  /** Running one feed after another (the retry loop restarting the feed) is
    * running the two as one feed: the cache and the streams carry over. */
  lemma {:induction false} FeedConcat(st: HubState, first: seq<Option<Tmiv>>, second: seq<Option<Tmiv>>)
    ensures Feed(st, first + second) == Feed(Feed(st, first), second)
    decreases |first|
  {
    if first != [] {
      assert (first + second)[0] == first[0];
      assert (first + second)[1..] == first[1..] + second;
      FeedConcat(Publish(st, first[0]), first[1..], second);
    } else {
      assert first + second == second;
    }
  }

  // ---------------------------------------------------------------------------
  // The worker's module-level state

  /** `telemetryLastValues` and `telemetryBus` with the streams it serves. */
  class TelemetryBroker {
    var lastValues: map<string, Tmiv>
    var listeners: map<Sink, string>
    var delivered: map<Sink, seq<Tmiv>>
    var nextSink: Sink

    function State(): HubState
      reads this
    {
      HubState(lastValues, listeners, delivered, nextSink)
    }

    constructor ()
      ensures State() == Initial
    {
      lastValues := map[];
      listeners := map[];
      delivered := map[];
      nextSink := 0;
    }

    /** The body of the feed loop for one response. */
    method HandleResponse(response: Option<Tmiv>)
      modifies this
      ensures State() == Publish(old(State()), response)
    {
      if response.None? {
        return;
      }
      var tmiv := response.value;
      lastValues := lastValues[tmiv.name := tmiv];
      delivered := map s | s in delivered ::
        if s in listeners && listeners[s] == tmiv.name then delivered[s] + [tmiv] else delivered[s];
    }

    /** `startTelemetryStream`: consume one feed to its end. */
    method RunFeed(responses: seq<Option<Tmiv>>)
      modifies this
      ensures State() == Feed(old(State()), responses)
    {
      var i := 0;
      while i < |responses|
        invariant 0 <= i <= |responses|
        invariant Feed(old(State()), responses) == Feed(State(), responses[i..])
      {
        assert responses[i..][0] == responses[i] && responses[i..][1..] == responses[i + 1..];
        HandleResponse(responses[i]);
        i := i + 1;
      }
    }

    /** The retry loop: one feed after another, the state carried over. */
    method RunFeeds(feeds: seq<seq<Option<Tmiv>>>)
      modifies this
      ensures State() == Feed(old(State()), Flatten(feeds))
    {
      var k := 0;
      while k < |feeds|
        invariant 0 <= k <= |feeds|
        invariant State() == Feed(old(State()), Flatten(feeds[..k]))
      {
        ghost var before := State();
        RunFeed(feeds[k]);
        FlattenSnoc(feeds[..k + 1]);
        assert feeds[..k + 1][..k] == feeds[..k];
        FeedConcat(old(State()), Flatten(feeds[..k]), feeds[k]);
        k := k + 1;
      }
      assert feeds[..k] == feeds;
    }

    /** `openTelemetryStream(tmivName)`. */
    method OpenStream(tmivName: string) returns (sink: Sink)
      modifies this
      ensures (State(), sink) == Open(old(State()), tmivName)
    {
      sink := nextSink;
      nextSink := nextSink + 1;
      listeners := listeners[sink := tmivName];
      var lastValue := if tmivName in lastValues then Some(lastValues[tmivName]) else None;
      if lastValue.Some? {
        delivered := delivered[sink := [lastValue.value]];
      } else {
        delivered := delivered[sink := []];
      }
    }

    /** The stream's `cancel`. */
    method CancelStream(sink: Sink)
      modifies this
      ensures State() == Cancel(old(State()), sink)
    {
      listeners := listeners - {sink};
    }
  }

  /** The feeds one after another. */
  function Flatten(feeds: seq<seq<Option<Tmiv>>>): seq<Option<Tmiv>>
  {
    if feeds == [] then [] else Flatten(feeds[..|feeds| - 1]) + feeds[|feeds| - 1]
  }

  lemma FlattenSnoc(feeds: seq<seq<Option<Tmiv>>>)
    requires feeds != []
    ensures Flatten(feeds) == Flatten(feeds[..|feeds| - 1]) + feeds[|feeds| - 1]
  {
  }
}
