/** The bounded in-memory event store behind resumable streams: a ring per stream and one global index. */
module EventStore {
  import opened Text
  import opened Positions

  type StreamId = string
  type EventId = string
  type Message = string

  /** A priming event carries no message. */
  datatype Entry = Entry(id: EventId, stream: StreamId, message: Option<Message>)

  datatype Error = ValueError | IndexError
  datatype State = State(streams: map<StreamId, seq<Entry>>, index: map<EventId, Entry>)
  datatype Stored = Stored(state: State, error: Option<Error>)

  const EMPTY := State(map[], map[])

  // ---- One call --------------------------------------------------------------------------------

  /** The last `n` elements, or all of them when there are fewer. */
  function Last<T>(s: seq<T>, n: nat): seq<T> {
    if |s| <= n then s else s[|s| - n..]
  }

  /** Storing one event with a limit of `max` per stream. A failed call may leave a new, empty stream. */
  function StoreEvent(max: int, st: State, e: Entry): Stored {
    if e.stream !in st.streams && max < 0 then Stored(st, Some(ValueError))
    else
      var streams := if e.stream in st.streams then st.streams else st.streams[e.stream := []];
      var ring := streams[e.stream];
      if |ring| == max && ring == [] then Stored(State(streams, st.index), Some(IndexError))
      else
        var kept := if |ring| == max then st.index - {ring[0].id} else st.index;
        Stored(State(streams[e.stream := Last(ring + [e], if max < 0 then 0 else max)], kept[e.id := e]), None)
  }

  /** The events after the one with the given id; nothing when it does not occur. */
  function After(ring: seq<Entry>, id: EventId): seq<Entry> {
    if ring == [] then []
    else if ring[0].id == id then ring[1..]
    else After(ring[1..], id)
  }

  lemma AfterCons(e: Entry, rest: seq<Entry>, id: EventId)
    ensures After([e] + rest, id) == if e.id == id then rest else After(rest, id)
  {
    assert ([e] + rest)[1..] == rest;
  }

  /** The events that carry a message. */
  function NonNull(events: seq<Entry>): seq<Entry> {
    if events == [] then []
    else Payload(events[0]) + NonNull(events[1..])
  }

  function Payload(event: Entry): seq<Entry> {
    if event.message.Some? then [event] else []
  }

  lemma NonNullCons(e: Entry, rest: seq<Entry>)
    ensures NonNull([e] + rest) == Payload(e) + NonNull(rest)
  {
    assert ([e] + rest)[1..] == rest;
  }

  /** With `rest` of the ring still to look at: what is sent so far, once the event has been found. */
  ghost predicate Sending(ring: seq<Entry>, id: EventId, found: bool, sent: seq<Entry>, rest: seq<Entry>) {
    if found then NonNull(After(ring, id)) == sent + NonNull(rest)
    else sent == [] && After(ring, id) == After(rest, id)
  }

  lemma SendsOn(ring: seq<Entry>, id: EventId, sent: seq<Entry>, e: Entry, rest: seq<Entry>)
    requires Sending(ring, id, true, sent, [e] + rest)
    ensures Sending(ring, id, true, sent + Payload(e), rest)
  {
    NonNullCons(e, rest);
    ConcatAssociates(sent, Payload(e), NonNull(rest));
  }

  lemma LooksOn(ring: seq<Entry>, id: EventId, e: Entry, rest: seq<Entry>)
    requires Sending(ring, id, false, [], [e] + rest)
    ensures Sending(ring, id, e.id == id, [], rest)
  {
    AfterCons(e, rest, id);
    assert [] + NonNull(rest) == NonNull(rest);
  }

  datatype Replayed = Replayed(stream: Option<StreamId>, sent: seq<Entry>)

  function Replay(st: State, id: EventId): Replayed {
    if id !in st.index then Replayed(None, [])
    else
      var stream := st.index[id].stream;
      var ring := if stream in st.streams then st.streams[stream] else [];
      Replayed(Some(stream), NonNull(After(ring, id)))
  }

  class InMemoryEventStore {
    const max: int
    var streams: map<StreamId, seq<Entry>>
    var index: map<EventId, Entry>

    ghost function Value(): State
      reads this
    {
      State(streams, index)
    }

    constructor (max: int)
      ensures this.max == max && Value() == EMPTY
    {
      this.max := max;
      streams := map[];
      index := map[];
    }

    /** `id` is the freshly drawn event id. */
    method Store(stream: StreamId, message: Option<Message>, id: EventId) returns (r: Option<Error>)
      modifies this
      ensures Stored(Value(), r) == StoreEvent(max, old(Value()), Entry(id, stream, message))
    {
      var e := Entry(id, stream, message);
      if stream !in streams {
        if max < 0 {
          return Some(ValueError);
        }
        streams := streams[stream := []];
      }
      if |streams[stream]| == max {
        if |streams[stream]| == 0 {
          return Some(IndexError);
        }
        var oldest := streams[stream][0];
        index := index - {oldest.id};
      }
      streams := streams[stream := Last(streams[stream] + [e], if max < 0 then 0 else max)];
      index := index[id := e];
      r := None;
    }

    /** `sent` is what the callback receives, in order. */
    method ReplayEventsAfter(lastEventId: EventId) returns (stream: Option<StreamId>, sent: seq<Entry>)
      ensures Replayed(stream, sent) == Replay(Value(), lastEventId)
    {
      sent := [];
      if lastEventId !in index {
        return None, [];
      }
      var id := index[lastEventId].stream;
      var ring := if id in streams then streams[id] else [];
      var foundLast := false;
      for i := 0 to |ring|
        invariant Sending(ring, lastEventId, foundLast, sent, ring[i..])
      {
        var event := ring[i];
        assert ring[i..] == [event] + ring[i + 1..];
        if foundLast {
          SendsOn(ring, lastEventId, sent, event, ring[i + 1..]);
          if event.message.Some? {
            sent := sent + [event];
          } else {
            assert sent + Payload(event) == sent;
          }
        } else {
          LooksOn(ring, lastEventId, event, ring[i + 1..]);
          if event.id == lastEventId {
            foundLast := true;
          }
        }
      }
      assert NonNull(After(ring, lastEventId)) == sent;
      stream := Some(id);
    }
  }

  // ---- Runs --------------------------------------------------------------------------------------

  /** The store after storing a whole log of events from empty. */
  function Run(max: int, log: seq<Entry>): State {
    if log == [] then EMPTY
    else StoreEvent(max, Run(max, log[..|log| - 1]), log[|log| - 1]).state
  }

  /** The unbounded history of one stream. */
  function LogOf(log: seq<Entry>, stream: StreamId): seq<Entry> {
    if log == [] then []
    else LogOf(log[..|log| - 1], stream) + if log[|log| - 1].stream == stream then [log[|log| - 1]] else []
  }

  ghost predicate DistinctIds(log: seq<Entry>) {
    forall i, j :: 0 <= i < j < |log| ==> log[i].id != log[j].id
  }

  /** No more than `max` events of its stream have been stored since, itself included. */
  predicate Retained(max: int, log: seq<Entry>, k: nat)
    requires k < |log|
  {
    |LogOf(log[k..], log[k].stream)| <= max
  }

  // ---- The invariant -----------------------------------------------------------------------------

  ghost predicate RingAgrees(index: map<EventId, Entry>, stream: StreamId, ring: seq<Entry>) {
    && DistinctIds(ring)
    && forall e :: e in ring ==> e.stream == stream && e.id in index && index[e.id] == e
  }

  /** The rings and the index hold the same events. */
  ghost predicate IndexAgrees(st: State) {
    && (forall s :: s in st.streams ==> RingAgrees(st.index, s, st.streams[s]))
    && forall id :: id in st.index ==>
         && st.index[id].id == id && st.index[id].stream in st.streams
         && st.index[id] in st.streams[st.index[id].stream]
  }

  /** Every ring holds the end of its stream's unbounded log. */
  ghost predicate RingsRefine(max: nat, log: seq<Entry>, st: State) {
    forall s :: Ring(st, s) == Last(LogOf(log, s), max)
  }

  function Ring(st: State, s: StreamId): seq<Entry> {
    if s in st.streams then st.streams[s] else []
  }

  lemma LastPush<T>(s: seq<T>, x: T, n: nat)
    requires n >= 1
    ensures Last(Last(s, n) + [x], n) == Last(s + [x], n)
    ensures |Last(s, n)| == n ==> Last(s + [x], n) == Last(s, n)[1..] + [x]
    ensures |Last(s, n)| < n ==> Last(s + [x], n) == Last(s, n) + [x]
  {
  }

  lemma LogOfSnoc(log: seq<Entry>, e: Entry, s: StreamId)
    ensures LogOf(log + [e], s) == LogOf(log, s) + if e.stream == s then [e] else []
  {
    assert (log + [e])[..|log|] == log;
  }

  lemma {:induction false} LogOfIds(log: seq<Entry>, s: StreamId)
    ensures forall e :: e in LogOf(log, s) <==> e in log && e.stream == s
  {
    if log != [] {
      LogOfIds(log[..|log| - 1], s);
      assert log == log[..|log| - 1] + [log[|log| - 1]];
    }
  }

  lemma RingAfterStore(max: nat, st: State, e: Entry, s: StreamId)
    requires max >= 1
    ensures var st2 := StoreEvent(max, st, e);
            && st2.error == None
            && Ring(st2.state, s) == if s == e.stream then Last(Ring(st, s) + [e], max) else Ring(st, s)
  {
  }

  lemma RingsStayRefined(max: nat, log: seq<Entry>, st: State, e: Entry)
    requires max >= 1 && RingsRefine(max, log, st)
    ensures RingsRefine(max, log + [e], StoreEvent(max, st, e).state)
  {
    var st2 := StoreEvent(max, st, e).state;
    forall s ensures Ring(st2, s) == Last(LogOf(log + [e], s), max) {
      RingStaysRefined(max, log, Ring(st, s), e, s);
      RingAfterStore(max, st, e, s);
    }
  }

  lemma RingStaysRefined(max: nat, log: seq<Entry>, ring: seq<Entry>, e: Entry, s: StreamId)
    requires max >= 1 && ring == Last(LogOf(log, s), max)
    ensures Last(LogOf(log + [e], s), max) == if s == e.stream then Last(ring + [e], max) else ring
  {
    LogOfSnoc(log, e, s);
    if s == e.stream {
      LastPush(LogOf(log, s), e, max);
    }
  }

  lemma DistinctPush(ring: seq<Entry>, e: Entry)
    requires DistinctIds(ring) && forall x :: x in ring ==> x.id != e.id
    ensures DistinctIds(ring + [e])
  {
    forall i, j | 0 <= i < j < |ring + [e]| ensures (ring + [e])[i].id != (ring + [e])[j].id {
      assert ring[i] in ring;
    }
  }

  /** What the ring of the stored event becomes. */
  lemma PushedRingAgrees(index: map<EventId, Entry>, ring: seq<Entry>, e: Entry, max: nat)
    requires max >= 1 && |ring| <= max && e.id !in index && RingAgrees(index, e.stream, ring)
    ensures var kept := if |ring| == max then index - {ring[0].id} else index;
            RingAgrees(kept[e.id := e], e.stream, Last(ring + [e], max))
  {
    if |ring| == max {
      assert Last(ring + [e], max) == ring[1..] + [e];
      RestAgrees(index, ring, e.stream);
      PushAgrees(index - {ring[0].id}, ring[1..], e);
    } else {
      PushAgrees(index, ring, e);
    }
  }

  lemma RestAgrees(index: map<EventId, Entry>, ring: seq<Entry>, s: StreamId)
    requires RingAgrees(index, s, ring) && ring != []
    ensures RingAgrees(index - {ring[0].id}, s, ring[1..])
  {
    forall x | x in ring[1..] ensures x in ring && x.id != ring[0].id {
      var i :| 0 <= i < |ring[1..]| && ring[1..][i] == x;
      assert ring[i + 1] == x;
    }
  }

  lemma PushAgrees(index: map<EventId, Entry>, ring: seq<Entry>, e: Entry)
    requires e.id !in index && RingAgrees(index, e.stream, ring)
    ensures RingAgrees(index[e.id := e], e.stream, ring + [e])
  {
    DistinctPush(ring, e);
  }

  lemma OtherRingAgrees(index: map<EventId, Entry>, s: StreamId, ring: seq<Entry>, e: Entry, other: StreamId,
                        gone: seq<Entry>)
    requires RingAgrees(index, s, ring) && RingAgrees(index, other, gone) && s != other && e.id !in index
    ensures RingAgrees(index[e.id := e], s, ring)
    ensures gone != [] ==> RingAgrees((index - {gone[0].id})[e.id := e], s, ring)
  {
    if gone != [] {
      assert gone[0] in gone;
    }
  }

  lemma IndexStaysExact(max: nat, st: State, e: Entry)
    requires max >= 1 && IndexAgrees(st) && e.id !in st.index
    requires e.stream in st.streams ==> |st.streams[e.stream]| <= max
    ensures var st2 := StoreEvent(max, st, e).state;
            forall id :: id in st2.index ==>
              && st2.index[id].id == id && st2.index[id].stream in st2.streams
              && st2.index[id] in st2.streams[st2.index[id].stream]
  {
    var st2 := StoreEvent(max, st, e).state;
    var ring := if e.stream in st.streams then st.streams[e.stream] else [];
    var rest := if |ring| == max then ring[1..] else ring;
    assert st2.streams[e.stream] == rest + [e];
    forall id | id in st2.index
      ensures st2.index[id].id == id && st2.index[id].stream in st2.streams
      ensures st2.index[id] in st2.streams[st2.index[id].stream]
    {
      if id != e.id {
        var x := st.index[id];
        if x.stream == e.stream {
          assert x in ring;
          assert x in rest;
        }
      }
    }
  }

  lemma IndexStaysAgreed(max: nat, st: State, e: Entry)
    requires max >= 1 && IndexAgrees(st) && e.id !in st.index
    requires e.stream in st.streams ==> |st.streams[e.stream]| <= max
    ensures IndexAgrees(StoreEvent(max, st, e).state)
  {
    var st2 := StoreEvent(max, st, e).state;
    var ring := if e.stream in st.streams then st.streams[e.stream] else [];
    assert RingAgrees(st.index, e.stream, ring);
    forall s | s in st2.streams ensures RingAgrees(st2.index, s, st2.streams[s]) {
      if s == e.stream {
        PushedRingAgrees(st.index, ring, e, max);
      } else {
        OtherRingAgrees(st.index, s, st.streams[s], e, e.stream, ring);
      }
    }
    IndexStaysExact(max, st, e);
  }

  lemma IndexedWasLogged(max: nat, log: seq<Entry>, st: State, id: EventId) returns (k: nat)
    requires RingsRefine(max, log, st) && IndexAgrees(st) && id in st.index
    ensures k < |log| && log[k] == st.index[id] && log[k].id == id
    ensures log[k] in Last(LogOf(log, log[k].stream), max)
  {
    var e := st.index[id];
    LogOfIds(log, e.stream);
    assert e in Ring(st, e.stream);
    assert e in LogOf(log, e.stream);
    k :| 0 <= k < |log| && log[k] == e;
  }

  lemma FreshIsNotIndexed(max: nat, log: seq<Entry>, st: State, e: Entry)
    requires RingsRefine(max, log, st) && IndexAgrees(st)
    requires forall k :: 0 <= k < |log| ==> log[k].id != e.id
    ensures e.id !in st.index
  {
    if e.id in st.index {
      var k := IndexedWasLogged(max, log, st, e.id);
    }
  }

  /** Over every run with fresh ids, each ring is the end of its stream's log and the index holds exactly
      the retained events. */
  lemma {:induction false} RunRefines(max: nat, log: seq<Entry>)
    requires max >= 1 && DistinctIds(log)
    ensures RingsRefine(max, log, Run(max, log)) && IndexAgrees(Run(max, log))
  {
    if log != [] {
      var front, e := log[..|log| - 1], log[|log| - 1];
      assert log == front + [e];
      RunRefines(max, front);
      var st := Run(max, front);
      RingsStayRefined(max, front, st, e);
      FreshIsNotIndexed(max, front, st, e);
      assert Ring(st, e.stream) == Last(LogOf(front, e.stream), max);
      IndexStaysAgreed(max, st, e);
    }
  }

  // ---- What replay promises ------------------------------------------------------------------------

  lemma {:induction false} LogOfConcat(a: seq<Entry>, b: seq<Entry>, s: StreamId)
    ensures LogOf(a + b, s) == LogOf(a, s) + LogOf(b, s)
  {
    if b == [] {
      assert a + b == a;
    } else {
      var front, e := b[..|b| - 1], b[|b| - 1];
      assert a + b == (a + front) + [e];
      LogOfSnoc(a + front, e, s);
      LogOfConcat(a, front, s);
    }
  }

  lemma LogOfHead(log: seq<Entry>, k: nat, s: StreamId)
    requires k <= |log|
    ensures LogOf(log, s) == LogOf(log[..k], s) + LogOf(log[k..], s)
  {
    LogOfConcat(log[..k], log[k..], s);
    assert log == log[..k] + log[k..];
  }

  lemma LogOfCons(e: Entry, rest: seq<Entry>)
    ensures LogOf([e] + rest, e.stream) == [e] + LogOf(rest, e.stream)
  {
    LogOfConcat([e], rest, e.stream);
    assert LogOf([e], e.stream) == LogOf([], e.stream) + [e];
  }

  predicate Avoids(events: seq<Entry>, id: EventId) {
    forall i :: 0 <= i < |events| ==> events[i].id != id
  }

  lemma {:induction false} AfterFirst(before: seq<Entry>, e: Entry, rest: seq<Entry>)
    requires Avoids(before, e.id)
    ensures After(before + [e] + rest, e.id) == rest
  {
    var ring := before + [e] + rest;
    if before == [] {
      assert ring[1..] == rest;
    } else {
      AfterFirst(before[1..], e, rest);
      assert ring[1..] == before[1..] + [e] + rest;
      assert ring[0] == before[0];
    }
  }

  lemma {:induction false} LogOfAvoids(log: seq<Entry>, s: StreamId, id: EventId)
    requires Avoids(log, id)
    ensures Avoids(LogOf(log, s), id)
  {
    if log != [] {
      LogOfAvoids(log[..|log| - 1], s, id);
    }
  }

  lemma LogSplit(log: seq<Entry>, k: nat) returns (head: seq<Entry>, tail: seq<Entry>)
    requires DistinctIds(log) && k < |log|
    ensures tail == LogOf(log[k + 1..], log[k].stream)
    ensures LogOf(log, log[k].stream) == head + [log[k]] + tail
    ensures LogOf(log[k..], log[k].stream) == [log[k]] + tail
    ensures Avoids(head, log[k].id) && Avoids(tail, log[k].id)
  {
    var s := log[k].stream;
    head, tail := LogOf(log[..k], s), LogOf(log[k + 1..], s);
    LogOfAvoids(log[..k], s, log[k].id);
    LogOfAvoids(log[k + 1..], s, log[k].id);
    LogOfHead(log, k, s);
    LogOfCons(log[k], log[k + 1..]);
    assert log[k..] == [log[k]] + log[k + 1..];
    ConcatAssociates(head, [log[k]], tail);
  }

  /** Where a retained event sits in its stream's ring. */
  lemma RetainedPosition(max: nat, log: seq<Entry>, k: nat) returns (before: seq<Entry>)
    requires max >= 1 && DistinctIds(log) && k < |log| && Retained(max, log, k)
    ensures Avoids(before, log[k].id)
    ensures Last(LogOf(log, log[k].stream), max) == before + [log[k]] + LogOf(log[k + 1..], log[k].stream)
  {
    var head, tail := LogSplit(log, k);
    before := Last(head, max - |tail| - 1);
    assert Last(head + [log[k]] + tail, max) == before + [log[k]] + tail;
  }

  lemma EvictedIsGone(max: nat, log: seq<Entry>, k: nat)
    requires DistinctIds(log) && k < |log| && !Retained(max, log, k)
    ensures log[k] !in Last(LogOf(log, log[k].stream), max)
  {
    var head, tail := LogSplit(log, k);
    forall x | x in Last(head + [log[k]] + tail, max) ensures x in tail {
    }
  }

  /** Replay after a retained event sends exactly what its stream received since, in order and without a
      gap: together with what came up to that event it is the whole history. */
  lemma ReplayIsComplete(max: nat, log: seq<Entry>, k: nat)
    requires max >= 1 && DistinctIds(log) && k < |log| && Retained(max, log, k)
    ensures var r, s := Replay(Run(max, log), log[k].id), log[k].stream;
            && r.stream == Some(s)
            && r.sent == NonNull(LogOf(log[k + 1..], s))
            && NonNull(LogOf(log[..k + 1], s)) + r.sent == NonNull(LogOf(log, s))
  {
    var st, s := Run(max, log), log[k].stream;
    RunRefines(max, log);
    var before := RetainedPosition(max, log, k);
    RingHolds(st, log[k], before, LogOf(log[k + 1..], s), max, log);
    HistorySplits(log, k, s);
  }

  lemma RingHolds(st: State, e: Entry, before: seq<Entry>, rest: seq<Entry>, max: nat, log: seq<Entry>)
    requires RingsRefine(max, log, st) && IndexAgrees(st) && Avoids(before, e.id)
    requires Last(LogOf(log, e.stream), max) == before + [e] + rest
    ensures Replay(st, e.id) == Replayed(Some(e.stream), NonNull(rest))
  {
    AfterFirst(before, e, rest);
    assert Ring(st, e.stream) == before + [e] + rest;
    assert Ring(st, e.stream)[|before|] == e;
    assert e.stream in st.streams && e in st.streams[e.stream];
  }

  lemma HistorySplits(log: seq<Entry>, k: nat, s: StreamId)
    requires k < |log|
    ensures NonNull(LogOf(log, s)) == NonNull(LogOf(log[..k + 1], s)) + NonNull(LogOf(log[k + 1..], s))
  {
    LogOfHead(log, k + 1, s);
    NonNullConcat(LogOf(log[..k + 1], s), LogOf(log[k + 1..], s));
  }

  lemma {:induction false} NonNullConcat(a: seq<Entry>, b: seq<Entry>)
    ensures NonNull(a + b) == NonNull(a) + NonNull(b)
  {
    if a == [] {
      assert a + b == b && [] + NonNull(b) == NonNull(b);
    } else {
      var e, t := a[0], a[1..];
      calc {
        NonNull(a + b);
        { assert a + b == [e] + (t + b); }
        NonNull([e] + (t + b));
        { NonNullCons(e, t + b); }
        Payload(e) + NonNull(t + b);
        { NonNullConcat(t, b); }
        Payload(e) + (NonNull(t) + NonNull(b));
        { ConcatAssociates(Payload(e), NonNull(t), NonNull(b)); }
        Payload(e) + NonNull(t) + NonNull(b);
        { NonNullCons(e, t); assert a == [e] + t; }
        NonNull(a) + NonNull(b);
      }
    }
  }

  /** Replay answers None, and sends nothing, iff the event was evicted or never stored. */
  lemma ReplayUnknownIff(max: nat, log: seq<Entry>, id: EventId)
    requires max >= 1 && DistinctIds(log)
    ensures var r := Replay(Run(max, log), id);
            && (r.stream == None <==> forall k :: 0 <= k < |log| && log[k].id == id ==> !Retained(max, log, k))
            && (r.stream == None ==> r.sent == [])
  {
    var st := Run(max, log);
    RunRefines(max, log);
    forall k | 0 <= k < |log| && log[k].id == id && Retained(max, log, k) ensures id in st.index {
      ReplayIsComplete(max, log, k);
    }
    if id in st.index {
      var k := IndexedWasLogged(max, log, st, id);
      if !Retained(max, log, k) {
        EvictedIsGone(max, log, k);
      }
    }
  }

  /** Without room for a single event every call fails, whatever was stored before. */
  lemma {:induction false} StoreFailsIff(max: int, log: seq<Entry>, e: Entry)
    ensures StoreEvent(max, Run(max, log), e).error
         == if max < 0 then Some(ValueError) else if max == 0 then Some(IndexError) else None
  {
    if max <= 0 {
      NothingStored(max, log);
    }
  }

  lemma {:induction false} NothingStored(max: int, log: seq<Entry>)
    requires max <= 0
    ensures var st := Run(max, log);
            && st.index == map[]
            && (max < 0 ==> st.streams == map[])
            && forall s :: s in st.streams ==> st.streams[s] == []
  {
    if log != [] {
      NothingStored(max, log[..|log| - 1]);
    }
  }

  // ---- The same by log positions -------------------------------------------------------------------

  predicate Carries(log: seq<Entry>, s: StreamId, x: nat) {
    x < |log| && log[x].stream == s && log[x].message.Some?
  }

  /** A stream's log is made of its events, each once, in the order they were stored. */
  lemma {:induction false} LogOfExactly(log: seq<Entry>, s: StreamId)
    ensures Exactly(log, LogOf(log, s), (x: nat) => x < |log| && log[x].stream == s)
  {
    var keep: nat -> bool := (x: nat) => x < |log| && log[x].stream == s;
    if log == [] {
      ExactlyEmpty<Entry>(keep);
    } else {
      var front, e := log[..|log| - 1], log[|log| - 1];
      LogOfExactly(front, s);
      var less: nat -> bool := (x: nat) => x < |front| && front[x].stream == s;
      assert log == front + [e];
      ExactlySame(front, LogOf(front, s), less, keep);
      ExactlySnoc(front, LogOf(front, s), e, keep);
    }
  }

  /** What carries a message is all that is sent, and nothing else is. */
  lemma {:induction false} NonNullHas(events: seq<Entry>, e: Entry)
    ensures e in NonNull(events) <==> e in events && e.message.Some?
  {
    if events != [] {
      NonNullHas(events[1..], e);
      assert events == [events[0]] + events[1..];
    }
  }

  /** The events of one stream that carry a message, each once, in the order they were stored. */
  lemma {:induction false} PayloadsExactly(log: seq<Entry>, s: StreamId)
    ensures Exactly(log, NonNull(LogOf(log, s)), (x: nat) => Carries(log, s, x))
  {
    var keep: nat -> bool := (x: nat) => Carries(log, s, x);
    if log == [] {
      ExactlyEmpty<Entry>(keep);
    } else {
      var front, e := log[..|log| - 1], log[|log| - 1];
      PayloadsExactly(front, s);
      var less: nat -> bool := (x: nat) => Carries(front, s, x);
      assert log == front + [e];
      ExactlySame(front, NonNull(LogOf(front, s)), less, keep);
      ExactlySnoc(front, NonNull(LogOf(front, s)), e, keep);
      PayloadsSnoc(front, e, s);
    }
  }

  lemma PayloadsSnoc(front: seq<Entry>, e: Entry, s: StreamId)
    ensures NonNull(LogOf(front + [e], s))
         == NonNull(LogOf(front, s)) + if e.stream == s && e.message.Some? then [e] else []
  {
    LogOfSnoc(front, e, s);
    NonNullConcat(LogOf(front, s), if e.stream == s then [e] else []);
    assert NonNull([e]) == Payload(e) + NonNull([e][1..]) && NonNull([e][1..]) == [];
  }

  /** An event is retained exactly if no more than `max` events of its stream, itself included, have been stored
      since. */
  lemma RetainedIff(max: int, log: seq<Entry>, k: nat)
    requires k < |log|
    ensures Retained(max, log, k) <==> |set x: nat | k <= x < |log| && log[x].stream == log[k].stream| <= max
  {
    var s, rest := log[k].stream, log[k..];
    LogOfExactly(rest, s);
    var keep: nat -> bool := (x: nat) => x < |rest| && rest[x].stream == s;
    var since: nat -> bool := (x: nat) => k <= x < |log| && log[x].stream == s;
    ExactlyRest(log, k, LogOf(rest, s), keep, since);
    ExactlyCount(log, LogOf(rest, s), since);
    assert (set x: nat | x < |log| && since(x)) == set x: nat | k <= x < |log| && log[x].stream == s;
  }

  /** Event `x` came after event `k` on the same stream, and carries a message. */
  predicate FollowsOn(log: seq<Entry>, k: nat, x: nat) {
    k < x < |log| && log[x].stream == log[k].stream && log[x].message.Some?
  }

  lemma LaterPayloads(log: seq<Entry>, k: nat)
    requires k < |log|
    ensures Exactly(log, NonNull(LogOf(log[k + 1..], log[k].stream)), (x: nat) => FollowsOn(log, k, x))
  {
    var s, rest := log[k].stream, log[k + 1..];
    PayloadsExactly(rest, s);
    var keep: nat -> bool := (x: nat) => Carries(rest, s, x);
    var later: nat -> bool := (x: nat) => FollowsOn(log, k, x);
    ExactlyRest(log, k + 1, NonNull(LogOf(rest, s)), keep, later);
  }

  /** Replay after a retained event sends exactly the later events of its stream that carry a message, each
      once, in the order they were stored. */
  lemma ReplaySends(max: nat, log: seq<Entry>, k: nat)
    requires max >= 1 && DistinctIds(log) && k < |log|
    requires |set x: nat | k <= x < |log| && log[x].stream == log[k].stream| <= max
    ensures var r := Replay(Run(max, log), log[k].id);
            r.stream == Some(log[k].stream) && Exactly(log, r.sent, (x: nat) => FollowsOn(log, k, x))
  {
    RetainedIff(max, log, k);
    ReplayIsComplete(max, log, k);
    LaterPayloads(log, k);
  }

  /** After a run the ring of a stream is the end of its events, at most `max` of them. */
  lemma RingIs(max: nat, log: seq<Entry>, s: StreamId)
    requires max >= 1 && DistinctIds(log)
    ensures exists all: seq<Entry> ::
              && Exactly(log, all, (x: nat) => x < |log| && log[x].stream == s)
              && Ring(Run(max, log), s) == all[if |all| <= max then 0 else |all| - max..]
  {
    RunRefines(max, log);
    LogOfExactly(log, s);
    assert Ring(Run(max, log), s) == Last(LogOf(log, s), max);
  }
}
