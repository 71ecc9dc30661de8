/**
 * One event-harvest cycle, as a function of what the device answers: the
 * `/events/last` status snapshot, the tag folder (which holds the baseline)
 * and the records each `/events?record=..&count=..` request returns.
 * It says which requests are made, which events reach history storage, which
 * tags are written, and whether the cycle ends in an exception.
 */
module Harvest {
  import opened Wrappers
  import opened JavaNum
  import opened EventParser
  import opened EventWindows
  import opened Tags

  /** The device's `/events/last` answer. */
  datatype EventStatus = EventStatus(
    numberOfEvents: Int32,
    firstRecord: Int32,
    lastRecord: Int32,
    lastSequenceNumber: Int32)

  /** Why a cycle ends in an exception. */
  datatype Fault =
    | TransportFault              // an HTTP request or its JSON decoding failed
    | ParseFault(error: JavaError) // a record did not decode
    | BaselineCastFault           // the baseline tag holds something other than an Integer

  /** The records one request returns, or None when the request or its decoding fails. */
  type Fetch = Window -> Option<seq<string>>

  /** How one record is decoded. */
  type Decoder = string -> Result<Event, JavaError>

  /** Decodes one record with the device's logger name and INSERT statement. */
  function RecordDecoder(parentLog: string, insertQuery: Option<string>): Decoder {
    r => Parse(parentLog, insertQuery, r)
  }

  const BASELINE_TAG: string := "EventStatus/LastSequenceNumber"

  /** The stored baseline sequence number: absent, an Integer, or a value of another type (a failed cast). */
  function Baseline(tags: TagStore): Result<Option<Int32>, Fault> {
    match Lookup(tags, BASELINE_TAG)
    case None => Success(None)
    case Some(IntTag(v)) => Success(Some(v))
    case Some(_) => Failure(BaselineCastFault)
  }

  /** `Event.writeTags`: the LastEvent folder. */
  function LastEventWrites(e: Event): seq<TagWrite> {
    [ TagWrite("LastEvent/SequenceNumber", IntTag(e.sequenceNumber)),
      TagWrite("LastEvent/EventCode", StrTag(EventCodeDisplay(e.eventCode))),
      TagWrite("LastEvent/Channel", IntTag(e.input)),
      TagWrite("LastEvent/Status", StrTag(e.inputStatus.Name())),
      TagWrite("LastEvent/CoincidentStatus", StrTag(LongToString(e.inputCoincidentStatus))),
      TagWrite("LastEvent/Timestamp", LongTag(e.msTime)),
      TagWrite("LastEvent/DST", StrTag(e.dst.Name())),
      TagWrite("LastEvent/TimeQuality", StrTag(e.timeQuality.Name())) ]
  }

  /** The four EventStatus tags, the last of which is the next cycle's baseline. */
  function StatusWrites(s: EventStatus): seq<TagWrite> {
    [ TagWrite("EventStatus/NumberOfEvents", IntTag(s.numberOfEvents)),
      TagWrite("EventStatus/FirstRecord", IntTag(s.firstRecord)),
      TagWrite("EventStatus/LastRecord", IntTag(s.lastRecord)),
      TagWrite(BASELINE_TAG, IntTag(s.lastSequenceNumber)) ]
  }

  // ---------------------------------------------------------------- one request's records

  /** The records of one response, decoded in order until the first that fails. */
  datatype Batch = Batch(events: seq<Event>, fault: Option<JavaError>)

  function ParseRecords(decode: Decoder, raws: seq<string>): (b: Batch)
    ensures |b.events| <= |raws|
    ensures b.fault.None? ==> |b.events| == |raws|
    ensures b.fault.Some? ==> |b.events| < |raws|
  {
    if raws == [] then Batch([], None)
    else
      var b := ParseRecords(decode, raws[..|raws| - 1]);
      if b.fault.Some? then b
      else
        match decode(raws[|raws| - 1])
        case Failure(err) => Batch(b.events, Some(err))
        case Success(ev) => Batch(b.events + [ev], None)
  }

  /**
   * The events of a batch are the decodings of its leading records, and a
   * batch that stops does so at the first record that fails to decode.
   */
  lemma {:induction false} ParseRecordsDecoded(decode: Decoder, raws: seq<string>)
    ensures var b := ParseRecords(decode, raws);
            (forall k :: 0 <= k < |b.events| ==> decode(raws[k]) == Success(b.events[k])) &&
            (b.fault.Some? ==> decode(raws[|b.events|]) == Failure(b.fault.value))
  {
    if raws != [] {
      var init := raws[..|raws| - 1];
      ParseRecordsDecoded(decode, init);
      assert forall k :: 0 <= k < |init| ==> init[k] == raws[k];
    }
  }

  /** Once a record fails, later records change nothing. */
  lemma {:induction false} ParseRecordsStops(decode: Decoder, raws: seq<string>, j: nat)
    requires j <= |raws| && ParseRecords(decode, raws[..j]).fault.Some?
    ensures ParseRecords(decode, raws) == ParseRecords(decode, raws[..j])
    decreases |raws| - j
  {
    if j < |raws| {
      var b := ParseRecords(decode, raws[..j + 1]);
      assert raws[..j + 1][..j] == raws[..j];
      ParseRecordsStops(decode, raws, j + 1);
    } else {
      assert raws[..j] == raws;
    }
  }

  // ---------------------------------------------------------------- the requests

  /** What the requests of a cycle did: which were made, which events were stored, and how they ended. */
  datatype Harvest = Harvest(requests: seq<Window>, stored: seq<Event>, fault: Option<Fault>)

  /** The request loop: each window is requested, its records decoded and stored, until one fails. */
  function HarvestWindows(ws: seq<Window>, fetch: Fetch, decode: Decoder): (h: Harvest)
    ensures |h.requests| <= |ws| && h.requests == ws[..|h.requests|]
    ensures h.fault.None? ==> h.requests == ws
    ensures h.fault.Some? ==> |h.requests| >= 1
  {
    if ws == [] then Harvest([], [], None)
    else
      var h := HarvestWindows(ws[..|ws| - 1], fetch, decode);
      assert ws[..|ws| - 1][..|h.requests|] == ws[..|h.requests|];
      if h.fault.Some? then h
      else
        var w := ws[|ws| - 1];
        match fetch(w)
        case None => Harvest(h.requests + [w], h.stored, Some(TransportFault))
        case Some(raws) =>
          var b := ParseRecords(decode, raws);
          Harvest(h.requests + [w], h.stored + b.events,
                  if b.fault.Some? then Some(ParseFault(b.fault.value)) else None)
  }

  /** Once a request fails, later windows change nothing. */
  lemma {:induction false} HarvestStops(ws: seq<Window>, fetch: Fetch, decode: Decoder, i: nat)
    requires i <= |ws| && HarvestWindows(ws[..i], fetch, decode).fault.Some?
    ensures HarvestWindows(ws, fetch, decode) == HarvestWindows(ws[..i], fetch, decode)
    decreases |ws| - i
  {
    if i < |ws| {
      assert ws[..i + 1][..i] == ws[..i];
      HarvestStops(ws, fetch, decode, i + 1);
    } else {
      assert ws[..i] == ws;
    }
  }

  /** What requesting the one window `w` gives: its request, its events and its exception. */
  lemma HarvestSingle(w: Window, fetch: Fetch, decode: Decoder)
    ensures var h := HarvestWindows([w], fetch, decode);
            h.requests == [w] &&
            (fetch(w).None? ==> h.stored == [] && h.fault == Some(TransportFault)) &&
            (fetch(w).Some? ==>
               var b := ParseRecords(decode, fetch(w).value);
               h.stored == b.events && h.fault == if b.fault.Some? then Some(ParseFault(b.fault.value)) else None)
  {
    assert [w][..0] == [];
  }

  /** One more window extends a fault-free harvest by what that window alone gives. */
  lemma {:induction false} HarvestExtend(done: seq<Window>, w: Window, fetch: Fetch, decode: Decoder, stored: seq<Event>)
    requires HarvestWindows(done, fetch, decode) == Harvest(done, stored, None)
    ensures var one := HarvestWindows([w], fetch, decode);
            HarvestWindows(done + [w], fetch, decode) == Harvest(done + [w], stored + one.stored, one.fault)
  {
    assert (done + [w])[..|done + [w]| - 1] == done;
    HarvestSingle(w, fetch, decode);
  }

  /** Once a request fails, the windows after it change nothing. */
  lemma HarvestFaultFinal(done: seq<Window>, rest: seq<Window>, fetch: Fetch, decode: Decoder)
    requires HarvestWindows(done, fetch, decode).fault.Some?
    ensures HarvestWindows(done + rest, fetch, decode) == HarvestWindows(done, fetch, decode)
  {
    assert (done + rest)[..|done|] == done;
    HarvestStops(done + rest, fetch, decode, |done|);
  }

  /**
   * One step of the request loop over `plan`: after a fault-free prefix
   * `done`, window `w` either extends it fault-free or ends the whole
   * harvest with its own exception.
   */
  lemma WindowStep(plan: seq<Window>, done: seq<Window>, stored: seq<Event>, w: Window, rest: seq<Window>,
                   fetch: Fetch, decode: Decoder)
    requires HarvestWindows(done, fetch, decode) == Harvest(done, stored, None)
    requires plan == (done + [w]) + rest
    ensures var one := HarvestWindows([w], fetch, decode);
            && (one.fault.None? ==>
                  HarvestWindows(done + [w], fetch, decode) == Harvest(done + [w], stored + one.stored, None))
            && (one.fault.Some? ==>
                  HarvestWindows(plan, fetch, decode) == Harvest(done + [w], stored + one.stored, one.fault))
  {
    HarvestExtend(done, w, fetch, decode, stored);
    if HarvestWindows([w], fetch, decode).fault.Some? {
      HarvestFaultFinal(done + [w], rest, fetch, decode);
    }
  }

  /** The records every response returned, in request order. */
  function AllRecords(ws: seq<Window>, fetch: Fetch): seq<string>
    requires forall k :: 0 <= k < |ws| ==> fetch(ws[k]).Some?
  {
    if ws == [] then [] else AllRecords(ws[..|ws| - 1], fetch) + fetch(ws[|ws| - 1]).value
  }

  /**
   * A harvest without a fault stored exactly the decoded records of every
   * response, in the order they were returned.
   */
  lemma {:induction false} HarvestStoresAll(ws: seq<Window>, fetch: Fetch, decode: Decoder)
    requires HarvestWindows(ws, fetch, decode).fault.None?
    ensures forall k :: 0 <= k < |ws| ==> fetch(ws[k]).Some?
    ensures var h := HarvestWindows(ws, fetch, decode);
            var raws := AllRecords(ws, fetch);
            |h.stored| == |raws| &&
            forall k :: 0 <= k < |raws| ==> decode(raws[k]) == Success(h.stored[k])
  {
    if ws != [] {
      var init := ws[..|ws| - 1];
      HarvestStoresAll(init, fetch, decode);
      assert forall k :: 0 <= k < |init| ==> init[k] == ws[k];
      var raws := fetch(ws[|ws| - 1]).value;
      var b := ParseRecords(decode, raws);
      ParseRecordsDecoded(decode, raws);
      var h0 := HarvestWindows(init, fetch, decode);
      var r0 := AllRecords(init, fetch);
      forall k | 0 <= k < |r0| + |raws|
        ensures decode((r0 + raws)[k]) == Success((h0.stored + b.events)[k])
      {
        if k >= |r0| {
          assert (r0 + raws)[k] == raws[k - |r0|];
        }
      }
    }
  }

  /** When each response holds as many records as its window asks for, a fault-free harvest stores exactly that many. */
  lemma {:induction false} HarvestCount(ws: seq<Window>, fetch: Fetch, decode: Decoder)
    requires HarvestWindows(ws, fetch, decode).fault.None?
    requires forall k :: 0 <= k < |ws| ==> fetch(ws[k]).Some? && |fetch(ws[k]).value| == ws[k].count
    ensures |HarvestWindows(ws, fetch, decode).stored| == TotalCount(ws)
  {
    HarvestStoresAll(ws, fetch, decode);
    AllRecordsCount(ws, fetch);
  }

  lemma {:induction false} AllRecordsCount(ws: seq<Window>, fetch: Fetch)
    requires forall k :: 0 <= k < |ws| ==> fetch(ws[k]).Some? && |fetch(ws[k]).value| == ws[k].count
    ensures |AllRecords(ws, fetch)| == TotalCount(ws)
  {
    if ws != [] {
      var init := ws[..|ws| - 1];
      assert forall k :: 0 <= k < |init| ==> init[k] == ws[k];
      AllRecordsCount(init, fetch);
      TotalCountSnoc(init, ws[|ws| - 1]);
      assert init + [ws[|ws| - 1]] == ws;
    }
  }

  lemma {:induction false} TotalCountSnoc(ws: seq<Window>, w: Window)
    ensures TotalCount(ws + [w]) == TotalCount(ws) + w.count
  {
    if ws != [] {
      assert (ws + [w])[1..] == ws[1..] + [w];
      TotalCountSnoc(ws[1..], w);
    } else {
      assert [] + [w] == [w];
    }
  }

  // ---------------------------------------------------------------- the cycle

  /** What a call to `getEvents` does. */
  datatype Cycle = Cycle(requests: seq<Window>, stored: seq<Event>, writes: seq<TagWrite>, fault: Option<Fault>)

  /** The requests a cycle sets out to make, once the status snapshot and the baseline are known. */
  function CyclePlan(status: EventStatus, baseline: Option<Int32>): seq<Window> {
    Plan(status.lastRecord, NewEventCount(baseline, status.lastSequenceNumber))
  }

  /** `getEvents`: `status` is None when `/events/last` cannot be read. */
  function EventsCycle(tags: TagStore, status: Option<EventStatus>, fetch: Fetch,
                       decode: Decoder): (c: Cycle)
    ensures c.fault.Some? ==> c.writes == []
  {
    match status
    case None => Cycle([], [], [], Some(TransportFault))
    case Some(s) =>
      match Baseline(tags)
      case Failure(f) => Cycle([], [], [], Some(f))
      case Success(baseline) =>
        var h := HarvestWindows(CyclePlan(s, baseline), fetch, decode);
        if h.fault.Some? then Cycle(h.requests, h.stored, [], h.fault)
        else
          var eventWrites := if h.stored == [] then [] else LastEventWrites(h.stored[|h.stored| - 1]);
          Cycle(h.requests, h.stored, eventWrites + StatusWrites(s), None)
  }

  /** The writes of a fault-free cycle: the last stored event's LastEvent folder, if any, then the status. */
  lemma CompletedCycleWrites(tags: TagStore, status: Option<EventStatus>, fetch: Fetch, decode: Decoder)
    requires status.Some? && EventsCycle(tags, status, fetch, decode).fault.None?
    ensures var c := EventsCycle(tags, status, fetch, decode);
            c.writes == (if c.stored == [] then [] else LastEventWrites(c.stored[|c.stored| - 1])) + StatusWrites(status.value)
  {
  }

  /**
   * The LastEvent folder written once the requests complete, then the status
   * tags, are together the writes of the cycle.
   */
  lemma CompletedCycleTags(t0: TagStore, t1: TagStore, t2: TagStore, status: Option<EventStatus>,
                           fetch: Fetch, decode: Decoder)
    requires status.Some?
    requires var c := EventsCycle(t0, status, fetch, decode);
             c.fault.None? &&
             t1 == (if c.fault.Some? || c.stored == [] then t0 else ApplyWrites(t0, LastEventWrites(c.stored[|c.stored| - 1])))
    requires t2 == ApplyWrites(t1, StatusWrites(status.value))
    ensures t2 == ApplyWrites(t0, EventsCycle(t0, status, fetch, decode).writes)
  {
    var c := EventsCycle(t0, status, fetch, decode);
    var eventWrites := if c.stored == [] then [] else LastEventWrites(c.stored[|c.stored| - 1]);
    assert t1 == ApplyWrites(t0, eventWrites) by {
      assert ApplyWrites(t0, []) == t0;
    }
    CompletedCycleWrites(t0, status, fetch, decode);
    ApplyWritesConcat(t0, eventWrites, StatusWrites(status.value));
  }

  /** A cycle whose baseline reads back is the harvest of its plan, followed by the tag writes when no exception was raised. */
  lemma CycleOfHarvest(tags: TagStore, status: Option<EventStatus>, fetch: Fetch, decode: Decoder, baseline: Option<Int32>)
    requires status.Some? && Baseline(tags) == Success(baseline)
    ensures var h := HarvestWindows(CyclePlan(status.value, baseline), fetch, decode);
            var c := EventsCycle(tags, status, fetch, decode);
            var eventWrites := if h.stored == [] then [] else LastEventWrites(h.stored[|h.stored| - 1]);
            c.requests == h.requests && c.stored == h.stored && c.fault == h.fault &&
            (h.fault.Some? ==> c.writes == []) &&
            (h.fault.None? ==> c.writes == eventWrites + StatusWrites(status.value))
  {
  }

  /** The tag folder enters a cycle only through the baseline tag. */
  lemma CycleReadsOnlyBaseline(t1: TagStore, t2: TagStore, status: Option<EventStatus>, fetch: Fetch, decode: Decoder)
    requires Lookup(t1, BASELINE_TAG) == Lookup(t2, BASELINE_TAG)
    ensures EventsCycle(t1, status, fetch, decode) == EventsCycle(t2, status, fetch, decode)
  {
    assert Baseline(t1) == Baseline(t2);
  }

  /** A cycle that ends in an exception leaves the baseline alone, so the next cycle plans the same requests. */
  lemma FailedCycleKeepsPlan(tags: TagStore, s: EventStatus, fetch: Fetch, decode: Decoder)
    requires EventsCycle(tags, Some(s), fetch, decode).fault.Some?
    ensures var c := EventsCycle(tags, Some(s), fetch, decode);
            Baseline(ApplyWrites(tags, c.writes)) == Baseline(tags) &&
            (Baseline(tags).Success? ==>
               c.requests == CyclePlan(s, Baseline(tags).value)[..|c.requests|])
  {
  }

  /** After a fault-free cycle the baseline is the snapshot's last sequence number. */
  lemma CompletedCycleSetsBaseline(tags: TagStore, s: EventStatus, fetch: Fetch, decode: Decoder)
    requires EventsCycle(tags, Some(s), fetch, decode).fault.None?
    ensures var c := EventsCycle(tags, Some(s), fetch, decode);
            c.requests == CyclePlan(s, Baseline(tags).value) &&
            Baseline(ApplyWrites(tags, c.writes)) == Success(Some(s.lastSequenceNumber))
  {
    var c := EventsCycle(tags, Some(s), fetch, decode);
    CompletedCycleWrites(tags, Some(s), fetch, decode);
    ApplyWritesLookup(tags, c.writes, BASELINE_TAG);
    assert c.writes[|c.writes| - 1] == TagWrite(BASELINE_TAG, IntTag(s.lastSequenceNumber));
  }

  /** Asking again with an unchanged snapshot after a fault-free cycle requests nothing and only republishes the status. */
  lemma RepeatedCycleRequestsNothing(tags: TagStore, s: EventStatus, fetch: Fetch, fetch': Fetch,
                                     decode: Decoder)
    requires EventsCycle(tags, Some(s), fetch, decode).fault.None?
    ensures var tags' := ApplyWrites(tags, EventsCycle(tags, Some(s), fetch, decode).writes);
            EventsCycle(tags', Some(s), fetch', decode)
            == Cycle([], [], StatusWrites(s), None)
  {
    CompletedCycleSetsBaseline(tags, s, fetch, decode);
  }

  /** With no new events nothing is requested or stored, and the status tags are still republished. */
  lemma NoNewEventsRepublishes(tags: TagStore, s: EventStatus, fetch: Fetch, decode: Decoder)
    requires Baseline(tags).Success?
    requires NewEventCount(Baseline(tags).value, s.lastSequenceNumber) <= 0
    ensures EventsCycle(tags, Some(s), fetch, decode) == Cycle([], [], StatusWrites(s), None)
  {
  }

  /**
   * After a fault-free cycle that stored events, every LastEvent tag holds the
   * field of the last stored event, whatever events came before it.
   */
  lemma LastEventPublished(tags: TagStore, s: EventStatus, fetch: Fetch, decode: Decoder)
    requires EventsCycle(tags, Some(s), fetch, decode).fault.None?
    requires EventsCycle(tags, Some(s), fetch, decode).stored != []
    ensures var c := EventsCycle(tags, Some(s), fetch, decode);
            var last := c.stored[|c.stored| - 1];
            forall w :: w in LastEventWrites(last) ==> Lookup(ApplyWrites(tags, c.writes), w.path) == Some(w.value)
  {
    var c := EventsCycle(tags, Some(s), fetch, decode);
    var last := c.stored[|c.stored| - 1];
    CompletedCycleWrites(tags, Some(s), fetch, decode);
    assert c.writes == LastEventWrites(last) + StatusWrites(s);
    LastEventTags(tags, last, s);
  }

  /** The LastEvent and EventStatus tags are distinct paths, so each reads back what was written to it. */
  lemma LastEventTags(tags: TagStore, e: Event, s: EventStatus)
    ensures forall w :: w in LastEventWrites(e) ==>
              Lookup(ApplyWrites(tags, LastEventWrites(e) + StatusWrites(s)), w.path) == Some(w.value)
  {
    var ev := LastEventWrites(e);
    ApplyWritesConcat(tags, ev, StatusWrites(s));
    assert forall k :: 0 <= k < |ev| ==> ev[k].path[0] == 'L';
    assert forall k :: 0 <= k < 4 ==> StatusWrites(s)[k].path[0] == 'E';
    assert forall i, j :: 0 <= i < j < |ev| ==> ev[i].path != ev[j].path;
    forall w | w in ev
      ensures Lookup(ApplyWrites(tags, ev + StatusWrites(s)), w.path) == Some(w.value)
    {
      WritesElsewhere(ApplyWrites(tags, ev), StatusWrites(s), w.path);
      ApplyWritesLookup(tags, ev, w.path);
      LastWriteOfDistinct(ev, w);
    }
  }
}
