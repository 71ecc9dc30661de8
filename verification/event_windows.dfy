/**
 * Event-harvest window planning: how many new events the device holds, and
 * which (record, count) requests read them out of its 8192-record ring
 * buffer, 100 records at a time.
 */
module EventWindows {
  import opened Wrappers
  import opened JavaNum

  /** Size of the device's circular event buffer. */
  const RING_SIZE: int := 8192
  /** Most records requested in one `/events?record=..&count=..` call. */
  const BATCH_SIZE: int := 100

  /** One request: `count` records starting at ring index `record`. */
  datatype Window = Window(record: int, count: int)

  function Min(a: int, b: int): int { if a <= b then a else b }

  /**
   * How many events to harvest: the device's last sequence number minus the
   * baseline (the whole sequence number when there is no baseline yet),
   * computed in Java `int` arithmetic and capped at the ring size.
   */
  function NewEventCount(baseline: Option<Int32>, lastSequenceNumber: Int32): (d: Int32)
    ensures d <= RING_SIZE
    ensures baseline.None? ==> d == Min(lastSequenceNumber, RING_SIZE)
    ensures baseline.Some? && 0 <= baseline.value <= lastSequenceNumber ==>
              d == Min(lastSequenceNumber - baseline.value, RING_SIZE)
    ensures baseline.Some? && 0 <= lastSequenceNumber < baseline.value ==> d < 0
    ensures baseline == Some(lastSequenceNumber) ==> d == 0
    ensures baseline.Some? && INT32_MIN <= lastSequenceNumber - baseline.value <= INT32_MAX ==>
              d == Min(lastSequenceNumber - baseline.value, RING_SIZE)
    ensures baseline.Some? && lastSequenceNumber - baseline.value > INT32_MAX ==>
              d == lastSequenceNumber - baseline.value - 0x1_0000_0000 && d < 0
    ensures baseline.Some? && lastSequenceNumber - baseline.value < INT32_MIN ==>
              d == Min(lastSequenceNumber - baseline.value + 0x1_0000_0000, RING_SIZE)
  {
    var diff := if baseline.None? then lastSequenceNumber else Wrap32(lastSequenceNumber - baseline.value);
    if diff > RING_SIZE then RING_SIZE else diff
  }

  /**
   * The difference wraps like Java's `int`: a sequence number that fell from
   * the top of the range fetches the whole ring, and one that rose past it
   * fetches nothing.
   */
  lemma NewEventCountWraps()
    ensures NewEventCount(Some(INT32_MAX), -2) == RING_SIZE
    ensures NewEventCount(Some(-2), INT32_MAX) < 0
  {
  }

  /** The number of requests for d new records: d divided by the batch size, rounded up. */
  function WindowCount(d: int): (n: int)
    requires 0 < d
    ensures n >= 1 && BATCH_SIZE * (n - 1) < d <= BATCH_SIZE * n
  {
    (d + BATCH_SIZE - 1) / BATCH_SIZE
  }

  /** The count of the last request: what is left after the full ones. */
  function LeftOver(d: int): (r: int)
    requires 0 < d
    ensures 1 <= r <= BATCH_SIZE && r == d - BATCH_SIZE * (WindowCount(d) - 1)
  {
    d - (WindowCount(d) - 1) * BATCH_SIZE
  }

  /** Where the first request starts: `d` records back from the last one, wrapped once into the ring. */
  function FirstRecord(lastRecord: Int32, d: Int32): (r: Int32)
    ensures 0 <= lastRecord < RING_SIZE && 0 < d <= RING_SIZE ==>
              0 <= r < RING_SIZE && r == (lastRecord - d + 1) % RING_SIZE
  {
    var next := Wrap32(lastRecord - (d - 1));
    if next < 0 then Wrap32(RING_SIZE + next) else next
  }

  /** The next record after `count` records at `record`, in 32-bit arithmetic, wrapping once past the ring's end. */
  function Advance(record: Int32, count: Int32): (r: Int32)
    ensures 0 <= record < RING_SIZE && 0 <= count <= RING_SIZE ==>
              0 <= r < RING_SIZE && r == (record + count) % RING_SIZE
  {
    var next := Wrap32(record + count);
    if next >= RING_SIZE then Wrap32(next - RING_SIZE) else next
  }

  /** The count of request `i` of `n`. */
  function CountAt(i: int, n: int, leftOver: int): int {
    if i + 1 < n then BATCH_SIZE else leftOver
  }

  /** The requests of iterations `i` .. `n-1` of the harvest loop, the first starting at `next`. */
  function PlanFrom(next: Int32, i: nat, n: nat, leftOver: Int32): (ws: seq<Window>)
    ensures |ws| == if i >= n then 0 else n - i
    decreases n - i
  {
    if i >= n then []
    else
      var count := CountAt(i, n, leftOver) as Int32;
      [Window(next, count)] + PlanFrom(Advance(next, count), i + 1, n, leftOver)
  }

  /**
   * Iteration `i` of the request loop requests `count` records at `next`,
   * and the iterations after it start at the record that follows those
   * `count`, wrapped around the ring.
   */
  lemma PlanStep(next: Int32, i: nat, n: nat, leftOver: Int32)
    requires i < n
    ensures var count := CountAt(i, n, leftOver) as Int32;
            PlanFrom(next, i, n, leftOver) == [Window(next, count)] + PlanFrom(Advance(next, count), i + 1, n, leftOver)
  {
  }

  /** Every request `getEvents` makes for `d` new events ending at ring index `lastRecord`. */
  function Plan(lastRecord: Int32, d: Int32): seq<Window> {
    if d <= 0 then []
    else
      var n := WindowCount(d);
      PlanFrom(FirstRecord(lastRecord, d), 0, n, LeftOver(d))
  }

  // ---------------------------------------------------------------- coverage

  /** `len` consecutive ring indices starting at `start`, wrapping at the ring size. */
  function RingRange(start: int, len: nat): seq<int> {
    seq(len, j => (start + j) % RING_SIZE)
  }

  /** The ring indices a sequence of requests reads, in order. */
  function Covered(ws: seq<Window>): seq<int> {
    if ws == [] then [] else RingRange(ws[0].record, if ws[0].count < 0 then 0 else ws[0].count) + Covered(ws[1..])
  }

  /** The total number of records the requests ask for. */
  function TotalCount(ws: seq<Window>): int {
    if ws == [] then 0 else ws[0].count + TotalCount(ws[1..])
  }

  lemma RingRangeMod(start: int, len: nat)
    ensures RingRange(start % RING_SIZE, len) == RingRange(start, len)
  {
    forall j | 0 <= j < len
      ensures RingRange(start % RING_SIZE, len)[j] == RingRange(start, len)[j]
    {
      ModShift(start, j);
    }
  }

  /** Reducing the start modulo the ring size does not move any later index. */
  lemma ModShift(start: int, j: int)
    ensures (start % RING_SIZE + j) % RING_SIZE == (start + j) % RING_SIZE
  {
    var x := start % RING_SIZE + j;
    var d, r := x / RING_SIZE, x % RING_SIZE;
    var q := start / RING_SIZE;
    assert start + j == RING_SIZE * (q + d) + r by {
      assert start == RING_SIZE * q + start % RING_SIZE;
      assert x == RING_SIZE * d + r;
      assert RING_SIZE * (q + d) == RING_SIZE * q + RING_SIZE * d;
    }
    DivModUnique(start + j, RING_SIZE, q + d, r);
  }

  lemma RingRangeSplit(start: int, a: nat, b: nat)
    ensures RingRange(start, a + b) == RingRange(start, a) + RingRange(start + a, b)
  {
  }

  /** The start index after iteration `i`, when iteration `i` started at `base + 100*i` around the ring. */
  lemma AdvanceStep(base: int, next: Int32, i: nat, n: nat, leftOver: Int32)
    requires 1 <= leftOver <= BATCH_SIZE && i + 1 < n
    requires 0 <= next < RING_SIZE && next == (base + BATCH_SIZE * i) % RING_SIZE
    ensures var next' := Advance(next, CountAt(i, n, leftOver) as Int32);
            0 <= next' < RING_SIZE && next' == (base + BATCH_SIZE * (i + 1)) % RING_SIZE
  {
    var q := (base + BATCH_SIZE * i) / RING_SIZE;
    assert base + BATCH_SIZE * (i + 1) == RING_SIZE * q + (next + BATCH_SIZE);
  }

  /** The requests of iterations `i` .. `n-1`, when iteration `i` starts at `base + 100*i` around the ring. */
  lemma {:induction false} PlanFromWindows(base: int, next: Int32, i: nat, n: nat, leftOver: Int32)
    requires i <= n && 1 <= leftOver <= BATCH_SIZE
    requires 0 <= next < RING_SIZE && next == (base + BATCH_SIZE * i) % RING_SIZE
    ensures var ws := PlanFrom(next, i, n, leftOver);
            |ws| == n - i &&
            (forall k :: 0 <= k < |ws| ==>
               ws[k] == Window((base + BATCH_SIZE * (i + k)) % RING_SIZE, CountAt(i + k, n, leftOver)))
    decreases n - i
  {
    if i < n {
      var count := CountAt(i, n, leftOver) as Int32;
      var next' := Advance(next, count);
      var ws := PlanFrom(next, i, n, leftOver);
      var rest := PlanFrom(next', i + 1, n, leftOver);
      assert ws == [Window(next, count)] + rest;
      if i + 1 < n {
        AdvanceStep(base, next, i, n, leftOver);
        PlanFromWindows(base, next', i + 1, n, leftOver);
        forall k | 1 <= k < |ws|
          ensures ws[k] == Window((base + BATCH_SIZE * (i + k)) % RING_SIZE, CountAt(i + k, n, leftOver))
        {
          assert ws[k] == rest[k - 1];
          assert i + 1 + (k - 1) == i + k;
        }
      }
    }
  }

  /** What requests of the given shape read, and how many records they ask for. */
  lemma {:induction false} ShapedCoverage(base: int, ws: seq<Window>, i: nat, n: nat, leftOver: int)
    requires i < n && 1 <= leftOver <= BATCH_SIZE && |ws| == n - i
    requires forall k :: 0 <= k < |ws| ==>
               ws[k] == Window((base + BATCH_SIZE * (i + k)) % RING_SIZE, CountAt(i + k, n, leftOver))
    ensures TotalCount(ws) == BATCH_SIZE * (n - 1 - i) + leftOver
    ensures Covered(ws) == RingRange(base + BATCH_SIZE * i, BATCH_SIZE * (n - 1 - i) + leftOver)
    decreases n - i
  {
    var count := CountAt(i, n, leftOver);
    RingRangeMod(base + BATCH_SIZE * i, count);
    if i + 1 < n {
      var rest := ws[1..];
      forall k | 0 <= k < |rest|
        ensures rest[k] == Window((base + BATCH_SIZE * (i + 1 + k)) % RING_SIZE, CountAt(i + 1 + k, n, leftOver))
      {
        assert rest[k] == ws[k + 1];
      }
      ShapedCoverage(base, rest, i + 1, n, leftOver);
      RingRangeSplit(base + BATCH_SIZE * i, BATCH_SIZE, BATCH_SIZE * (n - 2 - i) + leftOver);
    } else {
      assert ws[1..] == [];
    }
  }

  /**
   * The shape of the plan: ceil(d/100) requests, all of 100 records except the
   * last, which holds the remaining 1..100; together they ask for exactly d.
   */
  lemma PlanShape(lastRecord: Int32, d: Int32)
    requires 0 < d <= RING_SIZE && 0 <= lastRecord < RING_SIZE
    ensures var ws := Plan(lastRecord, d);
            |ws| == WindowCount(d) &&
            (forall k :: 0 <= k < |ws| - 1 ==> ws[k].count == BATCH_SIZE) &&
            1 <= ws[|ws| - 1].count <= BATCH_SIZE &&
            TotalCount(ws) == d
  {
    PlanFromWindows(lastRecord - d + 1, FirstRecord(lastRecord, d), 0, WindowCount(d), LeftOver(d));
    ShapedCoverage(lastRecord - d + 1, Plan(lastRecord, d), 0, WindowCount(d), LeftOver(d));
  }

  /** Request k starts 100·k records after the first, around the ring. */
  lemma PlanStarts(lastRecord: Int32, d: Int32)
    requires 0 < d <= RING_SIZE && 0 <= lastRecord < RING_SIZE
    ensures var ws := Plan(lastRecord, d);
            forall k :: 0 <= k < |ws| ==>
              0 <= ws[k].record < RING_SIZE && ws[k].record == (lastRecord - d + 1 + BATCH_SIZE * k) % RING_SIZE
  {
    var base := lastRecord - d + 1;
    var ws := Plan(lastRecord, d);
    assert ws == PlanFrom(FirstRecord(lastRecord, d), 0, WindowCount(d), LeftOver(d));
    PlanFromWindows(base, FirstRecord(lastRecord, d), 0, WindowCount(d), LeftOver(d));
    forall k | 0 <= k < |ws|
      ensures ws[k].record == (base + BATCH_SIZE * k) % RING_SIZE
    {
      assert ws[k].record == (base + BATCH_SIZE * (0 + k)) % RING_SIZE;
    }
  }

  /**
   * The requests tile the d ring slots that end at `lastRecord`: each slot is
   * read exactly once, oldest first.
   */
  lemma PlanCovers(lastRecord: Int32, d: Int32)
    requires 0 < d <= RING_SIZE && 0 <= lastRecord < RING_SIZE
    ensures Covered(Plan(lastRecord, d)) == RingRange(lastRecord - d + 1, d)
    ensures Covered(Plan(lastRecord, d))[d - 1] == lastRecord
  {
    PlanCoversRange(lastRecord, d);
    RingRangeLast(lastRecord - d + 1, d);
  }

  /** The plan reads the ring range of length d that ends at `lastRecord`. */
  lemma PlanCoversRange(lastRecord: Int32, d: Int32)
    requires 0 < d <= RING_SIZE && 0 <= lastRecord < RING_SIZE
    ensures Covered(Plan(lastRecord, d)) == RingRange(lastRecord - d + 1, d)
  {
    var base := lastRecord - d + 1;
    var n, leftOver := WindowCount(d), LeftOver(d);
    var ws := Plan(lastRecord, d);
    assert ws == PlanFrom(FirstRecord(lastRecord, d), 0, n, leftOver);
    PlanFromWindows(base, FirstRecord(lastRecord, d), 0, n, leftOver);
    ShapedCoverage(base, ws, 0, n, leftOver);
    assert base + BATCH_SIZE * 0 == base;
    assert BATCH_SIZE * (n - 1 - 0) + leftOver == d;
  }

  /** A ring range that ends inside the ring ends at its own last index. */
  lemma RingRangeLast(start: int, len: nat)
    requires 0 < len && 0 <= start + len - 1 < RING_SIZE
    ensures RingRange(start, len)[len - 1] == start + len - 1
  {
  }

  /** Nothing is requested unless the device reports more events than the baseline. */
  lemma NoNewEventsNoRequests(baseline: Option<Int32>, lastSequenceNumber: Int32, lastRecord: Int32)
    requires NewEventCount(baseline, lastSequenceNumber) <= 0
    ensures Plan(lastRecord, NewEventCount(baseline, lastSequenceNumber)) == []
  {
  }

  /** A baseline more than a full ring behind still asks for only one ring's worth. */
  lemma BacklogIsCapped(baseline: Int32, lastSequenceNumber: Int32, lastRecord: Int32)
    requires 0 <= baseline && baseline + RING_SIZE <= lastSequenceNumber && 0 <= lastRecord < RING_SIZE
    ensures NewEventCount(Some(baseline), lastSequenceNumber) == RING_SIZE
    ensures Covered(Plan(lastRecord, RING_SIZE)) == RingRange(lastRecord + 1, RING_SIZE)
  {
    PlanCovers(lastRecord, RING_SIZE);
    RingRangeMod(lastRecord + 1, RING_SIZE);
    assert (lastRecord - RING_SIZE + 1) % RING_SIZE == (lastRecord + 1) % RING_SIZE;
    RingRangeMod(lastRecord - RING_SIZE + 1, RING_SIZE);
  }
}
