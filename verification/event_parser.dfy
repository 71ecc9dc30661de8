/**
 * The SER event-record decoder: a record arrives as a string of hex digits
 * (optionally with '-' separators) and is decoded into an immutable Event.
 *
 * Record layout, after every '-' is removed (character positions):
 *   0-3    descriptor word A: event code (bits 0-4), 0-based input (bits 5-9),
 *          input status (bit 10), DST flag (bit 11); bits 12-15 unused
 *   4-7    descriptor word B: milliseconds (bits 0-9), time quality (bits 14-15)
 *   8-15   seconds since 1984-01-01, low 16-bit word first
 *   16-23  sequence number, low word first
 *   24-31  coincident input status, low word first
 */
module EventParser {
  import opened Wrappers
  import opened JavaNum

  /** Seconds from the Unix epoch to the device's epoch (1984-01-01). */
  const EPOCH_OFFSET_SECONDS: int := 441792000

  /** An event code, by its ordinal in the 32-entry code table. */
  type EventCode = c: int | 0 <= c < 32

  const EVENT_CODE_DISPLAY: seq<string> := [
    "Reserved",
    "Input Status Change",
    "Input Enabled for Event Recording (by User)",
    "Input Disabled for Event Recording (by User)",
    "Input Chatter Count Off (Event Recording Resumed)",
    "Input Chatter Count Off (Event Recording Suspended)",
    "Power On",
    "SER Inter-Device (RS-485) Time Sync Lock",
    "SER Inter-Device (RS-485) Time Sync Fail",
    "Internal Error",
    "Event Log Cleared",
    "24V Power Loss",
    "24V Power Restored",
    "Reserved",
    "Manual Time Set",
    "Setup Configuration Changed",
    "Daylight Saving Time (DST) Start/End Switchover",
    "Reset",
    "Firmware Upgraded",
    "Power Fail",
    "PTP/NTP Time Sync Lock",
    "PTP/NTP Time Sync Fail",
    "Time Sync Lock",
    "Time Sync Fail",
    "Test Mode On",
    "Test Mode Off",
    "High-Speed Trigger Out",
    "Test Mode Input Status Change",
    "Reserved",
    "RTC Battery Low",
    "Power Control Module Issue",
    "Reserved"
  ]

  function EventCodeDisplay(c: EventCode): string {
    EVENT_CODE_DISPLAY[c]
  }

  datatype InputStatus = Off | On {
    function Ordinal(): nat { if Off? then 0 else 1 }
    function Name(): string { if Off? then "Off" else "On" }
  }

  datatype Dst = STD | DST {
    function Ordinal(): nat { if STD? then 0 else 1 }
    function Name(): string { if STD? then "STD" else "DST" }
  }

  datatype TimeQuality = Good | Fair | Poor | Bad {
    function Ordinal(): nat {
      match this
      case Good => 0
      case Fair => 1
      case Poor => 2
      case Bad => 3
    }
    function Name(): string {
      match this
      case Good => "Good"
      case Fair => "Fair"
      case Poor => "Poor"
      case Bad => "Bad"
    }
  }

  /** The enums' `values()` arrays, indexed by ordinal. */
  const INPUT_STATUS_VALUES: seq<InputStatus> := [Off, On]
  const DST_VALUES: seq<Dst> := [STD, DST]
  const TIME_QUALITY_VALUES: seq<TimeQuality> := [Good, Fair, Poor, Bad]

  /** A decoded event; `input` is the 1-based channel. */
  datatype Event = Event(
    parentLog: string,
    insertQuery: Option<string>,
    eventCode: EventCode,
    input: Int32,
    sequenceNumber: Int32,
    inputCoincidentStatus: Int64,
    inputStatus: InputStatus,
    dst: Dst,
    timeQuality: TimeQuality,
    msTime: Int64)

  /** `s.replace("-", "")`. */
  function StripDashes(s: string): (r: string)
    ensures '-' !in r
    ensures |r| == |s| - multiset(s)['-']
    ensures forall c :: c != '-' ==> multiset(r)[c] == multiset(s)[c]
    ensures '-' !in s ==> r == s
  {
    if s == [] then []
    else
      var init, last := s[..|s| - 1], s[|s| - 1];
      assert s == init + [last];
      assert multiset(s) == multiset(init) + multiset{last};
      StripDashes(init) + (if last == '-' then [] else [last])
  }

  /** Removing separators commutes with concatenation, so it keeps every other character in order. */
  lemma {:induction false} StripDashesConcat(a: string, b: string)
    ensures StripDashes(a + b) == StripDashes(a) + StripDashes(b)
  {
    if b == [] {
      assert a + b == a;
    } else {
      var b' := b[..|b| - 1];
      assert (a + b)[..|a + b| - 1] == a + b';
      assert (a + b)[|a + b| - 1] == b[|b| - 1];
      StripDashesConcat(a, b');
    }
  }

  /**
   * The bit-field extraction and the Event constructor, from the parsed words:
   * descA and descB are the two descriptor words, seconds, sequenceNumber and
   * coincident the three word-swapped 32-bit values.
   */
  function FromWords(parentLog: string, insertQuery: Option<string>, descA: Int64, descB: Int64,
                     seconds: Int32, sequenceNumber: Int32, coincident: Int64): (e: Event)
    ensures 1 <= e.input <= 32
    ensures e.sequenceNumber == sequenceNumber && e.inputCoincidentStatus == coincident
    ensures e.parentLog == parentLog && e.insertQuery == insertQuery
  {
    var eventCode := descA % 32;
    var inputs := (descA / 32) % 32;
    var inputStatus := INPUT_STATUS_VALUES[(descA / 1024) % 2];
    var dst := DST_VALUES[(descA / 2048) % 2];
    var timeQuality := TIME_QUALITY_VALUES[(descB / 16384) % 4];
    var ms := descB % 1024;
    var secs := Wrap32(EPOCH_OFFSET_SECONDS + seconds);
    Event(parentLog, insertQuery, eventCode, inputs + 1, sequenceNumber, coincident,
          inputStatus, dst, timeQuality, secs * 1000 + ms)
  }

  /**
   * The decoded fields of word A are exactly its low 12 bits, the milliseconds
   * are the low 10 bits of word B, and the time is the offset seconds in
   * milliseconds, negative once the Java `int` sum has wrapped.
   */
  lemma FromWordsFields(parentLog: string, insertQuery: Option<string>, descA: Int64, descB: Int64,
                        seconds: Int32, sequenceNumber: Int32, coincident: Int64)
    ensures var e := FromWords(parentLog, insertQuery, descA, descB, seconds, sequenceNumber, coincident);
            && e.eventCode + 32 * (e.input - 1) + 1024 * e.inputStatus.Ordinal() + 2048 * e.dst.Ordinal()
               == descA % 4096
            && e.msTime - 1000 * Wrap32(EPOCH_OFFSET_SECONDS + seconds) == descB % 1024
            && (0 <= seconds <= INT32_MAX - EPOCH_OFFSET_SECONDS ==>
                  e.msTime == (EPOCH_OFFSET_SECONDS + seconds) * 1000 + descB % 1024)
            && (INT32_MAX - EPOCH_OFFSET_SECONDS < seconds ==> e.msTime < 0)
  {
    DescriptorBits(descA);
  }

  /** The four descriptor fields of word A exactly partition its low 12 bits. */
  lemma DescriptorBits(a: int)
    ensures a % 32 + 32 * ((a / 32) % 32) + 1024 * ((a / 1024) % 2) + 2048 * ((a / 2048) % 2) == a % 4096
  {
    var c, t := a % 32, a / 32;
    var i, u := t % 32, t / 32;
    var s, w := u % 2, u / 2;
    var d, z := w % 2, w / 2;
    assert a == 4096 * z + (2048 * d + 1024 * s + 32 * i + c);
    assert a / 1024 == u by { assert a == 1024 * u + (32 * i + c); }
    assert a / 2048 == w by { assert a == 2048 * w + (1024 * s + 32 * i + c); }
  }

  /** `EventParser.parse`: Java's evaluation order decides which exception a bad record raises. */
  function Parse(parentLog: string, insertQuery: Option<string>, event: string): (r: Result<Event, JavaError>)
    ensures r.Success? ==> |StripDashes(event)| >= 32
    ensures r.Success? ==> 0 <= r.value.sequenceNumber
    ensures r.Success? ==> 0 <= r.value.inputCoincidentStatus < 0x1_0000_0000
  {
    var e := StripDashes(event);
    if |e| < 4 then Failure(IndexOutOfBounds) else
    var descA :- ParseLong(e[0..4]);
    if |e| < 8 then Failure(IndexOutOfBounds) else
    var descB :- ParseLong(e[4..8]);
    if |e| < 16 then Failure(IndexOutOfBounds) else
    var seconds :- ParseInt(e[12..16] + e[8..12]);
    if |e| < 24 then Failure(IndexOutOfBounds) else
    var sequenceNumber :- ParseInt(e[20..24] + e[16..20]);
    if |e| < 32 then Failure(IndexOutOfBounds) else
    var coincident :- ParseLong(e[28..32] + e[24..28]);
    SwappedSliceFacts(e, 16);
    SwappedSliceFacts(e, 24);
    Success(FromWords(parentLog, insertQuery, descA, descB, seconds, sequenceNumber, coincident))
  }

  /** A word-swapped 8-character slice of a separator-free record parses to a value in [0, 2^32). */
  lemma SwappedSliceFacts(e: string, start: int)
    requires '-' !in e && 0 <= start && start + 8 <= |e|
    ensures var s := e[start + 4..start + 8] + e[start..start + 4];
            ParseRadix16(s).Success? ==> 0 <= ParseRadix16(s).value < 0x1_0000_0000
  {
    var s := e[start + 4..start + 8] + e[start..start + 4];
    assert forall k :: 0 <= k < |s| ==> s[k] in e;
    assert '-' !in s;
    assert Pow16(7) == 0x1000_0000 && Pow16(8) == 0x1_0000_0000;
    if ParseRadix16(s).Success? {
      if AllHex(s) {
        assert HexValue(s) < Pow16(8);
      } else {
        assert HexValue(s[1..]) < Pow16(7);
      }
    }
  }

  /** The value of the 4-digit word at `start` of a record's 32 hex digits. */
  function WordValue(e: string, start: nat): (v: nat)
    requires start + 4 <= 32 <= |e| && AllHex(e[..32])
    ensures v < 0x10000
  {
    HexSlice(e, start, start + 4);
    assert Pow16(4) == 0x10000;
    HexValue(e[start..start + 4])
  }

  /** The value of the word-swapped 8-digit field at `start`: the high word is read first. */
  function SwappedValue(e: string, start: nat): (v: nat)
    requires start + 8 <= 32 <= |e| && AllHex(e[..32])
    ensures v < 0x1_0000_0000
  {
    WordValue(e, start + 4) * 0x10000 + WordValue(e, start)
  }

  /**
   * A record whose first 32 characters (separators removed) are hex digits
   * decodes to the fields of its words, unless the seconds or the sequence
   * number do not fit a Java `int`.
   */
  lemma ParseWellFormed(parentLog: string, insertQuery: Option<string>, event: string)
    requires |StripDashes(event)| >= 32 && AllHex(StripDashes(event)[..32])
    ensures var e := StripDashes(event);
            var s, n := SwappedValue(e, 8), SwappedValue(e, 16);
            Parse(parentLog, insertQuery, event) ==
              if s > INT32_MAX || n > INT32_MAX then Failure(NumberFormat)
              else Success(FromWords(parentLog, insertQuery, WordValue(e, 0), WordValue(e, 4),
                                     s, n, SwappedValue(e, 24)))
  {
    HexWords(StripDashes(event));
  }

  /** What Java's parsers read from the five slices of a record's 32 hex digits. */
  lemma HexWords(e: string)
    requires |e| >= 32 && AllHex(e[..32])
    ensures var s, n, c := SwappedValue(e, 8), SwappedValue(e, 16), SwappedValue(e, 24);
            && ParseLong(e[0..4]) == Success(WordValue(e, 0))
            && ParseLong(e[4..8]) == Success(WordValue(e, 4))
            && ParseInt(e[12..16] + e[8..12]) == (if s <= INT32_MAX then Success(s) else Failure(NumberFormat))
            && ParseInt(e[20..24] + e[16..20]) == (if n <= INT32_MAX then Success(n) else Failure(NumberFormat))
            && ParseLong(e[28..32] + e[24..28]) == Success(c)
  {
    WordDigits(e, 0, 4);
    WordDigits(e, 4, 8);
    SwappedDigits(e, 8, 12, 16);
    SwappedDigits(e, 16, 20, 24);
    SwappedDigits(e, 24, 28, 32);
  }

  /** The 4-digit word from `start` to `end` parses to WordValue. */
  lemma WordDigits(e: string, start: nat, end: nat)
    requires end == start + 4 <= 32 <= |e| && AllHex(e[..32])
    ensures ParseLong(e[start..end]) == Success(WordValue(e, start))
  {
    HexSlice(e, start, end);
  }

  /** The word-swapped slice from `start` to `end` of a record's 32 hex digits parses to SwappedValue. */
  lemma SwappedDigits(e: string, start: nat, mid: nat, end: nat)
    requires mid == start + 4 && end == start + 8 <= 32 <= |e| && AllHex(e[..32])
    ensures var s, v := e[mid..end] + e[start..mid], SwappedValue(e, start);
            && ParseInt(s) == (if v <= INT32_MAX then Success(v) else Failure(NumberFormat))
            && ParseLong(s) == Success(v)
  {
    var hi, lo := e[mid..end], e[start..mid];
    HexSlice(e, mid, end);
    HexSlice(e, start, mid);
    assert Pow16(4) == 0x10000;
    HexValueConcat(hi, lo);
  }

  lemma HexSlice(e: string, i: nat, j: nat)
    requires i <= j <= 32 <= |e| && AllHex(e[..32])
    ensures AllHex(e[i..j])
  {
    assert forall k :: 0 <= k < j - i ==> e[i..j][k] == e[..32][i + k];
  }

  /** The five slices a successful decode has parsed were each accepted by Java's radix-16 parser. */
  lemma ParsedSlices(parentLog: string, insertQuery: Option<string>, event: string)
    requires Parse(parentLog, insertQuery, event).Success?
    ensures var e := StripDashes(event);
            |e| >= 32 &&
            ParseRadix16(e[0..4]).Success? && ParseRadix16(e[4..8]).Success? &&
            ParseRadix16(e[12..16] + e[8..12]).Success? && ParseRadix16(e[20..24] + e[16..20]).Success? &&
            ParseRadix16(e[28..32] + e[24..28]).Success?
  {
  }

  /** The characters a successful decode has read: hex digits, or a '+' sign where a parsed slice begins. */
  lemma ParseAcceptsOnlyHex(parentLog: string, insertQuery: Option<string>, event: string)
    requires Parse(parentLog, insertQuery, event).Success?
    ensures var e := StripDashes(event);
            forall i :: 0 <= i < 32 ==> IsHexDigit(e[i]) || (e[i] == '+' && i in {0, 4, 12, 20, 28})
  {
    ParsedSlices(parentLog, insertQuery, event);
    RecordChars(StripDashes(event));
  }

  /** Java's parsers take a '+' at the start of a record's first slice as a sign: the record decodes as if it were a '0'. */
  lemma PlusSignAccepted(parentLog: string, insertQuery: Option<string>, rest: string)
    requires '-' !in rest && |rest| >= 31
    ensures Parse(parentLog, insertQuery, "+" + rest) == Parse(parentLog, insertQuery, "0" + rest)
  {
    var a, b := "+" + rest, "0" + rest;
    assert a[0..4] == "+" + rest[0..3] && b[0..4] == "0" + rest[0..3];
    assert a[4..] == rest[3..] == b[4..];
    PlusReadsAsZero(rest[0..3]);
    SliceAfterFirst(a, b, 4, 8);
    SliceAfterFirst(a, b, 8, 12);
    SliceAfterFirst(a, b, 12, 16);
    SliceAfterFirst(a, b, 16, 20);
    SliceAfterFirst(a, b, 20, 24);
    SliceAfterFirst(a, b, 24, 28);
    SliceAfterFirst(a, b, 28, 32);
    FullRecordsAgree(parentLog, insertQuery, a, b);
  }

  /** Full-length separator-free records whose five slices agree decode alike. */
  lemma FullRecordsAgree(parentLog: string, insertQuery: Option<string>, a: string, b: string)
    requires '-' !in a && '-' !in b && |a| >= 32 && |b| >= 32
    requires ParseLong(a[0..4]) == ParseLong(b[0..4]) && a[4..8] == b[4..8] && a[8..12] == b[8..12]
    requires a[12..16] == b[12..16] && a[16..20] == b[16..20] && a[20..24] == b[20..24]
    requires a[24..28] == b[24..28] && a[28..32] == b[28..32]
    ensures Parse(parentLog, insertQuery, a) == Parse(parentLog, insertQuery, b)
  {
    assert StripDashes(a) == a && StripDashes(b) == b;
    assert ParseLong(a[4..8]) == ParseLong(b[4..8]);
    assert ParseInt(a[12..16] + a[8..12]) == ParseInt(b[12..16] + b[8..12]);
    assert ParseInt(a[20..24] + a[16..20]) == ParseInt(b[20..24] + b[16..20]);
    assert ParseLong(a[28..32] + a[24..28]) == ParseLong(b[28..32] + b[24..28]);
  }

  lemma SliceAfterFirst(a: string, b: string, k: nat, m: nat)
    requires |a| == |b| && 4 <= k <= m <= |a| && a[4..] == b[4..]
    ensures a[k..m] == b[k..m]
  {
    assert a[k..m] == a[4..][k - 4..m - 4];
    assert b[k..m] == b[4..][k - 4..m - 4];
  }

  /** Character-level reading of the five accepted slices of a separator-free record. */
  lemma RecordChars(e: string)
    requires '-' !in e && |e| >= 32
    requires ParseRadix16(e[0..4]).Success? && ParseRadix16(e[4..8]).Success?
    requires ParseRadix16(e[12..16] + e[8..12]).Success? && ParseRadix16(e[20..24] + e[16..20]).Success?
    requires ParseRadix16(e[28..32] + e[24..28]).Success?
    ensures forall i :: 0 <= i < 32 ==> IsHexDigit(e[i]) || (e[i] == '+' && i in {0, 4, 12, 20, 28})
  {
    WordChars(e, 0, 4);
    WordChars(e, 4, 8);
    SwappedChars(e, 8, 12, 16);
    SwappedChars(e, 16, 20, 24);
    SwappedChars(e, 24, 28, 32);
  }

  /** The characters of an accepted plain slice: digits, or a '+' at its start. */
  lemma WordChars(e: string, start: nat, end: nat)
    requires '-' !in e && start <= end <= |e|
    requires ParseRadix16(e[start..end]).Success?
    ensures forall i :: start <= i < end ==> IsHexDigit(e[i]) || (i == start && e[i] == '+')
  {
    var s := e[start..end];
    SliceChars(e, s);
    assert forall i :: start <= i < end ==> e[i] == s[i - start];
  }

  /** The characters of an accepted word-swapped slice: digits, or a '+' where its high word starts. */
  lemma SwappedChars(e: string, start: nat, mid: nat, end: nat)
    requires '-' !in e && start <= mid < end <= |e|
    requires ParseRadix16(e[mid..end] + e[start..mid]).Success?
    ensures forall i :: start <= i < end ==> IsHexDigit(e[i]) || (i == mid && e[i] == '+')
  {
    var s := e[mid..end] + e[start..mid];
    SliceChars(e, s);
    assert forall i :: mid <= i < end ==> e[i] == s[i - mid];
    assert forall i :: start <= i < mid ==> e[i] == s[end - mid + i - start];
  }

  /** Every character of a slice that Java's radix-16 parser accepted is a digit or a leading '+'. */
  lemma SliceChars(e: string, s: string)
    requires '-' !in e && (forall k :: 0 <= k < |s| ==> s[k] in e)
    requires ParseRadix16(s).Success?
    ensures forall k :: 0 <= k < |s| ==> IsHexDigit(s[k]) || (k == 0 && s[k] == '+')
  {
    assert '-' !in s;
    if !AllHex(s) {
      assert forall k :: 1 <= k < |s| ==> s[k] == s[1..][k - 1];
    }
  }

  /** Bits 12-15 of word A and bits 10-13 of word B (and anything above bit 15) do not affect the event. */
  lemma UnusedBitsIgnored(parentLog: string, insertQuery: Option<string>, a: Int64, a': Int64,
                          b: Int64, b': Int64, seconds: Int32, sequenceNumber: Int32, coincident: Int64)
    requires a % 4096 == a' % 4096
    requires b % 1024 == b' % 1024 && (b / 16384) % 4 == (b' / 16384) % 4
    ensures FromWords(parentLog, insertQuery, a, b, seconds, sequenceNumber, coincident)
         == FromWords(parentLog, insertQuery, a', b, seconds, sequenceNumber, coincident)
         == FromWords(parentLog, insertQuery, a', b', seconds, sequenceNumber, coincident)
  {
    LowFields(a);
    LowFields(a');
  }

  /** Each descriptor field of word A is determined by the word's low 12 bits. */
  lemma LowFields(a: int)
    ensures var r := a % 4096;
            a % 32 == r % 32 && (a / 32) % 32 == (r / 32) % 32 &&
            (a / 1024) % 2 == (r / 1024) % 2 && (a / 2048) % 2 == (r / 2048) % 2
  {
    var c, t := a % 32, a / 32;
    var i, u := t % 32, t / 32;
    var s, w := u % 2, u / 2;
    var d, z := w % 2, w / 2;
    DescriptorBits(a);
    DescriptorFieldsOf(c, i, s, d);
    assert a / 1024 == u by { assert a == 1024 * u + (32 * i + c); }
    assert a / 2048 == w by { assert a == 2048 * w + (1024 * s + 32 * i + c); }
  }

  // ---------------------------------------------------------------- encoding

  /** One 16-bit word as four upper-case hex digits. */
  function Word(v: nat): (s: string)
    requires v < 0x10000
    ensures |s| == 4 && AllHex(s) && HexValue(s) == v
  {
    assert Pow16(4) == 0x10000;
    ToHex(v, 4)
  }

  /** A 32-bit value as the device sends it: the low word first, then the high word. */
  function SwappedWords(v: nat): (s: string)
    requires v < 0x1_0000_0000
    ensures |s| == 8 && AllHex(s)
    ensures HexValue(s[4..]) * 0x10000 + HexValue(s[..4]) == v
  {
    var lo, hi := Word(v % 0x10000), Word(v / 0x10000);
    assert (lo + hi)[..4] == lo && (lo + hi)[4..] == hi;
    lo + hi
  }

  /** Descriptor word A built from its four fields. */
  function DescriptorA(code: EventCode, channel: int, status: InputStatus, dst: Dst): (a: nat)
    requires 1 <= channel <= 32
    ensures a < 4096
  {
    code + 32 * (channel - 1) + 1024 * status.Ordinal() + 2048 * dst.Ordinal()
  }

  /** Descriptor word B built from its two fields. */
  function DescriptorB(quality: TimeQuality, ms: int): (b: nat)
    requires 0 <= ms < 1024
    ensures b < 0x10000
  {
    ms + 16384 * quality.Ordinal()
  }

  /** The record an SER device would send for the given fields (no separators). */
  function EncodeRecord(code: EventCode, channel: int, status: InputStatus, dst: Dst, quality: TimeQuality,
                        ms: int, seconds: int, sequenceNumber: int, coincident: int): (s: string)
    requires 1 <= channel <= 32 && 0 <= ms < 1024
    requires 0 <= seconds < 0x1_0000_0000 && 0 <= sequenceNumber < 0x1_0000_0000
    requires 0 <= coincident < 0x1_0000_0000
    ensures |s| == 32 && AllHex(s)
  {
    Word(DescriptorA(code, channel, status, dst)) + Word(DescriptorB(quality, ms))
    + SwappedWords(seconds) + SwappedWords(sequenceNumber) + SwappedWords(coincident)
  }

  /** Decoding an encoded record gives back its fields, with the 1984 epoch and the `int` seconds sum applied. */
  lemma ParseEncodeRecord(parentLog: string, insertQuery: Option<string>, code: EventCode, channel: int,
                          status: InputStatus, dst: Dst, quality: TimeQuality,
                          ms: int, seconds: int, sequenceNumber: int, coincident: int)
    requires 1 <= channel <= 32 && 0 <= ms < 1024
    requires 0 <= seconds < 0x1_0000_0000 && 0 <= sequenceNumber < 0x1_0000_0000
    requires 0 <= coincident < 0x1_0000_0000
    ensures seconds > INT32_MAX || sequenceNumber > INT32_MAX ==>
              Parse(parentLog, insertQuery, EncodeRecord(code, channel, status, dst, quality,
                                                         ms, seconds, sequenceNumber, coincident))
              == Failure(NumberFormat)
    ensures seconds <= INT32_MAX && sequenceNumber <= INT32_MAX ==>
              Parse(parentLog, insertQuery, EncodeRecord(code, channel, status, dst, quality,
                                                         ms, seconds, sequenceNumber, coincident))
              == Success(Event(parentLog, insertQuery, code, channel, sequenceNumber, coincident,
                               status, dst, quality, Wrap32(EPOCH_OFFSET_SECONDS + seconds) * 1000 + ms))
  {
    var e := EncodeRecord(code, channel, status, dst, quality, ms, seconds, sequenceNumber, coincident);
    var a, b := DescriptorA(code, channel, status, dst), DescriptorB(quality, ms);
    FiveSlices(Word(a), Word(b), SwappedWords(seconds), SwappedWords(sequenceNumber), SwappedWords(coincident));
    ParseOfWords(parentLog, insertQuery, e, a, b, seconds, sequenceNumber, coincident);
    if seconds <= INT32_MAX && sequenceNumber <= INT32_MAX {
      FromEncodedWords(parentLog, insertQuery, code, channel, status, dst, quality,
                       ms, seconds, sequenceNumber, coincident);
      assert Parse(parentLog, insertQuery, e)
          == Success(Event(parentLog, insertQuery, code, channel, sequenceNumber, coincident,
                           status, dst, quality, Wrap32(EPOCH_OFFSET_SECONDS + seconds) * 1000 + ms));
    } else {
      assert Parse(parentLog, insertQuery, e) == Failure(NumberFormat);
    }
  }

  /** Decoding a record of hex digits given the words it carries. */
  lemma ParseOfWords(parentLog: string, insertQuery: Option<string>, e: string,
                     a: nat, b: nat, seconds: nat, sequenceNumber: nat, coincident: nat)
    requires a < 0x10000 && b < 0x10000
    requires seconds < 0x1_0000_0000 && sequenceNumber < 0x1_0000_0000 && coincident < 0x1_0000_0000
    requires |e| == 32 && AllHex(e)
    requires e[0..4] == Word(a) && e[4..8] == Word(b) && e[8..16] == SwappedWords(seconds)
    requires e[16..24] == SwappedWords(sequenceNumber) && e[24..32] == SwappedWords(coincident)
    ensures Parse(parentLog, insertQuery, e) ==
              if seconds > INT32_MAX || sequenceNumber > INT32_MAX then Failure(NumberFormat)
              else Success(FromWords(parentLog, insertQuery, a, b, seconds, sequenceNumber, coincident))
  {
    assert '-' !in e by {
      forall k | 0 <= k < |e| ensures e[k] != '-' { assert IsHexDigit(e[k]); }
    }
    assert e[..32] == e;
    SwappedAt(e, 8, seconds);
    SwappedAt(e, 16, sequenceNumber);
    SwappedAt(e, 24, coincident);
    ParseWellFormed(parentLog, insertQuery, e);
  }

  lemma FiveSlices(w0: string, w1: string, w2: string, w3: string, w4: string)
    requires |w0| == |w1| == 4 && |w2| == |w3| == |w4| == 8
    ensures var e := w0 + w1 + w2 + w3 + w4;
            e[0..4] == w0 && e[4..8] == w1 && e[8..16] == w2 && e[16..24] == w3 && e[24..32] == w4
  {
    var e := w0 + w1 + w2 + w3 + w4;
    assert e[0..4] == w0;
    assert e[4..8] == w1;
    assert e[8..16] == w2;
    assert e[16..24] == w3;
    assert e[24..32] == w4;
  }

  /** The word-swapped field at `start` reads back as the value that was written there. */
  lemma SwappedAt(e: string, start: nat, v: nat)
    requires v < 0x1_0000_0000 && start + 8 <= 32 <= |e| && AllHex(e[..32])
    requires e[start..start + 8] == SwappedWords(v)
    ensures SwappedValue(e, start) == v
  {
    var w := SwappedWords(v);
    assert w[4..] == e[start + 4..start + 8] && w[..4] == e[start..start + 4];
  }

  /** The event built from the words of an encoded record holds the encoded fields. */
  lemma FromEncodedWords(parentLog: string, insertQuery: Option<string>, code: EventCode, channel: int,
                         status: InputStatus, dst: Dst, quality: TimeQuality,
                         ms: int, seconds: int, sequenceNumber: int, coincident: int)
    requires 1 <= channel <= 32 && 0 <= ms < 1024
    requires 0 <= seconds <= INT32_MAX && 0 <= sequenceNumber <= INT32_MAX
    requires 0 <= coincident < 0x1_0000_0000
    ensures FromWords(parentLog, insertQuery, DescriptorA(code, channel, status, dst),
                      DescriptorB(quality, ms), seconds, sequenceNumber, coincident)
         == Event(parentLog, insertQuery, code, channel, sequenceNumber, coincident,
                  status, dst, quality, Wrap32(EPOCH_OFFSET_SECONDS + seconds) * 1000 + ms)
  {
    var b := DescriptorB(quality, ms);
    DescriptorFieldsOf(code, channel - 1, status.Ordinal(), dst.Ordinal());
    assert b / 16384 == quality.Ordinal();
    assert b % 1024 == ms by { assert b == 1024 * (16 * quality.Ordinal()) + ms; }
  }

  /** Reading the fields back out of a descriptor word built from them. */
  lemma DescriptorFieldsOf(code: int, input: int, status: int, dst: int)
    requires 0 <= code < 32 && 0 <= input < 32 && 0 <= status < 2 && 0 <= dst < 2
    ensures var a := code + 32 * input + 1024 * status + 2048 * dst;
            a % 32 == code && (a / 32) % 32 == input && (a / 1024) % 2 == status && (a / 2048) % 2 == dst
  {
    var a := code + 32 * input + 1024 * status + 2048 * dst;
    assert a / 32 == input + 32 * status + 64 * dst;
    assert a / 1024 == status + 2 * dst;
    assert a / 2048 == dst;
  }
}
