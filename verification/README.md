# SER gateway device model

A Dafny model of the core of the Cyber Sciences SER (sequence-of-events recorder) module for the
Ignition gateway. The module polls each SER device over HTTPS. It decodes the hex event records the
device keeps in its 8192-record ring buffer, hands them to history storage, and publishes channel
states and status values as tags.

The model covers two parts:

- **The event-record decoder** (`EventParser.parse` and the `Event` value). `EventParser.Parse` is a
  pure function over strings. It removes the `-` separators, reads the five hex slices with Java's
  radix-16 `parseLong`/`parseInt`, and extracts the bit fields. A malformed record gives the Java
  exception it would raise, in Java's evaluation order, for records whose characters are all in the
  Basic Multilingual Plane (see "Left out" on string indexing). The lemmas state which bits each field comes
  from. They also state the decode of a well-formed record and the round trip from an encoded
  record back to its fields.
- **The per-device state** (`SERDevice`), as the class `SerDevice.Device`. Its fields are the device
  and datasource statuses, the datasource retry gate, the channel configuration map and the device's
  tag folder (a map). Two ghost logs record the `/events?record=..&count=..` requests made and the
  events handed to history storage. `getEvents` is a method with a loop, proved against the pure
  specification `Harvest.EventsCycle`. That specification is built on the window planner
  `EventWindows.Plan`, which is shown to tile the new events in the ring exactly. `getChannelInfo`
  and `getChannelData` are loops proved against the tag writes they make. `Channels` proves that
  each channel's tags show its bit of the status word.

Every answer from the device is a parameter of the method that asks for it. This covers `/diag`
success, the channel configuration, the status word and readings, the `/events/last` snapshot and
the records of each window. So are the gateway's datasource lookup and the clock (`now`).

Where the code and its surrounding description differ, the model follows the code:

- The baseline written at the end of a harvest is the status snapshot's `LastSequenceNumber`. It is
  not the sequence number of the last decoded event.
- The number of new events is a signed `int` difference. A device whose sequence number went down
  fetches nothing, yet the new snapshot still becomes the baseline. This holds while both sequence
  numbers are non-negative. Beyond that the difference wraps like Java's `int`: baseline 2^31-1 with
  LastSequenceNumber -2 gives 8192, a full-ring fetch (`EventWindows.NewEventCountWraps`).
- Java's radix-16 parsers accept a leading `+`. So a record with a `+` at the start of a parsed
  slice decodes: a `+` at the start of a record reads as a `0` (`EventParser.PlusSignAccepted`).
- A record that does not decode throws out of `getEvents`. This ends the whole cycle, not just
  that record: the events already stored stay stored, and no tags are written.

## Model

| member | source | states |
|---|---|---|
| JavaNum.Wrap32 | SER-gateway/src/main/java/org/imdc/cybersciences/ser/EventParser.java:27 | Java `int` addition: the result agrees with the exact sum modulo 2^32. It is the sum itself when that fits, and the sum minus 2^32 when it overflows by less than 2^32. |
| JavaNum.ParseRadix16 | SER-gateway/src/main/java/org/imdc/cybersciences/ser/EventParser.java:16-17 | `parseLong(s, 16)` before its range check. It succeeds exactly on an optional sign followed by one or more hex digits, and a digit string reads as its hex value. |
| JavaNum.PlusReadsAsZero | SER-gateway/src/main/java/org/imdc/cybersciences/ser/EventParser.java:16 | In Java's radix-16 parser a leading `+` reads as a leading zero: both succeed or fail together, with the same value. |
| JavaNum.ParseLong | SER-gateway/src/main/java/org/imdc/cybersciences/ser/EventParser.java:16-17 | A digit string parses to its value, or throws NumberFormatException once the value exceeds the `long` range. |
| JavaNum.ParseInt | SER-gateway/src/main/java/org/imdc/cybersciences/ser/EventParser.java:27-30 | A digit string parses to its value, or throws NumberFormatException once the value exceeds 2^31-1. |
| JavaNum.HexValueConcat | SER-gateway/src/main/java/org/imdc/cybersciences/ser/EventParser.java:27 | Reading two digit strings one after the other: value(a+b) = value(a)·16^|b| + value(b). |
| JavaNum.ToHex | SER-gateway/src/main/java/org/imdc/cybersciences/ser/EventParser.java:16-17 | The n-digit hex spelling of v reads back as v (the inverse of the hex reader). |
| JavaNum.DecimalString | SER-gateway/src/main/java/org/imdc/cybersciences/ser/SERDevice.java:493-494 | `Integer.toString` of a non-negative value: decimal digits that read back as the value, in canonical form (one digit exactly below 10, no leading zero for a positive value). |
| JavaNum.LeftPad | SER-gateway/src/main/java/org/imdc/cybersciences/ser/SERDevice.java:494 | `leftPad(s, size, pad)`: a string already long enough is unchanged. A shorter one becomes `size` long, ends with s and is padded in front. |
| JavaNum.LeftPadZerosValue | SER-gateway/src/main/java/org/imdc/cybersciences/ser/SERDevice.java:494 | Zero padding does not change the number the digits spell. |
| EventParser.StripDashes | SER-gateway/src/main/java/org/imdc/cybersciences/ser/EventParser.java:14 | `replace("-", "")`: no `-` is left. Every other character keeps its count, and a string without `-` is unchanged. |
| EventParser.StripDashesConcat | SER-gateway/src/main/java/org/imdc/cybersciences/ser/EventParser.java:14 | Removing separators commutes with concatenation, so the other characters keep their order. |
| EventParser.FromWords | SER-gateway/src/main/java/org/imdc/cybersciences/ser/EventParser.java:19-57 | The Event built from the parsed words. Its channel is always 1..32 (the +1 of the constructor). The sequence number, coincident status, parent log and insert query are carried over unchanged. |
| EventParser.FromWordsFields | SER-gateway/src/main/java/org/imdc/cybersciences/ser/EventParser.java:19-28 | The code, channel-1, input status and DST fields together are exactly the low 12 bits of word A. ms = low 10 bits of word B, not reduced mod 1000. Time = (441792000 + S)·1000 + ms while the `int` sum fits, and negative once it wraps. |
| EventParser.DescriptorBits | SER-gateway/src/main/java/org/imdc/cybersciences/ser/EventParser.java:19-22 | The four descriptor fields of word A (bits 0-4, 5-9, 10, 11) exactly partition its low 12 bits. |
| EventParser.UnusedBitsIgnored | SER-gateway/src/main/java/org/imdc/cybersciences/ser/EventParser.java:19-26 | Bits 12-15 of word A and bits 10-13 of word B do not affect the event. |
| EventParser.Parse | SER-gateway/src/main/java/org/imdc/cybersciences/ser/EventParser.java:13-34 | `parse`: a decode succeeds only on at least 32 characters once separators are removed. The decoded sequence number is never negative, and the coincident status lies in 0..2^32-1. |
| EventParser.ParseWellFormed | SER-gateway/src/main/java/org/imdc/cybersciences/ser/EventParser.java:13-34 | A record whose first 32 separator-free characters are hex digits decodes to the fields of its words, with later characters ignored. It throws NumberFormatException exactly when the seconds or sequence number is 2^31 or more. |
| EventParser.HexWords | SER-gateway/src/main/java/org/imdc/cybersciences/ser/EventParser.java:16-31 | What each of the five slices parses to: the two plain 16-bit words and the three word-swapped 32-bit values, the high word read first. |
| EventParser.SwappedSliceFacts | SER-gateway/src/main/java/org/imdc/cybersciences/ser/EventParser.java:30-31 | A word-swapped 8-character slice of a separator-free record parses to a value in [0, 2^32). |
| EventParser.ParsedSlices | SER-gateway/src/main/java/org/imdc/cybersciences/ser/EventParser.java:14-31 | A successful decode has at least 32 characters after separators are removed, and each of its five slices was accepted by Java's radix-16 parser. |
| EventParser.PlusSignAccepted | SER-gateway/src/main/java/org/imdc/cybersciences/ser/EventParser.java:14-31 | A full-length separator-free record that starts with `+` decodes exactly as the record with a `0` in its place, success and exception alike. |
| EventParser.FullRecordsAgree | SER-gateway/src/main/java/org/imdc/cybersciences/ser/EventParser.java:14-31 | Two separator-free records of at least 32 characters decode alike when their first slices parse alike and their characters 4 to 31 agree. |
| EventParser.ParseAcceptsOnlyHex | SER-gateway/src/main/java/org/imdc/cybersciences/ser/EventParser.java:14-31 | Every one of the 32 characters a successful decode read is a hex digit, or a `+` where a parsed slice begins. |
| EventParser.Word | SER-gateway/src/main/java/org/imdc/cybersciences/ser/EventParser.java:16-17 | A 16-bit word written as four hex digits reads back as the word. |
| EventParser.SwappedWords | SER-gateway/src/main/java/org/imdc/cybersciences/ser/EventParser.java:27-31 | A 32-bit value in the device's low-word-first layout: swapping the words back gives the value. |
| EventParser.DescriptorA | SER-gateway/src/main/java/org/imdc/cybersciences/ser/EventParser.java:19-22 | Word A built from its four fields fits in 12 bits. |
| EventParser.DescriptorB | SER-gateway/src/main/java/org/imdc/cybersciences/ser/EventParser.java:24-26 | Word B built from ms and time quality fits in 16 bits. |
| EventParser.EncodeRecord | SER-gateway/src/main/java/org/imdc/cybersciences/ser/EventParser.java:16-31 | The record a device sends for given fields is 32 hex digits. |
| EventParser.ParseEncodeRecord | SER-gateway/src/main/java/org/imdc/cybersciences/ser/EventParser.java:13-57 | Round trip: decoding an encoded record gives back every field, with the 1984 epoch and the `int` seconds sum applied. It throws NumberFormatException exactly when the seconds or sequence number does not fit an `int`. |
| EventParser.ParseOfWords | SER-gateway/src/main/java/org/imdc/cybersciences/ser/EventParser.java:13-34 | Decoding a record of hex digits from the words written into it. |
| EventParser.FromEncodedWords | SER-gateway/src/main/java/org/imdc/cybersciences/ser/EventParser.java:19-33 | The fields extracted from descriptor words built from given fields are those fields. |
| EventParser.DescriptorFieldsOf | SER-gateway/src/main/java/org/imdc/cybersciences/ser/EventParser.java:19-22 | Reading the shifted and masked fields back out of word A built from them. |
| EventWindows.NewEventCount | SER-gateway/src/main/java/org/imdc/cybersciences/ser/SERDevice.java:521-531 | diff is at most 8192, and 0 when the sequence number is unchanged. With no baseline it is min(LastSequenceNumber, 8192). With a baseline, the difference is taken in Java `int` arithmetic, for every input: min(LastSequenceNumber - baseline, 8192) when the true difference fits an `int`, otherwise that difference wrapped by 2^32 and then capped. For non-negative sequence numbers it never wraps, so it is negative exactly when the sequence number went down. |
| EventWindows.NewEventCountWraps | SER-gateway/src/main/java/org/imdc/cybersciences/ser/SERDevice.java:526-531 | The wrap shows: baseline 2^31-1 with LastSequenceNumber -2 gives 8192, a full-ring fetch, and baseline -2 with LastSequenceNumber 2^31-1 gives a negative diff, so nothing is fetched. |
| EventWindows.WindowCount | SER-gateway/src/main/java/org/imdc/cybersciences/ser/SERDevice.java:534 | ceil(diff/100): the least n with 100·n ≥ diff. |
| EventWindows.LeftOver | SER-gateway/src/main/java/org/imdc/cybersciences/ser/SERDevice.java:535 | The last window's count, diff - 100·(n-1), lies in 1..100. |
| EventWindows.FirstRecord | SER-gateway/src/main/java/org/imdc/cybersciences/ser/SERDevice.java:536-539 | For 0 ≤ LastRecord < 8192 and 1 ≤ diff ≤ 8192, one wrap suffices. The start is (LastRecord - diff + 1) mod 8192, in [0, 8192). |
| EventWindows.Advance | SER-gateway/src/main/java/org/imdc/cybersciences/ser/SERDevice.java:554-557 | The next start, (start + count) mod 8192, stays in [0, 8192). |
| EventWindows.PlanFrom | SER-gateway/src/main/java/org/imdc/cybersciences/ser/SERDevice.java:542-558 | The remaining iterations i..n-1 make n - i requests. |
| EventWindows.PlanStep | SER-gateway/src/main/java/org/imdc/cybersciences/ser/SERDevice.java:543-557 | Unfolding of the definition: iteration i requests `count` records at the current start, and the rest of the plan continues from the advanced start. |
| EventWindows.PlanFromWindows | SER-gateway/src/main/java/org/imdc/cybersciences/ser/SERDevice.java:541-558 | When iteration i starts at base + 100·i around the ring, request k of the rest starts at base + 100·(i+k) around the ring with count CountAt(i+k). |
| EventWindows.ShapedCoverage | SER-gateway/src/main/java/org/imdc/cybersciences/ser/SERDevice.java:541-558 | Requests of that shape ask for 100·(n-1-i) + leftOver records and read that many consecutive ring slots. |
| EventWindows.PlanShape | SER-gateway/src/main/java/org/imdc/cybersciences/ser/SERDevice.java:533-543 | There are ceil(diff/100) windows, each of count 100 except the last, which has 1..100. The counts sum to diff. |
| EventWindows.PlanStarts | SER-gateway/src/main/java/org/imdc/cybersciences/ser/SERDevice.java:536-557 | Window k starts at (LastRecord - diff + 1 + 100·k) mod 8192, in [0, 8192). |
| EventWindows.PlanCovers | SER-gateway/src/main/java/org/imdc/cybersciences/ser/SERDevice.java:533-558 | The windows tile exactly the diff ring slots ending at LastRecord, each read once, oldest first and LastRecord last. |
| EventWindows.NoNewEventsNoRequests | SER-gateway/src/main/java/org/imdc/cybersciences/ser/SERDevice.java:533 | Unfolding of the definition: when diff ≤ 0, negative included, nothing is requested. |
| EventWindows.BacklogIsCapped | SER-gateway/src/main/java/org/imdc/cybersciences/ser/SERDevice.java:529-531 | A baseline a full ring or more behind gives diff = 8192, and the windows read the whole ring starting just after LastRecord. |
| Tags.LastWrite | SER-gateway/src/main/java/org/imdc/cybersciences/ser/SERDevice.java:150-152 | The last write to a path, present exactly when some write touched that path. |
| Tags.ApplyWritesLookup | SER-gateway/src/main/java/org/imdc/cybersciences/ser/SERDevice.java:150-152 | After a sequence of `updateTag` calls, a tag reads back the last value written to it, or its old value when nothing was written to it. |
| Tags.ApplyWritesConcat | SER-gateway/src/main/java/org/imdc/cybersciences/ser/SERDevice.java:150-152 | Applying two batches of writes is applying their concatenation. |
| Tags.WritesElsewhere | SER-gateway/src/main/java/org/imdc/cybersciences/ser/SERDevice.java:150-152 | Writes to other paths leave a tag as it was. |
| Tags.ApplyWritesCommute | SER-gateway/src/main/java/org/imdc/cybersciences/ser/SERDevice.java:150-152 | An update at a path no write touches commutes with the writes. |
| Harvest.ParseRecords | SER-gateway/src/main/java/org/imdc/cybersciences/ser/SERDevice.java:548-552 | The records of one response are decoded in order until one throws. A batch without an error holds one event per record, and one that stopped holds fewer. |
| Harvest.ParseRecordsDecoded | SER-gateway/src/main/java/org/imdc/cybersciences/ser/SERDevice.java:548-552 | Event k of a batch is the decoding of record k, and a batch that stopped did so at the first record that fails to decode. |
| Harvest.ParseRecordsStops | SER-gateway/src/main/java/org/imdc/cybersciences/ser/SERDevice.java:548-552 | Once a record fails, the later records change nothing. |
| Harvest.HarvestWindows | SER-gateway/src/main/java/org/imdc/cybersciences/ser/SERDevice.java:542-558 | The requests made are a prefix of the plan. All of the plan is requested when nothing throws, and at least one request is made before anything throws. |
| Harvest.HarvestStops | SER-gateway/src/main/java/org/imdc/cybersciences/ser/SERDevice.java:542-558 | Once a window throws, the later windows change nothing. |
| Harvest.HarvestSingle | SER-gateway/src/main/java/org/imdc/cybersciences/ser/SERDevice.java:545-552 | Unfolding of the definition: one window: it is requested, and either the request fails or its records are decoded and stored until one throws. |
| Harvest.HarvestExtend | SER-gateway/src/main/java/org/imdc/cybersciences/ser/SERDevice.java:542-558 | One more window extends a fault-free harvest by what that window alone gives. |
| Harvest.WindowStep | SER-gateway/src/main/java/org/imdc/cybersciences/ser/SERDevice.java:542-558 | One loop step: after a fault-free prefix, the next window either extends it fault-free or ends the whole harvest with its own exception. |
| Harvest.HarvestStoresAll | SER-gateway/src/main/java/org/imdc/cybersciences/ser/SERDevice.java:542-558 | A harvest without an exception stored exactly the decodings of every record of every response, in the order they were returned. |
| Harvest.HarvestCount | SER-gateway/src/main/java/org/imdc/cybersciences/ser/SERDevice.java:543-552 | When every response holds as many records as its window asks for, a fault-free harvest stores exactly the sum of the counts. |
| Harvest.EventsCycle | SER-gateway/src/main/java/org/imdc/cybersciences/ser/SERDevice.java:518-569 | `getEvents` as a function of the snapshot, the tag folder and the device's answers. A cycle that throws writes no tags. |
| Harvest.CompletedCycleWrites | SER-gateway/src/main/java/org/imdc/cybersciences/ser/SERDevice.java:560-568 | Unfolding of the definition: a fault-free cycle writes the last stored event's LastEvent tags, if any event was stored, and then the four EventStatus tags. |
| Harvest.CompletedCycleTags | SER-gateway/src/main/java/org/imdc/cybersciences/ser/SERDevice.java:560-568 | Writing the LastEvent folder once the loop completes and then the status tags gives the folder the cycle specifies. |
| Harvest.CycleOfHarvest | SER-gateway/src/main/java/org/imdc/cybersciences/ser/SERDevice.java:518-569 | Unfolding of the definition: once the baseline reads back, a cycle is the harvest of its plan, followed by the tag writes only when nothing threw. |
| Harvest.CycleReadsOnlyBaseline | SER-gateway/src/main/java/org/imdc/cybersciences/ser/SERDevice.java:522 | The tag folder enters a cycle only through the baseline tag. |
| Harvest.FailedCycleKeepsPlan | SER-gateway/src/main/java/org/imdc/cybersciences/ser/SERDevice.java:541-568 | A cycle that throws leaves the baseline unchanged, so the next cycle plans the same windows. The windows it did request were a prefix of that plan. |
| Harvest.CompletedCycleSetsBaseline | SER-gateway/src/main/java/org/imdc/cybersciences/ser/SERDevice.java:565-568 | A fault-free cycle requested its whole plan and leaves the snapshot's LastSequenceNumber as the baseline. |
| Harvest.RepeatedCycleRequestsNothing | SER-gateway/src/main/java/org/imdc/cybersciences/ser/SERDevice.java:521-568 | Polling again after a fault-free cycle with the same snapshot requests and stores nothing and only republishes the status. |
| Harvest.NoNewEventsRepublishes | SER-gateway/src/main/java/org/imdc/cybersciences/ser/SERDevice.java:533-568 | With diff ≤ 0 nothing is requested or stored, and the four EventStatus tags are still written. |
| Harvest.LastEventPublished | SER-gateway/src/main/java/org/imdc/cybersciences/ser/SERDevice.java:541-562 | After a fault-free cycle that stored events, every LastEvent tag holds the field of the last stored event. |
| Harvest.LastEventTags | SER-gateway/src/main/java/org/imdc/cybersciences/ser/EventParser.java:95-104 | The eight LastEvent tags and the EventStatus tags lie at distinct paths, so each LastEvent tag reads back what was written to it. |
| Channels.ChannelId | SER-gateway/src/main/java/org/imdc/cybersciences/ser/SERDevice.java:493-494 | Channel index i is published under a zero-padded decimal id that spells i+1, two characters long for the first 99 channels, with a leading zero exactly for the first nine. |
| Channels.ChannelIdInjective | SER-gateway/src/main/java/org/imdc/cybersciences/ser/SERDevice.java:493-494 | Different channel indexes get different ids. |
| Channels.ConfigFor | SER-gateway/src/main/java/org/imdc/cybersciences/ser/SERDevice.java:497 | The registered config, or the default (id, "", "Off", "On"). In a map that files each entry under its own id, the result's channel is always the id asked for. |
| Channels.ChannelBitsSpellStatus | SER-gateway/src/main/java/org/imdc/cybersciences/ser/SERDevice.java:501 | The channel bits read back the status word: the first n ≤ 64 of them spell its low n bits, two's complement included. |
| Channels.DataWrites | SER-gateway/src/main/java/org/imdc/cybersciences/ser/SERDevice.java:492-509 | `getChannelData` makes five writes per reading. |
| Channels.AllInfoWrites | SER-gateway/src/main/java/org/imdc/cybersciences/ser/SERDevice.java:466-481 | `getChannelInfo` makes two writes per configuration entry. |
| Channels.InfoWritesStep | SER-gateway/src/main/java/org/imdc/cybersciences/ser/SERDevice.java:479-480 | One entry's two writes set its own Channel and Name tags and leave every other id's two tags as they were. |
| Channels.InfoWritesLookup | SER-gateway/src/main/java/org/imdc/cybersciences/ser/SERDevice.java:466-481 | Read-back: after `getChannelInfo`, an id some entry names shows that id and the name of the last entry naming it; an id no entry names keeps its old Channel and Name tags. |
| Channels.Register | SER-gateway/src/main/java/org/imdc/cybersciences/ser/SERDevice.java:472 | Every entry `put` into the configuration map is filed under its own channel id. Every other entry is one that was there before. |
| Channels.RegisterLookup | SER-gateway/src/main/java/org/imdc/cybersciences/ser/SERDevice.java:466-472 | After registering, an id maps to the last entry naming it. An id no entry names keeps what it mapped to before. |
| Channels.RegisterKeyed | SER-gateway/src/main/java/org/imdc/cybersciences/ser/SERDevice.java:472 | Registering keeps every entry filed under its own id. |
| Channels.ReadingPathsDistinct | SER-gateway/src/main/java/org/imdc/cybersciences/ser/SERDevice.java:499-508 | The five tags of one channel lie at five different paths. |
| Channels.ReadingPathsApart | SER-gateway/src/main/java/org/imdc/cybersciences/ser/SERDevice.java:493-508 | No tag of one channel lies at a path of another channel. |
| Channels.DataWritesLookup | SER-gateway/src/main/java/org/imdc/cybersciences/ser/SERDevice.java:492-509 | Each write of channel i survives the writes of every other channel. |
| Channels.ChannelTagsShowBits | SER-gateway/src/main/java/org/imdc/cybersciences/ser/SERDevice.java:497-508 | After `getChannelData`, the Value tag of channel i holds bit i of the status word. Its Status tag holds the configured on or off text. |
| Channels.InfoWritesInFolder | SER-gateway/src/main/java/org/imdc/cybersciences/ser/SERDevice.java:470-480 | `getChannelInfo` writes only under the channel folder. |
| Channels.DataWritesInFolder | SER-gateway/src/main/java/org/imdc/cybersciences/ser/SERDevice.java:499-508 | `getChannelData` writes only under the channel folder. |
| SerDevice.DisplaysDistinct | SER-gateway/src/main/java/org/imdc/cybersciences/ser/SERDevice.java:594-630 | Different statuses show different display texts, so the status tags tell them apart. |
| SerDevice.AttemptSucceedsWhen | SER-gateway/src/main/java/org/imdc/cybersciences/ser/SERDevice.java:95-142 | An attempt ends Valid exactly when the datasource exists, is enabled and, under autoCreate, its table checks out, and nothing threw. |
| SerDevice.ShowStatus | SER-gateway/src/main/java/org/imdc/cybersciences/ser/SERDevice.java:343-371 | The two status tags show the given statuses, and every other tag is unchanged. |
| SerDevice.ShowStatusShown | SER-gateway/src/main/java/org/imdc/cybersciences/ser/SERDevice.java:343-371 | Setting statuses the tags already show changes nothing. |
| SerDevice.ShowStatusTwice | SER-gateway/src/main/java/org/imdc/cybersciences/ser/SERDevice.java:343-371 | Setting statuses twice is the same as setting the later ones. |
| SerDevice.AvoidingWritesCommute | SER-gateway/src/main/java/org/imdc/cybersciences/ser/SERDevice.java:343-371 | Writes that avoid the status tags commute with the status setters. |
| SerDevice.CycleWritesAvoidStatus | SER-gateway/src/main/java/org/imdc/cybersciences/ser/SERDevice.java:560-568 | A harvest cycle never writes the status tags. |
| SerDevice.HarvestAfterShow | SER-gateway/src/main/java/org/imdc/cybersciences/ser/SERDevice.java:410-416 | Setting the statuses before a harvest changes neither what the harvest does nor, in the end, the tags it leaves. |
| SerDevice.ChannelRunWritesAvoidStatus | SER-gateway/src/main/java/org/imdc/cybersciences/ser/SERDevice.java:390-392 | A channel poll never writes the status tags. |
| SerDevice.ChannelRunShowsBits | SER-gateway/src/main/java/org/imdc/cybersciences/ser/SERDevice.java:385-510 | After a complete `channelRun`, each channel's Value tag holds its status bit and its Status tag the matching text of its registered configuration. |
| SerDevice.Device.constructor | SER-gateway/src/main/java/org/imdc/cybersciences/ser/SERDevice.java:56-73 | A new device has no status yet, an uninitialised datasource, last attempt time 0 and an empty configuration map. Its logger name is "SER.Device." + name. |
| SerDevice.Device.UpdateTag | SER-gateway/src/main/java/org/imdc/cybersciences/ser/SERDevice.java:150-152 | `updateTag` writes one tag of the device's folder. |
| SerDevice.Device.SetDeviceStatus | SER-gateway/src/main/java/org/imdc/cybersciences/ser/SERDevice.java:343-352 | The status is set. The status tag is written only when the status changes, and nothing else changes. |
| SerDevice.Device.SetDatasourceStatus | SER-gateway/src/main/java/org/imdc/cybersciences/ser/SERDevice.java:362-371 | The same for the datasource status and its tag. |
| SerDevice.Device.InitDatasource | SER-gateway/src/main/java/org/imdc/cybersciences/ser/SERDevice.java:75-144 | The status drops to Unknown. Only when 60000 ms have passed since the last attempt is the attempt time recorded and the status set to the attempt's outcome. The datasource becomes initialised, with its INSERT statement, exactly on a Valid attempt. |
| SerDevice.Device.AttemptInit | SER-gateway/src/main/java/org/imdc/cybersciences/ser/SERDevice.java:95-142 | Behind an open gate, the status becomes NotConfigured, Disabled, NotVerified, Faulted or Valid. Only Valid keeps the INSERT statement and initialises the datasource. |
| SerDevice.Device.Startup | SER-gateway/src/main/java/org/imdc/cybersciences/ser/SERDevice.java:167-207 | A failed UDT registration or HTTP client faults the device. A disabled device ends Disabled with datasource status Unknown. Otherwise the device ends Running after one datasource attempt behind the retry gate. An open gate stamps the retry time with `now`, and a Valid attempt sets the datasource initialised and stores the INSERT statement. A closed gate changes neither. The status tags always show the statuses. |
| SerDevice.Device.StartPolling | SER-gateway/src/main/java/org/imdc/cybersciences/ser/SERDevice.java:199-207 | The device is Starting during its datasource attempt, then Running. The attempt stamps the retry time only when the gate is open. It stores the INSERT statement and sets the datasource initialised only when it succeeds. |
| SerDevice.Device.StoreRecords | SER-gateway/src/main/java/org/imdc/cybersciences/ser/SERDevice.java:548-552 | The inner loop stores the decodings of the records until one throws, and returns the last stored event and the error. |
| SerDevice.Device.FetchWindow | SER-gateway/src/main/java/org/imdc/cybersciences/ser/SERDevice.java:545-552 | One window is logged as requested, and its events are stored as `HarvestWindows([w])` specifies. |
| SerDevice.Device.FetchIteration | SER-gateway/src/main/java/org/imdc/cybersciences/ser/SERDevice.java:543-557 | Iteration i requests 100 records (the last iteration only the left-over ones) at the current start and moves the start on around the ring. It keeps the harvest invariant, or ends the harvest on an exception. |
| SerDevice.Device.FetchWindows | SER-gateway/src/main/java/org/imdc/cybersciences/ser/SERDevice.java:534-558 | The request loop logs exactly the requests `HarvestWindows(Plan(..))` makes and stores its events. It returns the last stored event and the exception. |
| SerDevice.Device.HarvestNewEvents | SER-gateway/src/main/java/org/imdc/cybersciences/ser/SERDevice.java:521-563 | diff is computed from the baseline. Windows are fetched only when it is positive, and the last stored event is published when nothing threw. |
| SerDevice.Device.ReadBaseline | SER-gateway/src/main/java/org/imdc/cybersciences/ser/SERDevice.java:522 | The baseline tag reads as None when missing, as its value when it holds an Integer, and throws ClassCastException otherwise. |
| SerDevice.Device.WriteStatus | SER-gateway/src/main/java/org/imdc/cybersciences/ser/SERDevice.java:565-568 | The four EventStatus tags are written, and the baseline tag then holds the snapshot's LastSequenceNumber. |
| SerDevice.Device.GetEvents | SER-gateway/src/main/java/org/imdc/cybersciences/ser/SERDevice.java:518-569 | The requests logged, the events stored, the tags written and the exception raised are exactly those of `EventsCycle` on the folder as it was. |
| SerDevice.Device.RetryDatasource | SER-gateway/src/main/java/org/imdc/cybersciences/ser/SERDevice.java:377-412 | A datasource that is named but not initialised gets another attempt under the retry gate. An open gate stamps the retry time and sets the attempt's status; a Valid attempt stores the INSERT statement. Otherwise nothing changes. |
| SerDevice.Device.HarvestIfInitialized | SER-gateway/src/main/java/org/imdc/cybersciences/ser/SERDevice.java:381-416 | Events are harvested only from an initialised datasource. Otherwise nothing is requested, stored or written. |
| SerDevice.Device.EventRun | SER-gateway/src/main/java/org/imdc/cybersciences/ser/SERDevice.java:405-427 | `eventRun`: retry, then harvest when initialised. The retry stamps the retry time only behind an open gate and stores the INSERT statement only on success. The device ends Faulted when the harvest threw and Running otherwise. The tags are the cycle's writes with the status tags showing the final statuses. |
| SerDevice.Device.GetChannelInfo | SER-gateway/src/main/java/org/imdc/cybersciences/ser/SERDevice.java:462-482 | Every configuration entry is registered under its channel id, and its Channel and Name tags are written. |
| SerDevice.Device.GetChannelData | SER-gateway/src/main/java/org/imdc/cybersciences/ser/SERDevice.java:484-510 | The loop writes the five tags of every reading, as `DataWrites` specifies. |
| SerDevice.Device.PollChannels | SER-gateway/src/main/java/org/imdc/cybersciences/ser/SERDevice.java:389-392 | `getDiag`, `getChannelInfo` and `getChannelData` run in turn, and the first that throws stops the rest. It reports success exactly when all three completed, and the earlier steps' writes are kept. |
| SerDevice.Device.ChannelRun | SER-gateway/src/main/java/org/imdc/cybersciences/ser/SERDevice.java:385-403 | `channelRun`: the device ends Running when all steps completed and Faulted otherwise. The channel tags are written and the status tags show the final statuses. |

## Left out

- HTTPS, digest authentication and the HTTP client (`httpGet`): each answer from the device is a parameter, with None or `false` standing for a request that throws.
- JSON decoding of `/diag`, `/channels/name/ext`, `/channels/status`, `/channels/data`, `/events/last` and `/events`: the decoded values are parameters. A response whose JSON is malformed part-way is modelled as failing before any of its entries is used, so the writes or stores made for its earlier entries are not modelled.
- `getDiag`: its 27 Diagnostics tags are not modelled. Only whether it completes (`diagOk`) is.
- The `Status/Channel/...` and `Status/Event/...` LastExecution, LastExecutionDuration and NextExecution tags: they hold dates and durations read from the clock.
- UDT registration (`registerUDTs`, the Channel UDT instances in `getChannelInfo`): modelled only as whether `startup`'s registration succeeds. The tag manager is a map from device-relative paths to values.
- History storage (`storeHistory`, `storeToConnection`, `Event.getDate`, `toString`): storage is the ghost log `history`. The SQL the gateway runs is not modelled.
- `checkTable`, the building of the INSERT and DELETE statements, `prune` and its schedule: the table check's outcome and the INSERT statement come from `Gateway`.
- Exceptions thrown inside the datasource manager or `checkTable`: all are collapsed into `Gateway.throws`. A throw ends the attempt Faulted after the retry time is stamped and before the INSERT statement is stored, as the code's catch does.
- SerDevice.Device.Startup / InitDatasource: the datasource record lookup (SERDevice.java:89) runs outside the try, and a throw there is not modelled. In `startup` such a throw leaves the device Starting, with neither poll scheduled. In `eventRun` it ends the device Faulted. A throw from the prune scheduling (SERDevice.java:134) comes after the INSERT and DELETE statements are set, so the code keeps a new INSERT statement without the datasource being initialised; the model stores the statement only on success.
- SerDevice.Device.InitDatasource: `System.currentTimeMillis()` is read twice in the code, and the model uses one `now` for both readings.
- Scheduling, `shutdown`, the future cancellation, `synchronized` locking and the datasource record-listener callbacks: these are concurrency and lifecycle. Each modelled method runs to completion on its own.
- EventWindows.WindowCount: `Math.ceil(diff / 100.0)` is modelled as integer ceiling division, which is exact for the values it is applied to (1..8192).
- EventParser.Parse: a Dafny string is a sequence of Unicode code points, while Java's `substring` and `length` count UTF-16 code units. A record holding a character outside the Basic Multilingual Plane is split differently, so it can fail with a different exception: "0😀0" raises NumberFormatException in Java and IndexOutOfBounds in the model.
- JavaNum.ParseRadix16: `Character.digit` also accepts non-ASCII Unicode digits, and these are not modelled. Only ASCII hex digits are.
- `SERDeviceManager`, `SERDeviceRecord`, `SERDevicesManagerPage` and `GatewayHook` are not part of this model. They hold lifecycle, persistence fields and the web UI.
