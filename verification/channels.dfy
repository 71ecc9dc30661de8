/**
 * Channel status decoding: channel index i is published under the two-digit
 * id of i+1, its on/off state is bit i of the device's status word, and its
 * on/off text comes from the channel configuration (default "Off"/"On").
 */
module Channels {
  import opened Wrappers
  import opened JavaNum
  import opened Tags

  /** `SERDevice.ChannelConfig`: one entry of `/channels/name/ext`. */
  datatype ChannelConfig = ChannelConfig(channel: string, name: string, offText: string, onText: string)

  /** One entry of `/channels/data`. */
  datatype ChannelReading = ChannelReading(value: Int32, secondsUTC: Int64, dstActive: Int32)

  type ConfigMap = map<string, ChannelConfig>

  const CHANNEL_FOLDER: string := "Channels/Channel"

  /** The id of channel index i: the decimal form of i+1, left-padded with zeros to two characters. */
  function ChannelId(i: nat): (id: string)
    ensures |id| >= 2 && AllDecimal(id) && DecimalValue(id) == i + 1
    ensures i < 99 ==> |id| == 2
    ensures i < 9 <==> id[0] == '0'
  {
    LeftPadZerosValue(DecimalString(i + 1), 2);
    DecimalStringShort(i + 1);
    LeftPad(DecimalString(i + 1), 2, '0')
  }

  lemma DecimalStringShort(n: nat)
    ensures n < 100 ==> |DecimalString(n)| <= 2
  {
  }

  /** Different channels get different ids. */
  lemma ChannelIdInjective(i: nat, j: nat)
    ensures ChannelId(i) == ChannelId(j) ==> i == j
  {
  }

  /** The configuration registered under an id, or a default one named by the id with texts "Off"/"On". */
  function ConfigFor(configs: ConfigMap, id: string): (c: ChannelConfig)
    ensures id !in configs ==> c == ChannelConfig(id, "", "Off", "On")
    ensures id in configs ==> c == configs[id]
    ensures KeyedByChannel(configs) ==> c.channel == id
  {
    if id in configs then configs[id] else ChannelConfig(id, "", "Off", "On")
  }

  /** Bit i of the status word is set; as for a shift of a Java `long`, the distance is taken mod 64. */
  function ChannelOn(status: Int64, i: nat): bool {
    (status / Pow2(i % 64)) % 2 == 1
  }

  /** The value the first `n` status bits spell, bit 0 lowest. */
  function BitsValue(status: Int64, n: nat): nat {
    if n == 0 then 0 else BitsValue(status, n - 1) + (if ChannelOn(status, n - 1) then Pow2(n - 1) else 0)
  }

  /** The low n bits of x split into bit n-1 and the bits below it. */
  lemma ModPow2Step(x: int, n: nat)
    requires n >= 1
    ensures x % Pow2(n) == x % Pow2(n - 1) + Pow2(n - 1) * ((x / Pow2(n - 1)) % 2)
  {
    var p := Pow2(n - 1);
    var q, r := x / p, x % p;
    var b, q' := q % 2, q / 2;
    assert x == p * q + r;
    assert q == 2 * q' + b;
    assert x == Pow2(n) * q' + (p * b + r) by {
      assert Pow2(n) == 2 * p;
      assert p * q == p * (2 * q' + b) == 2 * p * q' + p * b;
    }
    assert 0 <= p * b + r < Pow2(n) by {
      assert p * b <= p;
    }
    DivModUnique(x, Pow2(n), q', p * b + r);
  }

  /**
   * The channel bits read back the status word: the first n of them (n <= 64)
   * spell its low n bits, two's complement included.
   */
  lemma {:induction false} ChannelBitsSpellStatus(status: Int64, n: nat)
    requires n <= 64
    ensures BitsValue(status, n) == status % Pow2(n)
  {
    if n > 0 {
      ChannelBitsSpellStatus(status, n - 1);
      ModPow2Step(status, n);
      BitsValueStep(status, n);
    }
  }

  /** Bit n-1 adds its place value to the bits below it exactly when it is set. */
  lemma BitsValueStep(status: Int64, n: nat)
    requires 1 <= n <= 64
    ensures BitsValue(status, n) == BitsValue(status, n - 1) + Pow2(n - 1) * ((status / Pow2(n - 1)) % 2)
  {
    var p := Pow2(n - 1);
    var bit := (status / p) % 2;
    assert (n - 1) % 64 == n - 1;
    assert ChannelOn(status, n - 1) <==> bit == 1;
    if bit == 1 {
      assert p * bit == p;
    } else {
      assert bit == 0;
      assert p * bit == 0;
    }
  }

  /** The status text a channel shows. */
  function StatusText(config: ChannelConfig, on: bool): string {
    if on then config.onText else config.offText
  }

  /** The tags `getChannelData` writes for channel index i. */
  function ReadingWrites(configs: ConfigMap, status: Int64, i: nat, r: ChannelReading): seq<TagWrite> {
    var config := ConfigFor(configs, ChannelId(i));
    var path := CHANNEL_FOLDER + config.channel;
    var on := ChannelOn(status, i);
    [ TagWrite(path + "/SecondsUTC", LongTag(r.secondsUTC)),
      TagWrite(path + "/DSTActive", BoolTag(r.dstActive != 0)),
      TagWrite(path + "/Value", BoolTag(on)),
      TagWrite(path + "/Counter", IntTag(r.value)),
      TagWrite(path + "/Status", StrTag(StatusText(config, on))) ]
  }

  /** The tags `getChannelData` writes for the first n readings. */
  function DataWrites(configs: ConfigMap, status: Int64, readings: seq<ChannelReading>, n: nat): (ws: seq<TagWrite>)
    requires n <= |readings|
    ensures |ws| == 5 * n
  {
    if n == 0 then [] else DataWrites(configs, status, readings, n - 1) + ReadingWrites(configs, status, n - 1, readings[n - 1])
  }

  /** The tags `getChannelInfo` writes for one configuration entry. */
  function InfoWrites(c: ChannelConfig): seq<TagWrite> {
    [ TagWrite(CHANNEL_FOLDER + c.channel + "/Channel", StrTag(c.channel)),
      TagWrite(CHANNEL_FOLDER + c.channel + "/Name", StrTag(c.name)) ]
  }

  /** The tags `getChannelInfo` writes for the first n entries. */
  function AllInfoWrites(cs: seq<ChannelConfig>, n: nat): (ws: seq<TagWrite>)
    requires n <= |cs|
    ensures |ws| == 2 * n
  {
    if n == 0 then [] else AllInfoWrites(cs, n - 1) + InfoWrites(cs[n - 1])
  }

  /** The config map after filing each of the first n entries under its own channel id. */
  function Register(configs: ConfigMap, cs: seq<ChannelConfig>, n: nat): (m: ConfigMap)
    requires n <= |cs|
    ensures forall id :: id in m ==> m[id].channel == id || (id in configs && m[id] == configs[id])
  {
    if n == 0 then configs else Register(configs, cs, n - 1)[cs[n - 1].channel := cs[n - 1]]
  }

  /** After registering, an id maps to the last entry that names it, or to what it mapped to before. */
  lemma {:induction false} RegisterLookup(configs: ConfigMap, cs: seq<ChannelConfig>, n: nat, id: string)
    requires n <= |cs|
    ensures var m := Register(configs, cs, n);
            (exists k :: 0 <= k < n && cs[k].channel == id) ==>
              id in m && m[id] == cs[LastIndexOf(cs, n, id)]
    ensures var m := Register(configs, cs, n);
            (forall k :: 0 <= k < n ==> cs[k].channel != id) ==>
              (id in m <==> id in configs) && (id in configs ==> m[id] == configs[id])
  {
    if n > 0 {
      RegisterLookup(configs, cs, n - 1, id);
    }
  }

  /** An id is recovered from a path under the channel folder with a fixed suffix. */
  lemma SamePathSameId(a: string, b: string, suffix: string)
    requires CHANNEL_FOLDER + a + suffix == CHANNEL_FOLDER + b + suffix
    ensures a == b
  {
    var f := |CHANNEL_FOLDER|;
    assert |a| == |b|;
    assert a == (CHANNEL_FOLDER + a + suffix)[f..f + |a|];
    assert b == (CHANNEL_FOLDER + b + suffix)[f..f + |b|];
  }

  /** A `/Channel` tag and a `/Name` tag never share a path: their last characters differ. */
  lemma ChannelNotName(a: string, b: string)
    ensures CHANNEL_FOLDER + a + "/Channel" != CHANNEL_FOLDER + b + "/Name"
  {
    var x, y := CHANNEL_FOLDER + a + "/Channel", CHANNEL_FOLDER + b + "/Name";
    assert x[|x| - 1] == 'l' && y[|y| - 1] == 'e';
  }

  /**
   * Reading the info tags back: an id some entry names shows that id and the
   * name of the last entry naming it; an id no entry names keeps its old tags.
   */
  lemma {:induction false} InfoWritesLookup(tags: TagStore, cs: seq<ChannelConfig>, n: nat, id: string)
    requires n <= |cs|
    ensures var t := ApplyWrites(tags, AllInfoWrites(cs, n));
            (exists k :: 0 <= k < n && cs[k].channel == id) ==>
              Lookup(t, CHANNEL_FOLDER + id + "/Channel") == Some(StrTag(id)) &&
              Lookup(t, CHANNEL_FOLDER + id + "/Name") == Some(StrTag(cs[LastIndexOf(cs, n, id)].name))
    ensures var t := ApplyWrites(tags, AllInfoWrites(cs, n));
            (forall k :: 0 <= k < n ==> cs[k].channel != id) ==>
              Lookup(t, CHANNEL_FOLDER + id + "/Channel") == Lookup(tags, CHANNEL_FOLDER + id + "/Channel") &&
              Lookup(t, CHANNEL_FOLDER + id + "/Name") == Lookup(tags, CHANNEL_FOLDER + id + "/Name")
  {
    if n > 0 {
      InfoWritesLookup(tags, cs, n - 1, id);
      ApplyWritesConcat(tags, AllInfoWrites(cs, n - 1), InfoWrites(cs[n - 1]));
      InfoWritesStep(ApplyWrites(tags, AllInfoWrites(cs, n - 1)), cs[n - 1], id);
    }
  }

  /** One entry's info writes set its own id's two tags and leave every other id's as they were. */
  lemma InfoWritesStep(tags: TagStore, c: ChannelConfig, id: string)
    ensures var t := ApplyWrites(tags, InfoWrites(c));
            c.channel == id ==>
              Lookup(t, CHANNEL_FOLDER + id + "/Channel") == Some(StrTag(id)) &&
              Lookup(t, CHANNEL_FOLDER + id + "/Name") == Some(StrTag(c.name))
    ensures var t := ApplyWrites(tags, InfoWrites(c));
            c.channel != id ==>
              Lookup(t, CHANNEL_FOLDER + id + "/Channel") == Lookup(tags, CHANNEL_FOLDER + id + "/Channel") &&
              Lookup(t, CHANNEL_FOLDER + id + "/Name") == Lookup(tags, CHANNEL_FOLDER + id + "/Name")
  {
    ApplyTwo(tags, InfoWrites(c));
    ChannelNotName(c.channel, id);
    ChannelNotName(id, c.channel);
    if c.channel != id {
      if CHANNEL_FOLDER + c.channel + "/Channel" == CHANNEL_FOLDER + id + "/Channel" {
        SamePathSameId(c.channel, id, "/Channel");
      }
      if CHANNEL_FOLDER + c.channel + "/Name" == CHANNEL_FOLDER + id + "/Name" {
        SamePathSameId(c.channel, id, "/Name");
      }
    }
  }

  /** The index of the last of the first n entries that names `id`. */
  function LastIndexOf(cs: seq<ChannelConfig>, n: nat, id: string): (k: nat)
    requires n <= |cs| && exists k :: 0 <= k < n && cs[k].channel == id
    ensures k < n && cs[k].channel == id
    ensures forall j :: k < j < n ==> cs[j].channel != id
  {
    if cs[n - 1].channel == id then n - 1 else LastIndexOf(cs, n - 1, id)
  }

  /** A map whose entries are filed under their own channel id. */
  predicate KeyedByChannel(configs: ConfigMap) {
    forall id :: id in configs ==> configs[id].channel == id
  }

  /** Registering entries keeps every entry filed under its own id. */
  lemma RegisterKeyed(configs: ConfigMap, cs: seq<ChannelConfig>, n: nat)
    requires n <= |cs| && KeyedByChannel(configs)
    ensures KeyedByChannel(Register(configs, cs, n))
  {
  }

  // ---------------------------------------------------------------- reading the tags back

  /** Paths under the channel folder with digit ids and '/'-led suffixes differ unless id and suffix both match. */
  lemma ChannelPathsDiffer(id1: string, s1: string, id2: string, s2: string)
    requires AllDecimal(id1) && AllDecimal(id2) && |s1| > 0 && |s2| > 0 && s1[0] == '/' && s2[0] == '/'
    requires CHANNEL_FOLDER + id1 + s1 == CHANNEL_FOLDER + id2 + s2
    ensures id1 == id2 && s1 == s2
  {
    var f := |CHANNEL_FOLDER|;
    assert id1 + s1 == (CHANNEL_FOLDER + id1 + s1)[f..];
    assert id2 + s2 == (CHANNEL_FOLDER + id2 + s2)[f..];
    var t := id1 + s1;
    assert |id1| == |id2| by {
      assert forall k :: 0 <= k < |id1| ==> t[k] == id1[k] && id1[k] != '/';
      assert forall k :: 0 <= k < |id2| ==> t[k] == id2[k] && id2[k] != '/';
      assert t[|id1|] == '/' && t[|id2|] == '/';
    }
    assert id1 == t[..|id1|] && id2 == t[..|id2|];
    assert s1 == t[|id1|..] && s2 == t[|id2|..];
  }

  /** The suffixes of the five tags written per channel, in write order. */
  const READING_SUFFIXES: seq<string> := ["/SecondsUTC", "/DSTActive", "/Value", "/Counter", "/Status"]

  /** The k-th tag written for channel i lies at the channel's id followed by the k-th suffix. */
  lemma ReadingPath(configs: ConfigMap, status: Int64, i: nat, r: ChannelReading, k: nat)
    requires KeyedByChannel(configs) && k < 5
    ensures ReadingWrites(configs, status, i, r)[k].path == CHANNEL_FOLDER + ChannelId(i) + READING_SUFFIXES[k]
  {
  }

  /** The five tags of one channel lie at five different paths. */
  lemma ReadingPathsDistinct(configs: ConfigMap, status: Int64, i: nat, r: ChannelReading)
    requires KeyedByChannel(configs)
    ensures var ws := ReadingWrites(configs, status, i, r);
            forall j, k :: 0 <= j < k < |ws| ==> ws[j].path != ws[k].path
  {
    var ws := ReadingWrites(configs, status, i, r);
    forall j, k | 0 <= j < k < |ws|
      ensures ws[j].path != ws[k].path
    {
      ReadingPath(configs, status, i, r, j);
      ReadingPath(configs, status, i, r, k);
    }
  }

  /** No tag of channel j lies on a path of another channel i. */
  lemma ReadingPathsApart(configs: ConfigMap, status: Int64, i: nat, j: nat, r: ChannelReading, r': ChannelReading, k: nat)
    requires KeyedByChannel(configs) && i != j && k < 5
    ensures var path := ReadingWrites(configs, status, i, r)[k].path;
            var ws := ReadingWrites(configs, status, j, r');
            forall m :: 0 <= m < |ws| ==> ws[m].path != path
  {
    var ws := ReadingWrites(configs, status, j, r');
    ReadingPath(configs, status, i, r, k);
    forall m | 0 <= m < |ws|
      ensures ws[m].path != ReadingWrites(configs, status, i, r)[k].path
    {
      ReadingPath(configs, status, j, r', m);
      if ws[m].path == ReadingWrites(configs, status, i, r)[k].path {
        ChannelPathsDiffer(ChannelId(j), READING_SUFFIXES[m], ChannelId(i), READING_SUFFIXES[k]);
        ChannelIdInjective(i, j);
        assert false;
      }
    }
  }

  /** The k-th write of channel i survives the writes of every other channel. */
  lemma {:induction false} DataWritesLookup(tags: TagStore, configs: ConfigMap, status: Int64,
                                            readings: seq<ChannelReading>, n: nat, i: nat, k: nat)
    requires KeyedByChannel(configs) && i < n <= |readings| && k < 5
    ensures var w := ReadingWrites(configs, status, i, readings[i])[k];
            Lookup(ApplyWrites(tags, DataWrites(configs, status, readings, n)), w.path) == Some(w.value)
  {
    var w := ReadingWrites(configs, status, i, readings[i])[k];
    var prev := DataWrites(configs, status, readings, n - 1);
    var mine := ReadingWrites(configs, status, n - 1, readings[n - 1]);
    assert DataWrites(configs, status, readings, n) == prev + mine;
    ApplyWritesConcat(tags, prev, mine);
    if i == n - 1 {
      ReadingPathsDistinct(configs, status, i, readings[i]);
      ApplyWritesLookup(ApplyWrites(tags, prev), mine, w.path);
      LastWriteOfDistinct(mine, w);
    } else {
      DataWritesLookup(tags, configs, status, readings, n - 1, i, k);
      ReadingPathsApart(configs, status, i, n - 1, readings[i], readings[n - 1], k);
      WritesElsewhere(ApplyWrites(tags, prev), mine, w.path);
    }
  }

  /**
   * After `getChannelData` each reported channel's Value tag holds bit i of
   * the status word, and its Status tag the matching on/off text.
   */
  lemma ChannelTagsShowBits(tags: TagStore, configs: ConfigMap, status: Int64, readings: seq<ChannelReading>, i: nat)
    requires KeyedByChannel(configs) && i < |readings|
    ensures var after := ApplyWrites(tags, DataWrites(configs, status, readings, |readings|));
            var id := ChannelId(i);
            Lookup(after, CHANNEL_FOLDER + id + "/Value") == Some(BoolTag(ChannelOn(status, i))) &&
            Lookup(after, CHANNEL_FOLDER + id + "/Status")
              == Some(StrTag(StatusText(ConfigFor(configs, id), ChannelOn(status, i))))
  {
    ReadingPath(configs, status, i, readings[i], 2);
    ReadingPath(configs, status, i, readings[i], 4);
    DataWritesLookup(tags, configs, status, readings, |readings|, i, 2);
    DataWritesLookup(tags, configs, status, readings, |readings|, i, 4);
  }

  /** Every write lies under the channel folder. */
  predicate InChannelFolder(ws: seq<TagWrite>) {
    forall k :: 0 <= k < |ws| ==> CHANNEL_FOLDER <= ws[k].path
  }

  lemma InFolderConcat(a: seq<TagWrite>, b: seq<TagWrite>)
    requires InChannelFolder(a) && InChannelFolder(b)
    ensures InChannelFolder(a + b)
  {
    assert forall k :: 0 <= k < |a + b| ==> (a + b)[k] == if k < |a| then a[k] else b[k - |a|];
  }

  lemma FolderPrefix(id: string, suffix: string)
    ensures CHANNEL_FOLDER <= CHANNEL_FOLDER + id + suffix
  {
    assert CHANNEL_FOLDER + id + suffix == CHANNEL_FOLDER + (id + suffix);
  }

  /** `getChannelInfo` writes only under the channel folder. */
  lemma {:induction false} InfoWritesInFolder(cs: seq<ChannelConfig>, n: nat)
    requires n <= |cs|
    ensures InChannelFolder(AllInfoWrites(cs, n))
  {
    if n > 0 {
      InfoWritesInFolder(cs, n - 1);
      var c := cs[n - 1];
      FolderPrefix(c.channel, "/Channel");
      FolderPrefix(c.channel, "/Name");
      InFolderConcat(AllInfoWrites(cs, n - 1), InfoWrites(c));
    }
  }

  /** `getChannelData` writes only under the channel folder. */
  lemma {:induction false} DataWritesInFolder(configs: ConfigMap, status: Int64, readings: seq<ChannelReading>, n: nat)
    requires n <= |readings|
    ensures InChannelFolder(DataWrites(configs, status, readings, n))
  {
    if n > 0 {
      DataWritesInFolder(configs, status, readings, n - 1);
      var mine := ReadingWrites(configs, status, n - 1, readings[n - 1]);
      var id := ConfigFor(configs, ChannelId(n - 1)).channel;
      forall k | 0 <= k < 5
        ensures CHANNEL_FOLDER <= mine[k].path
      {
        FolderPrefix(id, READING_SUFFIXES[k]);
      }
      InFolderConcat(DataWrites(configs, status, readings, n - 1), mine);
    }
  }
}
