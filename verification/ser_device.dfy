/**
 * One SER device as the gateway runs it: the device and datasource status
 * state machines, the datasource retry gate, the event harvest loop and the
 * channel poll. The device's tag folder is a map; the requests the harvest
 * makes and the events it hands to history storage are kept as ghost logs.
 * The clock and every answer from the device or the gateway are parameters.
 */
module SerDevice {
  import opened Wrappers
  import opened JavaNum
  import opened EventParser
  import opened EventWindows
  import opened Tags
  import opened Harvest
  import opened Channels

  /** Milliseconds between two datasource initialisation attempts. */
  const INIT_RETRY: int := 60000

  const STATUS_TAG: string := "Status/Status"
  const DATABASE_STATUS_TAG: string := "Status/DatabaseStatus"

  datatype DeviceStatus = Unknown | Disabled | Faulted | Starting | Running | Disconnected
  {
    function Display(): string {
      match this
      case Unknown => "Unknown"
      case Disabled => "Disabled"
      case Faulted => "Faulted"
      case Starting => "Starting"
      case Running => "Running"
      case Disconnected => "Disconnected"
    }
  }

  datatype DatasourceStatus = Unknown | NotConfigured | NotVerified | Valid | Faulted | Disabled
  {
    function Display(): string {
      match this
      case Unknown => "Unknown"
      case NotConfigured => "Not Configured"
      case NotVerified => "Tables Not Verified"
      case Valid => "Valid"
      case Faulted => "Faulted"
      case Disabled => "Disabled"
    }
  }

  /** The status tags tell the statuses apart: different statuses show different texts. */
  lemma DisplaysDistinct(a: DeviceStatus, b: DeviceStatus, c: DatasourceStatus, d: DatasourceStatus)
    ensures a.Display() == b.Display() ==> a == b
    ensures c.Display() == d.Display() ==> c == d
  {
  }

  /** What one `initDatasource` attempt finds in the gateway. */
  datatype Gateway = Gateway(
    datasourceName: Option<string>,  // the name of the datasource record the device targets, if it exists
    datasources: map<string, bool>,  // the datasource manager: each datasource's name and whether it is enabled
    tableVerified: bool,             // what `checkTable` reports
    insertQuery: string,             // the INSERT statement built for the datasource
    throws: bool)                    // the datasource manager throws when asked

  /** The retry gate: an attempt is made only this long after the last one. */
  predicate GateOpen(now: int, lastTry: int) {
    now - lastTry >= INIT_RETRY
  }

  /** The datasource status an attempt behind an open gate ends in. */
  function AttemptStatus(gw: Gateway, autoCreate: bool): DatasourceStatus {
    if gw.throws then DatasourceStatus.Faulted
    else if gw.datasourceName.None? || gw.datasourceName.value !in gw.datasources then DatasourceStatus.NotConfigured
    else if !gw.datasources[gw.datasourceName.value] then DatasourceStatus.Disabled
    else if autoCreate && !gw.tableVerified then DatasourceStatus.NotVerified
    else DatasourceStatus.Valid
  }

  /** Whether an `initDatasource` call at time `now` initialises the datasource. */
  predicate InitSucceeds(now: int, lastTry: int, gw: Gateway, autoCreate: bool) {
    GateOpen(now, lastTry) && AttemptStatus(gw, autoCreate) == DatasourceStatus.Valid
  }

  /** An attempt succeeds exactly when the named datasource exists, is enabled, and its table checks out when required. */
  lemma AttemptSucceedsWhen(gw: Gateway, autoCreate: bool)
    ensures AttemptStatus(gw, autoCreate) == DatasourceStatus.Valid <==>
              !gw.throws && gw.datasourceName.Some? && gw.datasourceName.value in gw.datasources &&
              gw.datasources[gw.datasourceName.value] && (autoCreate ==> gw.tableVerified)
  {
  }

  /** The device status `startup` ends in. */
  function StartupStatus(udtRegistered: bool, enabled: bool, clientBuilt: bool): DeviceStatus {
    if !udtRegistered then DeviceStatus.Faulted
    else if !enabled then DeviceStatus.Disabled
    else if !clientBuilt then DeviceStatus.Faulted
    else DeviceStatus.Running
  }

  /** The folder `t` with the status tags showing the given statuses. */
  function ShowStatus(t: TagStore, d: Option<DeviceStatus>, ds: Option<DatasourceStatus>): (r: TagStore)
    ensures forall p :: p != STATUS_TAG && p != DATABASE_STATUS_TAG ==> Lookup(r, p) == Lookup(t, p)
    ensures d.Some? ==> Lookup(r, STATUS_TAG) == Some(StrTag(d.value.Display()))
    ensures ds.Some? ==> Lookup(r, DATABASE_STATUS_TAG) == Some(StrTag(ds.value.Display()))
  {
    var t' := if d.Some? then t[STATUS_TAG := StrTag(d.value.Display())] else t;
    if ds.Some? then t'[DATABASE_STATUS_TAG := StrTag(ds.value.Display())] else t'
  }

  /** A folder that already shows the statuses is left as it is. */
  lemma ShowStatusShown(t: TagStore, d: Option<DeviceStatus>, ds: Option<DatasourceStatus>)
    requires d.Some? ==> Lookup(t, STATUS_TAG) == Some(StrTag(d.value.Display()))
    requires ds.Some? ==> Lookup(t, DATABASE_STATUS_TAG) == Some(StrTag(ds.value.Display()))
    ensures ShowStatus(t, d, ds) == t
  {
  }

  /** Showing statuses twice is showing the later ones. */
  lemma ShowStatusTwice(t: TagStore, d: Option<DeviceStatus>, ds: Option<DatasourceStatus>,
                        d': Option<DeviceStatus>, ds': Option<DatasourceStatus>)
    requires d.Some? ==> d'.Some?
    requires ds.Some? ==> ds'.Some?
    ensures ShowStatus(ShowStatus(t, d, ds), d', ds') == ShowStatus(t, d', ds')
  {
  }

  /** No write touches a status tag. */
  predicate AvoidsStatus(ws: seq<TagWrite>) {
    forall k :: 0 <= k < |ws| ==> ws[k].path != STATUS_TAG && ws[k].path != DATABASE_STATUS_TAG
  }

  /** Writes that avoid the status tags commute with showing the statuses. */
  lemma AvoidingWritesCommute(t: TagStore, ws: seq<TagWrite>, d: Option<DeviceStatus>, ds: Option<DatasourceStatus>)
    requires AvoidsStatus(ws)
    ensures ApplyWrites(ShowStatus(t, d, ds), ws) == ShowStatus(ApplyWrites(t, ws), d, ds)
  {
    var t' := if d.Some? then t[STATUS_TAG := StrTag(d.value.Display())] else t;
    if d.Some? {
      ApplyWritesCommute(t, ws, STATUS_TAG, StrTag(d.value.Display()));
    }
    if ds.Some? {
      ApplyWritesCommute(t', ws, DATABASE_STATUS_TAG, StrTag(ds.value.Display()));
    }
  }

  /** Writes under the channel folder avoid the status tags. */
  lemma ChannelWritesAvoidStatus(ws: seq<TagWrite>)
    requires InChannelFolder(ws)
    ensures AvoidsStatus(ws)
  {
    forall k | 0 <= k < |ws|
      ensures ws[k].path != STATUS_TAG && ws[k].path != DATABASE_STATUS_TAG
    {
      assert ws[k].path[0] == CHANNEL_FOLDER[0];
    }
  }

  /** Two batches that avoid the status tags avoid them together. */
  lemma AvoidsStatusConcat(a: seq<TagWrite>, b: seq<TagWrite>)
    requires AvoidsStatus(a) && AvoidsStatus(b)
    ensures AvoidsStatus(a + b)
  {
    forall k | 0 <= k < |a + b|
      ensures (a + b)[k].path != STATUS_TAG && (a + b)[k].path != DATABASE_STATUS_TAG
    {
      if k < |a| {
        assert (a + b)[k] == a[k];
      } else {
        assert (a + b)[k] == b[k - |a|];
      }
    }
  }

  /** The LastEvent folder is not a status tag. */
  lemma LastEventWritesAvoidStatus(e: Event)
    ensures AvoidsStatus(LastEventWrites(e))
  {
    var ev := LastEventWrites(e);
    assert forall k :: 0 <= k < |ev| ==> ev[k].path[0] == 'L';
  }

  /** The EventStatus folder is not a status tag. */
  lemma StatusWritesAvoidStatus(s: EventStatus)
    ensures AvoidsStatus(StatusWrites(s))
  {
    var sw := StatusWrites(s);
    assert forall k :: 0 <= k < |sw| ==> sw[k].path[0] == 'E';
  }

  /** The writes of a fault-free cycle avoid the status tags. */
  lemma CompletedWritesAvoidStatus(last: Option<Event>, s: EventStatus)
    ensures AvoidsStatus((if last.None? then [] else LastEventWrites(last.value)) + StatusWrites(s))
  {
    if last.Some? {
      LastEventWritesAvoidStatus(last.value);
    }
    StatusWritesAvoidStatus(s);
    AvoidsStatusConcat(if last.None? then [] else LastEventWrites(last.value), StatusWrites(s));
  }

  /** The writes of a harvest cycle avoid the status tags. */
  lemma CycleWritesAvoidStatus(tags: TagStore, status: Option<EventStatus>, fetch: Fetch, decode: Decoder)
    ensures AvoidsStatus(EventsCycle(tags, status, fetch, decode).writes)
  {
    var c := EventsCycle(tags, status, fetch, decode);
    if c.fault.None? {
      CompletedCycleWrites(tags, status, fetch, decode);
      CompletedWritesAvoidStatus(LastOf(c.stored), status.value);
    }
  }

  /** Showing the statuses before a cycle changes neither what the cycle does nor, in the end, the tags it leaves. */
  lemma HarvestAfterShow(t: TagStore, d: Option<DeviceStatus>, ds: Option<DatasourceStatus>,
                         status: Option<EventStatus>, fetch: Fetch, decode: Decoder)
    ensures var shown := ShowStatus(t, d, ds);
            var c := EventsCycle(t, status, fetch, decode);
            EventsCycle(shown, status, fetch, decode) == c &&
            ApplyWrites(shown, c.writes) == ShowStatus(ApplyWrites(t, c.writes), d, ds)
  {
    CycleReadsOnlyBaseline(t, ShowStatus(t, d, ds), status, fetch, decode);
    CycleWritesAvoidStatus(t, status, fetch, decode);
    AvoidingWritesCommute(t, EventsCycle(t, status, fetch, decode).writes, d, ds);
  }

  /** A path under the channel folder is not a status tag. */
  lemma ChannelPathNotStatus(id: string, suffix: string)
    ensures CHANNEL_FOLDER + id + suffix != STATUS_TAG
    ensures CHANNEL_FOLDER + id + suffix != DATABASE_STATUS_TAG
  {
    assert (CHANNEL_FOLDER + id + suffix)[0] == 'C';
  }

  /**
   * The writes of one `channelRun` apart from the status tag: the Channel and
   * Name tags of every configuration entry once `/diag` and the configuration
   * were read, then the five tags of every channel once the status word and
   * the readings were read, each channel looked up in the registered
   * configuration.
   */
  function ChannelRunWrites(configMap: ConfigMap, diagOk: bool, configs: Option<seq<ChannelConfig>>,
                            status: Option<Int64>, readings: Option<seq<ChannelReading>>): seq<TagWrite>
  {
    if !diagOk || configs.None? then []
    else
      var info := AllInfoWrites(configs.value, |configs.value|);
      if status.None? || readings.None? then info
      else info + DataWrites(Register(configMap, configs.value, |configs.value|), status.value, readings.value, |readings.value|)
  }

  /** A channel poll never writes the status tags, so it cannot disturb what they show. */
  lemma ChannelRunWritesAvoidStatus(configMap: ConfigMap, diagOk: bool, configs: Option<seq<ChannelConfig>>,
                                    status: Option<Int64>, readings: Option<seq<ChannelReading>>)
    ensures AvoidsStatus(ChannelRunWrites(configMap, diagOk, configs, status, readings))
  {
    if diagOk && configs.Some? {
      var info := AllInfoWrites(configs.value, |configs.value|);
      InfoWritesInFolder(configs.value, |configs.value|);
      ChannelWritesAvoidStatus(info);
      if status.Some? && readings.Some? {
        var data := DataWrites(Register(configMap, configs.value, |configs.value|), status.value, readings.value, |readings.value|);
        DataWritesInFolder(Register(configMap, configs.value, |configs.value|), status.value, readings.value, |readings.value|);
        ChannelWritesAvoidStatus(data);
        AvoidsStatusConcat(info, data);
      }
    }
  }

  /**
   * After a complete channel poll, the Value tag of channel i+1 shows bit i
   * of the status word and its Status tag the matching text of the channel's
   * configuration, whatever the folder held before and whatever the status
   * tags show.
   */
  lemma ChannelRunShowsBits(t: TagStore, configMap: ConfigMap, configs: seq<ChannelConfig>, status: Int64,
                            readings: seq<ChannelReading>, d: Option<DeviceStatus>, ds: Option<DatasourceStatus>)
    requires KeyedByChannel(configMap)
    ensures var after := ShowStatus(ApplyWrites(t, ChannelRunWrites(configMap, true, Some(configs), Some(status), Some(readings))), d, ds);
            var m := Register(configMap, configs, |configs|);
            forall i :: 0 <= i < |readings| ==>
              Lookup(after, CHANNEL_FOLDER + ChannelId(i) + "/Value") == Some(BoolTag(ChannelOn(status, i))) &&
              Lookup(after, CHANNEL_FOLDER + ChannelId(i) + "/Status")
                == Some(StrTag(StatusText(ConfigFor(m, ChannelId(i)), ChannelOn(status, i))))
  {
    var m := Register(configMap, configs, |configs|);
    var info := AllInfoWrites(configs, |configs|);
    var data := DataWrites(m, status, readings, |readings|);
    var ws := ChannelRunWrites(configMap, true, Some(configs), Some(status), Some(readings));
    assert ws == info + data;
    RegisterKeyed(configMap, configs, |configs|);
    ApplyWritesConcat(t, info, data);
    var after := ShowStatus(ApplyWrites(t, ws), d, ds);
    assert after == ShowStatus(ApplyWrites(ApplyWrites(t, info), data), d, ds);
    forall i | 0 <= i < |readings|
      ensures Lookup(after, CHANNEL_FOLDER + ChannelId(i) + "/Value") == Some(BoolTag(ChannelOn(status, i)))
      ensures Lookup(after, CHANNEL_FOLDER + ChannelId(i) + "/Status")
              == Some(StrTag(StatusText(ConfigFor(m, ChannelId(i)), ChannelOn(status, i))))
    {
      ChannelShowsBit(ApplyWrites(t, info), m, status, readings, i, d, ds);
    }
  }

  /** One channel of `ChannelRunShowsBits`. */
  lemma ChannelShowsBit(t: TagStore, m: ConfigMap, status: Int64, readings: seq<ChannelReading>, i: nat,
                        d: Option<DeviceStatus>, ds: Option<DatasourceStatus>)
    requires KeyedByChannel(m) && i < |readings|
    ensures var after := ShowStatus(ApplyWrites(t, DataWrites(m, status, readings, |readings|)), d, ds);
            Lookup(after, CHANNEL_FOLDER + ChannelId(i) + "/Value") == Some(BoolTag(ChannelOn(status, i))) &&
            Lookup(after, CHANNEL_FOLDER + ChannelId(i) + "/Status")
              == Some(StrTag(StatusText(ConfigFor(m, ChannelId(i)), ChannelOn(status, i))))
  {
    ChannelTagsShowBits(t, m, status, readings, i);
    ChannelPathNotStatus(ChannelId(i), "/Value");
    ChannelPathNotStatus(ChannelId(i), "/Status");
  }

  /** Applying five writes is five updates in order. */
  lemma ApplyFive(tags: TagStore, ws: seq<TagWrite>)
    requires |ws| == 5
    ensures ApplyWrites(tags, ws)
            == tags[ws[0].path := ws[0].value][ws[1].path := ws[1].value][ws[2].path := ws[2].value]
                   [ws[3].path := ws[3].value][ws[4].path := ws[4].value]
  {
    assert ws[..0] == [] && ws[..5] == ws;
    ApplyWritesPrefix(tags, ws, 0);
    ApplyWritesPrefix(tags, ws, 1);
    ApplyWritesPrefix(tags, ws, 2);
    ApplyWritesPrefix(tags, ws, 3);
    ApplyWritesPrefix(tags, ws, 4);
  }

  /** Applying four writes is four updates in order. */
  lemma ApplyFour(tags: TagStore, ws: seq<TagWrite>)
    requires |ws| == 4
    ensures ApplyWrites(tags, ws)
            == tags[ws[0].path := ws[0].value][ws[1].path := ws[1].value][ws[2].path := ws[2].value]
                   [ws[3].path := ws[3].value]
  {
    assert ws[..0] == [] && ws[..4] == ws;
    ApplyWritesPrefix(tags, ws, 0);
    ApplyWritesPrefix(tags, ws, 1);
    ApplyWritesPrefix(tags, ws, 2);
    ApplyWritesPrefix(tags, ws, 3);
  }

  class Device {
    const name: string
    const enabled: bool
    const autoCreate: bool
    /** The logger name, which every event records as its parent log. */
    const parentLog: string

    var deviceStatus: Option<DeviceStatus>
    var datasourceStatus: Option<DatasourceStatus>
    var datasource: Option<string>
    var datasourceInitialized: bool
    var lastDatasourceInitTry: int
    var insertQuery: Option<string>
    var channelConfigMap: ConfigMap
    /** The device's tag folder, by path relative to the folder. */
    var tags: TagStore
    /** Every `/events?record=..&count=..` request made, in order. */
    ghost var requestLog: seq<Window>
    /** Every event handed to history storage, in order. */
    ghost var history: seq<Event>

    /**
     * The status tags show the statuses last set, an initialised datasource
     * has its INSERT statement, and the channel configuration is filed under
     * channel ids.
     */
    ghost predicate Valid()
      reads this
    {
      (deviceStatus.Some? ==> Lookup(tags, STATUS_TAG) == Some(StrTag(deviceStatus.value.Display()))) &&
      (datasourceStatus.Some? ==> Lookup(tags, DATABASE_STATUS_TAG) == Some(StrTag(datasourceStatus.value.Display()))) &&
      (datasourceInitialized ==> insertQuery.Some?) &&
      KeyedByChannel(channelConfigMap)
    }

    constructor (name: string, enabled: bool, autoCreate: bool, tags: TagStore)
      ensures Valid()
      ensures this.name == name && this.enabled == enabled && this.autoCreate == autoCreate
      ensures parentLog == "SER.Device." + name
      ensures deviceStatus.None? && datasourceStatus.None? && datasource.None?
      ensures !datasourceInitialized && lastDatasourceInitTry == 0 && insertQuery.None?
      ensures channelConfigMap == map[] && this.tags == tags && requestLog == [] && history == []
    {
      this.name := name;
      this.enabled := enabled;
      this.autoCreate := autoCreate;
      this.parentLog := "SER.Device." + name;
      deviceStatus := None;
      datasourceStatus := None;
      datasource := None;
      datasourceInitialized := false;
      lastDatasourceInitTry := 0;
      insertQuery := None;
      channelConfigMap := map[];
      this.tags := tags;
      requestLog := [];
      history := [];
    }

    /** `updateTag`: one write into the device's folder. */
    method UpdateTag(path: string, value: TagValue)
      modifies this`tags
      ensures tags == old(tags)[path := value]
    {
      tags := tags[path := value];
    }

    /** `setDeviceStatus`: the status tag is written only when the status changes. */
    method SetDeviceStatus(s: DeviceStatus)
      requires Valid()
      modifies this`deviceStatus, this`tags
      ensures Valid()
      ensures deviceStatus == Some(s)
      ensures old(deviceStatus) == Some(s) ==> tags == old(tags)
      ensures old(deviceStatus) != Some(s) ==> tags == old(tags)[STATUS_TAG := StrTag(s.Display())]
      ensures tags == ShowStatus(old(tags), deviceStatus, datasourceStatus)
    {
      if deviceStatus != Some(s) {
        deviceStatus := Some(s);
        UpdateTag(STATUS_TAG, StrTag(s.Display()));
      }
    }

    /** `setDatasourceStatus`: the database status tag is written only when the status changes. */
    method SetDatasourceStatus(s: DatasourceStatus)
      requires Valid()
      modifies this`datasourceStatus, this`tags
      ensures Valid()
      ensures datasourceStatus == Some(s)
      ensures old(datasourceStatus) == Some(s) ==> tags == old(tags)
      ensures old(datasourceStatus) != Some(s) ==> tags == old(tags)[DATABASE_STATUS_TAG := StrTag(s.Display())]
      ensures tags == ShowStatus(old(tags), deviceStatus, datasourceStatus)
    {
      if datasourceStatus != Some(s) {
        datasourceStatus := Some(s);
        UpdateTag(DATABASE_STATUS_TAG, StrTag(s.Display()));
      }
    }

    /**
     * `initDatasource` at time `now`: the status drops to Unknown, and only
     * when the retry gate is open is the gateway asked, the attempt time
     * recorded and the status set to what the attempt finds.
     */
    method InitDatasource(now: int, gw: Gateway)
      requires Valid()
      modifies this`datasourceStatus, this`datasource, this`lastDatasourceInitTry,
               this`insertQuery, this`datasourceInitialized, this`tags
      ensures Valid()
      ensures datasource == gw.datasourceName
      ensures !GateOpen(now, old(lastDatasourceInitTry)) ==>
                datasourceStatus == Some(DatasourceStatus.Unknown) &&
                lastDatasourceInitTry == old(lastDatasourceInitTry)
      ensures GateOpen(now, old(lastDatasourceInitTry)) ==>
                datasourceStatus == Some(AttemptStatus(gw, autoCreate)) && lastDatasourceInitTry == now
      ensures datasourceInitialized ==
                (old(datasourceInitialized) || InitSucceeds(now, old(lastDatasourceInitTry), gw, autoCreate))
      ensures insertQuery ==
                if InitSucceeds(now, old(lastDatasourceInitTry), gw, autoCreate) then Some(gw.insertQuery)
                else old(insertQuery)
      ensures tags == ShowStatus(old(tags), deviceStatus, datasourceStatus)
    {
      SetDatasourceStatus(DatasourceStatus.Unknown);
      datasource := gw.datasourceName;
      if now - lastDatasourceInitTry >= INIT_RETRY {
        lastDatasourceInitTry := now;
        AttemptInit(gw);
        ShowStatusTwice(old(tags), deviceStatus, Some(DatasourceStatus.Unknown), deviceStatus, datasourceStatus);
      }
    }

    /**
     * The attempt `initDatasource` makes once the retry gate is open: the
     * datasource must exist and be enabled, and its table must check out when
     * the device creates it; only then is the INSERT statement kept and the
     * datasource initialised. An exception from the datasource manager
     * leaves the status Faulted.
     */
    method AttemptInit(gw: Gateway)
      requires Valid() && datasource == gw.datasourceName
      modifies this`datasourceStatus, this`insertQuery, this`datasourceInitialized, this`tags
      ensures Valid()
      ensures datasourceStatus == Some(AttemptStatus(gw, autoCreate))
      ensures datasourceInitialized == (old(datasourceInitialized) || AttemptStatus(gw, autoCreate) == DatasourceStatus.Valid)
      ensures insertQuery == if AttemptStatus(gw, autoCreate) == DatasourceStatus.Valid then Some(gw.insertQuery)
                             else old(insertQuery)
      ensures tags == ShowStatus(old(tags), deviceStatus, datasourceStatus)
    {
      if gw.throws {
        SetDatasourceStatus(DatasourceStatus.Faulted);
        return;
      }
      var found := datasource.Some? && datasource.value in gw.datasources;
      if !found || !gw.datasources[datasource.value] {
        SetDatasourceStatus(if !found then DatasourceStatus.NotConfigured else DatasourceStatus.Disabled);
        return;
      }
      if autoCreate && !gw.tableVerified {
        SetDatasourceStatus(DatasourceStatus.NotVerified);
        return;
      }
      insertQuery := Some(gw.insertQuery);
      datasourceInitialized := true;
      SetDatasourceStatus(DatasourceStatus.Valid);
    }

    /**
     * `startup`: a failed UDT registration or HTTP client construction faults
     * the device; a disabled device stops at Disabled with its datasource
     * status Unknown; otherwise the datasource is initialised and the device
     * runs.
     */
    method Startup(udtRegistered: bool, clientBuilt: bool, now: int, gw: Gateway)
      requires Valid()
      modifies this`deviceStatus, this`datasourceStatus, this`datasource, this`lastDatasourceInitTry,
               this`insertQuery, this`datasourceInitialized, this`tags
      ensures Valid()
      ensures deviceStatus == Some(StartupStatus(udtRegistered, enabled, clientBuilt))
      ensures udtRegistered && !enabled ==> datasourceStatus == Some(DatasourceStatus.Unknown)
      ensures udtRegistered && enabled && clientBuilt ==>
                datasource == gw.datasourceName &&
                datasourceStatus == Some(if GateOpen(now, old(lastDatasourceInitTry)) then AttemptStatus(gw, autoCreate)
                                         else DatasourceStatus.Unknown) &&
                datasourceInitialized ==
                  (old(datasourceInitialized) || InitSucceeds(now, old(lastDatasourceInitTry), gw, autoCreate)) &&
                lastDatasourceInitTry == (if GateOpen(now, old(lastDatasourceInitTry)) then now else old(lastDatasourceInitTry)) &&
                insertQuery == if InitSucceeds(now, old(lastDatasourceInitTry), gw, autoCreate) then Some(gw.insertQuery)
                               else old(insertQuery)
      ensures !(udtRegistered && enabled && clientBuilt) ==>
                datasource == old(datasource) && datasourceInitialized == old(datasourceInitialized) &&
                lastDatasourceInitTry == old(lastDatasourceInitTry) && insertQuery == old(insertQuery)
      ensures !udtRegistered || (enabled && !clientBuilt) ==> datasourceStatus == old(datasourceStatus)
      ensures tags == ShowStatus(old(tags), deviceStatus, datasourceStatus)
    {
      if !udtRegistered {
        SetDeviceStatus(DeviceStatus.Faulted);
        return;
      }
      SetDeviceStatus(DeviceStatus.Unknown);
      ghost var t1, d1, ds1 := tags, deviceStatus, datasourceStatus;
      if !enabled {
        SetDeviceStatus(DeviceStatus.Disabled);
        ShowStatusTwice(old(tags), d1, ds1, deviceStatus, datasourceStatus);
        ghost var t2 := tags;
        SetDatasourceStatus(DatasourceStatus.Unknown);
        ShowStatusTwice(old(tags), deviceStatus, ds1, deviceStatus, datasourceStatus);
        return;
      }
      if !clientBuilt {
        SetDeviceStatus(DeviceStatus.Faulted);
        ShowStatusTwice(old(tags), d1, ds1, deviceStatus, datasourceStatus);
        return;
      }
      StartPolling(now, gw);
      ShowStatusTwice(old(tags), d1, ds1, deviceStatus, datasourceStatus);
    }

    /**
     * The end of `startup` once the HTTP client is built: the device is
     * Starting while its datasource is initialised, then Running.
     */
    method StartPolling(now: int, gw: Gateway)
      requires Valid()
      modifies this`deviceStatus, this`datasourceStatus, this`datasource, this`lastDatasourceInitTry,
               this`insertQuery, this`datasourceInitialized, this`tags
      ensures Valid()
      ensures deviceStatus == Some(DeviceStatus.Running)
      ensures datasource == gw.datasourceName
      ensures datasourceStatus == Some(if GateOpen(now, old(lastDatasourceInitTry)) then AttemptStatus(gw, autoCreate)
                                       else DatasourceStatus.Unknown)
      ensures datasourceInitialized ==
                (old(datasourceInitialized) || InitSucceeds(now, old(lastDatasourceInitTry), gw, autoCreate))
      ensures lastDatasourceInitTry == (if GateOpen(now, old(lastDatasourceInitTry)) then now else old(lastDatasourceInitTry))
      ensures insertQuery == if InitSucceeds(now, old(lastDatasourceInitTry), gw, autoCreate) then Some(gw.insertQuery)
                     else old(insertQuery)
      ensures tags == ShowStatus(old(tags), deviceStatus, datasourceStatus)
    {
      SetDeviceStatus(DeviceStatus.Starting);
      ghost var d := deviceStatus;
      InitDatasource(now, gw);
      ShowStatusTwice(old(tags), d, Some(DatasourceStatus.Unknown), d, datasourceStatus);
      ghost var ds := datasourceStatus;
      SetDeviceStatus(DeviceStatus.Running);
      ShowStatusTwice(old(tags), d, ds, deviceStatus, datasourceStatus);
    }

    /**
     * The inner loop of `getEvents`: each record of one response is decoded
     * and handed to history storage, until one fails to decode. Returns the
     * last event stored and the decoding error, if any.
     */
    method StoreRecords(records: seq<string>, decode: Decoder) returns (last: Option<Event>, error: Option<JavaError>)
      modifies this`history
      ensures var b := ParseRecords(decode, records);
              history == old(history) + b.events && error == b.fault &&
              last == LastOf(b.events)
    {
      ghost var batch: seq<Event> := [];
      last := None;
      var j := 0;
      while j < |records|
        invariant 0 <= j <= |records|
        invariant ParseRecords(decode, records[..j]) == Batch(batch, None)
        invariant history == old(history) + batch
        invariant last == LastOf(batch)
      {
        var parsed := decode(records[j]);
        assert records[..j + 1][..j] == records[..j];
        if parsed.Failure? {
          ParseRecordsStops(decode, records, j + 1);
          return last, Some(parsed.error);
        }
        last := Some(parsed.value);
        history := history + [parsed.value];
        batch := batch + [parsed.value];
        j := j + 1;
      }
      assert records[..j] == records;
      error := None;
    }

    /**
     * One iteration of the request loop of `getEvents`: window `w` is
     * requested and each record it returns is decoded and stored, until one
     * does not decode. Returns the last event stored and the exception, if any.
     */
    method FetchWindow(w: Window, fetch: Fetch, decode: Decoder) returns (last: Option<Event>, fault: Option<Fault>)
      modifies this`requestLog, this`history
      ensures var h := HarvestWindows([w], fetch, decode);
              requestLog == old(requestLog) + h.requests && history == old(history) + h.stored &&
              fault == h.fault && last == LastOf(h.stored)
    {
      HarvestSingle(w, fetch, decode);
      requestLog := requestLog + [w];
      var response := fetch(w);
      if response.None? {
        return None, Some(TransportFault);
      }
      var error;
      last, error := StoreRecords(response.value, decode);
      fault := if error.Some? then Some(ParseFault(error.value)) else None;
    }

    /**
     * The body of the request loop of `getEvents`: iteration `i` requests
     * BATCH_SIZE records at `nextRecord` (the last iteration only the left
     * over ones), stores them, and moves `nextRecord` on around the ring.
     * `done` and `stored` are the windows requested and the events stored by
     * the iterations before it, `log0` and `hist0` the logs before the loop.
     */
    method FetchIteration(ghost plan: seq<Window>, ghost done: seq<Window>, ghost stored: seq<Event>,
                          ghost log0: seq<Window>, ghost hist0: seq<Event>,
                          nextRecord: Int32, i: Int32, numIterations: Int32, leftOver: Int32,
                          fetch: Fetch, decode: Decoder)
      returns (w: Window, last: Option<Event>, f: Option<Fault>, next: Int32)
      requires 0 <= i < numIterations
      requires plan == done + PlanFrom(nextRecord, i as nat, numIterations as nat, leftOver)
      requires HarvestWindows(done, fetch, decode) == Harvest(done, stored, None)
      requires requestLog == log0 + done && history == hist0 + stored
      modifies this`requestLog, this`history
      ensures var count := CountAt(i, numIterations, leftOver) as Int32;
              w == Window(nextRecord, count) && next == Advance(nextRecord, count)
      ensures var one := HarvestWindows([w], fetch, decode);
              var done', stored' := done + [w], stored + one.stored;
              && requestLog == log0 + done' && history == hist0 + stored'
              && f == one.fault && last == LastOf(one.stored)
              && (f.None? ==> HarvestWindows(done', fetch, decode) == Harvest(done', stored', None) &&
                              plan == done' + PlanFrom(next, i as nat + 1, numIterations as nat, leftOver))
              && (f.Some? ==> HarvestWindows(plan, fetch, decode) == Harvest(done', stored', f))
    {
      var count: Int32 := if i + 1 < numIterations then BATCH_SIZE else leftOver;
      w := Window(nextRecord, count);
      ghost var rest := PlanFrom(Advance(nextRecord, count), i as nat + 1, numIterations as nat, leftOver);
      assert plan == (done + [w]) + rest by {
        PlanStep(nextRecord, i as nat, numIterations as nat, leftOver);
      }
      ghost var log1, hist1 := requestLog, history;
      last, f := FetchWindow(w, fetch, decode);
      WindowStep(plan, done, stored, w, rest, fetch, decode);
      HarvestSingle(w, fetch, decode);
      ConcatAssoc(requestLog, log0, done, [w]);
      ConcatAssoc(history, hist0, stored, HarvestWindows([w], fetch, decode).stored);
      next := Advance(nextRecord, count);
    }

    /**
     * The request loop of `getEvents` for `diff` new events ending at ring
     * index `lastRecord`: the windows of `Plan` are requested in order and
     * their records stored, until a request or a record fails. Returns the
     * last event stored and the exception, if any.
     */
    method FetchWindows(lastRecord: Int32, diff: Int32, fetch: Fetch, decode: Decoder)
      returns (event: Option<Event>, fault: Option<Fault>)
      requires 0 < diff
      modifies this`requestLog, this`history
      ensures var h := HarvestWindows(Plan(lastRecord, diff), fetch, decode);
              requestLog == old(requestLog) + h.requests && history == old(history) + h.stored &&
              fault == h.fault && event == LastOf(h.stored)
    {
      ghost var plan := Plan(lastRecord, diff);
      ghost var done: seq<Window> := [];
      ghost var stored: seq<Event> := [];
      event := None;
      var numIterations: Int32 := WindowCount(diff as int) as Int32;
      var leftOver: Int32 := LeftOver(diff as int) as Int32;
      var nextRecord: Int32 := FirstRecord(lastRecord, diff);
      assert plan == done + PlanFrom(nextRecord, 0, numIterations as nat, leftOver);
      var i := 0;
      while i < numIterations
        invariant 0 <= i <= numIterations
        invariant plan == done + PlanFrom(nextRecord, i, numIterations as nat, leftOver)
        invariant HarvestWindows(done, fetch, decode) == Harvest(done, stored, None)
        invariant requestLog == old(requestLog) + done
        invariant history == old(history) + stored
        invariant event == LastOf(stored)
      {
        var w, last, f, next := FetchIteration(plan, done, stored, old(requestLog), old(history),
                                               nextRecord, i, numIterations, leftOver, fetch, decode);
        ghost var one := HarvestWindows([w], fetch, decode);
        LastOfConcat(stored, one.stored);
        if f.Some? {
          return if last.Some? then last else event, f;
        }
        done := done + [w];
        stored := stored + one.stored;
        if last.Some? {
          event := last;
        }
        nextRecord := next;
        i := i + 1;
      }
      ConcatEmpty(plan, done, PlanFrom(nextRecord, i, numIterations as nat, leftOver));
      fault := None;
    }

    /**
     * The middle of `getEvents`, once the baseline is read: the number of new
     * events is worked out, and when it is positive the request loop runs
     * over the plan and, once it completes, the last event stored, if any, is
     * written to the LastEvent folder.
     */
    method HarvestNewEvents(status: Option<EventStatus>, baseline: Option<Int32>, fetch: Fetch, decode: Decoder)
      returns (fault: Option<Fault>)
      requires status.Some? && Baseline(tags) == Success(baseline)
      modifies this`tags, this`requestLog, this`history
      ensures var c := EventsCycle(old(tags), status, fetch, decode);
              requestLog == old(requestLog) + c.requests && history == old(history) + c.stored && fault == c.fault &&
              tags == if c.fault.Some? || c.stored == [] then old(tags)
                      else ApplyWrites(old(tags), LastEventWrites(c.stored[|c.stored| - 1]))
    {
      var s := status.value;
      var diff := NewEventCount(baseline, s.lastSequenceNumber);
      ghost var c := EventsCycle(old(tags), status, fetch, decode);
      CycleOfHarvest(old(tags), status, fetch, decode, baseline);
      if diff <= 0 {
        assert CyclePlan(s, baseline) == [];
        assert c.requests == [] && c.stored == [] && c.fault.None?;
        assert requestLog == old(requestLog) + [] && history == old(history) + [];
        return None;
      }
      assert CyclePlan(s, baseline) == Plan(s.lastRecord, diff);
      var event: Option<Event>;
      event, fault := FetchWindows(s.lastRecord, diff, fetch, decode);
      assert fault == c.fault && event == LastOf(c.stored);
      if fault.None? && event.Some? {
        assert event.value == c.stored[|c.stored| - 1];
        tags := ApplyWrites(tags, LastEventWrites(event.value));
      }
    }

    /**
     * Reads the stored baseline sequence number back through the tag
     * manager: None for a missing tag, and a ClassCastException for a value
     * that is not an Integer.
     */
    method ReadBaseline() returns (r: Result<Option<Int32>, Fault>)
      ensures r == Baseline(tags)
      ensures r.Failure? <==> BASELINE_TAG in tags && !tags[BASELINE_TAG].IntTag?
      ensures r.Success? && r.value.Some? ==> Lookup(tags, BASELINE_TAG) == Some(IntTag(r.value.value))
    {
      match Lookup(tags, BASELINE_TAG) {
        case None =>
          r := Success(None);
        case Some(v) =>
          if !v.IntTag? {
            return Failure(BaselineCastFault);
          }
          r := Success(Some(v.i));
      }
    }

    /** The four `updateTag` calls that end `getEvents`: the status snapshot, whose sequence number is the next baseline. */
    method WriteStatus(s: EventStatus)
      modifies this`tags
      ensures tags == ApplyWrites(old(tags), StatusWrites(s))
      ensures Lookup(tags, BASELINE_TAG) == Some(IntTag(s.lastSequenceNumber))
    {
      UpdateTag("EventStatus/NumberOfEvents", IntTag(s.numberOfEvents));
      UpdateTag("EventStatus/FirstRecord", IntTag(s.firstRecord));
      UpdateTag("EventStatus/LastRecord", IntTag(s.lastRecord));
      UpdateTag(BASELINE_TAG, IntTag(s.lastSequenceNumber));
      ApplyFour(old(tags), StatusWrites(s));
    }

    /**
     * `getEvents`: `status` is the `/events/last` snapshot (None when it
     * cannot be read) and `fetch` answers each records request. The requests
     * made, the events stored, the tags written and the exception raised are
     * those of `EventsCycle` on the tag folder as it was.
     */
    method GetEvents(status: Option<EventStatus>, fetch: Fetch, decode: Decoder) returns (fault: Option<Fault>)
      modifies this`tags, this`requestLog, this`history
      ensures var c := EventsCycle(old(tags), status, fetch, decode);
              requestLog == old(requestLog) + c.requests && history == old(history) + c.stored &&
              tags == ApplyWrites(old(tags), c.writes) && fault == c.fault
    {
      if status.None? {
        return Some(TransportFault);
      }
      var s := status.value;
      var baseline := ReadBaseline();
      if baseline.Failure? {
        return Some(baseline.error);
      }
      fault := HarvestNewEvents(status, baseline.value, fetch, decode);
      if fault.Some? {
        return;
      }
      ghost var afterEvent := tags;
      WriteStatus(s);
      CompletedCycleTags(old(tags), afterEvent, tags, status, fetch, decode);
      return None;
    }

    /**
     * The first step of `eventRun`: a datasource that is named but not
     * initialised gets another attempt; otherwise nothing changes.
     */
    method RetryDatasource(now: int, gw: Gateway)
      requires Valid()
      modifies this`datasourceStatus, this`datasource, this`lastDatasourceInitTry,
               this`insertQuery, this`datasourceInitialized, this`tags
      ensures Valid()
      ensures datasourceInitialized ==
                (old(datasourceInitialized) ||
                 (old(datasource).Some? && InitSucceeds(now, old(lastDatasourceInitTry), gw, autoCreate)))
      ensures old(datasource).Some? && !old(datasourceInitialized) ==>
                datasource == gw.datasourceName &&
                datasourceStatus == Some(if GateOpen(now, old(lastDatasourceInitTry)) then AttemptStatus(gw, autoCreate)
                                         else DatasourceStatus.Unknown) &&
                lastDatasourceInitTry == (if GateOpen(now, old(lastDatasourceInitTry)) then now else old(lastDatasourceInitTry)) &&
                insertQuery == if InitSucceeds(now, old(lastDatasourceInitTry), gw, autoCreate) then Some(gw.insertQuery)
                               else old(insertQuery)
      ensures !(old(datasource).Some? && !old(datasourceInitialized)) ==>
                datasource == old(datasource) && datasourceStatus == old(datasourceStatus) &&
                lastDatasourceInitTry == old(lastDatasourceInitTry) && insertQuery == old(insertQuery)
      ensures tags == ShowStatus(old(tags), deviceStatus, datasourceStatus)
    {
      ShowStatusShown(old(tags), deviceStatus, datasourceStatus);
      if datasource.Some? && !datasourceInitialized {
        InitDatasource(now, gw);
      }
    }

    /**
     * `eventRun`: a datasource that is named but not initialised gets another
     * attempt; events are harvested only from an initialised datasource; the
     * device ends Running, or Faulted when the harvest raised an exception.
     */
    method EventRun(now: int, gw: Gateway, status: Option<EventStatus>, fetch: Fetch)
      requires Valid()
      modifies this`deviceStatus, this`datasourceStatus, this`datasource, this`lastDatasourceInitTry,
               this`insertQuery, this`datasourceInitialized, this`tags, this`requestLog, this`history
      ensures Valid()
      ensures datasourceInitialized ==
                (old(datasourceInitialized) ||
                 (old(datasource).Some? && InitSucceeds(now, old(lastDatasourceInitTry), gw, autoCreate)))
      ensures old(datasource).Some? && !old(datasourceInitialized) ==>
                datasource == gw.datasourceName &&
                datasourceStatus == Some(if GateOpen(now, old(lastDatasourceInitTry)) then AttemptStatus(gw, autoCreate)
                                         else DatasourceStatus.Unknown) &&
                lastDatasourceInitTry == (if GateOpen(now, old(lastDatasourceInitTry)) then now else old(lastDatasourceInitTry)) &&
                insertQuery == if InitSucceeds(now, old(lastDatasourceInitTry), gw, autoCreate) then Some(gw.insertQuery)
                               else old(insertQuery)
      ensures !(old(datasource).Some? && !old(datasourceInitialized)) ==>
                datasource == old(datasource) && datasourceStatus == old(datasourceStatus) &&
                lastDatasourceInitTry == old(lastDatasourceInitTry) && insertQuery == old(insertQuery)
      ensures !datasourceInitialized ==>
                requestLog == old(requestLog) && history == old(history) &&
                deviceStatus == Some(DeviceStatus.Running) &&
                tags == ShowStatus(old(tags), deviceStatus, datasourceStatus)
      ensures datasourceInitialized ==>
                var c := EventsCycle(old(tags), status, fetch, RecordDecoder(parentLog, insertQuery));
                requestLog == old(requestLog) + c.requests && history == old(history) + c.stored &&
                deviceStatus == Some(if c.fault.Some? then DeviceStatus.Faulted else DeviceStatus.Running) &&
                tags == ShowStatus(ApplyWrites(old(tags), c.writes), deviceStatus, datasourceStatus)
    {
      RetryDatasource(now, gw);
      ghost var mid, d0, ds := tags, deviceStatus, datasourceStatus;
      var fault := HarvestIfInitialized(status, fetch);
      ghost var ws: seq<TagWrite> := [];
      if datasourceInitialized {
        ghost var decode := RecordDecoder(parentLog, insertQuery);
        HarvestAfterShow(old(tags), d0, ds, status, fetch, decode);
        ws := EventsCycle(old(tags), status, fetch, decode).writes;
      }
      SetDeviceStatus(if fault.None? then DeviceStatus.Running else DeviceStatus.Faulted);
      ShowStatusTwice(ApplyWrites(old(tags), ws), d0, ds, deviceStatus, datasourceStatus);
    }

    /** The second step of `eventRun`: events are harvested only from an initialised datasource. */
    method HarvestIfInitialized(status: Option<EventStatus>, fetch: Fetch) returns (fault: Option<Fault>)
      requires Valid()
      modifies this`tags, this`requestLog, this`history
      ensures Valid()
      ensures !datasourceInitialized ==>
                tags == old(tags) && requestLog == old(requestLog) && history == old(history) && fault.None?
      ensures datasourceInitialized ==>
                var c := EventsCycle(old(tags), status, fetch, RecordDecoder(parentLog, insertQuery));
                requestLog == old(requestLog) + c.requests && history == old(history) + c.stored &&
                tags == ApplyWrites(old(tags), c.writes) && fault == c.fault
    {
      fault := None;
      if datasourceInitialized {
        var decode := RecordDecoder(parentLog, insertQuery);
        fault := GetEvents(status, fetch, decode);
        ghost var ws := EventsCycle(old(tags), status, fetch, decode).writes;
        CycleWritesAvoidStatus(old(tags), status, fetch, decode);
        WritesElsewhere(old(tags), ws, STATUS_TAG);
        WritesElsewhere(old(tags), ws, DATABASE_STATUS_TAG);
      }
    }

    /**
     * `getChannelInfo`: each configuration entry is filed under its channel
     * id and its Channel and Name tags are written.
     */
    method GetChannelInfo(configs: seq<ChannelConfig>)
      modifies this`channelConfigMap, this`tags
      ensures channelConfigMap == Register(old(channelConfigMap), configs, |configs|)
      ensures tags == ApplyWrites(old(tags), AllInfoWrites(configs, |configs|))
    {
      var i := 0;
      while i < |configs|
        invariant 0 <= i <= |configs|
        invariant channelConfigMap == Register(old(channelConfigMap), configs, i)
        invariant tags == ApplyWrites(old(tags), AllInfoWrites(configs, i))
      {
        var config := configs[i];
        var channelTagPath := CHANNEL_FOLDER + config.channel;
        channelConfigMap := channelConfigMap[config.channel := config];
        ghost var before := tags;
        UpdateTag(channelTagPath + "/Channel", StrTag(config.channel));
        UpdateTag(channelTagPath + "/Name", StrTag(config.name));
        ApplyTwo(before, InfoWrites(config));
        ApplyWritesConcat(old(tags), AllInfoWrites(configs, i), InfoWrites(config));
        i := i + 1;
      }
    }

    /**
     * `getChannelData`: for each reading i, the channel with id i+1 (its
     * configuration, or the default one) gets its five tags, its Value being
     * bit i of the status word and its Status the matching on/off text.
     */
    method GetChannelData(status: Int64, readings: seq<ChannelReading>)
      modifies this`tags
      ensures tags == ApplyWrites(old(tags), DataWrites(channelConfigMap, status, readings, |readings|))
    {
      var i := 0;
      while i < |readings|
        invariant 0 <= i <= |readings|
        invariant tags == ApplyWrites(old(tags), DataWrites(channelConfigMap, status, readings, i))
      {
        var channel := LeftPad(DecimalString(i + 1), 2, '0');
        var config := ConfigFor(channelConfigMap, channel);
        var channelTagPath := CHANNEL_FOLDER + config.channel;
        var reading := readings[i];
        var channelStatus := (status / Pow2(i % 64)) % 2 == 1;
        var channelStatusStr := if channelStatus then config.onText else config.offText;
        ghost var before := tags;
        UpdateTag(channelTagPath + "/SecondsUTC", LongTag(reading.secondsUTC));
        UpdateTag(channelTagPath + "/DSTActive", BoolTag(reading.dstActive != 0));
        UpdateTag(channelTagPath + "/Value", BoolTag(channelStatus));
        UpdateTag(channelTagPath + "/Counter", IntTag(reading.value));
        UpdateTag(channelTagPath + "/Status", StrTag(channelStatusStr));
        ApplyFive(before, ReadingWrites(channelConfigMap, status, i, reading));
        ApplyWritesConcat(old(tags), DataWrites(channelConfigMap, status, readings, i),
                          ReadingWrites(channelConfigMap, status, i, reading));
        i := i + 1;
      }
    }

    /**
     * The `try` block of `channelRun`: `getDiag`, `getChannelInfo` and
     * `getChannelData` in turn, stopping at the first that throws. Returns
     * whether all three completed.
     */
    method PollChannels(diagOk: bool, configs: Option<seq<ChannelConfig>>, status: Option<Int64>,
                        readings: Option<seq<ChannelReading>>) returns (ok: bool)
      requires KeyedByChannel(channelConfigMap)
      modifies this`channelConfigMap, this`tags
      ensures KeyedByChannel(channelConfigMap)
      ensures ok == (diagOk && configs.Some? && status.Some? && readings.Some?)
      ensures channelConfigMap == if diagOk && configs.Some? then Register(old(channelConfigMap), configs.value, |configs.value|)
                                  else old(channelConfigMap)
      ensures tags == ApplyWrites(old(tags), ChannelRunWrites(old(channelConfigMap), diagOk, configs, status, readings))
    {
      if !diagOk || configs.None? {
        return false;
      }
      GetChannelInfo(configs.value);
      RegisterKeyed(old(channelConfigMap), configs.value, |configs.value|);
      if status.None? || readings.None? {
        return false;
      }
      GetChannelData(status.value, readings.value);
      ApplyWritesConcat(old(tags), AllInfoWrites(configs.value, |configs.value|),
                        DataWrites(channelConfigMap, status.value, readings.value, |readings.value|));
      return true;
    }

    /**
     * `channelRun`: diagnostics, then the channel configuration, then the
     * channel data; the device ends Running, or Faulted when a step failed,
     * keeping what the earlier steps wrote.
     */
    method ChannelRun(diagOk: bool, configs: Option<seq<ChannelConfig>>, status: Option<Int64>,
                      readings: Option<seq<ChannelReading>>)
      requires Valid()
      modifies this`deviceStatus, this`channelConfigMap, this`tags
      ensures Valid()
      ensures deviceStatus == Some(if diagOk && configs.Some? && status.Some? && readings.Some?
                                   then DeviceStatus.Running else DeviceStatus.Faulted)
      ensures channelConfigMap == if diagOk && configs.Some? then Register(old(channelConfigMap), configs.value, |configs.value|)
                                  else old(channelConfigMap)
      ensures tags == ShowStatus(ApplyWrites(old(tags), ChannelRunWrites(old(channelConfigMap), diagOk, configs, status, readings)),
                                 deviceStatus, datasourceStatus)
    {
      ShowStatusShown(old(tags), deviceStatus, datasourceStatus);
      ghost var d0, ds0 := deviceStatus, datasourceStatus;
      ghost var ws := ChannelRunWrites(channelConfigMap, diagOk, configs, status, readings);
      ChannelRunWritesAvoidStatus(channelConfigMap, diagOk, configs, status, readings);
      AvoidingWritesCommute(old(tags), ws, d0, ds0);
      var ok := PollChannels(diagOk, configs, status, readings);
      SetDeviceStatus(if ok then DeviceStatus.Running else DeviceStatus.Faulted);
      ShowStatusTwice(ApplyWrites(old(tags), ws), d0, ds0, deviceStatus, datasourceStatus);
    }
  }
}
