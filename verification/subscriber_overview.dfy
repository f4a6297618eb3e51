/** The data of the subscriber dashboard's table: one display row per
    subscriber of the directory, merged with the metrics provider's usage
    figures, with a default for every value that may be missing. */
module SubscriberOverview {
  import opened Wrappers

  /** The LTE part of a subscriber record. */
  datatype LteSubscription = LteSubscription(state: string)

  /** `monitoring.icmp`: when the subscriber last answered, in epoch
      milliseconds. */
  datatype IcmpStatus = IcmpStatus(lastReportedTime: Option<int>)

  datatype SubscriberMonitoring = SubscriberMonitoring(icmp: Option<IcmpStatus>)

  /** A record of the subscriber directory. `lte` is required by its type. */
  datatype Subscriber = Subscriber(
    name: Option<string>,
    lte: LteSubscription,
    monitoring: Option<SubscriberMonitoring>)

  /** A record of the metrics provider. */
  datatype SubscriberMetrics = SubscriberMetrics(
    currentUsage: Option<string>,
    dailyAvg: Option<string>)

  /** A JavaScript object used as a dictionary: its keys in `Object.keys`
      order, and its entries. */
  datatype JsObject<V> = JsObject(keys: seq<string>, entries: map<string, V>)

  /** `Object.keys` lists every key of the object exactly once. */
  ghost predicate WellFormed<V>(o: JsObject<V>)
  {
    (forall i, j :: 0 <= i < j < |o.keys| ==> o.keys[i] != o.keys[j]) &&
    (forall k :: k in o.entries <==> k in o.keys)
  }

  /** SubscriberRowType; `lastReportedTime` is the millisecond count the
      `Date` is built from. */
  datatype SubscriberRow = SubscriberRow(
    name: string,
    imsi: string,
    service: string,
    currentUsage: string,
    dailyAvg: string,
    lastReportedTime: int)

  /** What the table area shows: the rows, or the placeholder string when
      there is no subscriber map. */
  datatype SubscriberTable =
    | Rows(data: seq<SubscriberRow>)
    | Placeholder(text: string)

  /** The display value of a usage figure that is missing. */
  const DEFAULT_USAGE: string := "0"

  /** The timestamp used when none was reported: the epoch. */
  const EPOCH: int := 0

  /** The placeholder string shown when there is no subscriber map. */
  const NO_SUBSCRIBERS: string := "<Text>No Subscribers Found</Text>"

  /** `subscriberMetrics?.[imsi]` */
  function MetricsFor(subscriberMetrics: Option<map<string, SubscriberMetrics>>, imsi: string)
    : Option<SubscriberMetrics>
  {
    if subscriberMetrics.Some? && imsi in subscriberMetrics.value
    then Some(subscriberMetrics.value[imsi])
    else None
  }

  /** `subscriberInfo.monitoring?.icmp?.last_reported_time` */
  function ReportedTime(info: Subscriber): Option<int>
  {
    if info.monitoring.Some? && info.monitoring.value.icmp.Some?
    then info.monitoring.value.icmp.value.lastReportedTime
    else None
  }

  /** The row built for one key of the subscriber map. */
  function ProjectRow(
    imsi: string, info: Subscriber, subscriberMetrics: Option<map<string, SubscriberMetrics>>)
    : SubscriberRow
  {
    var metrics := MetricsFor(subscriberMetrics, imsi);
    SubscriberRow(
      name := info.name.GetOr(imsi),
      imsi := imsi,
      service := info.lte.state,
      currentUsage := if metrics.Some? then metrics.value.currentUsage.GetOr(DEFAULT_USAGE) else DEFAULT_USAGE,
      dailyAvg := if metrics.Some? then metrics.value.dailyAvg.GetOr(DEFAULT_USAGE) else DEFAULT_USAGE,
      lastReportedTime := ReportedTime(info).GetOr(EPOCH))
  }

  /** `keys.map(imsi => row for imsi)`: the rows in the order of the keys. */
  function ProjectRows(
    keys: seq<string>, entries: map<string, Subscriber>,
    subscriberMetrics: Option<map<string, SubscriberMetrics>>)
    : (rows: seq<SubscriberRow>)
    requires forall k :: k in keys ==> k in entries
    ensures |rows| == |keys|
    ensures forall i :: 0 <= i < |keys| ==>
      rows[i] == ProjectRow(keys[i], entries[keys[i]], subscriberMetrics)
  {
    if keys == [] then []
    else [ProjectRow(keys[0], entries[keys[0]], subscriberMetrics)]
         + ProjectRows(keys[1..], entries, subscriberMetrics)
  }

  /** The table data of SubscriberTableRaw: rows when the subscriber map is
      there (an empty map gives an empty table), the placeholder string when
      it is null or undefined. */
  function SubscriberTableData(
    subscriberMap: Option<JsObject<Subscriber>>,
    subscriberMetrics: Option<map<string, SubscriberMetrics>>)
    : (table: SubscriberTable)
    requires subscriberMap.Some? ==> WellFormed(subscriberMap.value)
    ensures table.Placeholder? <==> subscriberMap.None?
    ensures table.Placeholder? ==> table.text == NO_SUBSCRIBERS
    ensures table.Rows? ==>
      |table.data| == |subscriberMap.value.keys| &&
      forall i :: 0 <= i < |table.data| ==> table.data[i].imsi == subscriberMap.value.keys[i]
  {
    match subscriberMap
    case None => Placeholder(NO_SUBSCRIBERS)
    case Some(m) => Rows(ProjectRows(m.keys, m.entries, subscriberMetrics))
  }

  /** The identifiers of the rows are exactly the keys of the subscriber map,
      each once. */
  lemma RowsAreOnePerKey(
    subscriberMap: JsObject<Subscriber>,
    subscriberMetrics: Option<map<string, SubscriberMetrics>>)
    requires WellFormed(subscriberMap)
    ensures var rows := SubscriberTableData(Some(subscriberMap), subscriberMetrics).data;
            (set i | 0 <= i < |rows| :: rows[i].imsi) == subscriberMap.entries.Keys &&
            forall i, j :: 0 <= i < j < |rows| ==> rows[i].imsi != rows[j].imsi
  {
    var rows := SubscriberTableData(Some(subscriberMap), subscriberMetrics).data;
    var imsis := set i | 0 <= i < |rows| :: rows[i].imsi;
    forall k | k in subscriberMap.entries.Keys
      ensures k in imsis
    {
      var i :| 0 <= i < |subscriberMap.keys| && subscriberMap.keys[i] == k;
      assert rows[i].imsi == k;
    }
  }

  /** The name is the record's name whenever one is set, even the empty
      string; only a null or undefined name falls back to the IMSI. */
  lemma RowNameFallback(
    imsi: string, info: Subscriber, subscriberMetrics: Option<map<string, SubscriberMetrics>>)
    ensures var row := ProjectRow(imsi, info, subscriberMetrics);
            (info.name.Some? ==> row.name == info.name.value) &&
            (info.name.None? ==> row.name == imsi) &&
            (info.name == Some("") ==> row.name == "")
  {
  }

  /** The row's IMSI is its key and the service is the LTE state, with no
      fallback. */
  lemma RowIdentityAndService(
    imsi: string, info: Subscriber, subscriberMetrics: Option<map<string, SubscriberMetrics>>)
    ensures var row := ProjectRow(imsi, info, subscriberMetrics);
            row.imsi == imsi && row.service == info.lte.state
  {
  }

  /** Usage figures default to "0" when the metrics map, its entry for this
      IMSI, or the figure itself is missing, and are copied otherwise. */
  lemma RowUsageDefaults(
    imsi: string, info: Subscriber, subscriberMetrics: Option<map<string, SubscriberMetrics>>)
    ensures var row := ProjectRow(imsi, info, subscriberMetrics);
            var present := subscriberMetrics.Some? && imsi in subscriberMetrics.value;
            (!present ==> row.currentUsage == DEFAULT_USAGE && row.dailyAvg == DEFAULT_USAGE) &&
            (present && subscriberMetrics.value[imsi].currentUsage.None? ==> row.currentUsage == DEFAULT_USAGE) &&
            (present && subscriberMetrics.value[imsi].dailyAvg.None? ==> row.dailyAvg == DEFAULT_USAGE) &&
            (present && subscriberMetrics.value[imsi].currentUsage.Some? ==>
               row.currentUsage == subscriberMetrics.value[imsi].currentUsage.value) &&
            (present && subscriberMetrics.value[imsi].dailyAvg.Some? ==>
               row.dailyAvg == subscriberMetrics.value[imsi].dailyAvg.value)
  {
  }

  /** The last reported time is the ICMP timestamp when every link of
      `monitoring.icmp.last_reported_time` is there, and the epoch otherwise. */
  lemma RowLastReportedTime(
    imsi: string, info: Subscriber, subscriberMetrics: Option<map<string, SubscriberMetrics>>)
    ensures var row := ProjectRow(imsi, info, subscriberMetrics);
            var m := info.monitoring;
            ((m.None? || m.value.icmp.None? || m.value.icmp.value.lastReportedTime.None?)
               ==> row.lastReportedTime == EPOCH) &&
            ((m.Some? && m.value.icmp.Some? && m.value.icmp.value.lastReportedTime.Some?)
               ==> row.lastReportedTime == m.value.icmp.value.lastReportedTime.value)
  {
  }

  /** Without a metrics map, every row shows "0" for both usage figures. */
  lemma NoMetricsAllDefault(subscriberMap: JsObject<Subscriber>)
    requires WellFormed(subscriberMap)
    ensures var rows := SubscriberTableData(Some(subscriberMap), None).data;
            forall i :: 0 <= i < |rows| ==>
              rows[i].currentUsage == DEFAULT_USAGE && rows[i].dailyAvg == DEFAULT_USAGE
  {
  }

  /** One subscriber with a name and an LTE state, and an empty metrics map. */
  lemma SingleSubscriberScenario()
    ensures var imsi := "310150123456789";
            var info := Subscriber(Some("Alice"), LteSubscription("ACTIVE"), None);
            var subscriberMap := JsObject([imsi], map[imsi := info]);
            SubscriberTableData(Some(subscriberMap), Some(map[]))
              == Rows([SubscriberRow("Alice", imsi, "ACTIVE", "0", "0", EPOCH)])
  {
    var imsi := "310150123456789";
    var info := Subscriber(Some("Alice"), LteSubscription("ACTIVE"), None);
    var subscriberMap := JsObject([imsi], map[imsi := info]);
    assert WellFormed(subscriberMap);
  }
}
