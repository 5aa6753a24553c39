/** `NotificationCaptureService`: what happens when the OS reports that a
    notification was posted or removed. The service emits the live event to
    JavaScript when a bridge instance exists, appends the serialized record
    to the persistent log, and starts the headless task service whose
    `getTaskConfig` hands the same bundle to the `NotificationEvent` task. */
module Capture {
  import opened Wrappers
  import opened Events
  import NotificationStore

  /** The two listener callbacks. */
  datatype EventKind = Posted | Removed

  /** The event name each callback emits and writes under `_event`. */
  function EventName(kind: EventKind): (name: string)
    ensures name == "NotificationPosted" || name == "NotificationRemoved"
    ensures kind.Posted? <==> name == "NotificationPosted"
  {
    match kind
    case Posted => "NotificationPosted"
    case Removed => "NotificationRemoved"
  }

  /** The headless task registration `getTaskConfig` returns. */
  datatype TaskConfig = TaskConfig(taskKey: string, data: WritableMap, timeoutMs: int, allowedInForeground: bool)

  const HeadlessTaskKey: string := "NotificationEvent"
  const HeadlessTimeoutMs: int := 10000

  /** `getTaskConfig`: the `NotificationEvent` task with a 10-second timeout,
      allowed while the app is in the foreground, fed with the intent's
      extras converted by `bundleToWritable` (`None` for a null intent or
      null extras). */
  function GetTaskConfig(extras: Option<Bundle>): (c: TaskConfig)
    ensures c.taskKey == HeadlessTaskKey && c.timeoutMs == HeadlessTimeoutMs && c.allowedInForeground
    ensures extras.None? ==> c.data == map[]
    ensures extras.Some? ==> c.data.Keys == set k | k in extras.value && !extras.value[k].BNull?
    ensures extras.Some? ==> forall k | k in c.data :: c.data[k] == ToJs(extras.value[k])
  {
    TaskConfig(HeadlessTaskKey, BundleToWritable(extras), HeadlessTimeoutMs, true)
  }

  /** The observable effects of one callback. */
  datatype Effects = Effects(
    emitted: Option<(string, WritableMap)>,          // the live event, if sent
    log: NotificationStore.Slot<StoredEvent>,          // the store afterwards
    headless: Option<TaskConfig>)                      // the task started, if any

  /** `onNotificationPosted` / `onNotificationRemoved`. `bridgeAttached` says
      whether the bridge module's static context is set (otherwise
      `sendEvent` returns without emitting); `serviceStarts` says whether
      `startService` succeeded (its failure is logged and swallowed). */
  function OnNotification(kind: EventKind, sbn: StatusBarNotification, bridgeAttached: bool,
                          serviceStarts: bool, log: NotificationStore.Slot<StoredEvent>): (fx: Effects)
    ensures fx.emitted.Some? <==> bridgeAttached
    ensures fx.emitted.Some? ==> fx.emitted.value == (EventName(kind), ToWritableMap(sbn))
    ensures fx.headless.Some? <==> serviceStarts
    ensures fx.headless.Some? ==> fx.headless.value.taskKey == HeadlessTaskKey
    ensures fx.headless.Some? ==> fx.headless.value.data == ToWritableMap(sbn)[EventKey := JsString(EventName(kind))]
    ensures log.Unreadable? ==> fx.log == log
    ensures !log.Unreadable? ==> NotificationStore.GetAll(fx.log) != []
    ensures !log.Unreadable? ==>
              (NotificationStore.Last(NotificationStore.GetAll(fx.log))
               == StoredEvent(Some(sbn.packageName), Some(sbn.id), Some(sbn.postTime),
                              TitleOf(sbn), TextOf(sbn), SubTextOf(sbn)))
  {
    var name := EventName(kind);
    var b := Serialize(sbn)[EventKey := BString(name)];
    PersistSerializeRoundTrip(sbn, name);
    HeadlessPayloadMatchesLiveEvent(sbn, name);
    Effects(
      if bridgeAttached then Some((name, ToWritableMap(sbn))) else None,
      NotificationStore.Add(log, PersistedRecord(b)),
      if serviceStarts then Some(GetTaskConfig(Some(b))) else None)
  }

  /** Whatever path a captured notification takes to JavaScript — the live
      event, the headless task, or the store read back later — it carries the
      same fields; the headless payload adds only the `_event` tag. */
  lemma EveryPathCarriesTheSameFields(kind: EventKind, sbn: StatusBarNotification,
                                      log: NotificationStore.Slot<StoredEvent>)
    requires !log.Unreadable?
    ensures var fx := OnNotification(kind, sbn, true, true, log);
            var live := fx.emitted.value.1;
            && fx.headless.value.data == live[EventKey := JsString(EventName(kind))]
            && SavedToWritable(NotificationStore.Last(NotificationStore.GetAll(fx.log))) == live
  {
    ReplayMatchesLiveEvent(sbn, EventName(kind));
    PersistSerializeRoundTrip(sbn, EventName(kind));
  }

  /** The callbacks never lose earlier records except by capacity eviction:
      the log afterwards is the newest `Max` entries of the old log plus the
      new record. */
  lemma CaptureAppendsToLog(kind: EventKind, sbn: StatusBarNotification, bridgeAttached: bool,
                            serviceStarts: bool, log: NotificationStore.Slot<StoredEvent>)
    requires !log.Unreadable?
    ensures NotificationStore.GetAll(OnNotification(kind, sbn, bridgeAttached, serviceStarts, log).log)
         == NotificationStore.Newest(NotificationStore.GetAll(log) + [PersistedRecord(Serialize(sbn)[EventKey := BString(EventName(kind))])])
  {
    NotificationStore.AddReadsBack(log, PersistedRecord(Serialize(sbn)[EventKey := BString(EventName(kind))]));
  }
}
