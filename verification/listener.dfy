/** The JavaScript wrapper around the bridge. Every function first checks the
    platform, Expo Go, and that the bridge exposes the method it needs, and
    none of them lets an error escape: a failed or unavailable call reads as
    "no access", an empty list, or nothing done. The access flow requests the
    runtime permission, checks access, opens the settings screen, and polls
    until access is granted or 15 seconds have passed. */
module Listener {
  import opened Wrappers
  import opened Events
  import NotificationStore
  import Capture
  import NativeBridge

  datatype Os = Android | Ios | Web

  /** The bridge methods the wrapper looks up before calling. */
  datatype BridgeMethod = IsEnabledFn | OpenSettingsFn | GetSdkIntFn | GetSavedFn | ClearSavedFn

  /** `Platform.OS`, whether the app runs inside Expo Go, and which methods
      the `NotificationBridge` native module exposes (none when absent). */
  datatype Env = Env(os: Os, expoGo: bool, bridge: set<BridgeMethod>)

  /** The wrapper reaches the native method `f`. */
  predicate CanCall(env: Env, f: BridgeMethod) {
    env.os == Android && !env.expoGo && f in env.bridge
  }

  /** `isNotificationAccessEnabled`; `reply` is how the native `isEnabled`
      settles. */
  function IsNotificationAccessEnabled(env: Env, reply: Reply<bool>): (enabled: bool)
    ensures enabled <==> CanCall(env, IsEnabledFn) && reply == Resolved(true)
  {
    if env.os != Android then false
    else if env.expoGo then false
    else if IsEnabledFn !in env.bridge then false
    else
      match reply
      case Resolved(b) => b
      case Rejected => false
  }

  /** `openNotificationAccessSettings`: whether the native `openSettings` is
      invoked (it returns nothing and swallows its own errors). */
  function OpenNotificationAccessSettings(env: Env): (invoked: bool)
    ensures invoked <==> CanCall(env, OpenSettingsFn)
  {
    env.os == Android && !env.expoGo && OpenSettingsFn in env.bridge
  }

  /** `getSavedNotifications`; `reply` is how the native `getSaved` settles.
      Anything but a resolved array reads as the empty list. */
  function GetSavedNotifications(env: Env, reply: Reply<JsResult>): (events: seq<WritableMap>)
    ensures events != [] ==> CanCall(env, GetSavedFn) && reply == Resolved(JsArray(events))
    ensures CanCall(env, GetSavedFn) && reply.Resolved? && reply.value.JsArray? ==> events == reply.value.items
  {
    if env.os != Android || env.expoGo || GetSavedFn !in env.bridge then []
    else
      match reply
      case Resolved(JsArray(items)) => items
      case Resolved(JsNotArray) => []
      case Rejected => []
  }

  /** `clearSavedNotifications`: the store after the call. */
  function ClearSavedNotifications(env: Env, log: NotificationStore.Slot<StoredEvent>): (log': NotificationStore.Slot<StoredEvent>)
    ensures CanCall(env, ClearSavedFn) ==> NotificationStore.GetAll(log') == []
    ensures !CanCall(env, ClearSavedFn) ==> log' == log
  {
    if CanCall(env, ClearSavedFn) then NativeBridge.ClearSaved(log) else log
  }

  /** A notification captured while the app was away is what the wrapper
      later lists last, field for field as the live event showed it. */
  lemma CapturedNotificationIsListed(env: Env, kind: Capture.EventKind, sbn: StatusBarNotification,
                                     bridgeAttached: bool, serviceStarts: bool,
                                     log: NotificationStore.Slot<StoredEvent>)
    requires CanCall(env, GetSavedFn) && !log.Unreadable?
    ensures var log' := Capture.OnNotification(kind, sbn, bridgeAttached, serviceStarts, log).log;
            var events := GetSavedNotifications(env, Resolved(JsArray(NativeBridge.SavedArray(log'))));
            events != [] && events[|events| - 1] == ToWritableMap(sbn)
  {
    var log' := Capture.OnNotification(kind, sbn, bridgeAttached, serviceStarts, log).log;
    var xs := NotificationStore.GetAll(log');
    assert SavedToWritable(xs[|xs| - 1]) == ToWritableMap(sbn) by {
      Capture.EveryPathCarriesTheSameFields(kind, sbn, log);
    }
  }

  /** After clearing through the wrapper the saved list is empty. */
  lemma ClearedListIsEmpty(env: Env, log: NotificationStore.Slot<StoredEvent>)
    requires CanCall(env, ClearSavedFn) && CanCall(env, GetSavedFn)
    ensures GetSavedNotifications(env, Resolved(JsArray(NativeBridge.SavedArray(ClearSavedNotifications(env, log))))) == []
  {
  }

  /** How the steps of the runtime permission request settle: the native
      `getSdkInt`, whether `PermissionsAndroid.request` exists, and the
      answer the request gives. */
  datatype PermissionInputs = PermissionInputs(sdkInt: Reply<int>, hasRequestApi: bool, answer: Reply<string>)

  /** What the request returns, and whether the system prompt was shown. */
  datatype PermissionResult = PermissionResult(granted: bool, prompted: bool)

  /** `PermissionsAndroid.RESULTS.GRANTED`. */
  const Granted: string := "granted"

  /** Android 13 (API level 33) introduced the runtime notification permission. */
  const RuntimePermissionSdk: int := 33

  /** Outside Expo Go the permission is requested unless the SDK level is
      known and below 33. */
  predicate NeedsRuntime(env: Env, sdkInt: Reply<int>) {
    !(GetSdkIntFn in env.bridge && sdkInt.Resolved? && sdkInt.value < RuntimePermissionSdk)
  }

  /** `requestRuntimeNotificationPermission`. In Expo Go the SDK level is not
      consulted. When no request is made the permission counts as granted. */
  function RequestRuntimeNotificationPermission(env: Env, inp: PermissionInputs): (r: PermissionResult)
    ensures r.prompted <==> env.os == Android && inp.hasRequestApi && (env.expoGo || NeedsRuntime(env, inp.sdkInt))
    ensures r.granted <==> env.os == Android && (r.prompted ==> inp.answer == Resolved(Granted))
  {
    if env.os != Android then PermissionResult(false, false)
    else if env.expoGo then
      if !inp.hasRequestApi then PermissionResult(true, false)
      else PermissionResult(inp.answer == Resolved(Granted), true)
    else
      var sdk: Option<int> :=
        if GetSdkIntFn in env.bridge && inp.sdkInt.Resolved? then Some(inp.sdkInt.value) else None;
      var needsRuntime := if sdk.Some? then sdk.value >= RuntimePermissionSdk else true;
      if !needsRuntime then PermissionResult(true, false)
      else if !inp.hasRequestApi then PermissionResult(true, false)
      else PermissionResult(inp.answer == Resolved(Granted), true)
  }

  const TimeoutMs: nat := 15000
  const IntervalMs: nat := 800

  /** The most sleeps the polling loop can take: the smallest `n` with
      `n * IntervalMs >= TimeoutMs`. */
  const MaxSleeps: nat := 19

  /** Milliseconds since `start` when the loop condition is evaluated after
      `j` sleeps: `firstCheck` for the first evaluation, then for each sleep
      the interval plus `overrun(j)`, the time the timer fires late and the
      following check takes. */
  function Elapsed(firstCheck: nat, overrun: nat -> nat, j: nat): (t: nat)
    ensures t >= firstCheck + IntervalMs * j
  {
    if j == 0 then firstCheck
    else Elapsed(firstCheck, overrun, j - 1) + IntervalMs + overrun(j - 1)
  }

  /** The outcome of the access flow: the result, whether the permission
      prompt was shown, whether the settings screen was opened, and how many
      times the loop slept. */
  datatype FlowOutcome = FlowOutcome(enabled: bool, prompted: bool, openedSettings: bool, sleeps: nat)

  /** The flow gets past its first access check without success and starts
      polling. */
  predicate Polls(env: Env, initial: Reply<bool>) {
    env.os == Android && !env.expoGo && !IsNotificationAccessEnabled(env, initial)
  }

  /** `enableNotificationAccessFlow`. `initial` is how the first access check
      settles and `poll(j)` how the check after `j` sleeps settles; the clock
      is given by `firstCheck` and `overrun` as in `Elapsed`. */
  method EnableNotificationAccessFlow(env: Env, perm: PermissionInputs, initial: Reply<bool>,
                                      poll: nat -> Reply<bool>, firstCheck: nat, overrun: nat -> nat)
    returns (o: FlowOutcome)
    ensures env.os != Android || env.expoGo ==> o == FlowOutcome(false, false, false, 0)
    ensures env.os == Android && !env.expoGo ==> o.prompted == RequestRuntimeNotificationPermission(env, perm).prompted
    ensures env.os == Android && !env.expoGo && IsNotificationAccessEnabled(env, initial) ==>
              o.enabled && !o.openedSettings && o.sleeps == 0
    ensures o.openedSettings <==> Polls(env, initial) && CanCall(env, OpenSettingsFn)
    ensures o.sleeps <= MaxSleeps
    ensures forall j | 0 <= j < o.sleeps ::
              !IsNotificationAccessEnabled(env, poll(j)) && Elapsed(firstCheck, overrun, j) < TimeoutMs
    ensures Polls(env, initial) ==> o.enabled == IsNotificationAccessEnabled(env, poll(o.sleeps))
    ensures Polls(env, initial) && !o.enabled ==> Elapsed(firstCheck, overrun, o.sleeps) >= TimeoutMs
  {
    if env.os != Android || env.expoGo {
      return FlowOutcome(false, false, false, 0);
    }
    var permission := RequestRuntimeNotificationPermission(env, perm);
    if IsNotificationAccessEnabled(env, initial) {
      return FlowOutcome(true, permission.prompted, false, 0);
    }
    var settingsOpened := OpenNotificationAccessSettings(env);
    var enabled := IsNotificationAccessEnabled(env, poll(0));
    var j: nat := 0;
    while !enabled && Elapsed(firstCheck, overrun, j) < TimeoutMs
      invariant j <= MaxSleeps
      invariant enabled == IsNotificationAccessEnabled(env, poll(j))
      invariant forall m | 0 <= m < j ::
                  !IsNotificationAccessEnabled(env, poll(m)) && Elapsed(firstCheck, overrun, m) < TimeoutMs
      decreases TimeoutMs - IntervalMs * j
    {
      j := j + 1;
      enabled := IsNotificationAccessEnabled(env, poll(j));
    }
    o := FlowOutcome(enabled, permission.prompted, settingsOpened, j);
  }
}
