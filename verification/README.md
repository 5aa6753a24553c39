# Notification listener core, modelled in Dafny

The app captures Android notifications through a `NotificationListenerService`
that an Expo config plugin generates as Java source. It hands each notification
to JavaScript three ways:

- as a live `NotificationPosted` / `NotificationRemoved` event;
- through a headless JS task (`NotificationEvent`);
- through a persistent log, `NotificationStore`, that keeps the newest 200
  records.

A TypeScript wrapper calls the native `NotificationBridge` module. The wrapper
checks listener access, lists and clears the saved log, requests the runtime
notification permission, and runs a flow that opens the access settings and
polls until access is granted or 15 seconds have passed. The config plugin
also edits `AndroidManifest.xml` idempotently and turns the Java package into
a source path.

The model, one module per file:

- `wrappers.dfy` (`Wrappers`): `Option`, `Result`, and `Reply`. A `Reply` is
  how a promise settles: resolved with a value, or rejected.
- `text.dfy` (`Text`): Java's `String.contains` and `String.split` with a
  one-character separator (trailing empty strings dropped), and a global
  character replace.
- `events.dfy` (`Events`): the notification as the OS delivers it, the Android
  `Bundle`, the React Native `WritableMap`, and the persisted JSON record. It
  also holds the conversions between them: `serialize`, `toWritableMap`,
  `persist`, `getSaved`'s per-item copy, and `bundleToWritable`.
- `store.dfy` (`NotificationStore`): `add`, `getAll` and `clear`, generic
  over the record type. The stored value is absent, a readable array, or
  unreadable.
- `capture.dfy` (`Capture`): `onNotificationPosted` / `onNotificationRemoved`
  and `getTaskConfig`.
- `native_bridge.dfy` (`NativeBridge`): `isEnabled`, `getSaved` and
  `clearSaved`.
- `config_plugin.dfy` (`ConfigPlugin`): the manifest edit and
  `javaPackageToPath`.
- `listener.dfy` (`Listener`): the TypeScript wrappers and
  `enableNotificationAccessFlow`.

Everything the code reads from outside is a parameter:

- the platform, Expo Go, and which bridge methods exist;
- how each native promise settles;
- the enabled-listener package set and the secure setting;
- whether the bridge context is attached and whether `startService` succeeds;
- the clock.

## Model

| member | source | states |
|---|---|---|
| Text.JavaSplit | plugins/with-notification-listener.js:306 | `String.split` on one character: a string without the separator is its own only piece; otherwise the pieces are the fields with the trailing empty ones removed, and the result never ends in an empty piece |
| Text.Fields | plugins/with-notification-listener.js:306 | at least one field; no field contains the separator |
| Text.JoinFields | plugins/with-notification-listener.js:306 | joining the fields with the separator gives back the original string |
| Text.DropTrailingEmpty | plugins/with-notification-listener.js:306 | the result is a prefix of the fields, does not end in an empty string, and only empty strings were dropped |
| Text.SplitContainsIff | plugins/with-notification-listener.js:306-313 | for a non-empty needle free of the separator: some piece of the Java split contains it exactly when the whole string does |
| Text.ReplaceAll | plugins/with-notification-listener.js:125 | same length; each `from` becomes `to` and every other character is kept |
| Events.Serialize | plugins/with-notification-listener.js:178-194 | the bundle always holds packageName (string), id (int) and postTime (long); it holds title/text/subText exactly when the extras supply them; it has no other keys |
| Events.ToWritableMap | plugins/with-notification-listener.js:160-176 | the same six fields as JavaScript values, with id and postTime as numbers; it has no other keys |
| Events.GetString | plugins/with-notification-listener.js:199 | `Bundle.getString` yields a string exactly when the key holds one, and then that string |
| Events.GetInt | plugins/with-notification-listener.js:200 | `Bundle.getInt` yields the key's `Integer`, or 0 when the key is absent or holds another type |
| Events.GetLong | plugins/with-notification-listener.js:201 | `Bundle.getLong` yields the key's `Long`, or 0 when the key is absent or holds another type |
| Events.PersistedRecord | plugins/with-notification-listener.js:196-209 | a JSON field is present iff the bundle contains the key; string fields also need a string value, because `put` with null drops the key; a present string field holds the bundle's string; `id` and `postTime` hold the bundle's `Integer`/`Long`, or 0 when the key holds another type |
| Events.SavedToWritable | plugins/with-notification-listener.js:350-355 | each present field is copied under its key (id and postTime as numbers) and absent ones stay absent |
| Events.BundleToWritable | plugins/with-notification-listener.js:423-437 | a null bundle gives the empty map; otherwise exactly the non-null entries, each converted by its runtime type |
| Events.PersistSerializeRoundTrip | plugins/with-notification-listener.js:178-209 | persisting the serialized bundle, with its `_event` tag, yields exactly the notification's six fields and drops the tag |
| Events.ReplayMatchesLiveEvent | plugins/with-notification-listener.js:160-209 | a record read back through getSaved's conversion equals the live event map built for the same notification |
| Events.HeadlessPayloadMatchesLiveEvent | plugins/with-notification-listener.js:423-437 | the headless task's payload is the live event map plus the `_event` tag |
| NotificationStore.Trim | plugins/with-notification-listener.js:475-481 | the trimming loop keeps min(length, 200) elements, which form a suffix, namely the newest 200 |
| NotificationStore.Add | plugins/with-notification-listener.js:468-484 | on a readable log the new record is last and the length is old+1 below capacity and 200 otherwise; an unreadable log is left unchanged |
| NotificationStore.GetAll | plugins/with-notification-listener.js:486-494 | the stored array, or empty when the key is absent or unreadable |
| NotificationStore.Clear | plugins/with-notification-listener.js:496-498 | getAll afterwards is empty |
| NotificationStore.AddKeepsTail | plugins/with-notification-listener.js:471-482 | after add the log is a suffix of old log + [record], so eviction only removes the oldest entries |
| NotificationStore.AddBelowCapacity | plugins/with-notification-listener.js:472-474 | below 200 entries add keeps every earlier entry in order and only appends |
| NotificationStore.AddAtCapacity | plugins/with-notification-listener.js:466-481 | at exactly 200 entries add drops precisely the oldest entry |
| NotificationStore.AddReadsBack | plugins/with-notification-listener.js:471-482 | after add, getAll is the newest 200 of old log + [record] |
| NotificationStore.AddAllKeepsNewest | plugins/with-notification-listener.js:468-484 | after any run of adds on a readable log within capacity, getAll is the newest 200 of old log + everything added, in order |
| NotificationStore.NewestOfNewestPrefix | plugins/with-notification-listener.js:475-481 | trimming earlier does not change what a later trim keeps |
| NotificationStore.AddAllFromEmpty | plugins/with-notification-listener.js:466-484 | starting from an absent key, the log after N adds is the last min(N, 200) records in insertion order |
| NotificationStore.UnreadableIsInert | plugins/with-notification-listener.js:468-494 | when the stored value cannot be read, every add is a no-op and getAll stays empty |
| Capture.EventName | plugins/with-notification-listener.js:222-244 | posted and removed callbacks use the names NotificationPosted and NotificationRemoved |
| Capture.GetTaskConfig | plugins/with-notification-listener.js:439-449 | task key NotificationEvent, 10000 ms timeout, allowed in the foreground; null extras give empty data; otherwise the data holds exactly the non-null extras, each converted by its runtime type |
| Capture.OnNotification | plugins/with-notification-listener.js:222-244 | the live event is emitted iff the bridge is attached; the headless task starts iff startService succeeds and carries the live map plus `_event`; a readable log ends with the notification's record; an unreadable log is untouched |
| Capture.EveryPathCarriesTheSameFields | plugins/with-notification-listener.js:222-244 | the live event, the headless payload (apart from `_event`) and the stored record replayed through getSaved all carry the same fields |
| Capture.CaptureAppendsToLog | plugins/with-notification-listener.js:196-209 | after a callback the log is the newest 200 of the old log plus the persisted record |
| NativeBridge.AnyAccepted | plugins/with-notification-listener.js:307-313 | the scan finds a match iff some entry passes the entry test |
| NativeBridge.IsEnabled | plugins/with-notification-listener.js:290-320 | rejects iff the package is not in the listener set and reading the setting throws. With an unset or empty setting it is true iff the package is in the set. For a package free of `:` it is true iff the package is in the set or the raw setting contains the package name |
| NativeBridge.FallbackIsContainment | plugins/with-notification-listener.js:300-313 | splitting on `:` and testing each entry is the same as searching the whole setting for the package name |
| NativeBridge.EntryTestIsContainment | plugins/with-notification-listener.js:303-308 | the two exact service spellings add nothing to the containment test |
| NativeBridge.ServiceEntriesContainPackage | plugins/with-notification-listener.js:303-304 | both service spellings start with the package name followed by `/` |
| NativeBridge.IsEnabledOwned | plugins/with-notification-listener.js:307-313 | corrected check: true iff the package is in the set or some setting entry names a component of this package |
| NativeBridge.OwnedCheckAcceptsService | plugins/with-notification-listener.js:303-313 | the corrected check still accepts a setting that lists either spelling of this app's service |
| NativeBridge.OwnedCheckIsStricter | plugins/with-notification-listener.js:307-313 | whatever the corrected check accepts, the written check accepts too |
| NativeBridge.ContainedPackageNameCounts | plugins/with-notification-listener.js:308 | with package com.a, a setting enabling only com.ab's service makes the written check true and the corrected check false |
| NativeBridge.SavedArray | plugins/with-notification-listener.js:342-362 | one converted map per stored record, in store order |
| NativeBridge.GetSaved | plugins/with-notification-listener.js:342-362 | always resolves with an array as long as the log whose i-th item is the i-th record converted |
| NativeBridge.ClearSaved | plugins/with-notification-listener.js:365-373 | the store reads back empty and is readable |
| NativeBridge.ClearThenAddStartsOver | plugins/with-notification-listener.js:365-373 | after a clear, the next capture is the log's only entry, even if the old value was unreadable |
| ConfigPlugin.CaptureServiceEntry | plugins/with-notification-listener.js:42-70 | the capture service element is named .NotificationCaptureService, is exported, is guarded by BIND_NOTIFICATION_LISTENER_SERVICE and carries no other attribute; it has one intent-filter with one action, NotificationListenerService; it has meta-data iff a non-empty label is configured, and then one entry, default_title, whose value is the label |
| ConfigPlugin.TaskServiceEntry | plugins/with-notification-listener.js:79-86 | the task service element is named .NotificationEventTaskService, enabled, not exported, with no other attribute and no children |
| ConfigPlugin.PermissionEntry | plugins/with-notification-listener.js:95 | a uses-permission element carries the permission as its name |
| ConfigPlugin.EnsureNamed | plugins/with-notification-listener.js:38-42 | afterwards an element with the name exists; the old list is kept as a prefix; at most one element is added; nothing is added when the name was already there |
| ConfigPlugin.HasNamedExtends | plugins/with-notification-listener.js:76-79 | adding the second service keeps the first one declared |
| ConfigPlugin.HasNamedAppendOther | plugins/with-notification-listener.js:76-79 | pushing an element of another name leaves unchanged whether a name is listed, so the second `some` check answers as it would on the original list |
| ConfigPlugin.DeclareServices | plugins/with-notification-listener.js:36-87 | both services are declared; the result is the existing list followed by the capture service if none of that name was listed, then the task service if none of that name was listed |
| ConfigPlugin.DeclarePermissions | plugins/with-notification-listener.js:90-104 | WAKE_LOCK and POST_NOTIFICATIONS are declared; the result is the existing list followed by each of them, in that order, that was not listed |
| ConfigPlugin.ConfigureApplication | plugins/with-notification-listener.js:33-87 | the application declares both services |
| ConfigPlugin.ConfigureApplicationKeepsRest | plugins/with-notification-listener.js:36-87 | within the application only the service list changes, and old services keep their place |
| ConfigPlugin.ConfigureRoot | plugins/with-notification-listener.js:25-108 | the manifest ends up configured: both services in the first application and both permissions at the root |
| ConfigPlugin.ConfigureRootKeepsRest | plugins/with-notification-listener.js:25-108 | attributes, other children and other applications are untouched; the first application is configured; old permissions keep their place |
| ConfigPlugin.EditManifest | plugins/with-notification-listener.js:18-108 | fails with MissingPackage iff the package is absent or empty, checked first; fails with MissingApplication iff there is no application element; otherwise the result is configured |
| ConfigPlugin.DeclaredServicesAreFixed | plugins/with-notification-listener.js:38-42 | declaring services that are already there changes nothing |
| ConfigPlugin.DeclaredPermissionsAreFixed | plugins/with-notification-listener.js:90-104 | declaring permissions that are already there changes nothing |
| ConfigPlugin.ConfigureApplicationIdempotent | plugins/with-notification-listener.js:36-87 | configuring an application twice equals configuring it once |
| ConfigPlugin.ConfigureRootIdempotent | plugins/with-notification-listener.js:25-108 | configuring the manifest twice equals configuring it once |
| ConfigPlugin.EditIsIdempotent | plugins/with-notification-listener.js:25-108 | running the plugin on its own output gives the same manifest |
| ConfigPlugin.JavaPackageToPath | plugins/with-notification-listener.js:124-126 | same length, every `.` becomes `/`, no `.` left, and every other character kept in place |
| ConfigPlugin.PackagePathRoundTrip | plugins/with-notification-listener.js:124-126 | for a package without `/`, turning `/` back into `.` restores the package |
| ConfigPlugin.PathSegmentsArePackageSegments | plugins/with-notification-listener.js:124-126 | for a package without `/`, the path's directories are exactly the package's segments |
| Listener.IsNotificationAccessEnabled | lib/notification-listener.ts:40-61 | true iff on Android, outside Expo Go, the bridge has isEnabled and it resolves true; every other case, errors included, is false |
| Listener.OpenNotificationAccessSettings | lib/notification-listener.ts:63-81 | the native openSettings is invoked iff on Android, outside Expo Go, with the method present; nothing escapes |
| Listener.GetSavedNotifications | lib/notification-listener.ts:83-103 | a resolved array is returned unchanged; everything else gives the empty list |
| Listener.ClearSavedNotifications | lib/notification-listener.ts:105-123 | the log reads back empty when clearSaved is reachable and is untouched otherwise |
| Listener.CapturedNotificationIsListed | lib/notification-listener.ts:83-103 | after a capture, the last saved notification the wrapper lists equals the live event map |
| Listener.ClearedListIsEmpty | lib/notification-listener.ts:105-123 | after clearing through the wrapper, listing gives the empty list |
| Listener.RequestRuntimeNotificationPermission | lib/notification-listener.ts:125-170 | the prompt is shown iff on Android with the request API and either in Expo Go or the SDK level is not known to be below 33; the result is true iff on Android and, when prompted, the answer is exactly "granted" |
| Listener.Elapsed | lib/notification-listener.ts:186-193 | after j sleeps the clock reads at least the first check's time plus 800·j ms, so the polling deadline is reached after at most 19 sleeps |
| Listener.EnableNotificationAccessFlow | lib/notification-listener.ts:172-195 | off Android or in Expo Go: false with no effects. If the first check succeeds: true with no settings and no polling. Settings open iff polling starts and openSettings is reachable. At most 19 sleeps, each taken after a false check within 15000 ms. Returns the last check, and false only once 15000 ms have passed |

## Left out

- File I/O in the config plugin is not modelled: `writeFileOnce`, creating directories, the Java sources it writes, and the `colors.xml` patch.
- The regex rewriting of `MainApplication` is not modelled. It depends on host files that are not part of this model.
- `SharedPreferences`, `startService`, the wake lock, the device event emitter, intents and the React context are abstract inputs or effects:
  - `sendEvent` emitting or not is the `bridgeAttached` input.
  - `startHeadless` succeeding is the `serviceStarts` input.
  - `openSettings` is reduced to whether it is invoked.
- Concurrency is not modelled. The store's methods are `synchronized`, so calls are taken one at a time, and `apply()`'s asynchronous write is treated as immediate.
- NotificationStore.GetAll: a stored value that cannot be read is folded into `Unreadable`, together with preferences that fail to open. The model does not distinguish a JSON array whose elements are not objects. With such a value, `getSaved` would reject with `ERR_GET_SAVED`.
- NativeBridge.GetSaved: never rejects in the model, because every stored element is a record. The `ERR_GET_SAVED` path is not reachable here.
- NativeBridge.ClearSaved: the `ERR_CLEAR_SAVED` rejection is not modelled. Removing a preference key is taken not to throw.
- Capture.OnNotification: the outer catch-all of the callbacks is not modelled. The conversions are total functions here. A failure in `persist` only arises from the store, and that is covered by `Unreadable`.
- `getSdkInt` is not a separate member. It only resolves the device's SDK level, so its reply is the `sdkInt` input of the permission request.
- Java `int`/`long` are unbounded integers, and `(double)` of a long is taken as exact. Above 2^53 a real conversion rounds. Floating-point values are reals.
- Listener.EnableNotificationAccessFlow: the clock is the abstract `Elapsed`, which advances at least 800 ms per sleep. `Date.now()` jumping backwards is not modelled.
- The headless task's JavaScript (`lib/headless.ts`) only logs the payload. It is not modelled, and neither are the UI, the Supabase services or the stores.
- `addNotificationPostedListener` / `addNotificationRemovedListener` only subscribe to the event emitter. They are not modelled.

## Findings

| source | as written | input that shows it | evidently intended | confidence | as-written member | corrected member |
|---|---|---|---|---|---|---|
| plugins/with-notification-listener.js:308 | a setting entry counts when it merely contains the package name (`p.contains(pkg)`) | package `com.a`, listener set without it, setting `com.ab/com.ab.Svc`: `isEnabled` resolves true | only entries that belong to this package, i.e. start with `com.a/`, count, as the comment on the next line says | medium, not executed | NativeBridge.IsEnabled (counterexample NativeBridge.ContainedPackageNameCounts) | NativeBridge.IsEnabledOwned |

The fallback runs exactly when the package check has already said no. So on a
device where that check works, the containment test can only add false
positives: another app whose package name extends this one's, or a component
elsewhere whose class name contains it. The wrapper takes the bridge's answer
as an input, so it works with either check.
