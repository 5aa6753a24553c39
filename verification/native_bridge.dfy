/** `NotificationBridge`, the React Native module the JavaScript wrapper calls:
    whether this app's listener is enabled, the saved log, and clearing it. */
module NativeBridge {
  import opened Wrappers
  import opened Text
  import opened Events
  import NotificationStore

  const ServiceClass: string := "NotificationCaptureService"

  /** The fully qualified component name of the capture service. */
  function FullServiceEntry(pkg: string): string {
    pkg + "/" + pkg + "." + ServiceClass
  }

  /** The short component name of the capture service. */
  function ShortServiceEntry(pkg: string): string {
    pkg + "/." + ServiceClass
  }

  /** The fallback's per-entry test as the bridge writes it: one of the two
      spellings of the capture service, or any entry containing the package
      name. */
  predicate EntryMatches(entry: string, pkg: string) {
    entry == FullServiceEntry(pkg) || entry == ShortServiceEntry(pkg) || Contains(entry, pkg)
  }

  /** An entry naming a component of `pkg`: the package, a `/`, a class. */
  predicate EntryOwned(entry: string, pkg: string) {
    |pkg| < |entry| && entry[..|pkg| + 1] == pkg + "/"
  }

  /** The test used by the scan: `EntryOwned` when `strict`, else `EntryMatches`. */
  predicate Accepts(entry: string, pkg: string, strict: bool) {
    if strict then EntryOwned(entry, pkg) else EntryMatches(entry, pkg)
  }

  /** The `for` loop over the setting's entries, stopping at the first
      accepted one. */
  function AnyAccepted(parts: seq<string>, pkg: string, strict: bool): (found: bool)
    ensures found <==> exists k | 0 <= k < |parts| :: Accepts(parts[k], pkg, strict)
  {
    if parts == [] then false
    else if Accepts(parts[0], pkg, strict) then true
    else
      var rest := AnyAccepted(parts[1..], pkg, strict);
      assert forall k | 1 <= k < |parts| :: parts[k] == parts[1..][k - 1];
      rest
  }

  /** The value of the `enabled_notification_listeners` secure setting: unset
      (`null`), a string, or a read that throws. */
  datatype SecureSetting = Unset | Value(s: string) | ReadFails

  /** `listenerPackages` is what `NotificationManagerCompat` reports (`None`
      when it returns `null` or throws, which the bridge swallows). */
  function IsEnabledWith(pkg: string, listenerPackages: Option<set<string>>, setting: SecureSetting,
                         strict: bool): Reply<bool>
  {
    if listenerPackages.Some? && pkg in listenerPackages.value then Resolved(true)
    else
      match setting
      case ReadFails => Rejected
      case Unset => Resolved(false)
      case Value(s) => Resolved(s != "" && AnyAccepted(JavaSplit(s, ':'), pkg, strict))
  }

  /** `isEnabled`, as written: the package list first, then the secure
      setting, split on `:`, where any entry containing the package name
      counts. For a package name without `:`, the fallback answers exactly
      whether the raw setting contains the package name. */
  function IsEnabled(pkg: string, listenerPackages: Option<set<string>>, setting: SecureSetting): (r: Reply<bool>)
    ensures r == Rejected <==> !(listenerPackages.Some? && pkg in listenerPackages.value) && setting.ReadFails?
    ensures setting == Unset || setting == Value("") ==>
              (r == Resolved(true) <==> listenerPackages.Some? && pkg in listenerPackages.value)
    ensures pkg != "" && ':' !in pkg ==>
              (r == Resolved(true) <==>
                 (listenerPackages.Some? && pkg in listenerPackages.value)
                 || (setting.Value? && Contains(setting.s, pkg)))
  {
    FallbackIsContainment(pkg, listenerPackages, setting);
    IsEnabledWith(pkg, listenerPackages, setting, false)
  }

  /** For a non-empty package name free of `:`, scanning the split setting
      with the written entry test is the same as searching the whole
      setting for the package name. */
  lemma FallbackIsContainment(pkg: string, listenerPackages: Option<set<string>>, setting: SecureSetting)
    ensures pkg != "" && ':' !in pkg ==>
              (IsEnabledWith(pkg, listenerPackages, setting, false) == Resolved(true) <==>
                 (listenerPackages.Some? && pkg in listenerPackages.value)
                 || (setting.Value? && Contains(setting.s, pkg)))
  {
    if pkg != "" && ':' !in pkg && setting.Value? {
      SplitContainsIff(setting.s, ':', pkg);
      EntryTestIsContainment(JavaSplit(setting.s, ':'), pkg);
      if setting.s == "" {
        assert !Contains(setting.s, pkg);
      }
    }
  }

  /** The two exact spellings add nothing to the containment test. */
  lemma EntryTestIsContainment(parts: seq<string>, pkg: string)
    ensures (exists k | 0 <= k < |parts| :: EntryMatches(parts[k], pkg)) <==> SomeFieldContains(parts, pkg)
  {
    forall k | 0 <= k < |parts| ensures EntryMatches(parts[k], pkg) <==> Contains(parts[k], pkg) {
      ServiceEntriesContainPackage(pkg);
    }
  }

  /** Both spellings of the service name begin with the package name. */
  lemma ServiceEntriesContainPackage(pkg: string)
    ensures Contains(FullServiceEntry(pkg), pkg) && Contains(ShortServiceEntry(pkg), pkg)
    ensures EntryOwned(FullServiceEntry(pkg), pkg) && EntryOwned(ShortServiceEntry(pkg), pkg)
  {
    ContainsPrefix(pkg, "/" + pkg + "." + ServiceClass);
    assert FullServiceEntry(pkg) == pkg + ("/" + pkg + "." + ServiceClass);
    ContainsPrefix(pkg, "/." + ServiceClass);
    assert ShortServiceEntry(pkg) == pkg + ("/." + ServiceClass);
    assert FullServiceEntry(pkg)[..|pkg| + 1] == pkg + "/";
    assert ShortServiceEntry(pkg)[..|pkg| + 1] == pkg + "/";
  }

  /** `isEnabled` with the fallback accepting only entries that name a
      component of this package, as the comment on the loop intends. */
  function IsEnabledOwned(pkg: string, listenerPackages: Option<set<string>>, setting: SecureSetting): (r: Reply<bool>)
    ensures r == Rejected <==> !(listenerPackages.Some? && pkg in listenerPackages.value) && setting.ReadFails?
    ensures r == Resolved(true) <==>
              (listenerPackages.Some? && pkg in listenerPackages.value)
              || (setting.Value? && exists k | 0 <= k < |JavaSplit(setting.s, ':')| ::
                                       EntryOwned(JavaSplit(setting.s, ':')[k], pkg))
  {
    IsEnabledWith(pkg, listenerPackages, setting, true)
  }

  /** The corrected check still accepts a setting that lists either spelling
      of this app's service, and accepts nothing the written check rejects. */
  lemma OwnedCheckAcceptsService(pkg: string, listenerPackages: Option<set<string>>, setting: SecureSetting)
    requires setting.Value?
    requires FullServiceEntry(pkg) in JavaSplit(setting.s, ':') || ShortServiceEntry(pkg) in JavaSplit(setting.s, ':')
    ensures IsEnabledOwned(pkg, listenerPackages, setting) == Resolved(true)
  {
    ServiceEntriesContainPackage(pkg);
    var parts := JavaSplit(setting.s, ':');
    var k :| 0 <= k < |parts| && (parts[k] == FullServiceEntry(pkg) || parts[k] == ShortServiceEntry(pkg));
    assert EntryOwned(parts[k], pkg);
  }

  /** Whatever the corrected check accepts, the written one accepts too. */
  lemma OwnedCheckIsStricter(pkg: string, listenerPackages: Option<set<string>>, setting: SecureSetting)
    ensures IsEnabledOwned(pkg, listenerPackages, setting) == Resolved(true)
        ==> IsEnabled(pkg, listenerPackages, setting) == Resolved(true)
  {
    if setting.Value? {
      var parts := JavaSplit(setting.s, ':');
      if AnyAccepted(parts, pkg, true) {
        var k :| 0 <= k < |parts| && Accepts(parts[k], pkg, true);
        assert OccursAt(parts[k], pkg, 0);
        assert Accepts(parts[k], pkg, false);
      }
    }
  }

  /** The written check reports another app's listener as this one's: with
      package `com.a`, a setting enabling only `com.ab`'s service reads as
      enabled, though no entry names a component of `com.a`. */
  lemma ContainedPackageNameCounts()
    ensures IsEnabled("com.a", Some({}), Value("com.ab/com.ab.Svc")) == Resolved(true)
    ensures IsEnabledOwned("com.a", Some({}), Value("com.ab/com.ab.Svc")) == Resolved(false)
  {
    var s := "com.ab/com.ab.Svc";
    assert ':' !in s;
    assert JavaSplit(s, ':') == [s];
    assert OccursAt(s, "com.a", 0);
    assert s[..6] != "com.a/" by {
      assert s[..6][5] == 'b';
    }
  }

  /** The array `getSaved` resolves with: each stored record converted by
      `SavedToWritable`, in store order. */
  function SavedArray(log: NotificationStore.Slot<StoredEvent>): (items: seq<WritableMap>)
    ensures |items| == |NotificationStore.GetAll(log)|
    ensures forall i | 0 <= i < |items| :: items[i] == SavedToWritable(NotificationStore.GetAll(log)[i])
  {
    var xs := NotificationStore.GetAll(log);
    seq(|xs|, i requires 0 <= i < |xs| => SavedToWritable(xs[i]))
  }

  /** `getSaved`: the loop over the stored array. The store's `getAll` never
      throws and every stored element is an object, so the promise always
      resolves with an array. */
  method GetSaved(log: NotificationStore.Slot<StoredEvent>) returns (r: Reply<JsResult>)
    ensures r.Resolved? && r.value.JsArray?
    ensures |r.value.items| == |NotificationStore.GetAll(log)|
    ensures forall i | 0 <= i < |r.value.items| ::
              r.value.items[i] == SavedToWritable(NotificationStore.GetAll(log)[i])
    ensures r == Resolved(JsArray(SavedArray(log)))
  {
    var arr := NotificationStore.GetAll(log);
    var out: seq<WritableMap> := [];
    var i := 0;
    while i < |arr|
      invariant 0 <= i <= |arr|
      invariant |out| == i
      invariant forall m | 0 <= m < i :: out[m] == SavedToWritable(arr[m])
    {
      out := out + [SavedToWritable(arr[i])];
      i := i + 1;
    }
    assert out == SavedArray(log);
    r := Resolved(JsArray(out));
  }

  /** `clearSaved`: the store is emptied and the promise resolves. */
  function ClearSaved(log: NotificationStore.Slot<StoredEvent>): (r: NotificationStore.Slot<StoredEvent>)
    ensures NotificationStore.GetAll(r) == []
    ensures !r.Unreadable?
  {
    NotificationStore.Clear(log)
  }

  /** A log cleared through the bridge starts over: the next capture is its
      only entry, even if the old value could not be read. */
  lemma ClearThenAddStartsOver(log: NotificationStore.Slot<StoredEvent>, e: StoredEvent)
    ensures NotificationStore.GetAll(NotificationStore.Add(ClearSaved(log), e)) == [e]
  {
    NotificationStore.AddBelowCapacity(ClearSaved(log), e);
  }
}
