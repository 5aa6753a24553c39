/** The Expo config plugin's manifest edit and path helper. The parsed
    `AndroidManifest.xml` is a tree in which every element has an optional
    attribute map (the `$` key) and, per child tag, a list of child elements.
    The edit declares the capture service, the headless task service and two
    permissions, each only when an element with that `android:name` is not
    already there, so running the plugin again changes nothing. */
module ConfigPlugin {
  import opened Wrappers
  import opened Text

  datatype Element = Element(attrs: Option<map<string, string>>, children: map<string, seq<Element>>)

  datatype PluginError = MissingPackage | MissingApplication

  const NameAttr: string := "android:name"
  const CaptureServiceName: string := ".NotificationCaptureService"
  const TaskServiceName: string := ".NotificationEventTaskService"
  const WakeLock: string := "android.permission.WAKE_LOCK"
  const PostNotifications: string := "android.permission.POST_NOTIFICATIONS"

  /** The element's attribute `key`, if it has one. */
  function Attr(e: Element, key: string): Option<string> {
    if e.attrs.Some? && key in e.attrs.value then Some(e.attrs.value[key]) else None
  }

  /** The element's `android:name`, if it has one. */
  function NameOf(e: Element): Option<string> {
    Attr(e, NameAttr)
  }

  /** The children under `tag`; an absent list reads as empty. */
  function Children(e: Element, tag: string): seq<Element> {
    if tag in e.children then e.children[tag] else []
  }

  /** `e` with the list under `tag` replaced by `items`. */
  function WithChildren(e: Element, tag: string, items: seq<Element>): (r: Element)
    ensures Children(r, tag) == items
  {
    e.(children := e.children[tag := items])
  }

  /** Putting back the list already under `tag` gives the same element. */
  lemma WithOwnChildren(e: Element, tag: string)
    requires tag in e.children
    ensures WithChildren(e, tag, e.children[tag]) == e
  {
    assert e.children[tag := e.children[tag]] == e.children;
  }

  /** Some element of `list` is named `name`. */
  predicate HasNamed(list: seq<Element>, name: string) {
    exists i | 0 <= i < |list| :: NameOf(list[i]) == Some(name)
  }

  /** An element with attributes only. */
  function Leaf(attrs: map<string, string>): Element {
    Element(Some(attrs), map[])
  }

  /** The `<service>` element for the listener, with the settings label as
      `meta-data` when a non-empty label is configured. */
  function CaptureServiceEntry(serviceLabel: Option<string>): (e: Element)
    ensures NameOf(e) == Some(CaptureServiceName)
    ensures Attr(e, "android:exported") == Some("true")
    ensures Attr(e, "android:permission") == Some("android.permission.BIND_NOTIFICATION_LISTENER_SERVICE")
    ensures e.attrs.Some? && e.attrs.value.Keys == {NameAttr, "android:exported", "android:permission"}
    ensures |Children(e, "intent-filter")| == 1
    ensures var actions := Children(Children(e, "intent-filter")[0], "action");
            |actions| == 1 && NameOf(actions[0]) == Some("android.service.notification.NotificationListenerService")
    ensures "meta-data" in e.children <==> serviceLabel.Some? && serviceLabel.value != ""
    ensures "meta-data" in e.children ==>
              |e.children["meta-data"]| == 1
              && NameOf(e.children["meta-data"][0]) == Some("android.service.notification.default_title")
              && Attr(e.children["meta-data"][0], "android:value") == serviceLabel
    ensures e.children.Keys <= {"intent-filter", "meta-data"}
  {
    var action := Leaf(map[NameAttr := "android.service.notification.NotificationListenerService"]);
    var filter := Element(None, map["action" := [action]]);
    var base := map["intent-filter" := [filter]];
    var children :=
      if serviceLabel.Some? && serviceLabel.value != "" then
        base["meta-data" := [Leaf(map[NameAttr := "android.service.notification.default_title",
                                     "android:value" := serviceLabel.value])]]
      else base;
    Element(Some(map[NameAttr := CaptureServiceName,
                     "android:exported" := "true",
                     "android:permission" := "android.permission.BIND_NOTIFICATION_LISTENER_SERVICE"]),
            children)
  }

  /** The `<service>` element for the headless task service. */
  function TaskServiceEntry(): (e: Element)
    ensures NameOf(e) == Some(TaskServiceName)
    ensures Attr(e, "android:enabled") == Some("true")
    ensures Attr(e, "android:exported") == Some("false")
    ensures e.attrs.Some? && e.attrs.value.Keys == {NameAttr, "android:enabled", "android:exported"}
    ensures e.children == map[]
  {
    Leaf(map[NameAttr := TaskServiceName, "android:enabled" := "true", "android:exported" := "false"])
  }

  /** A `<uses-permission>` element. */
  function PermissionEntry(perm: string): (e: Element)
    ensures NameOf(e) == Some(perm)
  {
    Leaf(map[NameAttr := perm])
  }

  /** Appends `entry` unless an element named `name` is already listed. */
  function EnsureNamed(list: seq<Element>, name: string, entry: Element): (r: seq<Element>)
    requires NameOf(entry) == Some(name)
    ensures HasNamed(r, name)
    ensures |list| <= |r| <= |list| + 1 && r[..|list|] == list
    ensures HasNamed(list, name) ==> r == list
    ensures forall i | |list| <= i < |r| :: r[i] == entry
  {
    if HasNamed(list, name) then list
    else
      assert NameOf((list + [entry])[|list|]) == Some(name);
      list + [entry]
  }

  /** Extending a list keeps every name it already had. */
  lemma HasNamedExtends(list: seq<Element>, r: seq<Element>, name: string)
    requires |list| <= |r| && r[..|list|] == list && HasNamed(list, name)
    ensures HasNamed(r, name)
  {
    var i :| 0 <= i < |list| && NameOf(list[i]) == Some(name);
    assert r[i] == list[i];
  }

  /** Appending an element with another name does not change whether a
      name is listed. */
  lemma HasNamedAppendOther(list: seq<Element>, e: Element, name: string)
    requires NameOf(e) != Some(name)
    ensures HasNamed(list + [e], name) <==> HasNamed(list, name)
  {
    if HasNamed(list + [e], name) {
      var i :| 0 <= i < |list + [e]| && NameOf((list + [e])[i]) == Some(name);
      assert i < |list| && list[i] == (list + [e])[i];
    }
    if HasNamed(list, name) {
      HasNamedExtends(list, list + [e], name);
    }
  }

  /** The entry for `name`, when `list` has none. */
  function Missing(list: seq<Element>, name: string, entry: Element): seq<Element> {
    if HasNamed(list, name) then [] else [entry]
  }

  /** Both services declared in the list: each entry is appended, in this
      order, exactly when no service of that name was listed before. */
  function DeclareServices(services: seq<Element>, serviceLabel: Option<string>): (r: seq<Element>)
    ensures HasNamed(r, CaptureServiceName) && HasNamed(r, TaskServiceName)
    ensures |services| <= |r| && r[..|services|] == services
    ensures r == services + Missing(services, CaptureServiceName, CaptureServiceEntry(serviceLabel))
                          + Missing(services, TaskServiceName, TaskServiceEntry())
  {
    var s1 := EnsureNamed(services, CaptureServiceName, CaptureServiceEntry(serviceLabel));
    var s2 := EnsureNamed(s1, TaskServiceName, TaskServiceEntry());
    HasNamedExtends(s1, s2, CaptureServiceName);
    assert HasNamed(s1, TaskServiceName) <==> HasNamed(services, TaskServiceName) by {
      if !HasNamed(services, CaptureServiceName) {
        HasNamedAppendOther(services, CaptureServiceEntry(serviceLabel), TaskServiceName);
      }
    }
    s2
  }

  /** Both permissions declared in the list: each is appended, in this order,
      exactly when it was not listed before. */
  function DeclarePermissions(perms: seq<Element>): (r: seq<Element>)
    ensures HasNamed(r, WakeLock) && HasNamed(r, PostNotifications)
    ensures |perms| <= |r| && r[..|perms|] == perms
    ensures r == perms + Missing(perms, WakeLock, PermissionEntry(WakeLock))
                       + Missing(perms, PostNotifications, PermissionEntry(PostNotifications))
  {
    var p1 := EnsureNamed(perms, WakeLock, PermissionEntry(WakeLock));
    var p2 := EnsureNamed(p1, PostNotifications, PermissionEntry(PostNotifications));
    HasNamedExtends(p1, p2, WakeLock);
    assert HasNamed(p1, PostNotifications) <==> HasNamed(perms, PostNotifications) by {
      if !HasNamed(perms, WakeLock) {
        HasNamedAppendOther(perms, PermissionEntry(WakeLock), PostNotifications);
      }
    }
    p2
  }

  /** The manifest declares everything the listener needs in its first
      `<application>`. */
  predicate Configured(m: Element) {
    && Children(m, "application") != []
    && HasNamed(Children(Children(m, "application")[0], "service"), CaptureServiceName)
    && HasNamed(Children(Children(m, "application")[0], "service"), TaskServiceName)
    && HasNamed(Children(m, "uses-permission"), WakeLock)
    && HasNamed(Children(m, "uses-permission"), PostNotifications)
  }

  /** The first `<application>` with both services declared. */
  function ConfigureApplication(app: Element, serviceLabel: Option<string>): (a: Element)
    ensures HasNamed(Children(a, "service"), CaptureServiceName) && HasNamed(Children(a, "service"), TaskServiceName)
  {
    WithChildren(app, "service", DeclareServices(Children(app, "service"), serviceLabel))
  }

  /** Within an application only the service list changes, and the services
      already listed stay first, in order. */
  lemma ConfigureApplicationKeepsRest(app: Element, serviceLabel: Option<string>)
    ensures var a := ConfigureApplication(app, serviceLabel);
            && a.attrs == app.attrs
            && a.children.Keys == app.children.Keys + {"service"}
            && (forall k | k in app.children && k != "service" :: a.children[k] == app.children[k])
            && Children(app, "service") <= Children(a, "service")
  {
  }

  /** The manifest root with the first application configured and both
      permissions declared. */
  function ConfigureRoot(m: Element, serviceLabel: Option<string>): (r: Element)
    requires Children(m, "application") != []
    ensures Configured(r)
  {
    var apps := Children(m, "application");
    var apps' := [ConfigureApplication(apps[0], serviceLabel)] + apps[1..];
    var perms := DeclarePermissions(Children(m, "uses-permission"));
    WithChildren(WithChildren(m, "application", apps'), "uses-permission", perms)
  }

  /** Outside the first application's services and the permission list the
      manifest is untouched, and the permissions already listed stay first. */
  lemma ConfigureRootKeepsRest(m: Element, serviceLabel: Option<string>)
    requires Children(m, "application") != []
    ensures var r := ConfigureRoot(m, serviceLabel);
            && r.attrs == m.attrs
            && r.children.Keys == m.children.Keys + {"application", "uses-permission"}
            && (forall k | k in m.children && k != "application" && k != "uses-permission" ::
                  r.children[k] == m.children[k])
            && |Children(r, "application")| == |Children(m, "application")|
            && Children(r, "application")[1..] == Children(m, "application")[1..]
            && Children(r, "application")[0] == ConfigureApplication(Children(m, "application")[0], serviceLabel)
            && Children(m, "uses-permission") <= Children(r, "uses-permission")
  {
    var apps := Children(m, "application");
    var apps' := [ConfigureApplication(apps[0], serviceLabel)] + apps[1..];
    var perms := DeclarePermissions(Children(m, "uses-permission"));
    var r := WithChildren(WithChildren(m, "application", apps'), "uses-permission", perms);
    assert r.children == m.children["application" := apps']["uses-permission" := perms];
    assert Children(r, "application") == apps';
  }

  /** `withNotificationListenerAndroidManifest`: `pkg` is `android.package`
      from the app config (absent or empty is an error, checked first);
      `serviceLabel` is the plugin's `serviceLabel` option. */
  function EditManifest(pkg: Option<string>, m: Element, serviceLabel: Option<string>): (r: Result<Element, PluginError>)
    ensures r == Failure(MissingPackage) <==> pkg.None? || pkg.value == ""
    ensures r == Failure(MissingApplication) <==> !(pkg.None? || pkg.value == "") && Children(m, "application") == []
    ensures r.Success? ==> Configured(r.value)
  {
    if pkg.None? || pkg.value == "" then Failure(MissingPackage)
    else if Children(m, "application") == [] then Failure(MissingApplication)
    else Success(ConfigureRoot(m, serviceLabel))
  }

  /** Declaring services that are already declared changes nothing. */
  lemma DeclaredServicesAreFixed(services: seq<Element>, serviceLabel: Option<string>)
    requires HasNamed(services, CaptureServiceName) && HasNamed(services, TaskServiceName)
    ensures DeclareServices(services, serviceLabel) == services
  {
    assert EnsureNamed(services, CaptureServiceName, CaptureServiceEntry(serviceLabel)) == services;
  }

  /** Declaring permissions that are already declared changes nothing. */
  lemma DeclaredPermissionsAreFixed(perms: seq<Element>)
    requires HasNamed(perms, WakeLock) && HasNamed(perms, PostNotifications)
    ensures DeclarePermissions(perms) == perms
  {
    assert EnsureNamed(perms, WakeLock, PermissionEntry(WakeLock)) == perms;
  }

  lemma ConfigureApplicationIdempotent(app: Element, serviceLabel: Option<string>)
    ensures ConfigureApplication(ConfigureApplication(app, serviceLabel), serviceLabel)
         == ConfigureApplication(app, serviceLabel)
  {
    var a := ConfigureApplication(app, serviceLabel);
    DeclaredServicesAreFixed(Children(a, "service"), serviceLabel);
    WithOwnChildren(a, "service");
  }

  lemma ConfigureRootIdempotent(m: Element, serviceLabel: Option<string>)
    requires Children(m, "application") != []
    ensures ConfigureRoot(ConfigureRoot(m, serviceLabel), serviceLabel) == ConfigureRoot(m, serviceLabel)
  {
    var apps := Children(m, "application");
    var a0 := ConfigureApplication(apps[0], serviceLabel);
    var apps' := [a0] + apps[1..];
    var perms := DeclarePermissions(Children(m, "uses-permission"));
    var m1 := WithChildren(m, "application", apps');
    var m' := WithChildren(m1, "uses-permission", perms);
    assert Children(m', "application") == apps';
    assert ConfigureApplication(a0, serviceLabel) == a0 by {
      ConfigureApplicationIdempotent(apps[0], serviceLabel);
    }
    assert [a0] + apps'[1..] == apps';
    assert DeclarePermissions(perms) == perms by {
      DeclaredPermissionsAreFixed(perms);
    }
    assert WithChildren(m', "application", apps') == m' by {
      WithOwnChildren(m', "application");
    }
    assert WithChildren(m', "uses-permission", perms) == m' by {
      WithOwnChildren(m', "uses-permission");
    }
  }

  /** Running the plugin on its own output changes nothing. */
  lemma EditIsIdempotent(pkg: Option<string>, m: Element, serviceLabel: Option<string>)
    requires pkg.Some? && pkg.value != "" && Children(m, "application") != []
    ensures EditManifest(pkg, EditManifest(pkg, m, serviceLabel).value, serviceLabel) == EditManifest(pkg, m, serviceLabel)
  {
    ConfigureRootIdempotent(m, serviceLabel);
  }

  /** `javaPackageToPath`: every `.` of the package becomes `/`. */
  function JavaPackageToPath(pkg: string): (path: string)
    ensures |path| == |pkg| && '.' !in path
    ensures forall i | 0 <= i < |pkg| && pkg[i] == '.' :: path[i] == '/'
    ensures forall i | 0 <= i < |pkg| && pkg[i] != '.' :: path[i] == pkg[i]
  {
    ReplaceAll(pkg, '.', '/')
  }

  /** A package name without `/` is recovered from its path. */
  lemma PackagePathRoundTrip(pkg: string)
    requires '/' !in pkg
    ensures ReplaceAll(JavaPackageToPath(pkg), '/', '.') == pkg
  {
  }

  /** The path's directories are exactly the package's segments. */
  lemma {:induction false} PathSegmentsArePackageSegments(pkg: string)
    requires '/' !in pkg
    ensures Fields(JavaPackageToPath(pkg), '/') == Fields(pkg, '.')
    decreases |pkg|
  {
    var path := JavaPackageToPath(pkg);
    if '.' !in pkg {
      assert path == pkg;
      assert '/' !in path;
    } else {
      var i := FirstIndex(pkg, '.');
      assert path[i] == '/';
      assert '/' in path;
      var j := FirstIndex(path, '/');
      assert j == i;
      assert path[..i] == pkg[..i];
      var rest := pkg[i + 1..];
      assert path[i + 1..] == JavaPackageToPath(rest);
      PathSegmentsArePackageSegments(rest);
      FieldsTail(path, '/');
      FieldsTail(pkg, '.');
    }
  }
}
