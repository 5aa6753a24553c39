/** The shapes a captured notification takes on its way through the native
    side: the OS's `StatusBarNotification`, the Android `Bundle` built by
    `serialize`, the React Native `WritableMap` handed to JavaScript, and the
    JSON record kept in the persistent store. Each conversion copies the three
    identifying fields unconditionally and the three text fields only when
    the OS supplied them. */
module Events {
  import opened Wrappers

  /** The text extras the service reads (`EXTRA_TITLE`, `EXTRA_TEXT`,
      `EXTRA_SUB_TEXT`); each is `None` when the extras bundle holds none. */
  datatype Extras = Extras(title: Option<string>, text: Option<string>, subText: Option<string>)

  /** A notification as the listener service receives it. `extras` is `None`
      when the notification or its extras bundle is null. `id` is a Java
      `int` and `postTime` a Java `long`; both are carried verbatim. */
  datatype StatusBarNotification = StatusBarNotification(
    packageName: string,
    id: int,
    postTime: int,
    extras: Option<Extras>)

  function TitleOf(sbn: StatusBarNotification): Option<string> {
    if sbn.extras.Some? then sbn.extras.value.title else None
  }

  function TextOf(sbn: StatusBarNotification): Option<string> {
    if sbn.extras.Some? then sbn.extras.value.text else None
  }

  function SubTextOf(sbn: StatusBarNotification): Option<string> {
    if sbn.extras.Some? then sbn.extras.value.subText else None
  }

  /** A value stored in an Android `Bundle`, by its runtime class. Java
      floating-point values are kept as reals. */
  datatype BundleValue =
    | BString(s: string)
    | BInt(i: int)
    | BLong(l: int)
    | BDouble(d: real)
    | BFloat(f: real)
    | BBool(b: bool)
    | BOther(repr: string)  // any other object, with its `String.valueOf` text
    | BNull

  type Bundle = map<string, BundleValue>

  /** A value in a `WritableMap` as JavaScript sees it: `putInt` and
      `putDouble` both produce a JavaScript number. */
  datatype JsValue = JsString(s: string) | JsNumber(n: real) | JsBool(b: bool)

  type WritableMap = map<string, JsValue>

  /** What a native `getSaved` call resolves with, as JavaScript sees it. */
  datatype JsResult = JsArray(items: seq<WritableMap>) | JsNotArray

  /** One entry of the persisted log: the JSON object `persist` builds. A
      field is `None` when the key is absent from the object. */
  datatype StoredEvent = StoredEvent(
    packageName: Option<string>,
    id: Option<int>,
    postTime: Option<int>,
    title: Option<string>,
    text: Option<string>,
    subText: Option<string>)

  /** The `_event` key that tells the headless task which callback fired. */
  const EventKey: string := "_event"

  /** The value under `k`, if any. */
  function Lookup<V>(m: map<string, V>, k: string): Option<V> {
    if k in m then Some(m[k]) else None
  }

  /** An optional string as an optional bundle entry. */
  function AsBundleString(v: Option<string>): Option<BundleValue> {
    if v.Some? then Some(BString(v.value)) else None
  }

  /** An optional string as an optional JavaScript value. */
  function AsJsString(v: Option<string>): Option<JsValue> {
    if v.Some? then Some(JsString(v.value)) else None
  }

  /** An optional integer as an optional JavaScript number. */
  function AsJsNumber(v: Option<int>): Option<JsValue> {
    if v.Some? then Some(JsNumber(v.value as real)) else None
  }

  /** The six keys a notification record may carry. */
  const RecordKeys: set<string> := {"packageName", "id", "postTime", "title", "text", "subText"}

  /** `m` with `key` bound to the string `v` when `v` is present. */
  function PutStringIfPresent(m: Bundle, key: string, v: Option<string>): Bundle {
    if v.Some? then m[key := BString(v.value)] else m
  }

  /** `serialize`: the bundle that is persisted and handed to the headless
      task, built by the same sequence of `put` calls as the service. */
  function Serialize(sbn: StatusBarNotification): (b: Bundle)
    ensures b.Keys <= RecordKeys
    ensures Lookup(b, "packageName") == Some(BString(sbn.packageName))
    ensures Lookup(b, "id") == Some(BInt(sbn.id))
    ensures Lookup(b, "postTime") == Some(BLong(sbn.postTime))
    ensures Lookup(b, "title") == AsBundleString(TitleOf(sbn))
    ensures Lookup(b, "text") == AsBundleString(TextOf(sbn))
    ensures Lookup(b, "subText") == AsBundleString(SubTextOf(sbn))
  {
    var b0: Bundle := map[];
    var b1 := b0["packageName" := BString(sbn.packageName)];
    var b2 := b1["id" := BInt(sbn.id)];
    var b3 := b2["postTime" := BLong(sbn.postTime)];
    PutStringIfPresent(PutStringIfPresent(PutStringIfPresent(b3, "title", TitleOf(sbn)), "text", TextOf(sbn)), "subText", SubTextOf(sbn))
  }

  function PutJsStringIfPresent(m: WritableMap, key: string, v: Option<string>): WritableMap {
    if v.Some? then m[key := JsString(v.value)] else m
  }

  /** `toWritableMap`: the payload of the live `NotificationPosted` /
      `NotificationRemoved` event. `postTime` goes through `(double)`. */
  function ToWritableMap(sbn: StatusBarNotification): (m: WritableMap)
    ensures m.Keys <= RecordKeys
    ensures Lookup(m, "packageName") == Some(JsString(sbn.packageName))
    ensures Lookup(m, "id") == Some(JsNumber(sbn.id as real))
    ensures Lookup(m, "postTime") == Some(JsNumber(sbn.postTime as real))
    ensures Lookup(m, "title") == AsJsString(TitleOf(sbn))
    ensures Lookup(m, "text") == AsJsString(TextOf(sbn))
    ensures Lookup(m, "subText") == AsJsString(SubTextOf(sbn))
  {
    var m0: WritableMap := map[];
    var m1 := m0["packageName" := JsString(sbn.packageName)];
    var m2 := m1["id" := JsNumber(sbn.id as real)];
    var m3 := m2["postTime" := JsNumber(sbn.postTime as real)];
    PutJsStringIfPresent(PutJsStringIfPresent(PutJsStringIfPresent(m3, "title", TitleOf(sbn)), "text", TextOf(sbn)), "subText", SubTextOf(sbn))
  }

  /** `Bundle.getString`: `null` when the key is absent or holds no string. */
  function GetString(b: Bundle, key: string): (r: Option<string>)
    ensures r.Some? <==> key in b && b[key].BString?
    ensures r.Some? ==> b[key] == BString(r.value)
  {
    if key in b && b[key].BString? then Some(b[key].s) else None
  }

  /** `Bundle.getInt`: 0 when the key is absent or holds no `Integer`. */
  function GetInt(b: Bundle, key: string): (r: int)
    ensures (key in b && b[key] == BInt(r)) || (r == 0 && !(key in b && b[key].BInt?))
  {
    if key in b && b[key].BInt? then b[key].i else 0
  }

  /** `Bundle.getLong`: 0 when the key is absent or holds no `Long`. */
  function GetLong(b: Bundle, key: string): (r: int)
    ensures (key in b && b[key] == BLong(r)) || (r == 0 && !(key in b && b[key].BLong?))
  {
    if key in b && b[key].BLong? then b[key].l else 0
  }

  /** The JSON object `persist` builds from a bundle. Only the six record keys
      are copied, each only when the bundle contains it; `JSONObject.put`
      with a `null` string drops the key, so a non-string value under a
      string key leaves that field absent. */
  function PersistedRecord(data: Bundle): (e: StoredEvent)
    ensures e.packageName.Some? <==> "packageName" in data && data["packageName"].BString?
    ensures e.id.Some? <==> "id" in data
    ensures e.postTime.Some? <==> "postTime" in data
    ensures e.title.Some? <==> "title" in data && data["title"].BString?
    ensures e.text.Some? <==> "text" in data && data["text"].BString?
    ensures e.subText.Some? <==> "subText" in data && data["subText"].BString?
    ensures e.packageName.Some? ==> data["packageName"] == BString(e.packageName.value)
    ensures e.title.Some? ==> data["title"] == BString(e.title.value)
    ensures e.text.Some? ==> data["text"] == BString(e.text.value)
    ensures e.subText.Some? ==> data["subText"] == BString(e.subText.value)
    ensures "id" in data && data["id"].BInt? ==> e.id == Some(data["id"].i)
    ensures "id" in data && !data["id"].BInt? ==> e.id == Some(0)
    ensures "postTime" in data && data["postTime"].BLong? ==> e.postTime == Some(data["postTime"].l)
    ensures "postTime" in data && !data["postTime"].BLong? ==> e.postTime == Some(0)
  {
    StoredEvent(
      if "packageName" in data then GetString(data, "packageName") else None,
      if "id" in data then Some(GetInt(data, "id")) else None,
      if "postTime" in data then Some(GetLong(data, "postTime")) else None,
      if "title" in data then GetString(data, "title") else None,
      if "text" in data then GetString(data, "text") else None,
      if "subText" in data then GetString(data, "subText") else None)
  }

  /** The conversion `getSaved` applies to each stored JSON object: a key is
      copied iff the object has it, `postTime` through `optDouble`. */
  function SavedToWritable(e: StoredEvent): (m: WritableMap)
    ensures m.Keys <= RecordKeys
    ensures Lookup(m, "packageName") == AsJsString(e.packageName)
    ensures Lookup(m, "id") == AsJsNumber(e.id)
    ensures Lookup(m, "postTime") == AsJsNumber(e.postTime)
    ensures Lookup(m, "title") == AsJsString(e.title)
    ensures Lookup(m, "text") == AsJsString(e.text)
    ensures Lookup(m, "subText") == AsJsString(e.subText)
  {
    map k | k in RecordKeys && SavedField(e, k).Some? :: SavedField(e, k).value
  }

  /** The value `getSaved` copies for key `k`: `optString` for the string
      fields, `optInt` for `id`, `optDouble` for `postTime`. */
  function SavedField(e: StoredEvent, k: string): Option<JsValue> {
    if k == "packageName" then AsJsString(e.packageName)
    else if k == "id" then AsJsNumber(e.id)
    else if k == "postTime" then AsJsNumber(e.postTime)
    else if k == "title" then AsJsString(e.title)
    else if k == "text" then AsJsString(e.text)
    else if k == "subText" then AsJsString(e.subText)
    else None
  }

  /** The `WritableMap` value `bundleToWritable` produces for one bundle value. */
  function ToJs(v: BundleValue): JsValue
    requires !v.BNull?
  {
    match v
    case BString(s) => JsString(s)
    case BInt(i) => JsNumber(i as real)
    case BLong(l) => JsNumber(l as real)
    case BDouble(d) => JsNumber(d)
    case BFloat(f) => JsNumber(f)
    case BBool(b) => JsBool(b)
    case BOther(repr) => JsString(repr)
  }

  /** `bundleToWritable`: every non-null entry converted by its runtime type;
      a null bundle gives the empty map. */
  function BundleToWritable(b: Option<Bundle>): (m: WritableMap)
    ensures b.None? ==> m == map[]
    ensures b.Some? ==> m.Keys == set k | k in b.value && !b.value[k].BNull?
    ensures b.Some? ==> forall k | k in m :: m[k] == ToJs(b.value[k])
  {
    if b.None? then map[]
    else map k | k in b.value && !b.value[k].BNull? :: ToJs(b.value[k])
  }

  /** What the service captured is what the store keeps: persisting the
      serialized bundle, with its `_event` tag, yields exactly the
      notification's fields; the tag itself is not persisted. */
  lemma PersistSerializeRoundTrip(sbn: StatusBarNotification, eventName: string)
    ensures PersistedRecord(Serialize(sbn)[EventKey := BString(eventName)])
         == StoredEvent(Some(sbn.packageName), Some(sbn.id), Some(sbn.postTime),
                        TitleOf(sbn), TextOf(sbn), SubTextOf(sbn))
  {
  }

  /** Two maps over the record keys are equal when they agree key by key. */
  lemma EqualOnRecordKeys<V>(m1: map<string, V>, m2: map<string, V>)
    requires m1.Keys <= RecordKeys && m2.Keys <= RecordKeys
    requires Lookup(m1, "packageName") == Lookup(m2, "packageName")
    requires Lookup(m1, "id") == Lookup(m2, "id")
    requires Lookup(m1, "postTime") == Lookup(m2, "postTime")
    requires Lookup(m1, "title") == Lookup(m2, "title")
    requires Lookup(m1, "text") == Lookup(m2, "text")
    requires Lookup(m1, "subText") == Lookup(m2, "subText")
    ensures m1 == m2
  {
    forall k | k in m1 ensures k in m2 && m1[k] == m2[k] {
      assert Lookup(m1, k) == Lookup(m2, k);
    }
    forall k | k in m2 ensures k in m1 {
      assert Lookup(m1, k) == Lookup(m2, k);
    }
  }

  /** A notification read back from the store through `getSaved` looks to
      JavaScript exactly like the live event emitted when it was captured. */
  lemma ReplayMatchesLiveEvent(sbn: StatusBarNotification, eventName: string)
    ensures SavedToWritable(PersistedRecord(Serialize(sbn)[EventKey := BString(eventName)]))
         == ToWritableMap(sbn)
  {
    PersistSerializeRoundTrip(sbn, eventName);
    var e := StoredEvent(Some(sbn.packageName), Some(sbn.id), Some(sbn.postTime),
                         TitleOf(sbn), TextOf(sbn), SubTextOf(sbn));
    EqualOnRecordKeys(SavedToWritable(e), ToWritableMap(sbn));
  }

  /** Converting a bundle commutes with adding one non-null entry. */
  lemma ConvertPut(b: Bundle, k: string, v: BundleValue)
    requires !v.BNull?
    ensures BundleToWritable(Some(b[k := v])) == BundleToWritable(Some(b))[k := ToJs(v)]
  {
    var l := BundleToWritable(Some(b[k := v]));
    var r := BundleToWritable(Some(b))[k := ToJs(v)];
    assert l.Keys == r.Keys;
  }

  lemma ConvertPutIfPresent(b: Bundle, k: string, v: Option<string>)
    ensures BundleToWritable(Some(PutStringIfPresent(b, k, v)))
         == PutJsStringIfPresent(BundleToWritable(Some(b)), k, v)
  {
    if v.Some? {
      ConvertPut(b, k, BString(v.value));
    }
  }

  /** The headless task's payload is the live event plus the `_event` tag:
      each `put` of `serialize` converts to the matching `put` of
      `toWritableMap`. */
  lemma HeadlessPayloadMatchesLiveEvent(sbn: StatusBarNotification, eventName: string)
    ensures BundleToWritable(Some(Serialize(sbn)[EventKey := BString(eventName)]))
         == ToWritableMap(sbn)[EventKey := JsString(eventName)]
  {
    var b0: Bundle := map[];
    var b1 := b0["packageName" := BString(sbn.packageName)];
    var b2 := b1["id" := BInt(sbn.id)];
    var b3 := b2["postTime" := BLong(sbn.postTime)];
    var b4 := PutStringIfPresent(b3, "title", TitleOf(sbn));
    var b5 := PutStringIfPresent(b4, "text", TextOf(sbn));
    var b6 := PutStringIfPresent(b5, "subText", SubTextOf(sbn));
    assert BundleToWritable(Some(b0)) == map[];
    ConvertPut(b0, "packageName", BString(sbn.packageName));
    ConvertPut(b1, "id", BInt(sbn.id));
    ConvertPut(b2, "postTime", BLong(sbn.postTime));
    ConvertPutIfPresent(b3, "title", TitleOf(sbn));
    ConvertPutIfPresent(b4, "text", TextOf(sbn));
    ConvertPutIfPresent(b5, "subText", SubTextOf(sbn));
    assert Serialize(sbn) == b6;
    ConvertPut(b6, EventKey, BString(eventName));
  }
}
