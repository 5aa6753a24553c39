/** `NotificationStore`: the bounded, insertion-ordered log of captured
    notifications kept as one JSON array under the `items` key of the
    `notification_store` preferences. Each call reads the whole array,
    changes it and writes it back; the Java methods are `synchronized`, so
    the model treats calls as happening one at a time. */
module NotificationStore {
  import opened Wrappers

  /** The log keeps the newest `Max` entries. */
  const Max: nat := 200

  /** What the `items` key holds: nothing, a readable array, or something
      that cannot be read back as a JSON array (a corrupt value, or
      preferences that fail to open). */
  datatype Slot<T> = Missing | Stored(items: seq<T>) | Unreadable

  /** Reading the key with default `"[]"` and parsing it. */
  function Read<T>(s: Slot<T>): Option<seq<T>> {
    match s
    case Missing => Some([])
    case Stored(xs) => Some(xs)
    case Unreadable => None
  }

  /** `xs` ends with `ys`. */
  ghost predicate IsSuffix<T>(ys: seq<T>, xs: seq<T>) {
    |ys| <= |xs| && xs[|xs| - |ys|..] == ys
  }

  /** The newest `Max` elements of `xs`, oldest first. */
  function Newest<T>(xs: seq<T>): seq<T> {
    if |xs| <= Max then xs else xs[|xs| - Max..]
  }

  /** The final element. */
  function Last<T>(xs: seq<T>): T
    requires xs != []
  {
    xs[|xs| - 1]
  }

  /** The trimming loop of `add`: when the array is longer than `Max`, copy
      the elements from index `max(0, length - Max)` on into a new array. */
  method Trim<T>(arr: seq<T>) returns (out: seq<T>)
    ensures |out| == if |arr| <= Max then |arr| else Max
    ensures IsSuffix(out, arr)
    ensures out == Newest(arr)
  {
    out := arr;
    if |arr| > Max {
      var trimmed: seq<T> := [];
      var i := if |arr| - Max > 0 then |arr| - Max else 0;
      var from := i;
      while i < |arr|
        invariant from <= i <= |arr|
        invariant trimmed == arr[from..i]
      {
        trimmed := trimmed + [arr[i]];
        i := i + 1;
      }
      out := trimmed;
    }
  }

  /** `add`: append `obj` and keep the newest `Max` entries. When the stored
      value cannot be read the exception is swallowed and nothing changes. */
  function Add<T>(s: Slot<T>, obj: T): (r: Slot<T>)
    ensures s.Unreadable? ==> r == s
    ensures !s.Unreadable? ==> r.Stored? && r.items != [] && Last(r.items) == obj
    ensures !s.Unreadable? ==> |r.items| == if |Read(s).value| < Max then |Read(s).value| + 1 else Max
  {
    match Read(s)
    case None => s
    case Some(xs) => Stored(Newest(xs + [obj]))
  }

  /** `getAll`: the log, oldest first; empty when absent or unreadable. */
  function GetAll<T>(s: Slot<T>): (r: seq<T>)
    ensures s.Stored? ==> r == s.items
    ensures !s.Stored? ==> r == []
  {
    Read(s).GetOr([])
  }

  /** `clear`: removes the key. */
  function Clear<T>(s: Slot<T>): (r: Slot<T>)
    ensures GetAll(r) == []
  {
    Missing
  }

  /** `add` keeps a contiguous tail of the old log followed by the new
      record: eviction only ever removes the oldest entries. */
  lemma AddKeepsTail<T>(s: Slot<T>, obj: T)
    requires !s.Unreadable?
    ensures IsSuffix(GetAll(Add(s, obj)), GetAll(s) + [obj])
  {
    var zs := GetAll(s) + [obj];
    assert GetAll(Add(s, obj)) == Newest(zs);
  }

  /** Below capacity `add` keeps every earlier entry, in order, and only
      appends. */
  lemma AddBelowCapacity<T>(s: Slot<T>, obj: T)
    requires !s.Unreadable? && |GetAll(s)| < Max
    ensures GetAll(Add(s, obj)) == GetAll(s) + [obj]
  {
    assert GetAll(Add(s, obj)) == Newest(GetAll(s) + [obj]);
  }

  /** At exactly capacity `add` drops precisely the oldest entry. */
  lemma AddAtCapacity<T>(s: Slot<T>, obj: T)
    requires !s.Unreadable? && |GetAll(s)| == Max
    ensures GetAll(Add(s, obj)) == GetAll(s)[1..] + [obj]
  {
    var xs := GetAll(s);
    var zs := xs + [obj];
    assert GetAll(Add(s, obj)) == Newest(zs) == zs[1..];
    assert zs[1..] == xs[1..] + [obj];
  }

  /** Feeds `objs` to `add` one after another. */
  function AddAll<T>(s: Slot<T>, objs: seq<T>): Slot<T>
    decreases |objs|
  {
    if objs == [] then s else AddAll(Add(s, objs[0]), objs[1..])
  }

  /** After any run of `add` calls on a readable log within capacity,
      `getAll` returns the newest `Max` entries of the old log followed by
      everything added, in insertion order. */
  lemma {:induction false} AddAllKeepsNewest<T>(s: Slot<T>, objs: seq<T>)
    requires !s.Unreadable? && |GetAll(s)| <= Max
    ensures GetAll(AddAll(s, objs)) == Newest(GetAll(s) + objs)
    decreases |objs|
  {
    var xs := GetAll(s);
    if objs == [] {
      assert xs + objs == xs;
    } else {
      var o, rest := objs[0], objs[1..];
      var s' := Add(s, o);
      assert GetAll(s') == Newest(xs + [o]) by { AddReadsBack(s, o); }
      assert GetAll(AddAll(s', rest)) == Newest(GetAll(s') + rest) by {
        AddAllKeepsNewest(s', rest);
      }
      assert Newest(Newest(xs + [o]) + rest) == Newest(xs + objs) by {
        NewestOfNewestPrefix(xs + [o], rest);
        assert xs + [o] + rest == xs + objs;
      }
      assert AddAll(s, objs) == AddAll(s', rest);
    }
  }

  /** What `getAll` returns after one `add` on a readable log. */
  lemma AddReadsBack<T>(s: Slot<T>, obj: T)
    requires !s.Unreadable?
    ensures GetAll(Add(s, obj)) == Newest(GetAll(s) + [obj])
  {
  }

  /** Trimming a prefix first does not change what the final trim keeps. */
  lemma NewestOfNewestPrefix<T>(xs: seq<T>, ys: seq<T>)
    ensures Newest(Newest(xs) + ys) == Newest(xs + ys)
  {
    if |xs| > Max {
      var n := Newest(xs);
      var k := |xs| - Max;
      assert xs + ys == xs[..k] + (n + ys);
      assert (xs + ys)[k..] == n + ys;
    }
  }

  /** Starting from an absent key, the log after `N` adds is exactly the last
      `min(N, Max)` added records in insertion order, so no add is lost
      beyond capacity eviction. */
  lemma AddAllFromEmpty<T>(objs: seq<T>)
    ensures GetAll(AddAll(Missing, objs)) == Newest(objs)
    ensures |GetAll(AddAll(Missing, objs))| == (if |objs| <= Max then |objs| else Max)
  {
    AddAllKeepsNewest(Slot<T>.Missing, objs);
    assert [] + objs == objs;
  }

  /** A log that cannot be read absorbs every `add` and reads as empty. */
  lemma UnreadableIsInert<T>(objs: seq<T>)
    ensures AddAll(Slot<T>.Unreadable, objs) == Unreadable
    ensures GetAll(AddAll(Slot<T>.Unreadable, objs)) == []
    decreases |objs|
  {
    if objs != [] {
      UnreadableIsInert(objs[1..]);
    }
  }
}
