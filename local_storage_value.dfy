/** `useLocalStorageValue(key)`: a string held in memory and persisted to
    `localStorage` under `key`, with writes debounced by 150 ms.

    React's effects and the browser's timers become explicit steps. A hook
    instance holds the in-memory `value`, the `writeTimeoutRef` slot (the id
    of the last timer it scheduled, or none) and the set of timers that are
    scheduled and have neither fired nor been cleared, each with the value
    its callback writes. `Mount`, `SetValue`, `TimerFire` and `Teardown` are
    the steps a caller can take; each runs the effects React would run in
    response, to completion. */
module LocalStorageValue {
  import opened Wrappers

  /** `window.localStorage`: a string map, and the log of its `setItem`
      calls in the order they happen. */
  class Storage {
    var items: map<string, string>
    var writes: seq<(string, string)>

    constructor (initial: map<string, string>)
      ensures items == initial && writes == []
    {
      items := initial;
      writes := [];
    }

    /** `getItem(key)`: `null` (here `None`) for an absent key. */
    function GetItem(key: string): (r: Option<string>)
      reads this
      ensures r.Some? <==> key in items
      ensures r.Some? ==> r.value == items[key]
    {
      if key in items then Some(items[key]) else None
    }

    /** `setItem(key, v)`: one entry is set, every other is kept. */
    method SetItem(key: string, v: string)
      modifies this
      ensures items == old(items)[key := v]
      ensures writes == old(writes) + [(key, v)]
    {
      items := items[key := v];
      writes := writes + [(key, v)];
    }
  }

  class LocalStorageValue {
    const key: string
    const storage: Storage
    /** The state `value`. */
    var value: string
    /** `writeTimeoutRef.current`; it may still name a timer that has fired. */
    var writeTimeout: Option<nat>
    /** The live timers: id to the value its callback writes under `key`. */
    var timers: map<nat, string>
    /** The id the next `setTimeout` returns. */
    var nextId: nat

    /** Only the timer the slot names can be live. */
    ghost predicate SlotNamesLive()
      reads this
    {
      forall id :: id in timers ==> writeTimeout == Some(id)
    }

    /** Only the timer the slot names can be live, and a live timer writes
        the current value. */
    ghost predicate Valid()
      reads this
    {
      && SlotNamesLive()
      && (forall id :: id in timers ==> timers[id] == value)
    }

    /** The value the pending persist will write, if one is pending. */
    ghost function Pending(): Option<string>
      reads this
    {
      if writeTimeout.Some? && writeTimeout.value in timers then Some(timers[writeTimeout.value]) else None
    }

    /** The first render: `useState('')` and an empty ref. */
    constructor (key: string, storage: Storage)
      ensures this.key == key && this.storage == storage
      ensures value == "" && writeTimeout == None && timers == map[]
      ensures Valid() && Pending() == None
    {
      this.key := key;
      this.storage := storage;
      value := "";
      writeTimeout := None;
      timers := map[];
      nextId := 1;
    }

    /** The body of the persist effect (lines 16-21): clear the timer the
        slot names, then schedule a write of the current value, 150 ms on,
        and keep its id in the slot. */
    method PersistEffect()
      requires SlotNamesLive()
      modifies this
      ensures Valid() && timers == map[old(nextId) := value]
      ensures value == old(value) && nextId == old(nextId) + 1
      ensures writeTimeout == Some(old(nextId))
      ensures timers == (if old(writeTimeout).Some? then old(timers) - {old(writeTimeout).value} else old(timers))[old(nextId) := value]
    {
      if writeTimeout.Some? {
        timers := timers - {writeTimeout.value};
      }
      var id := nextId;
      nextId := nextId + 1;
      timers := timers[id := value];
      writeTimeout := Some(id);
      assert timers.Keys == {id};
    }

    /** The cleanup of the persist effect (lines 22-27): clear the timer the
        slot names and empty the slot. */
    method PersistCleanup()
      requires SlotNamesLive()
      modifies this
      ensures Valid() && timers == map[]
      ensures value == old(value) && nextId == old(nextId)
      ensures writeTimeout == None
      ensures timers == if old(writeTimeout).Some? then old(timers) - {old(writeTimeout).value} else old(timers)
    {
      if writeTimeout.Some? {
        timers := timers - {writeTimeout.value};
        writeTimeout := None;
      }
      assert timers.Keys == {};
    }

    /** The setter. An equal value is a no-op (React bails out and runs no
        effect). A new value is visible at once; the cleanup and the effect
        that follow the render cancel the pending persist and schedule one
        of the new value. Storage is not touched. */
    method SetValue(v: string)
      requires Valid()
      modifies this
      ensures Valid()
      ensures value == v
      ensures v == old(value) ==> writeTimeout == old(writeTimeout) && timers == old(timers) && nextId == old(nextId)
      ensures v != old(value) ==> timers == map[old(nextId) := v] && writeTimeout == Some(old(nextId)) && Pending() == Some(v)
      ensures v != old(value) ==> nextId == old(nextId) + 1
      ensures storage.items == old(storage.items) && storage.writes == old(storage.writes)
    {
      if v != value {
        value := v;
        PersistCleanup();
        PersistEffect();
      }
    }

    /** The first commit. The load effect (lines 7-12) reads the stored
        value; the persist effect then schedules a write of the value the
        render saw; a stored value different from it is set, which cancels
        that persist and schedules one of the stored value. */
    method Mount()
      requires Valid()
      modifies this
      ensures Valid()
      ensures value == old(storage.GetItem(key)).GetOr(old(value))
      ensures Pending() == Some(value) && |timers| == 1
      ensures var stored := old(storage.GetItem(key));
        nextId == old(nextId) + (if stored.Some? && stored.value != old(value) then 2 else 1)
      ensures nextId > 0 && writeTimeout == Some(nextId - 1) && timers == map[nextId - 1 := value]
      ensures storage.items == old(storage.items) && storage.writes == old(storage.writes)
    {
      var stored := storage.GetItem(key);
      PersistEffect();
      assert timers.Keys == {writeTimeout.value};
      if stored.Some? {
        SetValue(stored.value);
      }
    }

    /** The browser runs the callback of timer `id`. A live timer writes its
        value under `key`, and nothing else, and is no longer live; the slot
        keeps naming it. A timer that was cleared does nothing. */
    method TimerFire(id: nat)
      requires Valid()
      modifies this, storage
      ensures Valid()
      ensures value == old(value) && writeTimeout == old(writeTimeout) && nextId == old(nextId)
      ensures timers == old(timers) - {id}
      ensures Pending() == if id in old(timers) then None else old(Pending())
      ensures id in old(timers) ==>
        && storage.items == old(storage.items)[key := old(value)]
        && storage.writes == old(storage.writes) + [(key, old(value))]
        && (forall k :: k != key ==> (k in storage.items <==> k in old(storage.items)))
        && (forall k :: k != key && k in storage.items ==> storage.items[k] == old(storage.items)[k])
      ensures id !in old(timers) ==> storage.items == old(storage.items) && storage.writes == old(storage.writes)
    {
      if id in timers {
        storage.SetItem(key, timers[id]);
        timers := timers - {id};
      }
    }

    /** Unmount: the persist effect's cleanup cancels the pending write
        without flushing it and empties the slot. */
    method Teardown()
      requires Valid()
      modifies this
      ensures Valid()
      ensures value == old(value) && writeTimeout == None && timers == map[] && Pending() == None
      ensures nextId == old(nextId)
      ensures storage.items == old(storage.items) && storage.writes == old(storage.writes)
    {
      PersistCleanup();
    }
  }

  /** At most one persist is pending at any time. */
  lemma AtMostOnePending(h: LocalStorageValue)
    requires h.Valid()
    ensures |h.timers| <= 1
    ensures h.timers != map[] ==> h.Pending() == Some(h.value)
  {
    if h.timers != map[] {
      var id :| id in h.timers;
      assert h.timers.Keys == {id};
    }
  }

  /** The last of `vs`, or `otherwise` when there is none. */
  function LastOr(vs: seq<string>, otherwise: string): (r: string)
    ensures vs == [] ==> r == otherwise
    ensures vs != [] ==> r == vs[|vs| - 1]
  {
    if vs == [] then otherwise else vs[|vs| - 1]
  }

  /** A hook mounted over storage `initial`, given the values `vs` one after
      another faster than the debounce delay, and then left alone until the
      pending timer fires: storage is written once, under `key`, with the
      last value (the stored value, or `''`, when there was none). */
  method DebouncedBurst(key: string, initial: map<string, string>, vs: seq<string>)
    returns (items: map<string, string>, writes: seq<(string, string)>)
    ensures var loaded := if key in initial then initial[key] else "";
      && writes == [(key, LastOr(vs, loaded))]
      && items == initial[key := LastOr(vs, loaded)]
  {
    var loaded := if key in initial then initial[key] else "";
    var s := new Storage(initial);
    var h := new LocalStorageValue(key, s);
    h.Mount();
    var i := 0;
    while i < |vs|
      invariant 0 <= i <= |vs|
      invariant h.Valid() && h.storage == s && h.key == key
      invariant h.value == LastOr(vs[..i], loaded)
      invariant |h.timers| == 1 && h.Pending() == Some(h.value)
      invariant s.items == initial && s.writes == []
    {
      h.SetValue(vs[i]);
      assert vs[..i + 1][i] == vs[i];
      i := i + 1;
    }
    assert vs[..|vs|] == vs;
    h.TimerFire(h.writeTimeout.value);
    items := s.items;
    writes := s.writes;
  }
}
