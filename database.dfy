/**
 * The expiring key-value store of `src/database/mod.rs`.
 *
 * Keys are byte strings.  An entry either never expires or carries the
 * time it was created and how long it lives; times and durations are
 * milliseconds, passed in by the caller in place of the clock.  `Get`
 * checks expiry lazily with a strict `now < created + duration`; `Clean`
 * sweeps in two phases, a scan that collects the keys whose deadline lies
 * strictly before the scan time and a removal that checks each of those
 * keys again, against the entry it finds then, at the removal time.
 */
module Database {
  import opened Wrappers
  import opened ByteStrings
  import opened StoreValue

  datatype Entry =
    | Expire(value: Value, created: nat, duration: nat)
    | NonExpire(value: Value)

  /** The entry may still be served at `now`: `get` returns it. */
  predicate Live(e: Entry, now: nat) {
    e.NonExpire? || now < e.created + e.duration
  }

  /** The entry's deadline lies strictly before `now`: `clean` removes it. */
  predicate Overdue(e: Entry, now: nat) {
    e.Expire? && e.created + e.duration < now
  }

  /** The entry `insert` makes at `now`. */
  function NewEntry(value: Value, duration: Option<nat>, now: nat): (e: Entry)
    ensures e.value == value
    ensures duration.None? <==> e.NonExpire?
    ensures duration.Some? ==> e.created == now && e.duration == duration.value
  {
    match duration
    case None => NonExpire(value)
    case Some(d) => Expire(value, now, d)
  }

  /** A live entry is not overdue, and an entry that is neither is exactly at its deadline. */
  lemma LiveOrOverdue(e: Entry, now: nat)
    ensures !(Live(e, now) && Overdue(e, now))
    ensures !Live(e, now) && !Overdue(e, now) <==> e.Expire? && now == e.created + e.duration
  {
  }

  /** Time only takes entries towards removal. */
  lemma Monotone(e: Entry, t: nat, u: nat)
    requires t <= u
    ensures Live(e, u) ==> Live(e, t)
    ensures Overdue(e, t) ==> Overdue(e, u)
  {
  }

  /** An entry made with a duration lives for exactly that many milliseconds. */
  lemma FreshEntryLifetime(value: Value, d: nat, now: nat, t: nat)
    requires now <= t
    ensures Live(NewEntry(value, Some(d), now), t) <==> t - now < d
    ensures Overdue(NewEntry(value, Some(d), now), t) <==> t - now > d
  {
  }

  /** `get` on a map of entries: the value of a live entry, and nothing for an absent or expired key. */
  function Lookup(entries: map<Bytes, Entry>, key: Bytes, now: nat): (r: Option<Value>)
    ensures r.Some? <==> key in entries && Live(entries[key], now)
    ensures r.Some? ==> r.value == entries[key].value
  {
    if key in entries && Live(entries[key], now) then Some(entries[key].value) else None
  }

  /** What `insert` leaves behind is served until its deadline, and only the key it wrote changes. */
  lemma LookupAfterInsert(entries: map<Bytes, Entry>, key: Bytes, value: Value,
                            duration: Option<nat>, now: nat, other: Bytes, t: nat)
    requires now <= t
    ensures Lookup(entries[key := NewEntry(value, duration, now)], key, t)
         == (if duration.None? || t - now < duration.value then Some(value) else None)
    ensures other != key ==> Lookup(entries[key := NewEntry(value, duration, now)], other, t) == Lookup(entries, other, t)
  {
  }

  class Database {
    var entries: map<Bytes, Entry>

    constructor ()
      ensures entries == map[]
    {
      entries := map[];
    }

    /** `insert`: the key now holds the new entry, whatever it held before; no other key changes. */
    method Insert(key: Bytes, value: Value, duration: Option<nat>, now: nat)
      modifies this
      ensures entries == old(entries)[key := NewEntry(value, duration, now)]
    {
      entries := entries[key := NewEntry(value, duration, now)];
    }

    /** `get`: a lookup that leaves the entries as they are. */
    function Get(key: Bytes, now: nat): (r: Option<Value>)
      reads this
    {
      Lookup(entries, key, now)
    }

    /** `get_by_string`: a lookup by the UTF-8 bytes of the text. */
    function GetByString(text: Bytes, now: nat): (r: Option<Value>)
      reads this
    {
      Get(text, now)
    }

    /** The scan phase of `clean`: every key whose entry is overdue at `now`, each once. */
    method Scan(now: nat) returns (keys: seq<Bytes>)
      ensures forall k :: k in keys <==> k in entries && Overdue(entries[k], now)
      ensures forall i, j :: 0 <= i < j < |keys| ==> keys[i] != keys[j]
    {
      keys := [];
      var todo := entries.Keys;
      while todo != {}
        invariant todo <= entries.Keys
        invariant forall k :: k in keys <==> k in entries && k !in todo && Overdue(entries[k], now)
        invariant forall i, j :: 0 <= i < j < |keys| ==> keys[i] != keys[j]
        decreases |todo|
      {
        var k :| k in todo;
        if Overdue(entries[k], now) {
          keys := keys + [k];
        }
        todo := todo - {k};
      }
    }

    /**
     * The removal phase of `clean`: each listed key whose entry, as it is
     * now, is overdue at `now` is removed; every other entry stays as it is.
     */
    method Sweep(keys: seq<Bytes>, now: nat)
      modifies this
      ensures forall k :: k in entries <==> k in old(entries) && !(k in keys && Overdue(old(entries)[k], now))
      ensures forall k :: k in entries ==> entries[k] == old(entries)[k]
    {
      var i := 0;
      while i < |keys|
        invariant 0 <= i <= |keys|
        invariant forall k :: k in entries <==> k in old(entries) && !(k in keys[..i] && Overdue(old(entries)[k], now))
        invariant forall k :: k in entries ==> entries[k] == old(entries)[k]
      {
        var k := keys[i];
        if k in entries && Overdue(entries[k], now) {
          entries := entries - {k};
        }
        i := i + 1;
      }
      assert keys[..i] == keys;
    }

    /**
     * `clean`, with nothing in between its two phases: an entry goes when it
     * is overdue both at the scan and at the removal, so, with the clock
     * moving forward, exactly the entries overdue at the scan go.
     */
    method Clean(scanNow: nat, removeNow: nat)
      modifies this
      ensures forall k :: k in entries <==>
        k in old(entries) && !(Overdue(old(entries)[k], scanNow) && Overdue(old(entries)[k], removeNow))
      ensures forall k :: k in entries ==> entries[k] == old(entries)[k]
      ensures scanNow <= removeNow ==>
        forall k :: k in entries <==> k in old(entries) && !Overdue(old(entries)[k], scanNow)
    {
      var keys := Scan(scanNow);
      Sweep(keys, removeNow);
    }

    /**
     * A key written again, at time `t`, between the two phases of `clean`
     * is judged by its new entry: the removal re-checks the entry as it is
     * then, so the key goes only when the scan listed it and the new entry
     * is itself overdue at the removal. Every other key fares as in `Clean`.
     */
    method CleanAcrossOverwrite(key: Bytes, value: Value, duration: Option<nat>, scanNow: nat, t: nat, removeNow: nat)
      requires scanNow <= t <= removeNow
      modifies this
      ensures key in entries <==>
        !(key in old(entries) && Overdue(old(entries)[key], scanNow) && Overdue(NewEntry(value, duration, t), removeNow))
      ensures key in entries ==> entries[key] == NewEntry(value, duration, t)
      ensures forall k :: k != key ==> (k in entries <==> k in old(entries) && !Overdue(old(entries)[k], scanNow))
      ensures forall k :: k != key && k in entries ==> entries[k] == old(entries)[k]
    {
      var keys := Scan(scanNow);
      Insert(key, value, duration, t);
      Sweep(keys, removeNow);
    }
  }

  /**
   * The clean-up timeline of the store's own test: two keys written at
   * time 0 to live 10 and 100 ms; a clean at 11 ms removes only the first,
   * a clean at 111 ms the second as well.
   */
  method CleanTimeline(key1: Bytes, key2: Bytes, value: Value) returns (early: set<Bytes>, late: set<Bytes>)
    requires key1 != key2
    ensures early == {key2}
    ensures late == {}
  {
    var db := new Database();
    db.Insert(key1, value, Some(10), 0);
    db.Insert(key2, value, Some(100), 0);
    db.Clean(11, 11);
    early := db.entries.Keys;
    db.Clean(111, 111);
    late := db.entries.Keys;
  }
}
