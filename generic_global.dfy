/**
  A type-indexed lazy-singleton registry (`GenericGlobal`) and its typed
  handle (`Entry<T>`).

  Rust's `TypeId` becomes `TypeKey`; an `Arc<dyn Any>` becomes a reference to
  an immutable `StoredValue` object that carries the runtime type tag of the
  value it boxes, so that type erasure is a tagged value and a downcast is a
  tag check. Copying an `Arc` is copying the reference, so two handles refer
  to "the same stored value" exactly when their references are equal.
*/
module Globals {
  import opened Wrappers

  /** Runtime identity of a static type: `TypeId::of::<T>()` is `TypeOf("T")`. */
  datatype TypeKey = TypeOf(name: string)

  /**
    A type-erased, shared, immutable value (`Arc<dyn Any>`). `V` is the
    universe of concrete values; `tag` records which static type the value
    was created at.
  */
  class StoredValue<V> {
    const tag: TypeKey
    const value: V

    constructor (tag: TypeKey, value: V)
      ensures this.tag == tag && this.value == value
    {
      this.tag := tag;
      this.value := value;
    }
  }

  /**
    `Entry<T>`: a handle to a stored value; `ty` is the phantom type `T` the
    handle was created for. The datatype constructor is `Entry::new`.
  */
  datatype Entry<V> = Entry(stored: StoredValue<V>, ty: TypeKey) {

    /** `Entry::clone`: a new handle sharing the same stored value. */
    function Clone(): (r: Entry<V>)
      ensures r.stored == stored && r.ty == ty
      ensures r.Deref() == Deref()
    {
      Entry(stored, ty)
    }

    /**
      `Entry::deref`: a checked downcast of the erased value back to `T`.
      `None` is the case in which the source's `unwrap` panics.
    */
    function Deref(): (r: Option<V>)
      ensures r.Some? <==> stored.tag == ty
      ensures r.Some? ==> r.value == stored.value
    {
      if stored.tag == ty then Some(stored.value) else None
    }
  }

  /** Every value is stored under the key of the type it was created at. */
  predicate WellTyped<V>(m: map<TypeKey, StoredValue<V>>) {
    forall k :: k in m ==> m[k].tag == k
  }

  /** `HashMap::get`. */
  function Get<V>(m: map<TypeKey, StoredValue<V>>, key: TypeKey): (r: Option<StoredValue<V>>)
    ensures r.Some? <==> key in m
    ensures r.Some? ==> r.value == m[key]
  {
    if key in m then Some(m[key]) else None
  }

  /**
    `HashMap::insert`: the updated map and the value previously stored under
    the key, if any.
  */
  function Insert<V>(m: map<TypeKey, StoredValue<V>>, key: TypeKey, v: StoredValue<V>)
    : (r: (map<TypeKey, StoredValue<V>>, Option<StoredValue<V>>))
    ensures r.0.Keys == m.Keys + {key} && r.0[key] == v
    ensures forall k :: k in m && k != key ==> r.0[k] == m[k]
    ensures r.1 == Get(m, key)
  {
    (m[key := v], Get(m, key))
  }

  /** What one `get_or_init` does to the map, what it hands back, and whether it ran the factory. */
  datatype Insertion<V> = Insertion(entries: map<TypeKey, StoredValue<V>>, stored: StoredValue<V>, ran: bool)

  /**
    The sequential contract of `get_or_init` for key `key`, where `made` is
    what the factory produces if it is run: insert-if-absent.
  */
  function InsertIfAbsent<V>(m: map<TypeKey, StoredValue<V>>, key: TypeKey, made: StoredValue<V>)
    : (r: Insertion<V>)
    // the key is present afterwards, and the handle refers to what is stored there
    ensures key in r.entries && r.stored == r.entries[key]
    // the factory runs exactly when the key was absent
    ensures r.ran <==> key !in m
    // a present key keeps its value and the map does not change
    ensures key in m ==> r.stored == m[key] && r.entries == m
    // an absent key receives the factory's result
    ensures key !in m ==> r.stored == made
    // only the one key is added; no other key is touched, nothing is replaced
    ensures r.entries.Keys == m.Keys + {key}
    ensures forall k :: k in m ==> r.entries[k] == m[k]
    // a well-typed factory result keeps the map well typed
    ensures WellTyped(m) && made.tag == key ==> WellTyped(r.entries)
  {
    if key in m then Insertion(m, m[key], false)
    else Insertion(m[key := made], made, true)
  }

  /** Dereferencing a handle built from the value stored under its own key never panics. */
  lemma DerefStoredSucceeds<V>(m: map<TypeKey, StoredValue<V>>, key: TypeKey)
    requires WellTyped(m) && key in m
    ensures Entry(m[key], key).Deref() == Some(m[key].value)
    ensures Entry(m[key], key).Clone().Deref() == Some(m[key].value)
  {
  }

  /**
    Idempotence: once `get_or_init` has run for a key, a second call with any
    factory returns the same stored value, leaves the map unchanged and does
    not run its factory.
  */
  lemma InsertIfAbsentIdempotent<V>(m: map<TypeKey, StoredValue<V>>, key: TypeKey,
                                   first: StoredValue<V>, second: StoredValue<V>)
    ensures var r1 := InsertIfAbsent(m, key, first);
            var r2 := InsertIfAbsent(r1.entries, key, second);
            r2.entries == r1.entries && r2.stored == r1.stored && !r2.ran
  {
  }

  /**
    Isolation: a call for `key` neither reads nor writes the entry of any
    other key, so two calls for distinct keys commute.
  */
  lemma InsertIfAbsentCommutes<V>(m: map<TypeKey, StoredValue<V>>, k1: TypeKey, v1: StoredValue<V>,
                                  k2: TypeKey, v2: StoredValue<V>)
    requires k1 != k2
    ensures var a1 := InsertIfAbsent(m, k1, v1);
            var a2 := InsertIfAbsent(a1.entries, k2, v2);
            var b2 := InsertIfAbsent(m, k2, v2);
            var b1 := InsertIfAbsent(b2.entries, k1, v1);
            a2.entries == b1.entries && a1.stored == b1.stored && a2.stored == b2.stored
            && a1.ran == b1.ran && a2.ran == b2.ran
  {
  }

  /** The number of times `get_or_init` ran a factory for each key (0 when never). */
  function RunsOf(runs: map<TypeKey, nat>, key: TypeKey): nat {
    if key in runs then runs[key] else 0
  }

  /**
    `GenericGlobal`: the registry. `entries` is the `HashMap` behind the
    lock; `runs` is a ghost count of factory invocations per key.
  */
  class GenericGlobal<V> {
    var entries: map<TypeKey, StoredValue<V>>
    ghost var runs: map<TypeKey, nat>

    /**
      Every value sits under its own type's key, and each present key's
      factory ran exactly once while absent keys' factories never ran.
    */
    ghost predicate Valid()
      reads this
    {
      && WellTyped(entries)
      && runs.Keys == entries.Keys
      && forall k :: k in runs ==> runs[k] == 1
    }

    /** `GenericGlobal::new`: an empty registry. */
    constructor ()
      ensures Valid()
      ensures entries == map[] && runs == map[]
    {
      entries := map[];
      runs := map[];
    }

    /**
      The fast path of `get_or_init` under the shared read lock: a handle to
      the existing value if the key is present.
    */
    method FastPath(key: TypeKey) returns (e: Option<Entry<V>>)
      requires Valid()
      ensures e.Some? <==> key in entries
      ensures e.Some? ==> e.value.stored == entries[key] && e.value.ty == key
      ensures e.Some? ==> e.value.Deref() == Some(entries[key].value)
    {
      var found := Get(entries, key);
      if found.Some? {
        e := Some(Entry(found.value, key));
      } else {
        e := None;
      }
    }

    /**
      The slow path of `get_or_init` under the upgradable lock: re-check the
      key, and only if it is still absent run the factory, insert its result
      and return a handle to it.
    */
    method SlowPath(key: TypeKey, factory: () -> V) returns (e: Entry<V>)
      requires Valid()
      modifies this
      ensures Valid()
      ensures e.ty == key && e.Deref() == Some(e.stored.value)
      ensures var r := InsertIfAbsent(old(entries), key, e.stored);
              entries == r.entries && e.stored == r.stored
      ensures key !in old(entries) ==> fresh(e.stored) && e.stored.value == factory()
      ensures runs == if key in old(entries) then old(runs) else old(runs)[key := 1]
    {
      var found := Get(entries, key);
      if found.Some? {
        e := Entry(found.value, key);
        return;
      }
      var made := new StoredValue(key, factory());
      runs := runs[key := RunsOf(runs, key) + 1];
      var inserted := Insert(entries, key, made);
      entries := inserted.0;
      // the source's `debug_assert!(option.is_none())`, discharged statically
      assert inserted.1.None?;
      e := Entry(made, key);
    }

    /**
      `GenericGlobal::get_or_init`: the fast path, then on a miss the slow
      path. The returned handle refers to the value stored under `key`.
    */
    method GetOrInit(key: TypeKey, factory: () -> V) returns (e: Entry<V>)
      requires Valid()
      modifies this
      ensures Valid()
      ensures e.ty == key && e.Deref() == Some(e.stored.value)
      ensures var r := InsertIfAbsent(old(entries), key, e.stored);
              entries == r.entries && e.stored == r.stored
      ensures key in old(entries) ==> unchanged(this)
      ensures key !in old(entries) ==> fresh(e.stored) && e.stored.value == factory()
      ensures runs == if key in old(entries) then old(runs) else old(runs)[key := 1]
    {
      var hit := FastPath(key);
      if hit.Some? {
        e := hit.value.Clone();
        return;
      }
      e := SlowPath(key, factory);
    }
  }
}
