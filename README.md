# generic-global-variables, modelled in Dafny

`GenericGlobal` is a type-indexed lazy-singleton registry. It maps the
runtime identity of a type `T` (`TypeId`) to one shared, type-erased
instance of `T` (`Arc<dyn Any>`). `get_or_init::<T>(f)` returns a typed
handle `Entry<T>` to that instance. The instance is created by running `f`
the first time `T` is requested and reused on every later request.
Dereferencing an `Entry<T>` downcasts the erased value back to `T`.

The model:

- `wrappers.dfy`, module `Wrappers`: the `Option` datatype.
- `generic_global.dfy`, module `Globals`: the registry and its handle.
  - `TypeKey` stands for `TypeId`.
  - `StoredValue<V>` stands for `Arc<dyn Any>`. It is an immutable heap object that carries
    the type tag it was created at, so a downcast is a tag check. Two
    handles share a value exactly when they hold the same reference, as two clones of an `Arc` do.
  - `Entry<V>` stands for `Entry<T>`. Its datatype constructor is `Entry::new`, and its
    `ty` field stands for the phantom `T`. `Deref` returns `None` exactly where the
    source's `unwrap` would panic.
  - `InsertIfAbsent` states the sequential contract of `get_or_init` on the map.
  - The class `GenericGlobal` has the map as a field and a ghost count of factory
    runs per key.
  - `get_or_init` is split into its fast path, which reads under the shared lock, and
    its slow path, which re-checks, runs the factory and inserts under the
    upgradable lock. The source's `debug_assert!(option.is_none())` is an
    `assert` on the previous value that `HashMap::insert` returns. It is proved
    to hold, so it holds whether it is compiled in or not.
- `interleaving.dfy`, module `Interleaving`: many callers race on one
  registry.
  - Each call is two atomic steps, the fast path and the slow path. The
    reader/writer/upgradable lock is what makes these steps atomic.
  - A schedule interleaves the steps of the callers in any order.
  - For every schedule, the factory for a key runs at most once, never for a key
    that was already present, and all callers for a key get the same value.
  - Every caller that is scheduled twice has returned.
- `scenarios.dfy`, module `Scenarios`: client code that relies only on the
  contracts of `GetOrInit`.

## Model

| member | source | states |
|---|---|---|
| `Globals.StoredValue.constructor` | src/lib.rs:92 | boxing the factory's result keeps the value and records the type it was made at |
| `Globals.Entry.Clone` | src/lib.rs:112-116 | a clone refers to the same stored value and dereferences to the same result |
| `Globals.Entry.Deref` | src/lib.rs:124-130 | the checked downcast succeeds exactly when the stored value's type tag is the handle's type, and then yields the stored value |
| `Globals.Get` | src/lib.rs:72 | the lookup finds a value exactly when the key is present, and finds the one stored under it |
| `Globals.Insert` | src/lib.rs:93 | inserting adds the key with the new value, keeps every other key's value, and reports what was stored under the key before |
| `Globals.InsertIfAbsent` | src/lib.rs:69-99 | afterwards the key is present and the handle refers to its value; the factory runs exactly when the key was absent; a present key's value and the whole map are kept; only that key is added; no other entry changes; well-typedness is kept |
| `Globals.DerefStoredSucceeds` | src/lib.rs:124-130 | a handle to the value stored under its own key, or a clone of it, always dereferences successfully |
| `Globals.InsertIfAbsentIdempotent` | src/lib.rs:72-74 | after one call, a second call for the same key with any factory returns the same value, leaves the map unchanged and runs no factory |
| `Globals.InsertIfAbsentCommutes` | src/lib.rs:93 | calls for two distinct keys do not affect each other: in either order they give the same map, the same handles and the same factory runs |
| `Globals.GenericGlobal.constructor` | src/lib.rs:65-67 | a new registry has no entries and has run no factory |
| `Globals.GenericGlobal.FastPath` | src/lib.rs:72-74 | a handle is returned exactly when the key is present, and it refers to the stored value and dereferences to it |
| `Globals.GenericGlobal.SlowPath` | src/lib.rs:83-98 | after the re-check, the map changes as insert-if-absent says. A new entry is a fresh value holding the factory's result. The factory-run count rises from 0 to 1 only on a miss. The invariant holds afterwards: every value is under its own type's key and every present key's factory ran exactly once |
| `Globals.GenericGlobal.GetOrInit` | src/lib.rs:69-99 | the returned handle is typed by the key and dereferences successfully. The map changes as insert-if-absent says. A hit changes nothing at all. A miss stores a fresh value holding the factory's result and records exactly one factory run |
| `Interleaving.Advance` | src/lib.rs:72-98 | one atomic step of one caller changes the map only by its own slow path inserting its own factory's result, and that happens exactly when it runs the factory. A handle it returns refers to the value now stored. Finished callers stay finished; others move forward |
| `Interleaving.ExactlyOnce` | src/lib.rs:69-99 | under every interleaving, entries present at the start are kept. A key's factory runs at most once, and never for a key already present. All callers for one key hold the same value, and every handle dereferences. Once all callers have returned, each requested absent key's factory has run exactly once |
| `Interleaving.RunProgress` | src/lib.rs:69-99 | each step scheduled for a caller advances it until it has returned |
| `Interleaving.ScheduledTwiceReturns` | src/lib.rs:69-99 | every caller scheduled at least twice has returned a handle |
| `Interleaving.SameKeyConverges` | src/lib.rs:69-99 | when many callers on an empty registry ask for one type and each is scheduled at least twice, in any order, the factory runs exactly once and every caller holds the single stored value |
| `Scenarios.SecondFactoryNeverRuns` | src/lib.rs:72-74 | after `get_or_init` with a factory returning 42, a second call whose factory returns 99 runs no factory; both handles dereference to 42 and share one value |
| `Scenarios.TwoTypesStayApart` | src/lib.rs:124-130 | two types stored side by side each dereference to their own value, a later request returns the first value, and downcasting one type's value to the other type fails |

## Left out

- The `parking_lot::RwLock` read, upgradable-read and upgrade protocol (src/lib.rs:9, 72, 83, 91) is not modelled. `Interleaving` assumes the atomicity it provides and does not prove it.
- The `unsafe impl Send/Sync` declarations (src/lib.rs:102-103, 109-110) are left out. They concern thread-safety of the Rust types, which this model cannot express.
- `Arc` reference counting, and the lifetime of values held by handles that outlive the registry, are left out. A handle is a reference to the stored object, and memory is never reclaimed in the model.
- `TypeId` and `dyn Any` are reduced to a type tag on each stored value. `V` is one universe of values shared by all types, and the tag records which type a value belongs to.
- A factory is a total Dafny function, so a factory that panics or unwinds, and the propagation of that failure, is not modelled.
- A factory that re-enters `get_or_init` on the same registry deadlocks in the source. The model's factories cannot call the registry, so this case cannot arise.
- The `fmt::Display` and `fmt::Pointer` impls (src/lib.rs:132-142) are left out. They only delegate formatting.
- The doc-test's `OnceCell` holder, thread spawning and `Mutex` buffer pools (src/lib.rs:11-60) are left out. They are caller-side code. `Scenarios` restates their sequential use of the registry.
