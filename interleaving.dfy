/**
  Many callers of `get_or_init` racing on one registry.

  Each call is two atomic steps, the atomicity being what the registry's
  reader/writer lock provides: the fast-path lookup under the shared read
  lock, and the slow path (re-check, factory, insert) under the upgradable
  lock, which excludes every other slow path and, once upgraded, every
  reader. A schedule says which caller takes its next step; any schedule
  may interleave the callers' steps arbitrarily.
*/
module Interleaving {
  import opened Wrappers
  import opened Globals

  /** Where a caller is in `get_or_init`. */
  datatype Phase<V> =
    | Start                                   // before the fast-path lookup
    | Missed                                  // the fast path saw no entry
    | Done(stored: StoredValue<V>, ran: bool) // returned a handle; `ran` if it ran its factory

  /** A caller of `get_or_init` for `key`; `made` is what its factory produces if run. */
  datatype Caller<V> = Caller(key: TypeKey, made: StoredValue<V>, phase: Phase<V>)

  /** The registry's map together with every caller. */
  datatype World<V> = World(entries: map<TypeKey, StoredValue<V>>, callers: seq<Caller<V>>)

  /** One atomic step of one caller: the fast path, or the slow path after a miss. */
  function Advance<V>(m: map<TypeKey, StoredValue<V>>, c: Caller<V>)
    : (r: (map<TypeKey, StoredValue<V>>, Caller<V>))
    ensures r.1.key == c.key && r.1.made == c.made
    // the map only changes by the slow path inserting this caller's factory result
    ensures r.0 == m || (c.phase.Missed? && c.key !in m && r.0 == m[c.key := c.made])
    // a handle returned by this step refers to the value now stored under the caller's key
    ensures !c.phase.Done? && r.1.phase.Done? ==> c.key in r.0 && r.1.phase.stored == r.0[c.key]
    // this step ran the factory exactly when it inserted
    ensures r.0 != m <==> !c.phase.Done? && r.1.phase.Done? && r.1.phase.ran
    // a finished caller stays finished; every other caller moves forward
    ensures c.phase.Done? ==> r == (m, c)
    ensures c.phase.Start? ==> !r.1.phase.Start?
    ensures c.phase.Missed? ==> r.1.phase.Done?
  {
    match c.phase
    case Start =>
      (match Get(m, c.key)
       case Some(v) => (m, c.(phase := Done(v, false)))
       case None => (m, c.(phase := Missed)))
    case Missed =>
      var ins := InsertIfAbsent(m, c.key, c.made);
      (ins.entries, c.(phase := Done(ins.stored, ins.ran)))
    case Done(_, _) => (m, c)
  }

  /** Caller `i` takes one step; an index naming no caller changes nothing. */
  function Step<V>(w: World<V>, i: nat): World<V> {
    if i < |w.callers| then
      var r := Advance(w.entries, w.callers[i]);
      World(r.0, w.callers[i := r.1])
    else w
  }

  /** Runs a schedule: the callers take steps in the order it lists. */
  function Run<V>(w: World<V>, schedule: seq<nat>): World<V>
    decreases |schedule|
  {
    if schedule == [] then w else Run(Step(w, schedule[0]), schedule[1..])
  }

  /** 1 if `c` is a caller for `k` that ran its factory, else 0. */
  function Ran<V>(c: Caller<V>, k: TypeKey): nat {
    if c.key == k && c.phase.Done? && c.phase.ran then 1 else 0
  }

  /** How many factories for `k` have run among the callers. */
  function RanCount<V>(cs: seq<Caller<V>>, k: TypeKey): nat {
    if cs == [] then 0 else Ran(cs[0], k) + RanCount(cs[1..], k)
  }

  /** Replacing one caller changes the count by that caller's contribution only. */
  lemma {:induction false} RanCountUpdate<V>(cs: seq<Caller<V>>, i: nat, c: Caller<V>, k: TypeKey)
    requires i < |cs|
    ensures RanCount(cs[i := c], k) == RanCount(cs, k) - Ran(cs[i], k) + Ran(c, k)
  {
    if i == 0 {
      assert cs[i := c][1..] == cs[1..];
    } else {
      assert cs[i := c][1..] == cs[1..][i - 1 := c];
      RanCountUpdate(cs[1..], i - 1, c, k);
    }
  }

  /** Before anyone has finished, no factory has run. */
  lemma {:induction false} RanCountNone<V>(cs: seq<Caller<V>>, k: TypeKey)
    requires forall i :: 0 <= i < |cs| ==> cs[i].phase.Start?
    ensures RanCount(cs, k) == 0
  {
    if cs != [] {
      RanCountNone(cs[1..], k);
    }
  }

  predicate AllStart<V>(cs: seq<Caller<V>>) {
    forall i :: 0 <= i < |cs| ==> cs[i].phase.Start?
  }

  /** Each factory produces a value of the type its caller asked for. */
  predicate FactoriesTyped<V>(cs: seq<Caller<V>>) {
    forall i :: 0 <= i < |cs| ==> cs[i].made.tag == cs[i].key
  }

  predicate AllDone<V>(cs: seq<Caller<V>>) {
    forall i :: 0 <= i < |cs| ==> cs[i].phase.Done?
  }

  /**
    What holds of every world reachable from the initial map `m0` and the
    callers `origin`.
  */
  ghost predicate Inv<V>(m0: map<TypeKey, StoredValue<V>>, origin: seq<Caller<V>>, w: World<V>) {
    && |w.callers| == |origin|
    && (forall i :: 0 <= i < |origin| ==>
          w.callers[i].key == origin[i].key && w.callers[i].made == origin[i].made)
    && FactoriesTyped(w.callers)
    && WellTyped(w.entries)
    // entries present at the start are never replaced or removed
    && (forall k :: k in m0 ==> k in w.entries && w.entries[k] == m0[k])
    // every handle handed out refers to the value now stored under its key
    && (forall i :: 0 <= i < |w.callers| && w.callers[i].phase.Done? ==>
          w.callers[i].key in w.entries && w.callers[i].phase.stored == w.entries[w.callers[i].key])
    // a key's factory has run once if the key was inserted during the run, else never
    && (forall k :: RanCount(w.callers, k) == if k in w.entries && k !in m0 then 1 else 0)
  }

  lemma InvInitial<V>(m0: map<TypeKey, StoredValue<V>>, callers: seq<Caller<V>>)
    requires WellTyped(m0) && AllStart(callers) && FactoriesTyped(callers)
    ensures Inv(m0, callers, World(m0, callers))
  {
    forall k ensures RanCount(callers, k) == 0 {
      RanCountNone(callers, k);
    }
  }

  lemma StepPreservesInv<V>(m0: map<TypeKey, StoredValue<V>>, origin: seq<Caller<V>>, w: World<V>, i: nat)
    requires Inv(m0, origin, w)
    ensures Inv(m0, origin, Step(w, i))
  {
    if i < |w.callers| {
      var c := w.callers[i];
      var r := Advance(w.entries, c);
      var w' := Step(w, i);
      assert w'.callers == w.callers[i := r.1];
      forall k ensures RanCount(w'.callers, k) == if k in w'.entries && k !in m0 then 1 else 0 {
        RanCountUpdate(w.callers, i, r.1, k);
      }
      forall j | 0 <= j < |w'.callers| && w'.callers[j].phase.Done?
        ensures w'.callers[j].key in w'.entries && w'.callers[j].phase.stored == w'.entries[w'.callers[j].key]
      {
        if j != i {
          assert w.callers[j].phase.Done?;
        }
      }
    }
  }

  lemma {:induction false} RunPreservesInv<V>(m0: map<TypeKey, StoredValue<V>>, origin: seq<Caller<V>>,
                                             w: World<V>, schedule: seq<nat>)
    requires Inv(m0, origin, w)
    ensures Inv(m0, origin, Run(w, schedule))
    decreases |schedule|
  {
    if schedule != [] {
      StepPreservesInv(m0, origin, w, schedule[0]);
      RunPreservesInv(m0, origin, Step(w, schedule[0]), schedule[1..]);
    }
  }

  /**
    Exactly once under contention: whatever the interleaving, entries present
    at the start are kept, each key's factory runs at most once and never for
    a key already present, all callers for one key are handed the same stored
    value, every handle dereferences successfully, and once every caller has
    returned, the factory of each requested absent key has run exactly once.
  */
  lemma ExactlyOnce<V>(m0: map<TypeKey, StoredValue<V>>, callers: seq<Caller<V>>, schedule: seq<nat>)
    requires WellTyped(m0) && AllStart(callers) && FactoriesTyped(callers)
    ensures var w := Run(World(m0, callers), schedule);
            && (forall k :: k in m0 ==> k in w.entries && w.entries[k] == m0[k])
            && (forall k :: RanCount(w.callers, k) <= 1)
            && (forall k :: k in m0 ==> RanCount(w.callers, k) == 0)
            && (forall i :: 0 <= i < |w.callers| && w.callers[i].phase.Done? ==>
                  Entry(w.callers[i].phase.stored, w.callers[i].key).Deref()
                    == Some(w.callers[i].phase.stored.value))
            && (forall i, j :: 0 <= i < |w.callers| && 0 <= j < |w.callers| &&
                  w.callers[i].phase.Done? && w.callers[j].phase.Done? &&
                  w.callers[i].key == w.callers[j].key
                  ==> w.callers[i].phase.stored == w.callers[j].phase.stored)
            && (AllDone(w.callers) ==> forall i :: 0 <= i < |callers| ==>
                  RanCount(w.callers, callers[i].key) == if callers[i].key in m0 then 0 else 1)
  {
    InvInitial(m0, callers);
    RunPreservesInv(m0, callers, World(m0, callers), schedule);
  }

  /** How often `i` occurs in a schedule. */
  function Occurrences(schedule: seq<nat>, i: nat): nat {
    if schedule == [] then 0
    else (if schedule[0] == i then 1 else 0) + Occurrences(schedule[1..], i)
  }

  /** How far a caller has got: 0 before the fast path, 1 after a miss, 2 when returned. */
  function Progress<V>(c: Caller<V>): nat {
    match c.phase
    case Start => 0
    case Missed => 1
    case Done(_, _) => 2
  }

  function Min(a: nat, b: nat): nat {
    if a <= b then a else b
  }

  /** Each step a caller is scheduled for moves it forward, until it has returned. */
  lemma {:induction false} RunProgress<V>(w: World<V>, schedule: seq<nat>, i: nat)
    requires i < |w.callers|
    ensures |Run(w, schedule).callers| == |w.callers|
    ensures Progress(Run(w, schedule).callers[i]) >= Min(2, Progress(w.callers[i]) + Occurrences(schedule, i))
    decreases |schedule|
  {
    if schedule != [] {
      RunProgress(Step(w, schedule[0]), schedule[1..], i);
    }
  }

  /** Every caller scheduled at least twice has returned a handle. */
  lemma ScheduledTwiceReturns<V>(w: World<V>, schedule: seq<nat>)
    ensures forall i :: 0 <= i < |w.callers| && Occurrences(schedule, i) >= 2 ==>
              i < |Run(w, schedule).callers| && Run(w, schedule).callers[i].phase.Done?
  {
    forall i | 0 <= i < |w.callers| && Occurrences(schedule, i) >= 2
      ensures i < |Run(w, schedule).callers| && Run(w, schedule).callers[i].phase.Done?
    {
      RunProgress(w, schedule, i);
    }
  }

  /**
    Many callers of `get_or_init` for one type on an empty registry, each
    scheduled at least twice in any order: every caller gets the same value,
    and the factory ran exactly once.
  */
  lemma SameKeyConverges<V>(key: TypeKey, callers: seq<Caller<V>>, schedule: seq<nat>)
    requires |callers| > 0 && AllStart(callers)
    requires forall i :: 0 <= i < |callers| ==> callers[i].key == key && callers[i].made.tag == key
    requires forall i :: 0 <= i < |callers| ==> Occurrences(schedule, i) >= 2
    ensures var w := Run(World(map[], callers), schedule);
            && RanCount(w.callers, key) == 1
            && key in w.entries
            && forall i :: 0 <= i < |w.callers| ==>
                 w.callers[i].phase.Done? && w.callers[i].phase.stored == w.entries[key]
  {
    var w := Run(World(map[], callers), schedule);
    ScheduledTwiceReturns(World(map[], callers), schedule);
    ExactlyOnce(map[], callers, schedule);
    InvInitial(map[], callers);
    RunPreservesInv(map[], callers, World(map[], callers), schedule);
    assert AllDone(w.callers);
    assert RanCount(w.callers, callers[0].key) == 1;
  }
}
