/** The driver's registry of per-collection locks. Each `*sync.Mutex` the
    registry allocates is modelled by a fresh number; locking itself is not
    modelled. */
module Locks {

  type LockId = nat

  /** `next` is the identity the next allocated lock receives. */
  datatype Registry = Registry(locks: map<string, LockId>, next: LockId)

  datatype Acquired = Acquired(registry: Registry, lock: LockId)

  /** Every lock was allocated by this registry, and no two collections share one. */
  ghost predicate Valid(reg: Registry)
  {
    && (forall c :: c in reg.locks ==> reg.locks[c] < reg.next)
    && (forall c, d :: c in reg.locks && d in reg.locks && c != d ==> reg.locks[c] != reg.locks[d])
  }

  /** `make(map[string]*sync.Mutex)` in New. */
  function Empty(): (reg: Registry)
    ensures Valid(reg) && |reg.locks| == 0
  {
    Registry(map[], 0)
  }

  /** getOrCreateMutex: the collection's lock, allocated on first use. */
  function GetOrCreate(reg: Registry, collection: string): (a: Acquired)
    ensures collection in a.registry.locks && a.registry.locks[collection] == a.lock
    ensures a.registry.locks.Keys == reg.locks.Keys + {collection}
    ensures forall c :: c in reg.locks ==> a.registry.locks[c] == reg.locks[c]
    ensures collection in reg.locks ==> a.registry == reg
    ensures |a.registry.locks| == |reg.locks| + (if collection in reg.locks then 0 else 1)
    ensures Valid(reg) ==> Valid(a.registry)
    ensures Valid(reg) && collection !in reg.locks ==> forall c :: c in reg.locks ==> reg.locks[c] != a.lock
  {
    if collection in reg.locks then Acquired(reg, reg.locks[collection])
    else
      var locks := reg.locks[collection := reg.next];
      assert locks.Keys == reg.locks.Keys + {collection};
      Acquired(Registry(locks, reg.next + 1), reg.next)
  }

  /** Asking again for the same collection hands back the same lock and leaves
      the registry as it is. */
  lemma GetOrCreateIdempotent(reg: Registry, collection: string)
    ensures var a := GetOrCreate(reg, collection);
            GetOrCreate(a.registry, collection) == a
  {
  }

  /** The registry never forgets a lock: whatever a collection was given
      earlier it is still given after any further requests. */
  lemma {:induction false} GetOrCreateStable(reg: Registry, requests: seq<string>, collection: string)
    requires collection in reg.locks
    ensures var r := Replay(reg, requests);
            collection in r.locks && r.locks[collection] == reg.locks[collection]
    decreases |requests|
  {
    if |requests| > 0 {
      GetOrCreateStable(GetOrCreate(reg, requests[0]).registry, requests[1..], collection);
    }
  }

  /** The registry after a sequence of getOrCreateMutex calls. */
  function Replay(reg: Registry, requests: seq<string>): (r: Registry)
    ensures Valid(reg) ==> Valid(r)
    ensures forall c :: c in r.locks <==> c in reg.locks || c in requests
    decreases |requests|
  {
    if |requests| == 0 then reg
    else
      assert forall c :: c in requests <==> c == requests[0] || c in requests[1..];
      Replay(GetOrCreate(reg, requests[0]).registry, requests[1..])
  }
}
