/** Edit-mode state: the per-user time-limited cache around the rule set being
    edited, and the registry that maps a user's key to it
    (src/core/global/index.ts). Time is an explicit integer `now`. */
module EditMode {
  import opened Types
  import opened Database

  /** Lease length of an edit session, in seconds. */
  const EditModeTTL: int := 600

  /** The expiring single-value cache. Its refresh callback (src/command/normal.ts)
      re-reads the record with id `recordId` from the store. */
  class Cache {
    const recordId: nat
    const ttl: int
    var value: RuleSet
    var expiresAt: int

    constructor (initial: RuleSet, ttl: int, recordId: nat, now: int)
      ensures value == initial && this.ttl == ttl && this.recordId == recordId
      ensures expiresAt == now + ttl
    {
      value := initial;
      this.ttl := ttl;
      this.recordId := recordId;
      expiresAt := now + ttl;
    }

    /** `cache.expired`. */
    predicate Expired(now: int)
      reads this
    {
      now >= expiresAt
    }

    /** What `Get(now, store)` yields, read from the state before the call. */
    function Peek(now: int, store: Store): Option<RuleSet>
      reads this, store
    {
      if Expired(now) then store.Lookup(recordId) else Some(value)
    }

    /** `cache.get()`: the cached value while the lease lasts; once it has run
        out, the value the refresh callback yields, which then replaces the
        cached one and starts a new lease. A refresh that finds no record
        changes nothing and yields None. */
    method Get(now: int, store: Store) returns (r: Option<RuleSet>)
      modifies this
      ensures r == old(Peek(now, store))
      ensures r.Some? ==> value == r.value
      ensures !old(Expired(now)) ==> value == old(value) && expiresAt == old(expiresAt)
      ensures old(Expired(now)) && r.Some? ==> expiresAt == now + ttl
      ensures r.None? ==> value == old(value) && expiresAt == old(expiresAt)
    {
      if Expired(now) {
        r := store.Find(recordId);
        if r.Some? {
          value := r.value;
          expiresAt := now + ttl;
        }
      } else {
        r := Some(value);
      }
    }

    /** `cache.update()`: start a new lease without touching the value. */
    method Update(now: int)
      modifies this
      ensures value == old(value) && expiresAt == now + ttl
      ensures !Expired(now) <==> ttl > 0
    {
      expiresAt := now + ttl;
    }

    /** `cache.markExpired()`: end the lease now. */
    method MarkExpired(now: int)
      modifies this
      ensures value == old(value)
      ensures forall later :: later >= now ==> Expired(later)
    {
      expiresAt := now;
    }
  }

  /** `EditModeMap`: user key to that user's edit cache. Expired entries stay
      until a new session overwrites them. */
  class Registry {
    var entries: map<string, Cache>

    /** `EditModeMap = {}`. */
    constructor ()
      ensures entries == map[]
    {
      entries := map[];
    }

    /** The cache a command from this user may touch: none for an unverified
        user or a user without an entry, and never one the registry does not hold. */
    function Slot(user: Option<string>): (r: set<Cache>)
      reads this
      ensures |r| <= 1
      ensures forall c :: c in r ==> c in entries.Values
      ensures user.None? ==> r == {}
    {
      if user.Some? && user.value in entries then {entries[user.value]} else {}
    }

    /** `cache && !cache.expired` for the user's entry: the user has a live
        edit session, whose cache is then the one a command may touch. */
    predicate Active(key: string, now: int): (r: bool)
      reads this, entries.Values
      ensures r ==> key in entries && Slot(Some(key)) == {entries[key]}
      ensures r ==> forall t :: t <= now ==> !entries[key].Expired(t)
    {
      key in entries && !entries[key].Expired(now)
    }
  }

  /** Once a lease has run out it stays run out, and a lease live at some
      instant was live at every earlier one. */
  lemma ExpiryIsPermanent(cache: Cache, now: int, later: int)
    requires now <= later
    ensures cache.Expired(now) ==> cache.Expired(later)
    ensures !cache.Expired(later) ==> !cache.Expired(now)
  {
  }
}
