/** Selector admission: one semaphore per organization, made on demand and dropped
    when idle, in front of one global semaphore sized by a memory budget. Every
    step below is one atomic action of one request's task. */
module SelectorAdmission {
  import opened Wrappers

  type Org = string
  type RequestId = nat
  type SemaphoreId = nat

  const USIZE_MAX: nat := 0xFFFF_FFFF_FFFF_FFFF

  // ------------------------------------------------------------------- limits

  datatype Limits = Limits(maxBodyBytes: nat, budgetBytes: nat, bytesPerSelector: nat, maxConcurrent: nat) {
    function DefaultMaxOrgSelections(): nat {
      if maxConcurrent / 2 == 0 then 1 else maxConcurrent / 2
    }
  }

  function NewLimits(maxBodyBytes: nat, budgetBytes: nat): (limits: Option<Limits>)
    requires 0 < maxBodyBytes <= USIZE_MAX && 0 < budgetBytes <= USIZE_MAX
    ensures limits.Some? <==> 2 * maxBodyBytes <= USIZE_MAX && 2 * maxBodyBytes <= budgetBytes
    ensures limits.Some? ==> limits.value.maxConcurrent >= 1
    ensures limits.Some? ==>
              var each, n := limits.value.bytesPerSelector, limits.value.maxConcurrent;
              each == 2 * maxBodyBytes && each * n <= budgetBytes < each * (n + 1)
  {
    var bytes := maxBodyBytes * 2;
    if bytes > USIZE_MAX || budgetBytes < bytes then None
    else Some(Limits(maxBodyBytes, budgetBytes, bytes, budgetBytes / bytes))
  }

  // -------------------------------------------------------------------- state

  /** Where a request's task is; each phase but the last owns what it names. A
      request without an identity passes no organization semaphore. */
  datatype Phase =
    | WaitingOrg(sem: SemaphoreId)
    | WaitingGlobal(org: Option<SemaphoreId>)
    | Holding(org: Option<SemaphoreId>)
    | Finished

  datatype State = State(
    limit: nat,
    capacity: nat,
    slots: map<Org, SemaphoreId>,
    permits: map<SemaphoreId, nat>,
    globalPermits: nat,
    orgOf: map<RequestId, Org>,
    requests: map<RequestId, Phase>)

  function Initial(limit: nat, capacity: nat): State {
    State(limit, capacity, map[], map[], capacity, map[], map[])
  }

  /** The task owns a reference to the semaphore... */
  predicate References(p: Phase, sem: SemaphoreId) {
    p == WaitingOrg(sem) || HoldsPermit(p, sem)
  }

  /** ... and the task holds one of its permits. */
  predicate HoldsPermit(p: Phase, sem: SemaphoreId) {
    p == WaitingGlobal(Some(sem)) || p == Holding(Some(sem))
  }

  function Holders(s: State, sem: SemaphoreId): set<RequestId> {
    set r | r in s.requests && HoldsPermit(s.requests[r], sem)
  }

  function GlobalHolders(s: State): set<RequestId> {
    set r | r in s.requests && s.requests[r].Holding?
  }

  /** The owners of a semaphore besides the map. */
  predicate IsReferenced(s: State, sem: SemaphoreId) {
    exists r :: r in s.requests && References(s.requests[r], sem)
  }

  /** Under the map's lock: the organization's semaphore, or a new one after
      dropping every entry that only the map owns. */
  function SlotFor(s: State, org: Org, newSem: SemaphoreId): State {
    if org in s.slots then s
    else
      var kept := map o | o in s.slots && IsReferenced(s, s.slots[o]) :: s.slots[o];
      s.(slots := kept[org := newSem], permits := s.permits[newSem := s.limit])
  }

  function ReleaseOrg(permits: map<SemaphoreId, nat>, org: Option<SemaphoreId>): map<SemaphoreId, nat> {
    match org
    case Some(sem) => if sem in permits then permits[sem := permits[sem] + 1] else permits
    case None => permits
  }

  datatype Event =
    | Begin(request: RequestId, org: Org, newSemaphore: SemaphoreId)
    | BeginAnonymous(request: RequestId)
    | TakeOrg(request: RequestId)
    | TakeGlobal(request: RequestId)
    | GiveUp(request: RequestId)

  /** A new request names an id of its own; a new semaphore is a new object. */
  predicate Enabled(s: State, e: Event) {
    match e
    case Begin(r, org, sem) => r !in s.requests && sem !in s.permits
    case BeginAnonymous(r) => r !in s.requests
    case TakeOrg(r) =>
      r in s.requests && s.requests[r].WaitingOrg? && s.requests[r].sem in s.permits && s.permits[s.requests[r].sem] > 0
    case TakeGlobal(r) => r in s.requests && s.requests[r].WaitingGlobal? && s.globalPermits > 0
    case GiveUp(r) => r in s.requests
  }

  /** `GiveUp` is a deadline, a cancellation, or the end of selection: whatever
      the task owns is dropped. */
  function Apply(s: State, e: Event): State
    requires Enabled(s, e)
  {
    match e
    case Begin(r, org, sem) =>
      var s' := SlotFor(s, org, sem);
      s'.(requests := s.requests[r := WaitingOrg(s'.slots[org])], orgOf := s.orgOf[r := org])
    case BeginAnonymous(r) => s.(requests := s.requests[r := WaitingGlobal(None)])
    case TakeOrg(r) =>
      var sem := s.requests[r].sem;
      s.(permits := s.permits[sem := s.permits[sem] - 1], requests := s.requests[r := WaitingGlobal(Some(sem))])
    case TakeGlobal(r) =>
      s.(globalPermits := s.globalPermits - 1, requests := s.requests[r := Holding(s.requests[r].org)])
    case GiveUp(r) =>
      var p := s.requests[r];
      s.(permits := if p.WaitingGlobal? || p.Holding? then ReleaseOrg(s.permits, p.org) else s.permits,
         globalPermits := if p.Holding? then s.globalPermits + 1 else s.globalPermits,
         requests := s.requests[r := Finished])
  }

  // ---------------------------------------------------------------- invariant

  /** A task that references a semaphore references its organization's entry. */
  ghost predicate OneSemaphorePerOrg(s: State) {
    && (forall o, p :: o in s.slots && p in s.slots && s.slots[o] == s.slots[p] ==> o == p)
    && (forall o :: o in s.slots ==> s.slots[o] in s.permits)
    && (forall r, sem :: r in s.requests && References(s.requests[r], sem) ==>
          r in s.orgOf && s.orgOf[r] in s.slots && s.slots[s.orgOf[r]] == sem)
  }

  ghost predicate PermitsConserved(s: State) {
    && (forall sem :: sem in s.permits ==> s.permits[sem] + |Holders(s, sem)| == s.limit)
    && s.globalPermits + |GlobalHolders(s)| == s.capacity
  }

  ghost predicate Inv(s: State) {
    OneSemaphorePerOrg(s) && PermitsConserved(s)
  }

  lemma OneSemaphoreKept(s: State, e: Event)
    requires OneSemaphorePerOrg(s) && Enabled(s, e)
    ensures OneSemaphorePerOrg(Apply(s, e))
  {
    var s' := Apply(s, e);
    forall r, sem | r in s'.requests && References(s'.requests[r], sem)
      ensures r in s'.orgOf && s'.orgOf[r] in s'.slots && s'.slots[s'.orgOf[r]] == sem
    {
      if r != e.request {
        assert References(s.requests[r], sem) && IsReferenced(s, sem);
      } else if !e.Begin? {
        assert References(s.requests[r], sem);
      }
    }
  }

  /** Changing one request's phase moves it in or out of a set of holders. */
  lemma HoldersAfter(s: State, s': State, r: RequestId, sem: SemaphoreId)
    requires forall q :: q != r ==> (q in s.requests <==> q in s'.requests)
    requires forall q :: q != r && q in s.requests ==> s.requests[q] == s'.requests[q]
    requires r in s'.requests
    ensures var before := r in s.requests && HoldsPermit(s.requests[r], sem);
            var after := HoldsPermit(s'.requests[r], sem);
            |Holders(s', sem)| == |Holders(s, sem)| + (if after then 1 else 0) - (if before then 1 else 0)
  {
    var others := Holders(s, sem) - {r};
    assert Holders(s, sem) == if r in Holders(s, sem) then others + {r} else others;
    assert Holders(s', sem) == if r in Holders(s', sem) then others + {r} else others;
  }

  lemma GlobalHoldersAfter(s: State, s': State, r: RequestId)
    requires forall q :: q != r ==> (q in s.requests <==> q in s'.requests)
    requires forall q :: q != r && q in s.requests ==> s.requests[q] == s'.requests[q]
    requires r in s'.requests
    ensures var before := r in s.requests && s.requests[r].Holding?;
            |GlobalHolders(s')| == |GlobalHolders(s)| + (if s'.requests[r].Holding? then 1 else 0)
                                   - (if before then 1 else 0)
  {
    var others := GlobalHolders(s) - {r};
    assert GlobalHolders(s) == if r in GlobalHolders(s) then others + {r} else others;
    assert GlobalHolders(s') == if r in GlobalHolders(s') then others + {r} else others;
  }

  lemma PermitsKept(s: State, e: Event)
    requires Inv(s) && Enabled(s, e)
    ensures PermitsConserved(Apply(s, e))
  {
    var s' := Apply(s, e);
    var r := e.request;
    GlobalHoldersAfter(s, s', r);
    forall sem | sem in s'.permits ensures s'.permits[sem] + |Holders(s', sem)| == s'.limit {
      HoldersAfter(s, s', r, sem);
      if sem !in s.permits {
        NobodyHoldsNew(s, sem);
      }
    }
  }

  lemma NobodyHoldsNew(s: State, sem: SemaphoreId)
    requires OneSemaphorePerOrg(s) && sem !in s.permits
    ensures Holders(s, sem) == {}
  {
    forall r | r in s.requests ensures !HoldsPermit(s.requests[r], sem) {
      assert HoldsPermit(s.requests[r], sem) ==> References(s.requests[r], sem);
    }
  }

  // --------------------------------------------------------------------- runs

  ghost predicate Reachable(s: State, limit: nat, capacity: nat, events: seq<Event>)
    decreases events
  {
    if events == [] then s == Initial(limit, capacity)
    else
      var last := |events| - 1;
      exists before :: Reachable(before, limit, capacity, events[..last]) && Enabled(before, events[last]) &&
                       s == Apply(before, events[last])
  }

  lemma {:induction false} ReachableInv(s: State, limit: nat, capacity: nat, events: seq<Event>)
    requires Reachable(s, limit, capacity, events)
    ensures Inv(s) && s.limit == limit && s.capacity == capacity
    decreases events
  {
    if events == [] {
      assert Holders(s, 0) == {} && GlobalHolders(s) == {};
    } else {
      var last := |events| - 1;
      var before :| Reachable(before, limit, capacity, events[..last]) && Enabled(before, events[last]) &&
                    s == Apply(before, events[last]);
      ReachableInv(before, limit, capacity, events[..last]);
      OneSemaphoreKept(before, events[last]);
      PermitsKept(before, events[last]);
    }
  }

  /** The requests of one organization that hold one of its permits. */
  ghost function OrgHolders(s: State, org: Org): set<RequestId> {
    set r | r in s.requests && r in s.orgOf && s.orgOf[r] == org && exists sem :: HoldsPermit(s.requests[r], sem)
  }

  /** In every reachable state each organization holds at most its limit, however
      often its semaphore was dropped and made again. */
  lemma OrgHoldsAtMostLimit(s: State, limit: nat, capacity: nat, events: seq<Event>, org: Org)
    requires Reachable(s, limit, capacity, events)
    ensures |OrgHolders(s, org)| <= limit
  {
    ReachableInv(s, limit, capacity, events);
    if org in s.slots {
      var sem := s.slots[org];
      forall r | r in OrgHolders(s, org) ensures r in Holders(s, sem) {
        var held :| HoldsPermit(s.requests[r], held);
        assert References(s.requests[r], held);
      }
      SubsetIsSmaller(OrgHolders(s, org), Holders(s, sem));
    } else {
      forall r | r in OrgHolders(s, org) ensures false {
        var held :| HoldsPermit(s.requests[r], held);
        assert References(s.requests[r], held);
      }
      assert OrgHolders(s, org) == {};
    }
  }

  lemma {:induction false} SubsetIsSmaller<T>(a: set<T>, b: set<T>)
    requires a <= b
    ensures |a| <= |b|
  {
    if x :| x in a {
      SubsetIsSmaller(a - {x}, b - {x});
    }
  }

  /** The bodies being read never reserve more than the memory budget. */
  lemma ReservedFitsBudget(s: State, limits: Limits, maxBody: nat, budget: nat, limit: nat, events: seq<Event>)
    requires 0 < maxBody <= USIZE_MAX && 0 < budget <= USIZE_MAX && NewLimits(maxBody, budget) == Some(limits)
    requires Reachable(s, limit, limits.maxConcurrent, events)
    ensures limits.bytesPerSelector * |GlobalHolders(s)| <= budget
  {
    ReachableInv(s, limit, limits.maxConcurrent, events);
    MulMonotone(limits.bytesPerSelector, |GlobalHolders(s)|, limits.maxConcurrent);
  }

  lemma MulMonotone(k: nat, a: nat, b: nat)
    requires a <= b
    ensures k * a <= k * b
  {
  }

  /** With the default limit and room for two, no organization holds more than
      half the global slots. */
  lemma DefaultLeavesHalf(s: State, limits: Limits, maxBody: nat, budget: nat, events: seq<Event>, org: Org)
    requires 0 < maxBody <= USIZE_MAX && 0 < budget <= USIZE_MAX && NewLimits(maxBody, budget) == Some(limits)
    requires limits.maxConcurrent >= 2
    requires Reachable(s, limits.DefaultMaxOrgSelections(), limits.maxConcurrent, events)
    ensures 2 * |OrgHolders(s, org) * GlobalHolders(s)| <= limits.maxConcurrent
  {
    OrgHoldsAtMostLimit(s, limits.DefaultMaxOrgSelections(), limits.maxConcurrent, events, org);
    SubsetIsSmaller(OrgHolders(s, org) * GlobalHolders(s), OrgHolders(s, org));
  }

  /** The default limit is half the slots, rounded down, but never none. */
  lemma DefaultIsHalf(limits: Limits)
    ensures var half := limits.DefaultMaxOrgSelections();
            && half >= 1
            && (limits.maxConcurrent >= 2 ==> 2 * half <= limits.maxConcurrent < 2 * (half + 1))
            && (limits.maxConcurrent < 2 ==> half == 1)
  {
  }

  /** A request with an identity waits for and holds a permit of its organization's; one
      without passes no organization semaphore. */
  ghost predicate PassTheirOrg(s: State) {
    && (forall r :: r in s.requests && r in s.orgOf ==>
          match s.requests[r]
          case WaitingGlobal(org) => org.Some?
          case Holding(org) => org.Some?
          case _ => true)
    && (forall r :: r in s.requests && r !in s.orgOf ==>
          match s.requests[r]
          case WaitingOrg(_) => false
          case WaitingGlobal(org) => org.None?
          case Holding(org) => org.None?
          case Finished => true)
    && (forall r :: r in s.orgOf ==> r in s.requests)
  }

  lemma PassTheirOrgKept(s: State, e: Event)
    requires PassTheirOrg(s) && Enabled(s, e)
    ensures PassTheirOrg(Apply(s, e))
  {
  }

  lemma {:induction false} AllPassTheirOrg(s: State, limit: nat, capacity: nat, events: seq<Event>)
    requires Reachable(s, limit, capacity, events)
    ensures PassTheirOrg(s)
    decreases events
  {
    if events != [] {
      var last := |events| - 1;
      var before :| Reachable(before, limit, capacity, events[..last]) && Enabled(before, events[last]) &&
                    s == Apply(before, events[last]);
      AllPassTheirOrg(before, limit, capacity, events[..last]);
      PassTheirOrgKept(before, events[last]);
    }
  }

  /** The organization's requests that hold a global slot. */
  ghost function Selecting(s: State, org: Org): set<RequestId> {
    set r | r in s.requests && r in s.orgOf && s.orgOf[r] == org && s.requests[r].Holding?
  }

  /** So of the requests that hold a global slot at most `limit` belong to any one
      organization. */
  lemma OrgSelectsAtMostLimit(s: State, limit: nat, capacity: nat, events: seq<Event>, org: Org)
    requires Reachable(s, limit, capacity, events)
    ensures |Selecting(s, org)| <= limit
  {
    AllPassTheirOrg(s, limit, capacity, events);
    OrgHoldsAtMostLimit(s, limit, capacity, events, org);
    forall r | r in Selecting(s, org) ensures r in OrgHolders(s, org) {
      assert HoldsPermit(s.requests[r], s.requests[r].org.value);
    }
    SubsetIsSmaller(Selecting(s, org), OrgHolders(s, org));
  }

  /** Some unfinished request waits for or holds a permit of this semaphore. */
  ghost predicate InUse(s: State, sem: SemaphoreId) {
    exists r :: r in s.requests && s.requests[r] in {WaitingOrg(sem), WaitingGlobal(Some(sem)), Holding(Some(sem))}
  }

  /** A new organization's first request drops exactly the idle entries and adds its own
      with all permits free; a known one's changes no entry. */
  lemma IdleEntriesGo(s: State, r: RequestId, org: Org, newSem: SemaphoreId)
    requires Enabled(s, Begin(r, org, newSem))
    ensures var after := Apply(s, Begin(r, org, newSem));
            && org in after.slots && after.requests[r] == WaitingOrg(after.slots[org])
            && (org in s.slots ==> after.slots == s.slots && after.permits == s.permits)
            && (org !in s.slots ==>
                  && after.slots[org] == newSem && after.permits == s.permits[newSem := s.limit]
                  && (forall o :: o != org ==> (o in after.slots <==> o in s.slots && InUse(s, s.slots[o])))
                  && (forall o :: o != org && o in after.slots ==> after.slots[o] == s.slots[o]))
  {
    if org !in s.slots {
      forall o | o in s.slots ensures IsReferenced(s, s.slots[o]) <==> InUse(s, s.slots[o]) {
        if r :| r in s.requests && References(s.requests[r], s.slots[o]) {
        }
      }
    }
  }

  // -------------------------------------------------------------- the objects

  /** The semaphore map and the semaphores, changed one atomic step at a time. */
  class OrgSelectionAdmission {
    const limit: nat
    const capacity: nat
    var slots: map<Org, SemaphoreId>
    var permits: map<SemaphoreId, nat>
    var globalPermits: nat
    var orgOf: map<RequestId, Org>
    var requests: map<RequestId, Phase>

    constructor (limit: nat, capacity: nat)
      ensures Now() == Initial(limit, capacity)
    {
      this.limit, this.capacity, globalPermits := limit, capacity, capacity;
      slots, permits, orgOf, requests := map[], map[], map[], map[];
    }

    function Now(): State
      reads this
    {
      State(limit, capacity, slots, permits, globalPermits, orgOf, requests)
    }

    method Slot(org: Org, newSem: SemaphoreId) returns (slot: SemaphoreId)
      modifies this
      ensures Now() == SlotFor(old(Now()), org, newSem)
      ensures org in slots && slot == slots[org]
    {
      if org in slots {
        return slots[org];
      }
      slots := map o | o in slots && IsReferenced(Now(), slots[o]) :: slots[o];
      permits := permits[newSem := limit];
      slots := slots[org := newSem];
      slot := newSem;
    }

    method BeginSelection(r: RequestId, org: Org, newSem: SemaphoreId)
      requires Enabled(Now(), Begin(r, org, newSem))
      modifies this
      ensures Now() == Apply(old(Now()), Begin(r, org, newSem))
    {
      var slot := Slot(org, newSem);
      requests, orgOf := requests[r := WaitingOrg(slot)], orgOf[r := org];
    }

    method AcquireOrg(r: RequestId) returns (taken: bool)
      requires r in requests && requests[r].WaitingOrg? && requests[r].sem in permits
      modifies this
      ensures taken <==> Enabled(old(Now()), TakeOrg(r))
      ensures Now() == if taken then Apply(old(Now()), TakeOrg(r)) else old(Now())
    {
      var sem := requests[r].sem;
      taken := permits[sem] > 0;
      if taken {
        permits := permits[sem := permits[sem] - 1];
        requests := requests[r := WaitingGlobal(Some(sem))];
      }
    }

    method AcquireGlobal(r: RequestId) returns (taken: bool)
      requires r in requests && requests[r].WaitingGlobal?
      modifies this
      ensures taken <==> Enabled(old(Now()), TakeGlobal(r))
      ensures Now() == if taken then Apply(old(Now()), TakeGlobal(r)) else old(Now())
    {
      taken := globalPermits > 0;
      if taken {
        globalPermits := globalPermits - 1;
        requests := requests[r := Holding(requests[r].org)];
      }
    }

    method Drop(r: RequestId)
      requires r in requests
      modifies this
      ensures Now() == Apply(old(Now()), GiveUp(r))
    {
      var p := requests[r];
      if p.Holding? {
        globalPermits := globalPermits + 1;
      }
      if (p.Holding? || p.WaitingGlobal?) && p.org.Some? && p.org.value in permits {
        permits := permits[p.org.value := permits[p.org.value] + 1];
      }
      requests := requests[r := Finished];
    }
  }
}
