/** Opening the identity database: any number of processes read its version, take
    the write lock if it is not current, and run the whole migration chain in one
    transaction. A file is its version and the tables it has. */
module Migration {
  import opened Wrappers
  import opened Identity

  const SCHEMA_VERSION := 3

  /** A column's absence is part of a table's shape. */
  datatype Column = Absent | Nullable | NotNull

  datatype Row = Row(principal: Id, organization: Option<Id>, created: Instant, expires: Option<Instant>)

  datatype TokenTable = TokenTable(rows: map<Hash, Row>, scoped: bool, expiry: Column)

  datatype File = File(
    version: int, users: Option<map<Id, string>>, tokens: Option<TokenTable>,
    organizations: Option<map<Id, string>>, memberships: Option<set<Membership>>)

  datatype Failure = StorageError | Integrity | Unsupported(found: int)

  datatype Outcome = Done(file: File) | Failed(failure: Failure)

  // -------------------------------------------------------------------- steps

  /** A token of a principal that is not a user. */
  predicate HasOrphan(users: map<Id, string>, tokens: map<Hash, Row>) {
    exists hash :: hash in tokens && tokens[hash].principal !in users
  }

  predicate Orphaned(f: File) {
    f.users.Some? && f.tokens.Some? && HasOrphan(f.users.value, f.tokens.value.rows)
  }

  /** The organization drawn for each principal. */
  predicate Draws(drawn: map<Id, Id>, users: map<Id, string>) {
    users.Keys <= drawn.Keys
  }

  predicate Distinct(drawn: map<Id, Id>, principals: set<Id>)
    requires principals <= drawn.Keys
  {
    forall p, q :: p in principals && q in principals && drawn[p] == drawn[q] ==> p == q
  }

  function PersonalMemberships(drawn: map<Id, Id>, principals: set<Id>): set<Membership>
    requires principals <= drawn.Keys
  {
    set p | p in principals :: Membership(drawn[p], p)
  }

  /** Rows as they are once these principals' tokens are scoped, expiry dropped. */
  function ScopedRows(tokens: map<Hash, Row>, drawn: map<Id, Id>, principals: set<Id>): map<Hash, Row>
    requires principals <= drawn.Keys
  {
    map hash | hash in tokens ::
      if tokens[hash].principal in principals
      then tokens[hash].(organization := Some(drawn[tokens[hash].principal])) else tokens[hash]
  }

  function WithoutExpiry(tokens: map<Hash, Row>): map<Hash, Row> {
    map hash | hash in tokens :: tokens[hash].(expires := None)
  }

  /** Each principal's personal organization, under its name. */
  ghost predicate Personal(
    organizations: map<Id, string>, drawn: map<Id, Id>, principals: set<Id>, users: map<Id, string>)
    requires principals <= drawn.Keys && principals <= users.Keys
  {
    && (forall p :: p in principals ==> drawn[p] in organizations && organizations[drawn[p]] == PersonalName(users[p]))
    && (forall o :: o in organizations ==> exists p :: p in principals && drawn[p] == o)
  }

  /** Whether the first step runs to its end. */
  predicate CanScope(f: File, drawn: map<Id, Id>) {
    && f.users.Some? && f.tokens.Some? && f.organizations.None? && f.memberships.None?
    && !f.tokens.value.scoped && !HasOrphan(f.users.value, f.tokens.value.rows)
    && Draws(drawn, f.users.value) && Distinct(drawn, f.users.value.Keys)
  }

  /** What the first step leaves: every principal in an organization of its own,
      its tokens scoped to it, and everything else about them as it was. */
  ghost predicate ScopesAll(f: File, g: File, drawn: map<Id, Id>)
    requires CanScope(f, drawn)
  {
    var users := f.users.value;
    && g.version == 2 && g.users == f.users
    && g.organizations.Some? && Personal(g.organizations.value, drawn, users.Keys, users)
    && g.memberships == Some(PersonalMemberships(drawn, users.Keys))
    && g.tokens == Some(TokenTable(
                          WithoutExpiry(ScopedRows(f.tokens.value.rows, drawn, users.Keys)), true, Absent))
  }

  /** Creates an organization for every principal and scopes its tokens to it. */
  method MigrateV1ToV2(f: File, drawn: map<Id, Id>) returns (r: Outcome)
    requires f.users.Some? ==> Draws(drawn, f.users.value)
    ensures r.Done? <==> CanScope(f, drawn)
    ensures r.Done? ==> ScopesAll(f, r.file, drawn)
    ensures r.Failed? ==> r.failure == if Orphaned(f) then Integrity else StorageError
  {
    if f.users.None? || f.tokens.None? {
      return Failed(StorageError);
    }
    var users, tokens := f.users.value, f.tokens.value.rows;
    if HasOrphan(users, tokens) {
      return Failed(Integrity);
    }
    if f.tokens.value.scoped || f.organizations.Some? || f.memberships.Some? {
      return Failed(StorageError);
    }
    var organizations: map<Id, string> := map[];
    var memberships: set<Membership> := {};
    var rows := tokens;
    var remaining := users.Keys;
    while remaining != {}
      invariant remaining <= users.Keys
      invariant Distinct(drawn, users.Keys - remaining)
      invariant Personal(organizations, drawn, users.Keys - remaining, users)
      invariant memberships == PersonalMemberships(drawn, users.Keys - remaining)
      invariant rows == ScopedRows(tokens, drawn, users.Keys - remaining)
      decreases |remaining|
    {
      var principal :| principal in remaining;
      ghost var scoped := users.Keys - remaining;
      assert users.Keys - (remaining - {principal}) == scoped + {principal};
      if drawn[principal] in organizations {
        return Failed(StorageError);
      }
      OneMorePersonal(organizations, drawn, scoped, users, principal);
      OneMoreScoped(tokens, drawn, scoped, principal);
      organizations := organizations[drawn[principal] := PersonalName(users[principal])];
      memberships := memberships + {Membership(drawn[principal], principal)};
      rows := ScopedRows(rows, drawn, {principal});
      remaining := remaining - {principal};
    }
    assert users.Keys - {} == users.Keys;
    r := Done(File(2, f.users, Some(TokenTable(WithoutExpiry(rows), true, Absent)),
                   Some(organizations), Some(memberships)));
  }

  lemma OneMorePersonal(
    organizations: map<Id, string>, drawn: map<Id, Id>, principals: set<Id>, users: map<Id, string>, p: Id)
    requires principals <= drawn.Keys && principals <= users.Keys
    requires Personal(organizations, drawn, principals, users) && Distinct(drawn, principals)
    requires p in users && p in drawn && p !in principals && drawn[p] !in organizations
    ensures Personal(organizations[drawn[p] := PersonalName(users[p])], drawn, principals + {p}, users)
    ensures Distinct(drawn, principals + {p})
    ensures PersonalMemberships(drawn, principals) + {Membership(drawn[p], p)} ==
            PersonalMemberships(drawn, principals + {p})
  {
    var more := organizations[drawn[p] := PersonalName(users[p])];
    forall o | o in more ensures exists q :: q in principals + {p} && drawn[q] == o {
      if o in organizations {
        var q :| q in principals && drawn[q] == o;
        assert q in principals + {p};
      } else {
        assert p in principals + {p};
      }
    }
  }

  lemma OneMoreScoped(tokens: map<Hash, Row>, drawn: map<Id, Id>, principals: set<Id>, p: Id)
    requires principals + {p} <= drawn.Keys && p !in principals
    ensures ScopedRows(ScopedRows(tokens, drawn, principals), drawn, {p}) == ScopedRows(tokens, drawn, principals + {p})
  {
  }

  /** Adds the expiry column, empty in every row. */
  function MigrateV2ToV3(f: File): Outcome {
    if f.tokens.None? || f.tokens.value.expiry != Absent then Failed(StorageError)
    else
      var t := f.tokens.value;
      Done(f.(version := 3, tokens := Some(TokenTable(WithoutExpiry(t.rows), t.scoped, Nullable))))
  }

  function Validate(f: File): Option<Failure> {
    if f.users.None? || f.organizations.None? || f.memberships.None? || f.tokens.None? || !f.tokens.value.scoped
       || f.tokens.value.expiry == Absent then Some(StorageError)
    else if f.tokens.value.expiry == NotNull then Some(Integrity)
    else None
  }

  function NewFile(): File {
    File(3, Some(map[]), Some(TokenTable(map[], true, Nullable)), Some(map[]), Some({}))
  }

  // -------------------------------------------------------------------- chain

  predicate Empty(f: File) {
    f.users.None? && f.tokens.None? && f.organizations.None? && f.memberships.None?
  }

  predicate LooksLegacy(f: File) {
    f.users.Some? && f.tokens.Some? && f.organizations.None? && f.memberships.None?
  }

  /** The chain as run under the write lock. */
  method RunChain(f: File, drawn: map<Id, Id>) returns (r: Outcome)
    requires f.users.Some? ==> Draws(drawn, f.users.value)
    ensures r.Done? <==> CanUpgrade(f, drawn)
    ensures r.Done? ==> Upgrades(f, r.file, drawn)
    ensures r.Failed? ==> r.failure == WhyNot(f)
  {
    if f.version == 0 {
      if Empty(f) {
        return Done(NewFile());
      }
      if !LooksLegacy(f) {
        return Failed(Integrity);
      }
    }
    if f.version == 0 || f.version == 1 {
      r := MigrateV1ToV2(f, drawn);
      if r.Done? {
        ScopedIsSound(f, r.file, drawn);
        r := MigrateV2ToV3(r.file);
      }
    } else if f.version == 2 {
      r := MigrateV2ToV3(f);
    } else if f.version == 3 {
      var failure := Validate(f);
      r := if failure.Some? then Failed(failure.value) else Done(f);
    } else {
      r := Failed(Unsupported(f.version));
    }
  }

  /** For every file: whether the chain commits... */
  predicate CanUpgrade(f: File, drawn: map<Id, Id>) {
    || (f.version == 0 && Empty(f))
    || ((f.version == 0 || f.version == 1) && CanScope(f, drawn))
    || (f.version == 2 && f.tokens.Some? && f.tokens.value.expiry == Absent)
    || (f.version == 3 && Validate(f).None?)
  }

  /** ... why it does not otherwise... */
  function WhyNot(f: File): Failure {
    if f.version == 0 && !Empty(f) && !LooksLegacy(f) then Integrity
    else if (f.version == 0 || f.version == 1) && Orphaned(f) then Integrity
    else if f.version == 3 && Validate(f).Some? then Validate(f).value
    else if f.version < 0 || f.version > 3 then Unsupported(f.version)
    else StorageError
  }

  /** ... and what it leaves. */
  ghost predicate Upgrades(f: File, g: File, drawn: map<Id, Id>)
    requires CanUpgrade(f, drawn)
  {
    if f.version == 3 then g == f
    else
      && g.version == 3
      && g.tokens.Some? && g.tokens.value.expiry == Nullable
      && (Empty(f) && f.version == 0 ==> g == NewFile())
      && (!Empty(f) && f.version < 2 ==> ScopesAll(f, Rewound(g), drawn))
      && (f.version == 2 ==>
            Rewound(g) == f.(tokens := Some(f.tokens.value.(rows := WithoutExpiry(f.tokens.value.rows)))))
  }

  /** A version 3 file without its expiry column. */
  function Rewound(g: File): File
    requires g.tokens.Some?
  {
    g.(version := 2, tokens := Some(g.tokens.value.(expiry := Absent)))
  }

  lemma ScopedIsSound(f: File, g: File, drawn: map<Id, Id>)
    requires CanScope(f, drawn) && ScopesAll(f, g, drawn)
    ensures WithoutExpiry(g.tokens.value.rows) == g.tokens.value.rows
  {
  }

  // ----------------------------------------------------------- what it means

  /** The tables as the store reads them. */
  predicate Complete(f: File) {
    && f.users.Some? && f.organizations.Some? && f.memberships.Some? && f.tokens.Some? && f.tokens.value.scoped
    && forall hash :: hash in f.tokens.value.rows ==> f.tokens.value.rows[hash].organization.Some?
  }

  function AsStored(f: File): Database
    requires Complete(f)
  {
    var rows := f.tokens.value.rows;
    Database(f.users.value, f.organizations.value, f.memberships.value,
             map hash | hash in rows ::
               TokenRow(rows[hash].principal, rows[hash].organization.value, rows[hash].created, rows[hash].expires))
  }

  /** A file some release of the store could have left. */
  ghost predicate Valid(f: File) {
    match f.version
    case 0 => Empty(f) || (LooksLegacy(f) && !f.tokens.value.scoped && !HasOrphan(f.users.value, f.tokens.value.rows))
    case 1 => LooksLegacy(f) && !f.tokens.value.scoped && !HasOrphan(f.users.value, f.tokens.value.rows)
    case 2 => Complete(f) && f.tokens.value.expiry == Absent && Inv(AsStored(f))
    case 3 => Complete(f) && f.tokens.value.expiry == Nullable && Inv(AsStored(f))
    case _ => false
  }

  /** A valid file upgrades to a valid version 3 file unless two drawn ids collide. */
  lemma ValidUpgrades(f: File, g: File, drawn: map<Id, Id>)
    requires Valid(f) && (f.users.Some? ==> Draws(drawn, f.users.value))
    ensures CanUpgrade(f, drawn) <==> (f.version < 2 && !Empty(f) ==> Distinct(drawn, f.users.value.Keys))
    ensures CanUpgrade(f, drawn) && Upgrades(f, g, drawn) ==> Valid(g) && g.version == 3
  {
    if CanUpgrade(f, drawn) && Upgrades(f, g, drawn) && f.version == 2 {
      forall hash | hash in AsStored(g).tokens ensures AsStored(g).tokens[hash].Scope() in AsStored(g).memberships {
        assert AsStored(f).tokens[hash].Scope() == AsStored(g).tokens[hash].Scope();
      }
    }
  }

  /** From legacy and version 1 every principal gains exactly one organization, of
      which it is the only member, under its own name. */
  lemma EachPrincipalGainsOne(f: File, g: File, drawn: map<Id, Id>, principal: Id)
    requires f.version < 2 && !Empty(f) && CanUpgrade(f, drawn) && Upgrades(f, g, drawn) && Complete(g)
    requires principal in f.users.value
    ensures MembershipsOf(AsStored(g), principal) == {Membership(drawn[principal], principal)}
    ensures drawn[principal] in g.organizations.value
    ensures g.organizations.value[drawn[principal]] == PersonalName(f.users.value[principal])
    ensures forall m :: m in g.memberships.value && m.organization == drawn[principal] ==> m.principal == principal
  {
    assert Membership(drawn[principal], principal) in g.memberships.value;
  }

  /** What a token of the old file names in the new one. */
  function ScopeIn(f: File, hash: Hash, drawn: map<Id, Id>): Option<Membership>
    requires f.tokens.Some? && hash in f.tokens.value.rows
  {
    var row := f.tokens.value.rows[hash];
    if f.version >= 2 then
      if row.organization.Some? then Some(Membership(row.organization.value, row.principal)) else None
    else if row.principal in drawn then Some(Membership(drawn[row.principal], row.principal))
    else None
  }

  /** Every token of a file before expiry keeps its hash, principal and creation
      instant, and resolves at every instant; there are no others. */
  lemma OldTokensResolve(f: File, g: File, drawn: map<Id, Id>, hash: Hash, now: Instant)
    requires Valid(f) && f.version < 3 && f.tokens.Some?
    requires CanUpgrade(f, drawn) && Upgrades(f, g, drawn) && Valid(g)
    ensures hash in g.tokens.value.rows <==> hash in f.tokens.value.rows
    ensures hash in f.tokens.value.rows ==>
              && g.tokens.value.rows[hash].principal == f.tokens.value.rows[hash].principal
              && g.tokens.value.rows[hash].created == f.tokens.value.rows[hash].created
              && ScopeIn(f, hash, drawn).Some?
              && Resolve(AsStored(g), hash, now) == Authenticated(ScopeIn(f, hash, drawn).value)
  {
  }

  /** The last step does not look at the other tables: a version 2 file is marked
      version 3 whatever they are, and validates only if they were all there. */
  lemma LastStepIsUnchecked(f: File, g: File, drawn: map<Id, Id>)
    requires f.version == 2 && CanUpgrade(f, drawn) && Upgrades(f, g, drawn)
    ensures Validate(g).None? <==>
            f.users.Some? && f.organizations.Some? && f.memberships.Some? && f.tokens.value.scoped
  {
  }

  /** Which tables there are, and their shape. */
  predicate SameShape(f: File, g: File) {
    && (f.users.Some? <==> g.users.Some?) && (f.organizations.Some? <==> g.organizations.Some?)
    && (f.memberships.Some? <==> g.memberships.Some?) && (f.tokens.Some? <==> g.tokens.Some?)
    && (f.tokens.Some? && g.tokens.Some? ==>
          f.tokens.value.scoped == g.tokens.value.scoped && f.tokens.value.expiry == g.tokens.value.expiry)
  }

  /** A current file validates exactly if it has the shape of one newly made; one whose
      expiry column differs only in forbidding null fails its integrity. */
  lemma ValidatesIffShaped(f: File)
    ensures Validate(f).None? <==> SameShape(f, NewFile())
    ensures Validate(f) == Some(Integrity) <==>
            f.tokens.Some? && f.tokens.value.expiry == NotNull &&
            SameShape(f.(tokens := Some(f.tokens.value.(expiry := Nullable))), NewFile())
  {
  }

  /** A token of the old tables whose principal is no user. */
  ghost predicate OrphanIn(f: File) {
    && f.users.Some? && f.tokens.Some?
    && exists hash :: hash in f.tokens.value.rows && f.tokens.value.rows[hash].principal !in f.users.value
  }

  /** The chain commits exactly for an empty file without a version, for the two legacy
      tables alone, without orphans and with drawn ids that differ, for a version 2 file
      whose tokens have no expiry column, and for a current file of the right shape. */
  lemma CommitsIff(f: File, drawn: map<Id, Id>)
    requires f.users.Some? ==> Draws(drawn, f.users.value)
    ensures f.version == 0 || f.version == 1 ==>
              (CanUpgrade(f, drawn) <==>
                 || (f.version == 0 && f.users.None? && f.tokens.None? && f.organizations.None? && f.memberships.None?)
                 || (&& f.users.Some? && f.tokens.Some? && f.organizations.None? && f.memberships.None?
                     && !f.tokens.value.scoped && !OrphanIn(f)
                     && forall p, q :: p in f.users.value && q in f.users.value && drawn[p] == drawn[q] ==> p == q))
    ensures f.version == 2 ==> (CanUpgrade(f, drawn) <==> f.tokens.Some? && f.tokens.value.expiry == Absent)
    ensures f.version == 3 ==> (CanUpgrade(f, drawn) <==> SameShape(f, NewFile()))
    ensures f.version < 0 || f.version > 3 ==> !CanUpgrade(f, drawn)
  {
  }

  /** Why it does not otherwise: a version unknown; tables that are neither none nor the
      legacy two, orphans, or an expiry column that forbids null; else storage. */
  lemma RefusalReasons(f: File, drawn: map<Id, Id>)
    requires (f.users.Some? ==> Draws(drawn, f.users.value)) && !CanUpgrade(f, drawn)
    ensures WhyNot(f) == Unsupported(f.version) <==> f.version < 0 || f.version > 3
    ensures WhyNot(f) == Integrity <==>
            || (&& f.version == 0
                && (f.users.Some? || f.tokens.Some? || f.organizations.Some? || f.memberships.Some?)
                && !(f.users.Some? && f.tokens.Some? && f.organizations.None? && f.memberships.None?))
            || ((f.version == 0 || f.version == 1) && OrphanIn(f))
            || (f.version == 3 && Validate(f) == Some(Integrity))
    ensures WhyNot(f) in {StorageError, Integrity, Unsupported(f.version)}
  {
  }

  // ------------------------------------------------------------------ openers

  /** Where an opener is: before its version check, past it, waiting for the write
      lock, holding it, or finished. */
  datatype Phase = Starting | Checked | Waiting | Writing | Opened | Rejected(failure: Failure)

  datatype State = State(file: File, openers: seq<Phase>, commits: nat)

  /** The steps of opener `i`. `Finish` runs the chain and commits it or, if it
      fails, rolls it back; `Abort` is the process or its disk failing anywhere in
      the transaction. */
  datatype Event =
    | Check(i: nat)
    | Look(i: nat)
    | Begin(i: nat)
    | Finish(i: nat, drawn: map<Id, Id>, left: File)
    | Abort(i: nat)

  predicate LockFree(s: State) {
    forall i :: 0 <= i < |s.openers| ==> !s.openers[i].Writing?
  }

  ghost predicate Enabled(s: State, e: Event) {
    && e.i < |s.openers|
    && match e
       case Check(i) => s.openers[i].Starting?
       case Look(i) => s.openers[i].Checked?
       case Begin(i) => s.openers[i].Waiting? && LockFree(s)
       case Finish(i, drawn, left) =>
         && s.openers[i].Writing? && (s.file.users.Some? ==> Draws(drawn, s.file.users.value))
         && (CanUpgrade(s.file, drawn) ==> Upgrades(s.file, left, drawn))
       case Abort(i) => s.openers[i].Writing?
  }

  ghost function Apply(s: State, e: Event): State
    requires Enabled(s, e)
  {
    match e
    case Check(i) =>
      s.(openers := s.openers[i := if s.file.version > SCHEMA_VERSION then Rejected(Unsupported(s.file.version))
                                   else Checked])
    case Look(i) =>
      s.(openers := s.openers[i := if s.file.version != SCHEMA_VERSION then Waiting
                                   else if Validate(s.file).Some? then Rejected(Validate(s.file).value) else Opened])
    case Begin(i) => s.(openers := s.openers[i := Writing])
    case Finish(i, drawn, left) =>
      if CanUpgrade(s.file, drawn)
      then State(left, s.openers[i := Opened], if left == s.file then s.commits else s.commits + 1)
      else s.(openers := s.openers[i := Rejected(WhyNot(s.file))])
    case Abort(i) => s.(openers := s.openers[i := Rejected(StorageError)])
  }

  ghost predicate Runs(s: State, events: seq<Event>)
    decreases events
  {
    events == [] || (Enabled(s, events[0]) && Runs(Apply(s, events[0]), events[1..]))
  }

  ghost function Run(s: State, events: seq<Event>): State
    requires Runs(s, events)
    decreases events
  {
    if events == [] then s else Run(Apply(s, events[0]), events[1..])
  }

  /** The file is the one found or the one upgrade of it; whoever is open sees a
      valid version 3 file, and nobody is refused but for a storage error. */
  ghost predicate Safe(start: File, s: State) {
    && Valid(s.file)
    && (s.commits == 0 ==> s.file == start)
    && (s.commits == 1 ==> start.version < 3 && IsUpgrade(start, s.file))
    && s.commits <= 1
    && (s.commits == 1 ==> s.file.version == 3)
    && (forall i :: 0 <= i < |s.openers| ==>
          && (s.openers[i].Opened? ==> s.file.version == 3)
          && (s.openers[i].Rejected? ==> s.openers[i].failure == StorageError))
    && (forall i, j :: 0 <= i < j < |s.openers| ==> !(s.openers[i].Writing? && s.openers[j].Writing?))
  }

  ghost predicate IsUpgrade(start: File, file: File) {
    exists drawn | CanUpgrade(start, drawn) :: Upgrades(start, file, drawn)
  }

  lemma StepKeepsSafe(start: File, s: State, e: Event)
    requires Safe(start, s) && Enabled(s, e)
    ensures Safe(start, Apply(s, e))
  {
    if e.Finish? {
      FinishKeepsSafe(start, s, e);
    }
  }

  lemma FinishKeepsSafe(start: File, s: State, e: Event)
    requires Safe(start, s) && Enabled(s, e) && e.Finish?
    ensures Safe(start, Apply(s, e))
  {
    if CanUpgrade(s.file, e.drawn) {
      ValidUpgrades(s.file, e.left, e.drawn);
      if s.file.version < 3 {
        assert s.commits == 0 && e.left != s.file;
        assert IsUpgrade(start, e.left);
      }
    }
  }

  lemma {:induction false} RunKeepsSafe(start: File, s: State, events: seq<Event>)
    requires Safe(start, s) && Runs(s, events)
    ensures Safe(start, Run(s, events))
    decreases events
  {
    if events != [] {
      StepKeepsSafe(start, s, events[0]);
      RunKeepsSafe(start, Apply(s, events[0]), events[1..]);
    }
  }

  /** From any valid file, with any number of racing openers: the chain is applied
      at most once and as a whole, and every opener that succeeds sees version 3. */
  lemma OpenersUpgradeOnce(start: File, n: nat, events: seq<Event>)
    requires Valid(start) && Runs(State(start, seq(n, _ => Starting), 0), events)
    ensures var s := Run(State(start, seq(n, _ => Starting), 0), events);
            && (s.file == start || (start.version < 3 && IsUpgrade(start, s.file)))
            && s.commits <= 1
            && (forall i :: 0 <= i < |s.openers| && s.openers[i].Opened? ==> Valid(s.file) && s.file.version == 3)
  {
    RunKeepsSafe(start, State(start, seq(n, _ => Starting), 0), events);
  }

  ghost predicate Untouched(start: File, s: State) {
    && s.file == start && s.commits == 0
    && forall i :: 0 <= i < |s.openers| ==>
         s.openers[i] == Starting || s.openers[i] == Rejected(Unsupported(start.version))
  }

  /** A newer file is refused before the lock is asked for, and left as it is. */
  lemma {:induction false} NewerIsRefused(start: File, s: State, events: seq<Event>)
    requires start.version > SCHEMA_VERSION && Untouched(start, s) && Runs(s, events)
    ensures Untouched(start, Run(s, events))
    decreases events
  {
    if events != [] {
      NewerIsRefused(start, Apply(s, events[0]), events[1..]);
    }
  }

  /** What is done with no aborted transaction and no colliding draw. */
  ghost predicate Undisturbed(s: State, events: seq<Event>)
    requires Runs(s, events)
    decreases events
  {
    events == [] ||
    (&& !events[0].Abort?
     && (events[0].Finish? && s.file.users.Some? ==> Distinct(events[0].drawn, s.file.users.value.Keys))
     && Undisturbed(Apply(s, events[0]), events[1..]))
  }

  ghost predicate NoneRejected(s: State) {
    forall i :: 0 <= i < |s.openers| ==> !s.openers[i].Rejected?
  }

  /** Racing alone refuses nobody. */
  lemma {:induction false} RacingRefusesNobody(start: File, s: State, events: seq<Event>)
    requires Safe(start, s) && NoneRejected(s) && Runs(s, events) && Undisturbed(s, events)
    ensures NoneRejected(Run(s, events))
    decreases events
  {
    if events != [] {
      var e := events[0];
      StepKeepsSafe(start, s, e);
      if e.Finish? {
        ValidUpgrades(s.file, e.left, e.drawn);
      }
      RacingRefusesNobody(start, Apply(s, e), events[1..]);
    }
  }
}
