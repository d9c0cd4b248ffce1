/** The identity store. Every operation is one write transaction over four tables,
    so a run of any number of handles is a sequence of them. Tokens appear by
    their hashes; random ids and hashes and the instants read from the clock are
    parameters. */
module Identity {
  import opened Wrappers

  type Id = string
  type Hash = string

  const I64_MAX: int := 0x7FFF_FFFF_FFFF_FFFF
  const I64_MIN: int := -0x8000_0000_0000_0000

  predicate FitsI64(x: int) {
    I64_MIN <= x <= I64_MAX
  }

  type Instant = x: int | FitsI64(x) witness 0

  function Saturated(x: int): Instant {
    if x < I64_MIN then I64_MIN else if x > I64_MAX then I64_MAX else x
  }

  datatype Lifetime = Never | Until(instant: Instant) {
    function ExpiresAt(): Option<Instant> {
      if Never? then None else Some(instant)
    }
  }

  datatype RotationLifetime = Preserved | Replaced(lifetime: Lifetime)

  datatype TokenRow = TokenRow(principal: Id, organization: Id, created: Instant, expires: Option<Instant>) {
    function Scope(): Membership {
      Membership(organization, principal)
    }

    /** The expiry instant itself is already too late. */
    predicate ExpiredAt(now: Instant) {
      expires.Some? && now >= expires.value
    }

    /** The span the token was issued with, not what is left of it, from `now`. */
    function IssuedLifetime(now: Instant): Lifetime {
      if expires.None? then Never else Until(Saturated(now + Saturated(expires.value - created)))
    }
  }

  datatype Membership = Membership(organization: Id, principal: Id)

  datatype Database = Database(
    users: map<Id, string>, organizations: map<Id, string>,
    memberships: set<Membership>, tokens: map<Hash, TokenRow>)

  const EMPTY := Database(map[], map[], {}, map[])

  datatype Error =
    | InvalidToken
    | ExpiredToken
    | UnknownPrincipal
    | UnknownOrganization
    | NoOrganizationMembership
    | AmbiguousOrganization
    | NotOrganizationMember
    | Storage

  datatype Transaction = Committed(db: Database) | RolledBack(error: Error)

  function Settled(db: Database, t: Transaction): Database {
    if t.Committed? then t.db else db
  }

  // --------------------------------------------------------------- operations

  function PersonalName(name: string): string {
    "Personal organization for " + name
  }

  /** Primary keys are unique: inserting one that exists is a storage error. */
  function InsertMember(db: Database, name: string, m: Membership): Transaction {
    if m.principal in db.users || m in db.memberships then RolledBack(Storage)
    else Committed(db.(users := db.users[m.principal := name], memberships := db.memberships + {m}))
  }

  function CreateUser(db: Database, name: string, principal: Id, organization: Id): Transaction {
    if organization in db.organizations then RolledBack(Storage)
    else InsertMember(db.(organizations := db.organizations[organization := PersonalName(name)]),
                      name, Membership(organization, principal))
  }

  function CreateOrganization(db: Database, name: string, organization: Id): Transaction {
    if organization in db.organizations then RolledBack(Storage)
    else Committed(db.(organizations := db.organizations[organization := name]))
  }

  function CreateUserIn(db: Database, name: string, principal: Id, organization: Id): Transaction {
    if organization !in db.organizations then RolledBack(UnknownOrganization)
    else InsertMember(db, name, Membership(organization, principal))
  }

  function AddMember(db: Database, m: Membership): Transaction {
    if m.organization !in db.organizations then RolledBack(UnknownOrganization)
    else if m.principal !in db.users then RolledBack(UnknownPrincipal)
    else Committed(db.(memberships := db.memberships + {m}))
  }

  /** Deleting a membership deletes the tokens scoped to it. */
  function RemoveMember(db: Database, m: Membership): Transaction {
    if m.principal !in db.users then RolledBack(UnknownPrincipal)
    else if m.organization !in db.organizations then RolledBack(UnknownOrganization)
    else if m !in db.memberships then RolledBack(NotOrganizationMember)
    else Committed(db.(memberships := db.memberships - {m}, tokens := Unscoped(db.tokens, m)))
  }

  function Unscoped(tokens: map<Hash, TokenRow>, m: Membership): map<Hash, TokenRow> {
    map hash | hash in tokens && tokens[hash].Scope() != m :: tokens[hash]
  }

  function IssueScoped(db: Database, m: Membership, lifetime: Lifetime, hash: Hash, now: Instant): Transaction {
    if m.principal !in db.users then RolledBack(UnknownPrincipal)
    else if m.organization !in db.organizations then RolledBack(UnknownOrganization)
    else if m !in db.memberships then RolledBack(NotOrganizationMember)
    else if hash in db.tokens then RolledBack(Storage)
    else Committed(db.(tokens := db.tokens[hash := TokenRow(m.principal, m.organization, now, lifetime.ExpiresAt())]))
  }

  function MembershipsOf(db: Database, principal: Id): set<Membership> {
    set m | m in db.memberships && m.principal == principal
  }

  /** Without an organization, the principal must have exactly one. */
  ghost function Issue(db: Database, principal: Id, lifetime: Lifetime, hash: Hash, now: Instant): Transaction {
    var own := MembershipsOf(db, principal);
    if |own| == 1 then
      var m :| m in own;
      IssueScoped(db, m, lifetime, hash, now)
    else if own == {} then
      RolledBack(if principal in db.users then NoOrganizationMembership else UnknownPrincipal)
    else RolledBack(AmbiguousOrganization)
  }

  /** A token row whose membership is intact; says nothing about expiry. */
  function Lookup(db: Database, hash: Hash): Option<TokenRow> {
    if hash in db.tokens && db.tokens[hash].Scope() in db.memberships then Some(db.tokens[hash]) else None
  }

  /** What a rotation is given: a fresh secret's hash, and what its three reads of
      the clock return. */
  datatype Renewal = Renewal(hash: Hash, checkedAt: Instant, spanFrom: Instant, createdAt: Instant)

  function Granted(lifetime: RotationLifetime, row: TokenRow, now: Instant): Lifetime {
    if lifetime.Preserved? then row.IssuedLifetime(now) else lifetime.lifetime
  }

  function Rotate(db: Database, hash: Hash, lifetime: RotationLifetime, r: Renewal): Transaction {
    match Lookup(db, hash)
    case None => RolledBack(InvalidToken)
    case Some(row) =>
      if row.ExpiredAt(r.checkedAt) then RolledBack(ExpiredToken)
      else
        var issued := IssueScoped(db, row.Scope(), Granted(lifetime, row, r.spanFrom), r.hash, r.createdAt);
        if issued.RolledBack? then issued
        else if hash !in issued.db.tokens then RolledBack(Storage)
        else Committed(issued.db.(tokens := issued.db.tokens - {hash}))
  }

  function Revoke(db: Database, hash: Hash): Transaction {
    Committed(db.(tokens := db.tokens - {hash}))
  }

  datatype Context = Authenticated(scope: Membership) | Refused(error: Error)

  function Resolve(db: Database, hash: Hash, now: Instant): Context {
    match Lookup(db, hash)
    case None => Refused(InvalidToken)
    case Some(row) => if row.ExpiredAt(now) then Refused(ExpiredToken) else Authenticated(row.Scope())
  }

  // ------------------------------------------------------------------ the store

  class IdentityStore {
    var db: Database

    constructor ()
      ensures db == EMPTY
    {
      db := EMPTY;
    }

    method Create(name: string, principal: Id, organization: Id) returns (error: Option<Error>)
      modifies this
      ensures db == Settled(old(db), CreateUser(old(db), name, principal, organization))
      ensures error == ErrorOf(CreateUser(old(db), name, principal, organization))
    {
      if principal in db.users || organization in db.organizations {
        return Some(Storage);
      }
      var transaction := db.(users := db.users[principal := name]);
      transaction := transaction.(organizations := transaction.organizations[organization := PersonalName(name)]);
      var m := Membership(organization, principal);
      if m in transaction.memberships {
        return Some(Storage);
      }
      db := transaction.(memberships := transaction.memberships + {m});
      error := None;
    }

    method Remove(m: Membership) returns (error: Option<Error>)
      modifies this
      ensures db == Settled(old(db), RemoveMember(old(db), m))
      ensures error == ErrorOf(RemoveMember(old(db), m))
    {
      if m.principal !in db.users {
        return Some(UnknownPrincipal);
      }
      if m.organization !in db.organizations {
        return Some(UnknownOrganization);
      }
      if m !in db.memberships {
        return Some(NotOrganizationMember);
      }
      db := db.(memberships := db.memberships - {m}, tokens := Unscoped(db.tokens, m));
      error := None;
    }

    method IssueToken(principal: Id, lifetime: Lifetime, hash: Hash, now: Instant) returns (error: Option<Error>)
      modifies this
      ensures db == Settled(old(db), Issue(old(db), principal, lifetime, hash, now))
      ensures error == ErrorOf(Issue(old(db), principal, lifetime, hash, now))
    {
      var own := MembershipsOf(db, principal);
      if own == {} {
        return Some(if principal in db.users then NoOrganizationMembership else UnknownPrincipal);
      }
      var m :| m in own;
      if own != {m} {
        NotAlone(own, m);
        return Some(AmbiguousOrganization);
      }
      error := IssueTokenForOrganization(m, lifetime, hash, now);
    }

    method IssueTokenForOrganization(m: Membership, lifetime: Lifetime, hash: Hash, now: Instant)
      returns (error: Option<Error>)
      modifies this
      ensures db == Settled(old(db), IssueScoped(old(db), m, lifetime, hash, now))
      ensures error == ErrorOf(IssueScoped(old(db), m, lifetime, hash, now))
    {
      if m.principal !in db.users {
        return Some(UnknownPrincipal);
      }
      if m.organization !in db.organizations {
        return Some(UnknownOrganization);
      }
      if m !in db.memberships {
        return Some(NotOrganizationMember);
      }
      if hash in db.tokens {
        return Some(Storage);
      }
      db := db.(tokens := db.tokens[hash := TokenRow(m.principal, m.organization, now, lifetime.ExpiresAt())]);
      error := None;
    }

    method RotateToken(hash: Hash, lifetime: RotationLifetime, r: Renewal) returns (error: Option<Error>)
      modifies this
      ensures db == Settled(old(db), Rotate(old(db), hash, lifetime, r))
      ensures error == ErrorOf(Rotate(old(db), hash, lifetime, r))
    {
      var before := db;
      var credential := Lookup(db, hash);
      if credential.None? {
        return Some(InvalidToken);
      }
      var row := credential.value;
      if row.ExpiredAt(r.checkedAt) {
        return Some(ExpiredToken);
      }
      var granted := if lifetime.Replaced? then lifetime.lifetime else row.IssuedLifetime(r.spanFrom);
      error := IssueTokenForOrganization(row.Scope(), granted, r.hash, r.createdAt);
      if error.Some? {
        return;
      }
      var retired := if hash in db.tokens then 1 else 0;
      if retired != 1 {
        db := before;
        return Some(Storage);
      }
      db := db.(tokens := db.tokens - {hash});
    }
  }

  function ErrorOf(t: Transaction): Option<Error> {
    if t.Committed? then None else Some(t.error)
  }

  lemma NotAlone<T>(s: set<T>, x: T)
    requires x in s && s != {x}
    ensures |s| != 1
  {
    var y :| y in s && y != x;
    assert |s - {x} - {y}| == |s| - 2;
  }

  // -------------------------------------------------------------------- runs

  datatype Op =
    | CreatingUser(name: string, principal: Id, organization: Id)
    | CreatingOrganization(name: string, organization: Id)
    | CreatingUserIn(name: string, principal: Id, organization: Id)
    | Adding(scope: Membership)
    | Removing(scope: Membership)
    | Issuing(principal: Id, lifetime: Lifetime, drawn: Hash, now: Instant)
    | IssuingFor(scope: Membership, lifetime: Lifetime, drawn: Hash, now: Instant)
    | Rotating(hash: Hash, renewed: RotationLifetime, renewal: Renewal)
    | Revoking(hash: Hash)

  ghost function Perform(db: Database, op: Op): Transaction {
    match op
    case CreatingUser(name, principal, organization) => CreateUser(db, name, principal, organization)
    case CreatingOrganization(name, organization) => CreateOrganization(db, name, organization)
    case CreatingUserIn(name, principal, organization) => CreateUserIn(db, name, principal, organization)
    case Adding(m) => AddMember(db, m)
    case Removing(m) => RemoveMember(db, m)
    case Issuing(principal, lifetime, hash, now) => Issue(db, principal, lifetime, hash, now)
    case IssuingFor(m, lifetime, hash, now) => IssueScoped(db, m, lifetime, hash, now)
    case Rotating(hash, lifetime, r) => Rotate(db, hash, lifetime, r)
    case Revoking(hash) => Revoke(db, hash)
  }

  /** The table after every operation, failed ones included. */
  ghost function Run(db: Database, ops: seq<Op>): Database
    decreases ops
  {
    if ops == [] then db else Run(Settled(db, Perform(db, ops[0])), ops[1..])
  }

  /** Foreign keys: tokens are scoped to memberships, memberships relate users and
      organizations that exist. */
  ghost predicate Inv(db: Database) {
    && (forall hash :: hash in db.tokens ==> db.tokens[hash].Scope() in db.memberships)
    && (forall m :: m in db.memberships ==> m.principal in db.users && m.organization in db.organizations)
  }

  lemma StepKeepsScopes(db: Database, op: Op)
    requires Inv(db)
    ensures Inv(Settled(db, Perform(db, op)))
  {
  }

  /** Every reachable state keeps token scopes inside memberships and memberships
      inside users and organizations. */
  lemma {:induction false} RunKeepsScopes(db: Database, ops: seq<Op>)
    requires Inv(db)
    ensures Inv(Run(db, ops))
    decreases ops
  {
    if ops != [] {
      StepKeepsScopes(db, ops[0]);
      RunKeepsScopes(Settled(db, Perform(db, ops[0])), ops[1..]);
    }
  }

  /** Issuing without an organization is refused as unknown, as belonging nowhere
      or as ambiguous exactly when the principal is not a user, has no membership
      or has two; otherwise only a secret drawn before can be in the way. */
  lemma IssueOutcome(db: Database, principal: Id, lifetime: Lifetime, hash: Hash, now: Instant)
    requires Inv(db)
    ensures var t := Issue(db, principal, lifetime, hash, now);
            && (t == RolledBack(UnknownPrincipal) <==> principal !in db.users)
            && (t == RolledBack(NoOrganizationMembership) <==>
                  principal in db.users && forall m :: m in db.memberships ==> m.principal != principal)
            && (t == RolledBack(AmbiguousOrganization) <==>
                  exists m, n :: m in db.memberships && n in db.memberships &&
                    m.principal == n.principal == principal && m != n)
            && (t == RolledBack(Storage) ==> hash in db.tokens)
            && (t.Committed? || t.error in {UnknownPrincipal, NoOrganizationMembership, AmbiguousOrganization, Storage})
  {
    var own := MembershipsOf(db, principal);
    forall m ensures m in own <==> m in db.memberships && m.principal == principal {
    }
    if m :| m in own {
      assert m in db.memberships;
      if n :| n in own && n != m {
        NotAlone(own, m);
        assert n in db.memberships;
      } else {
        assert own == {m};
        assert Issue(db, principal, lifetime, hash, now) == IssueScoped(db, m, lifetime, hash, now);
      }
    } else {
      assert own == {};
    }
  }

  // ---------------------------------------------------------------- rotation

  ghost predicate Viable(db: Database, hash: Hash, r: Renewal) {
    hash in db.tokens && !db.tokens[hash].ExpiredAt(r.checkedAt) && r.hash !in db.tokens
  }

  /** When the store is sound a rotation fails for three reasons only. */
  lemma RotationOutcome(db: Database, hash: Hash, lifetime: RotationLifetime, r: Renewal)
    requires Inv(db)
    ensures Rotate(db, hash, lifetime, r).Committed? <==> Viable(db, hash, r)
    ensures Rotate(db, hash, lifetime, r) == RolledBack(InvalidToken) <==> hash !in db.tokens
    ensures Rotate(db, hash, lifetime, r) == RolledBack(ExpiredToken) <==>
              hash in db.tokens && db.tokens[hash].ExpiredAt(r.checkedAt)
  {
  }

  /** A rotation swaps one row: the presented token's for one with its scope. */
  lemma RotationSwapsOneRow(db: Database, hash: Hash, lifetime: RotationLifetime, r: Renewal)
    requires Rotate(db, hash, lifetime, r).Committed?
    ensures var after := Rotate(db, hash, lifetime, r).db;
            && hash in db.tokens && hash !in after.tokens
            && r.hash !in db.tokens && r.hash in after.tokens
            && after.tokens[r.hash].Scope() == db.tokens[hash].Scope()
            && after.tokens[r.hash].created == r.createdAt
            && after.tokens - {r.hash} == db.tokens - {hash}
            && |after.tokens| == |db.tokens|
            && after.(tokens := db.tokens) == db
  {
    var after := Rotate(db, hash, lifetime, r).db;
    assert after.tokens - {r.hash} == db.tokens - {hash};
    Without(after.tokens, r.hash);
    Without(db.tokens, hash);
  }

  lemma Without(tokens: map<Hash, TokenRow>, hash: Hash)
    requires hash in tokens
    ensures |tokens - {hash}| == |tokens| - 1
  {
    assert (tokens - {hash}).Keys == tokens.Keys - {hash};
  }

  predicate RotationOf(op: Op, hash: Hash) {
    op.Rotating? && op.hash == hash
  }

  /** A secret drawn at random is never one that was issued before. */
  predicate Draws(op: Op, hash: Hash) {
    match op
    case Issuing(_, _, drawn, _) => drawn == hash
    case IssuingFor(_, _, drawn, _) => drawn == hash
    case Rotating(_, _, r) => r.hash == hash
    case _ => false
  }

  ghost function Winners(db: Database, ops: seq<Op>, hash: Hash): nat
    decreases ops
  {
    if ops == [] then 0
    else
      var t := Perform(db, ops[0]);
      (if RotationOf(ops[0], hash) && t.Committed? then 1 else 0) + Winners(Settled(db, t), ops[1..], hash)
  }

  lemma GoneStaysGone(db: Database, op: Op, hash: Hash)
    requires hash !in db.tokens && !Draws(op, hash)
    ensures hash !in Settled(db, Perform(db, op)).tokens
    ensures RotationOf(op, hash) ==> Perform(db, op) == RolledBack(InvalidToken)
  {
  }

  lemma {:induction false} NoWinnerOnceGone(db: Database, ops: seq<Op>, hash: Hash)
    requires hash !in db.tokens && forall i :: 0 <= i < |ops| ==> !Draws(ops[i], hash)
    ensures Winners(db, ops, hash) == 0 && hash !in Run(db, ops).tokens
    decreases ops
  {
    if ops != [] {
      GoneStaysGone(db, ops[0], hash);
      NoWinnerOnceGone(Settled(db, Perform(db, ops[0])), ops[1..], hash);
    }
  }

  /** Whatever else happens in between, one token is rotated at most once, and is
      gone afterwards. */
  lemma {:induction false} AtMostOneWinner(db: Database, ops: seq<Op>, hash: Hash)
    requires forall i :: 0 <= i < |ops| ==> !Draws(ops[i], hash)
    ensures Winners(db, ops, hash) <= 1
    ensures Winners(db, ops, hash) == 1 ==> hash !in Run(db, ops).tokens
    decreases ops
  {
    if ops != [] {
      var after := Settled(db, Perform(db, ops[0]));
      if RotationOf(ops[0], hash) && Perform(db, ops[0]).Committed? {
        RotationSwapsOneRow(db, hash, ops[0].renewed, ops[0].renewal);
        NoWinnerOnceGone(after, ops[1..], hash);
      } else {
        AtMostOneWinner(after, ops[1..], hash);
      }
    }
  }

  ghost predicate RaceFor(hash: Hash, ops: seq<Op>) {
    forall i :: 0 <= i < |ops| ==> RotationOf(ops[i], hash) && !Draws(ops[i], hash)
  }

  ghost predicate SomeViable(db: Database, hash: Hash, ops: seq<Op>)
    requires RaceFor(hash, ops)
  {
    exists i | 0 <= i < |ops| :: Viable(db, hash, ops[i].renewal)
  }

  /** Of racing rotations of one token exactly one wins, if any could have. */
  lemma {:induction false} RaceHasOneWinner(db: Database, ops: seq<Op>, hash: Hash)
    requires Inv(db) && RaceFor(hash, ops)
    ensures Winners(db, ops, hash) == if SomeViable(db, hash, ops) then 1 else 0
    ensures |Run(db, ops).tokens| == |db.tokens|
    decreases ops
  {
    if ops != [] {
      var op, rest := ops[0], ops[1..];
      RotationOutcome(db, hash, op.renewed, op.renewal);
      StepKeepsScopes(db, op);
      var after := Settled(db, Perform(db, op));
      RaceHasOneWinner(after, rest, hash);
      assert forall i :: 0 <= i < |rest| ==> rest[i] == ops[i + 1];
      if Viable(db, hash, op.renewal) {
        RotationSwapsOneRow(db, hash, op.renewed, op.renewal);
        assert !SomeViable(after, hash, rest);
      } else if SomeViable(db, hash, ops) {
        var i :| 0 <= i < |ops| && Viable(db, hash, ops[i].renewal);
        assert Viable(after, hash, rest[i - 1].renewal);
      }
    }
  }

  // --------------------------------------------------------- what stays the same

  /** The operations that end a token. */
  predicate Ends(op: Op, hash: Hash, row: TokenRow) {
    || RotationOf(op, hash)
    || op == Revoking(hash)
    || op == Removing(row.Scope())
  }

  /** A token's row is what it was until an operation that names the token or its
      membership; nothing else revokes, extends or rescopes it. */
  lemma {:induction false} TokenOutlivesOthers(db: Database, ops: seq<Op>, hash: Hash)
    requires hash in db.tokens
    requires forall i :: 0 <= i < |ops| ==> !Ends(ops[i], hash, db.tokens[hash])
    ensures hash in Run(db, ops).tokens && Run(db, ops).tokens[hash] == db.tokens[hash]
    decreases ops
  {
    if ops != [] {
      TokenOutlivesStep(db, ops[0], hash);
      TokenOutlivesOthers(Settled(db, Perform(db, ops[0])), ops[1..], hash);
    }
  }

  lemma TokenOutlivesStep(db: Database, op: Op, hash: Hash)
    requires hash in db.tokens && !Ends(op, hash, db.tokens[hash])
    ensures var after := Settled(db, Perform(db, op)).tokens;
            hash in after && after[hash] == db.tokens[hash]
  {
  }

  /** Hence it keeps resolving, at every instant, as it would have. */
  lemma TokenKeepsResolving(db: Database, ops: seq<Op>, hash: Hash, now: Instant)
    requires Inv(db) && hash in db.tokens
    requires forall i :: 0 <= i < |ops| ==> !Ends(ops[i], hash, db.tokens[hash])
    ensures Resolve(Run(db, ops), hash, now) == Resolve(db, hash, now)
  {
    TokenOutlivesOthers(db, ops, hash);
    RunKeepsScopes(db, ops);
  }

  /** Leaving an organization revokes the tokens scoped to it and no others. */
  lemma RemovalRevokesExactly(db: Database, m: Membership, hash: Hash, now: Instant)
    requires Inv(db) && RemoveMember(db, m).Committed?
    ensures var after := RemoveMember(db, m).db;
            Resolve(after, hash, now) ==
            if hash in db.tokens && db.tokens[hash].Scope() == m then Refused(InvalidToken) else Resolve(db, hash, now)
  {
  }

  // ---------------------------------------------------------------- lifetimes

  /** The span a token was issued with. */
  function Span(row: TokenRow): int
    requires row.expires.Some?
  {
    row.expires.value - row.created
  }

  /** A renewal's two readings differ by what the span shrinks by. */
  function Slip(r: Renewal): int {
    r.createdAt - r.spanFrom
  }

  /** A preserved span shrinks by exactly the gap between the two readings of the
      clock, unless an instant leaves the 64-bit range. */
  lemma RenewalKeepsSpanIff(db: Database, hash: Hash, r: Renewal)
    requires Rotate(db, hash, Preserved, r).Committed?
    ensures var row, renewed := db.tokens[hash], Rotate(db, hash, Preserved, r).db.tokens[r.hash];
            && (renewed.expires.Some? <==> row.expires.Some?)
            && (row.expires.Some? ==>
                  (Span(renewed) == Span(row) - Slip(r) <==> FitsI64(Span(row)) && FitsI64(r.spanFrom + Span(row))))
  {
  }

  /** Each renewal presents the token the one before it issued. */
  function Renew(db: Database, hash: Hash, renewals: seq<Renewal>): Option<(Database, Hash)>
    decreases renewals
  {
    if renewals == [] then Some((db, hash))
    else
      var t := Rotate(db, hash, Preserved, renewals[0]);
      if t.Committed? then Renew(t.db, renewals[0].hash, renewals[1..]) else None
  }

  function Slips(renewals: seq<Renewal>): int
    decreases renewals
  {
    if renewals == [] then 0 else Slip(renewals[0]) + Slips(renewals[1..])
  }

  predicate FitsAll(span: int, renewals: seq<Renewal>)
    decreases renewals
  {
    renewals == [] ||
    (FitsI64(span) && FitsI64(renewals[0].spanFrom + span) && FitsAll(span - Slip(renewals[0]), renewals[1..]))
  }

  /** Over any chain of renewals the span shrinks by the sum of the gaps, and the
      scope stays. */
  lemma {:induction false} ChainShrinksByGaps(db: Database, hash: Hash, renewals: seq<Renewal>)
    requires hash in db.tokens && db.tokens[hash].expires.Some?
    requires FitsAll(Span(db.tokens[hash]), renewals)
    requires Renew(db, hash, renewals).Some?
    ensures var (after, last) := Renew(db, hash, renewals).value;
            && last in after.tokens && after.tokens[last].expires.Some?
            && Span(after.tokens[last]) == Span(db.tokens[hash]) - Slips(renewals)
            && after.tokens[last].Scope() == db.tokens[hash].Scope()
    decreases renewals
  {
    if renewals != [] {
      var r := renewals[0];
      RotationSwapsOneRow(db, hash, Preserved, r);
      RenewalKeepsSpanIff(db, hash, r);
      ChainShrinksByGaps(Rotate(db, hash, Preserved, r).db, r.hash, renewals[1..]);
    }
  }

  lemma {:induction false} AgreeingReadings(span: int, renewals: seq<Renewal>)
    requires FitsI64(span)
    requires forall i :: 0 <= i < |renewals| ==> Slip(renewals[i]) == 0 && FitsI64(renewals[i].spanFrom + span)
    ensures Slips(renewals) == 0 && FitsAll(span, renewals)
    decreases renewals
  {
    if renewals != [] {
      AgreeingReadings(span, renewals[1..]);
    }
  }

  /** When the two readings agree, any chain of renewals keeps the span. */
  lemma ChainKeepsSpan(db: Database, hash: Hash, renewals: seq<Renewal>)
    requires hash in db.tokens && db.tokens[hash].expires.Some? && FitsI64(Span(db.tokens[hash]))
    requires forall i :: 0 <= i < |renewals| ==>
               Slip(renewals[i]) == 0 && FitsI64(renewals[i].spanFrom + Span(db.tokens[hash]))
    requires Renew(db, hash, renewals).Some?
    ensures var (after, last) := Renew(db, hash, renewals).value;
            last in after.tokens && after.tokens[last].expires.Some? &&
            Span(after.tokens[last]) == Span(db.tokens[hash])
  {
    AgreeingReadings(Span(db.tokens[hash]), renewals);
    ChainShrinksByGaps(db, hash, renewals);
  }

  /** `v` is `x`, or the end of the 64-bit range `x` lies beyond. */
  predicate IsClamped(v: int, x: int) {
    && (FitsI64(x) ==> v == x)
    && (x > I64_MAX ==> v == I64_MAX)
    && (x < I64_MIN ==> v == I64_MIN)
  }

  /** Both the span and the instant reached with it are clamped. */
  predicate IsRenewal(span: int, created: int, expires: int, from: int, v: int) {
    IsClamped(span, expires - created) && IsClamped(v, from + span)
  }

  /** When a token granted this lifetime expires, if at all. */
  ghost predicate Expires(lifetime: Lifetime, expires: Option<Instant>) {
    if lifetime == Never then expires == None else expires == Some(lifetime.instant)
  }

  /** When a replacement expires: as asked for or, preserved, as long from the reading
      as the presented token's expiry was from its creation. */
  ghost predicate ReplacementExpires(
    lifetime: RotationLifetime, row: TokenRow, spanFrom: Instant, expires: Option<Instant>)
  {
    match lifetime
    case Replaced(asked) => Expires(asked, expires)
    case Preserved =>
      match row.expires
      case None => expires == None
      case Some(e) =>
        expires.Some? && exists span :: IsRenewal(span, row.created, e, spanFrom, expires.value)
  }

  /** The replacement expires so, and resolves to the presented token's scope exactly
      until then; one granted an instant already past never resolves. */
  lemma ReplacementResolvesIff(db: Database, hash: Hash, lifetime: RotationLifetime, r: Renewal, now: Instant)
    requires Rotate(db, hash, lifetime, r).Committed?
    ensures var after, row := Rotate(db, hash, lifetime, r).db, db.tokens[hash];
            && r.hash in after.tokens && ReplacementExpires(lifetime, row, r.spanFrom, after.tokens[r.hash].expires)
            && var expires := after.tokens[r.hash].expires;
               && Resolve(after, hash, now) == Refused(InvalidToken)
               && Resolve(after, r.hash, now) ==
                  if expires == None || now < expires.value
                  then Authenticated(Membership(row.organization, row.principal)) else Refused(ExpiredToken)
  {
    var row := db.tokens[hash];
    if lifetime.Preserved? && row.expires.Some? {
      var x := row.expires.value - row.created;
      assert IsRenewal(Saturated(x), row.created, row.expires.value, r.spanFrom, Saturated(r.spanFrom + Saturated(x)));
    }
  }

  /** Issuing in an organization: exactly when it succeeds, and which check fails first. */
  lemma ScopedIssueOutcome(db: Database, m: Membership, lifetime: Lifetime, hash: Hash, now: Instant)
    ensures var t := IssueScoped(db, m, lifetime, hash, now);
            && (t == RolledBack(UnknownPrincipal) <==> m.principal !in db.users)
            && (t == RolledBack(UnknownOrganization) <==>
                  m.principal in db.users && m.organization !in db.organizations)
            && (t == RolledBack(NotOrganizationMember) <==>
                  m.principal in db.users && m.organization in db.organizations && m !in db.memberships)
            && (t.Committed? <==>
                  && m.principal in db.users && m.organization in db.organizations && m in db.memberships
                  && hash !in db.tokens)
            && (t.RolledBack? ==>
                  t.error in {UnknownPrincipal, UnknownOrganization, NotOrganizationMember, Storage})
  {
  }

  /** A token issued is one more row and resolves exactly while its lifetime lasts;
      every other token resolves as before. */
  lemma IssuedResolvesIff(db: Database, m: Membership, lifetime: Lifetime, hash: Hash, now: Instant, at: Instant)
    requires IssueScoped(db, m, lifetime, hash, now).Committed?
    ensures var after := IssueScoped(db, m, lifetime, hash, now).db;
            && after.tokens - {hash} == db.tokens && hash in after.tokens && after.(tokens := db.tokens) == db
            && after.tokens[hash].created == now && Expires(lifetime, after.tokens[hash].expires)
            && Resolve(after, hash, at) ==
               (if lifetime == Never || at < lifetime.instant then Authenticated(m) else Refused(ExpiredToken))
            && forall other :: other != hash ==> Resolve(after, other, at) == Resolve(db, other, at)
  {
    var after := IssueScoped(db, m, lifetime, hash, now).db;
    assert after.tokens - {hash} == db.tokens;
  }

  /** Without an organization it is the one the principal belongs to. */
  lemma IssueTakesTheOnlyMembership(db: Database, m: Membership, lifetime: Lifetime, hash: Hash, now: Instant)
    requires MembershipsOf(db, m.principal) == {m}
    ensures Issue(db, m.principal, lifetime, hash, now) == IssueScoped(db, m, lifetime, hash, now)
  {
  }

  /** A token whose membership is gone is as good as none. */
  lemma WithoutMembershipInvalid(db: Database, hash: Hash, lifetime: RotationLifetime, r: Renewal, now: Instant)
    requires hash in db.tokens && Membership(db.tokens[hash].organization, db.tokens[hash].principal) !in db.memberships
    ensures Resolve(db, hash, now) == Refused(InvalidToken)
    ensures Rotate(db, hash, lifetime, r) == RolledBack(InvalidToken)
  {
  }

  lemma RevokedNeverResolves(db: Database, hash: Hash, now: Instant)
    ensures Revoke(db, hash).Committed?
    ensures var after := Revoke(db, hash).db;
            && Resolve(after, hash, now) == Refused(InvalidToken)
            && (forall other :: other != hash ==> Resolve(after, other, now) == Resolve(db, other, now))
            && after.(tokens := db.tokens) == db
  {
  }

  // ------------------------------------------------------- users and memberships

  /** A user created with an organization of its own is its only member and belongs
      nowhere else; it fails only on an id drawn before. */
  lemma UserCreationOutcome(db: Database, name: string, principal: Id, organization: Id)
    requires Inv(db)
    ensures var t, m := CreateUser(db, name, principal, organization), Membership(organization, principal);
            && (t.Committed? <==> principal !in db.users && organization !in db.organizations)
            && (t.RolledBack? ==> t.error == Storage)
            && (t.Committed? ==>
                  && t.db.users == db.users[principal := name] && t.db.tokens == db.tokens
                  && t.db.organizations == db.organizations[organization := "Personal organization for " + name]
                  && t.db.memberships == db.memberships + {m}
                  && (forall n :: n in t.db.memberships && (n.principal == principal || n.organization == organization)
                        ==> n == m))
  {
  }

  /** One created in an organization that exists belongs to it alone. */
  lemma UserInOrganizationOutcome(db: Database, name: string, principal: Id, organization: Id)
    requires Inv(db)
    ensures var t, m := CreateUserIn(db, name, principal, organization), Membership(organization, principal);
            && (t.Committed? <==> organization in db.organizations && principal !in db.users)
            && (t == RolledBack(UnknownOrganization) <==> organization !in db.organizations)
            && (t.Committed? ==>
                  && t.db == db.(users := db.users[principal := name], memberships := db.memberships + {m})
                  && forall n :: n in t.db.memberships && n.principal == principal ==> n == m)
  {
  }

  /** An organization created has no members. */
  lemma OrganizationOutcome(db: Database, name: string, organization: Id)
    requires Inv(db)
    ensures var t := CreateOrganization(db, name, organization);
            && (t.Committed? <==> organization !in db.organizations)
            && (t.Committed? ==>
                  && t.db == db.(organizations := db.organizations[organization := name])
                  && forall m :: m in t.db.memberships ==> m.organization != organization)
  {
  }

  /** Adding succeeds exactly for a user and an organization that exist, and twice is
      once; removing exactly for a membership that exists, and then adding undoes it. */
  lemma MembershipOutcome(db: Database, m: Membership)
    requires Inv(db)
    ensures var added, removed := AddMember(db, m), RemoveMember(db, m);
            && (added.Committed? <==> m.principal in db.users && m.organization in db.organizations)
            && (added == RolledBack(UnknownOrganization) <==> m.organization !in db.organizations)
            && (added.RolledBack? ==> added.error in {UnknownOrganization, UnknownPrincipal})
            && (added.Committed? ==>
                  && added.db == db.(memberships := db.memberships + {m})
                  && AddMember(added.db, m) == added)
            && (removed.Committed? <==> m in db.memberships)
            && (removed == RolledBack(UnknownPrincipal) <==> m.principal !in db.users)
            && (removed == RolledBack(UnknownOrganization) <==>
                  m.principal in db.users && m.organization !in db.organizations)
            && (removed.RolledBack? ==>
                  removed.error in {UnknownPrincipal, UnknownOrganization, NotOrganizationMember})
            && (removed.Committed? ==>
                  && removed.db.users == db.users && removed.db.organizations == db.organizations
                  && removed.db.memberships == db.memberships - {m}
                  && AddMember(removed.db, m).Committed? && AddMember(removed.db, m).db.memberships == db.memberships
                  && forall hash :: hash in removed.db.tokens <==> hash in db.tokens && db.tokens[hash].Scope() != m)
  {
    if AddMember(db, m).Committed? {
      assert db.memberships + {m} + {m} == db.memberships + {m};
    }
    if m in db.memberships {
      assert db.memberships - {m} + {m} == db.memberships;
    }
  }
}
