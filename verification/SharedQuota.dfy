/** The platform store's shared quota: many replicas run atomic statements against
    one configuration row and one table of window counters. Time is the database
    clock, in seconds. */
module SharedQuota {
  import opened Sequences
  import opened Wrappers

  type Org = string

  const I64_MAX: nat := 0x7fff_ffff_ffff_ffff

  type Limit = n: nat | 0 < n < 0x1_0000_0000 witness 1
  /** A window as a replica is given it, and as the store can hold it. */
  type Seconds = n: nat | 0 < n < 0x1_0000_0000_0000_0000 witness 1
  type Window = n: nat | 0 < n <= I64_MAX witness 1

  /** An organization's counter in the window that starts at `start`. */
  datatype Key = Key(org: Org, start: int)

  datatype QuotaConfig = QuotaConfig(limit: Limit, window: Window)

  datatype Refusal = Exceeded(retryAfter: real) | Unavailable

  datatype Configuration =
    | Initialized
    | Unchanged
    | LimitChanged(previous: nat)
    | WindowChanged(previous: nat)
    | WindowMismatch(stored: Window)
    | WindowTooLong

  datatype SweepOutcome = SkippedLockHeld | Deleted(rows: nat)

  type Table = map<Key, nat>

  const RETENTION_WINDOWS := 3
  const SWEEP_BATCH_ROWS := 10_000
  const SWEEP_MAX_BATCHES := 32
  const U32_MAX: real := 4294967295.0

  /** How long a window's rows are kept, in a saturating 64-bit product. */
  function Retention(window: Window): nat {
    if window * RETENTION_WINDOWS > I64_MAX then I64_MAX else window * RETENTION_WINDOWS
  }

  /** The greatest multiple of the window not after `now`. Windows are whole
      seconds, so the quotient's floor is that of the whole seconds. */
  function WindowStart(now: real, window: Window): int
  {
    now.Floor / window * window
  }

  function Clamped(seconds: real): real {
    if seconds < 0.0 then 0.0 else if seconds > U32_MAX then U32_MAX else seconds
  }

  // --------------------------------------------------------------- statements

  /** The admission statement: one row inserted or, below the limit, counted up;
      `None` admits. */
  function Admit(config: Option<QuotaConfig>, rows: Table, org: Org, window: Window, now: real)
    : (Table, Option<Refusal>)
  {
    var key := Key(org, WindowStart(now, window));
    match config
    case None => (rows, Some(Unavailable))
    case Some(c) =>
      if key !in rows then (rows[key := 1], None)
      else if rows[key] < c.limit then (rows[key := rows[key] + 1], None)
      else (rows, Some(Exceeded(Clamped((key.start + window) as real - now))))
  }

  function Configure(config: Option<QuotaConfig>, rows: Table, limit: Limit, seconds: Seconds, reconfigure: bool)
    : (Option<QuotaConfig>, Table, Configuration)
  {
    if seconds > I64_MAX then (config, rows, WindowTooLong)
    else
      match config
      case None => (Some(QuotaConfig(limit, seconds)), rows, Initialized)
      case Some(stored) =>
        if stored.window != seconds then
          if reconfigure then (Some(QuotaConfig(limit, seconds)), map[], WindowChanged(stored.window))
          else (config, rows, WindowMismatch(stored.window))
        else if stored.limit == limit then (config, rows, Unchanged)
        else (Some(stored.(limit := limit)), rows, LimitChanged(stored.limit))
  }

  /** Rows of windows that ended long enough ago. */
  function Expired(rows: Table, window: Window, now: real): set<Key> {
    set key | key in rows && key.start < now.Floor - Retention(window)
  }

  // --------------------------------------------------------------- the store

  class PlatformStore {
    var config: Option<QuotaConfig>
    var rows: Table

    constructor ()
      ensures config == None && rows == map[]
    {
      config, rows := None, map[];
    }

    method AdmitRequest(org: Org, window: Window, now: real) returns (refusal: Option<Refusal>)
      modifies this
      ensures (rows, refusal) == Admit(config, old(rows), org, window, now) && config == old(config)
    {
      if config.None? {
        return Some(Unavailable);
      }
      var key := Key(org, WindowStart(now, window));
      if key !in rows {
        rows := rows[key := 1];
        return None;
      }
      if rows[key] < config.value.limit {
        rows := rows[key := rows[key] + 1];
        return None;
      }
      refusal := Some(Exceeded(Clamped((key.start + window) as real - now)));
    }

    method ConfigureQuota(limit: Limit, seconds: Seconds, reconfigure: bool) returns (outcome: Configuration)
      modifies this
      ensures (config, rows, outcome) == Configure(old(config), old(rows), limit, seconds, reconfigure)
    {
      if seconds > I64_MAX {
        return WindowTooLong;
      }
      if config.None? {
        config := Some(QuotaConfig(limit, seconds));
        return Initialized;
      }
      var stored := config.value;
      if stored.window != seconds {
        if !reconfigure {
          return WindowMismatch(stored.window);
        }
        config := Some(QuotaConfig(limit, seconds));
        rows := map[];
        return WindowChanged(stored.window);
      }
      if stored.limit == limit {
        return Unchanged;
      }
      config := Some(stored.(limit := limit));
      outcome := LimitChanged(stored.limit);
    }

    /** One bounded delete: any expired rows, as many as fit the batch. */
    method DeleteBatch(window: Window, now: real) returns (deleted: nat)
      modifies this
      ensures config == old(config)
      ensures rows.Keys <= old(rows).Keys && forall key :: key in rows ==> rows[key] == old(rows)[key]
      ensures forall key :: key in old(rows) && key !in rows ==> key in Expired(old(rows), window, now)
      ensures deleted == |old(rows)| - |rows| && deleted <= SWEEP_BATCH_ROWS
      ensures deleted < SWEEP_BATCH_ROWS ==> Expired(rows, window, now) == {}
    {
      deleted := 0;
      while deleted < SWEEP_BATCH_ROWS && Expired(rows, window, now) != {}
        invariant rows.Keys <= old(rows).Keys && forall key :: key in rows ==> rows[key] == old(rows)[key]
        invariant forall key :: key in old(rows) && key !in rows ==> key in Expired(old(rows), window, now)
        invariant deleted == |old(rows)| - |rows| && deleted <= SWEEP_BATCH_ROWS && config == old(config)
        decreases |rows|
      {
        var victim :| victim in Expired(rows, window, now);
        assert victim in Expired(old(rows), window, now);
        assert (rows - {victim}).Keys == rows.Keys - {victim};
        assert |rows.Keys| == |rows| && |(rows - {victim}).Keys| == |rows - {victim}|;
        rows := rows - {victim};
        deleted := deleted + 1;
      }
    }

    /** Skips if another replica sweeps; else deletes only expired rows, and all of
        them unless the batches run out. */
    method Sweep(window: Window, now: real, lockHeld: bool) returns (outcome: SweepOutcome)
      modifies this
      ensures config == old(config)
      ensures lockHeld <==> outcome.SkippedLockHeld?
      ensures lockHeld ==> rows == old(rows)
      ensures rows.Keys <= old(rows).Keys && forall key :: key in rows ==> rows[key] == old(rows)[key]
      ensures forall key :: key in old(rows) && key !in rows ==> key in Expired(old(rows), window, now)
      ensures !lockHeld ==> outcome.rows == |old(rows)| - |rows|
      ensures !lockHeld ==> Expired(rows, window, now) == {} || outcome.rows == SWEEP_MAX_BATCHES * SWEEP_BATCH_ROWS
    {
      if lockHeld {
        return SkippedLockHeld;
      }
      var deleted := 0;
      for i := 0 to SWEEP_MAX_BATCHES
        invariant rows.Keys <= old(rows).Keys && forall key :: key in rows ==> rows[key] == old(rows)[key]
        invariant forall key :: key in old(rows) && key !in rows ==> key in Expired(old(rows), window, now)
        invariant deleted == |old(rows)| - |rows| && config == old(config)
        invariant deleted == i * SWEEP_BATCH_ROWS
      {
        var batch := DeleteBatch(window, now);
        deleted := deleted + batch;
        if batch < SWEEP_BATCH_ROWS {
          break;
        }
      }
      outcome := Deleted(deleted);
    }
  }

  // --------------------------------------------------------------------- runs

  /** The store, the window every replica runs with, and the database's clock. */
  datatype State = State(config: Option<QuotaConfig>, rows: Table, window: Window, now: real)

  /** What some replica, or the clock, does next. A statement's instant is that of
      its transaction's beginning, which lies behind. Replicas restart with a window
      newly recorded. A sweep removes whichever expired rows it reaches. */
  datatype Event =
    | AdmitFor(org: Org, at: real)
    | Configuring(limit: Limit, seconds: Seconds, reconfigure: bool)
    | SweepRows(victims: set<Key>, at: real)
    | Advance(to: real)

  function Apply(s: State, e: Event): State {
    match e
    case AdmitFor(org, at) => s.(rows := Admit(s.config, s.rows, org, s.window, at).0)
    case Configuring(limit, seconds, reconfigure) =>
      var (config, rows, _) := Configure(s.config, s.rows, limit, seconds, reconfigure);
      State(config, rows, if config.Some? then config.value.window else s.window, s.now)
    case SweepRows(victims, at) => s.(rows := s.rows - victims * Expired(s.rows, s.window, at))
    case Advance(to) => if to >= s.now then s.(now := to) else s
  }

  function Run(start: State, events: seq<Event>): State
    decreases events
  {
    if events == [] then start
    else Apply(Run(start, events[..|events| - 1]), events[|events| - 1])
  }

  /** The event records a window that was not recorded before. */
  predicate StartsOver(s: State, e: Event) {
    && e.Configuring? && e.seconds <= I64_MAX
    && (s.config.None? || (s.config.value.window != e.seconds && e.reconfigure))
  }

  predicate IsAdmission(s: State, e: Event, key: Key) {
    && e.AdmitFor? && key == Key(e.org, WindowStart(e.at, s.window))
    && Admit(s.config, s.rows, e.org, s.window, e.at).1 == None
  }

  /** How many requests were admitted under the key since the window was recorded. */
  function Admissions(start: State, events: seq<Event>, key: Key): nat
    decreases events
  {
    if events == [] then 0
    else
      var last := |events| - 1;
      var s := Run(start, events[..last]);
      if StartsOver(s, events[last]) then 0
      else Admissions(start, events[..last], key) + if IsAdmission(s, events[last], key) then 1 else 0
  }

  /** A statement acts after its instant, and before the rows of its window can be
      swept. */
  predicate TimelyEvent(s: State, e: Event) {
    match e
    case AdmitFor(_, at) => at <= s.now && s.now.Floor - at.Floor <= Retention(s.window) - s.window + 1
    case SweepRows(_, at) => at <= s.now
    case _ => true
  }

  ghost predicate Timely(start: State, events: seq<Event>)
    decreases events
  {
    events == [] ||
    var last := |events| - 1;
    Timely(start, events[..last]) && TimelyEvent(Run(start, events[..last]), events[last])
  }

  // ------------------------------------------------------------------ windows

  /** The window has begun and not ended, and while a statement of it is timely no
      sweep considers it old. */
  lemma WindowIsCurrent(at: real, window: Window)
    ensures WindowStart(at, window) as real <= at < (WindowStart(at, window) + window) as real
    ensures WindowStart(at, window) >= at.Floor - window + 1
  {
    var whole := at.Floor;
    assert whole == whole / window * window + whole % window && 0 <= whole % window < window;
    assert WindowStart(at, window) <= whole <= WindowStart(at, window) + window - 1;
  }

  /** It is the only multiple of the window that has begun and not ended. */
  lemma WindowIsUnique(now: real, window: Window, k: int)
    requires (k * window) as real <= now < (k * window + window) as real
    ensures WindowStart(now, window) == k * window
  {
    WindowIsCurrent(now, window);
    var q := now.Floor / window;
    if q < k {
      MulInt(q + 1, k, window);
    } else if k < q {
      MulInt(k + 1, q, window);
    }
  }

  lemma MulInt(a: int, b: int, w: nat)
    requires a <= b
    ensures a * w <= b * w && (a - 1) * w == a * w - w
  {
  }

  // --------------------------------------------------- the counters are exact

  /** A stored count is the number of admissions, and a counter that is missing
      had none or belongs to a window no timely request can fall into. */
  ghost predicate Exact(s: State, key: Key, admissions: nat) {
    if key in s.rows then s.rows[key] == admissions > 0
    else admissions == 0 || key.start < s.now.Floor - Retention(s.window)
  }

  /** Replicas run with the recorded window; nothing is counted before one is. */
  ghost predicate OneWindow(s: State) {
    if s.config.Some? then s.config.value.window == s.window else s.rows == map[]
  }

  lemma ExactKept(s: State, e: Event, key: Key, admissions: nat)
    requires OneWindow(s) && TimelyEvent(s, e) && Exact(s, key, admissions)
    ensures OneWindow(Apply(s, e))
    ensures Exact(Apply(s, e), key,
                  if StartsOver(s, e) then 0 else admissions + if IsAdmission(s, e, key) then 1 else 0)
  {
    match e
    case AdmitFor(org, at) => WindowIsCurrent(at, s.window);
    case Configuring(_, _, _) =>
    case SweepRows(_, _) =>
    case Advance(_) =>
  }

  lemma {:induction false} RunIsExact(start: State, events: seq<Event>, key: Key)
    requires start.rows == map[] && OneWindow(start) && Timely(start, events)
    ensures OneWindow(Run(start, events))
    ensures Exact(Run(start, events), key, Admissions(start, events, key))
    decreases events
  {
    if events != [] {
      var last := |events| - 1;
      RunIsExact(start, events[..last], key);
      ExactKept(Run(start, events[..last]), events[last], key, Admissions(start, events[..last], key));
    }
  }

  /** For any interleaving of replicas, lagging statements, changes of limit and
      window, sweeps and clock steps, the count stored for a window that a timely
      request may fall into is the number of admissions in it. */
  lemma CountsAreAdmissions(start: State, events: seq<Event>, org: Org, at: real)
    requires start.rows == map[] && OneWindow(start) && Timely(start, events)
    requires TimelyEvent(Run(start, events), AdmitFor(org, at))
    ensures var s := Run(start, events);
            var key := Key(org, WindowStart(at, s.window));
            Admissions(start, events, key) == if key in s.rows then s.rows[key] else 0
  {
    var s := Run(start, events);
    WindowIsCurrent(at, s.window);
    RunIsExact(start, events, Key(org, WindowStart(at, s.window)));
  }

  /** The configuration in force, from what was asked for alone: the last that was not
      refused. One is refused if its window does not fit or differs from the one in
      force without leave to change it. */
  function InForce(config: Option<QuotaConfig>, events: seq<Event>): Option<QuotaConfig>
    decreases events
  {
    if events == [] then config
    else
      var last, before := events[|events| - 1], InForce(config, events[..|events| - 1]);
      match last
      case Configuring(limit, seconds, reconfigure) =>
        if seconds > I64_MAX || (before.Some? && before.value.window != seconds && !reconfigure) then before
        else Some(QuotaConfig(limit, seconds))
      case _ => before
  }

  /** The store and the replicas hold the configuration in force. */
  lemma {:induction false} RunHoldsInForce(start: State, events: seq<Event>)
    requires OneWindow(start)
    ensures Run(start, events).config == InForce(start.config, events)
    ensures var inForce := InForce(start.config, events);
            inForce.Some? ==> Run(start, events).window == inForce.value.window
    decreases events
  {
    if events != [] {
      RunHoldsInForce(start, events[..|events| - 1]);
    }
  }

  /** A request is admitted exactly when a limit is in force and fewer requests than it
      allows have been admitted in the window. */
  lemma AdmittedIffBelowLimit(start: State, events: seq<Event>, org: Org, at: real)
    requires start.rows == map[] && OneWindow(start) && Timely(start, events)
    requires TimelyEvent(Run(start, events), AdmitFor(org, at))
    ensures var s, inForce := Run(start, events), InForce(start.config, events);
            var key := Key(org, WindowStart(at, s.window));
            Admit(s.config, s.rows, org, s.window, at).1 == None <==>
            inForce.Some? && Admissions(start, events, key) < inForce.value.limit
  {
    CountsAreAdmissions(start, events, org, at);
    RunHoldsInForce(start, events);
  }

  /** What configuring reports, and when. */
  lemma ConfiguringReports(config: Option<QuotaConfig>, rows: Table, limit: Limit, seconds: Seconds, reconfigure: bool)
    ensures var outcome := Configure(config, rows, limit, seconds, reconfigure).2;
            && (outcome == WindowTooLong <==> seconds > I64_MAX)
            && (outcome == Initialized <==> seconds <= I64_MAX && config == None)
            && (seconds <= I64_MAX && config.Some? ==>
                  var stored := config.value;
                  && (outcome == Unchanged <==> stored == QuotaConfig(limit, seconds))
                  && (outcome == LimitChanged(stored.limit) <==> stored.window == seconds && stored.limit != limit)
                  && (outcome == WindowChanged(stored.window) <==> stored.window != seconds && reconfigure)
                  && (outcome == WindowMismatch(stored.window) <==> stored.window != seconds && !reconfigure))
  {
  }

  /** The limits under which requests were admitted under the key since the window
      was recorded. */
  function LimitsInForce(start: State, events: seq<Event>, key: Key): set<nat>
    decreases events
  {
    if events == [] then {}
    else
      var last := |events| - 1;
      var s := Run(start, events[..last]);
      if StartsOver(s, events[last]) then {}
      else
        LimitsInForce(start, events[..last], key) +
        if IsAdmission(s, events[last], key) && s.config.Some? then {s.config.value.limit} else {}
  }

  /** An organization's admissions in a window never exceed the largest limit that
      was in force for one of them: some such limit is at least as large. */
  lemma {:induction false} AdmissionsWithinSomeLimit(start: State, events: seq<Event>, key: Key) returns (limit: nat)
    requires start.rows == map[] && OneWindow(start) && Timely(start, events)
    requires Admissions(start, events, key) > 0
    ensures limit in LimitsInForce(start, events, key) && Admissions(start, events, key) <= limit
    decreases events
  {
    var last := |events| - 1;
    var s := Run(start, events[..last]);
    if IsAdmission(s, events[last], key) {
      AdmittedIffBelowLimit(start, events[..last], key.org, events[last].at);
      RunHoldsInForce(start, events[..last]);
      limit := s.config.value.limit;
    } else {
      limit := AdmissionsWithinSomeLimit(start, events[..last], key);
    }
  }

  /** The bound on the lag is tight: for every window and every longer lag there is
      a run in which one statement lags as much, and a limit of one admits twice. */
  lemma LongerLagLosesACount(window: Window, lag: nat) returns (start: State, events: seq<Event>, key: Key)
    requires lag > Retention(window) - window + 1
    ensures start.rows == map[] && OneWindow(start) && start.window == window
    ensures events != [] && Timely(start, events[..|events| - 1])
    ensures events[|events| - 1].AdmitFor?
    ensures Run(start, events).now.Floor - events[|events| - 1].at.Floor == lag
    ensures LimitsInForce(start, events, key) == {1} && Admissions(start, events, key) == 2
  {
    var at, to := (window - 1) as real, (window - 1 + lag) as real;
    key := Key("", 0);
    WindowIsUnique(at, window, 0);
    assert WindowStart(at, window) == 0;
    start := State(Some(QuotaConfig(1, window)), map[], window, at);
    var charged := start.(rows := map[key := 1]);
    var later := charged.(now := to);
    var swept := start.(now := to);
    var admit, advance, sweep := AdmitFor("", at), Advance(to), SweepRows({key}, to);
    FirstIsCharged(start, at, key);
    TallyStep(start, [], admit, start, charged, key, 0, {}, 1, {1});
    TallyStep(start, [] + [admit], advance, charged, later, key, 1, {1}, 1, {1});
    SweptAway(later, key);
    TallyStep(start, [] + [admit] + [advance], sweep, later, swept, key, 1, {1}, 1, {1});
    FirstIsCharged(swept, at, key);
    events := [] + [admit] + [advance] + [sweep];
    OneStep(start, events, admit, swept, later, key);
    TakePastFirst(events, [admit], 0);
    Neutral(events);
    events := events + [admit];
  }

  /** What a run has come to: its state, the admissions and the limits met. */
  ghost predicate Tally(start: State, events: seq<Event>, key: Key, s: State, n: nat, limits: set<nat>) {
    && Run(start, events) == s && Timely(start, events)
    && Admissions(start, events, key) == n && LimitsInForce(start, events, key) == limits
  }

  lemma TallyStep(
    start: State, events: seq<Event>, e: Event, s: State, after: State, key: Key,
    n: nat, limits: set<nat>, m: nat, more: set<nat>)
    requires Tally(start, events, key, s, n, limits)
    requires Apply(s, e) == after && TimelyEvent(s, e) && !e.Configuring?
    requires m == n + if IsAdmission(s, e, key) then 1 else 0
    requires more == limits + if IsAdmission(s, e, key) && s.config.Some? then {s.config.value.limit} else {}
    ensures Tally(start, events + [e], key, after, m, more)
  {
    OneStep(start, events, e, s, after, key);
  }

  lemma FirstIsCharged(s: State, at: real, key: Key)
    requires key == Key("", WindowStart(at, s.window))
    requires s.rows == map[] && s.config == Some(QuotaConfig(1, s.window))
    ensures Apply(s, AdmitFor("", at)) == s.(rows := map[key := 1]) && IsAdmission(s, AdmitFor("", at), key)
  {
  }

  lemma SweptAway(s: State, key: Key)
    requires s.rows.Keys == {key} && key.start < s.now.Floor - Retention(s.window)
    ensures Apply(s, SweepRows({key}, s.now)) == s.(rows := map[])
  {
    assert key in Expired(s.rows, s.window, s.now);
  }

  /** One event at the end of a run. */
  lemma OneStep(start: State, events: seq<Event>, e: Event, s: State, after: State, key: Key)
    requires Run(start, events) == s && Apply(s, e) == after
    ensures Run(start, events + [e]) == after
    ensures Timely(start, events) && TimelyEvent(s, e) ==> Timely(start, events + [e])
    ensures Admissions(start, events + [e], key) ==
            if StartsOver(s, e) then 0
            else Admissions(start, events, key) + if IsAdmission(s, e, key) then 1 else 0
    ensures LimitsInForce(start, events + [e], key) ==
            if StartsOver(s, e) then {}
            else LimitsInForce(start, events, key) +
                 if IsAdmission(s, e, key) && s.config.Some? then {s.config.value.limit} else {}
  {
    assert (events + [e])[..|events|] == events;
  }

  // --------------------------------------------------------- reconfiguration

  /** The event is a configuration the store refuses. */
  predicate Refused(s: State, e: Event) {
    && e.Configuring?
    && (|| e.seconds > I64_MAX
        || (s.config.Some? && s.config.value.window != e.seconds && !e.reconfigure))
  }

  /** A refused configuration leaves no trace: every later state, and so every later
      answer, and every count is as if it had not been tried. */
  lemma {:induction false} RefusalLeavesNoTrace(start: State, before: seq<Event>, e: Event, after: seq<Event>, key: Key)
    requires OneWindow(Run(start, before)) && Refused(Run(start, before), e)
    ensures Run(start, before + [e] + after) == Run(start, before + after)
    ensures Admissions(start, before + [e] + after, key) == Admissions(start, before + after, key)
    decreases after
  {
    var kept := Run(start, before);
    if after == [] {
      OneStep(start, before, e, kept, kept, key);
      assert before + [e] + [] == before + [e] && before + [] == before;
    } else {
      var last := |after| - 1;
      var with, without := before + [e] + after[..last], before + after[..last];
      RefusalLeavesNoTrace(start, before, e, after[..last], key);
      var s := Run(start, without);
      OneStep(start, with, after[last], s, Apply(s, after[last]), key);
      OneStep(start, without, after[last], s, Apply(s, after[last]), key);
      assert before + [e] + after == with + [after[last]] && before + after == without + [after[last]];
    }
  }

  lemma StartedOver(s: State, e: Event)
    requires OneWindow(s) && StartsOver(s, e)
    ensures Apply(s, e) == State(Some(QuotaConfig(e.limit, e.seconds)), map[], e.seconds, s.now)
  {
  }

  /** From a window newly recorded on, a run goes on as one from an empty store with
      that window: what was stored or counted before plays no part. */
  lemma {:induction false} WindowChangeStartsOver(
    start: State, before: seq<Event>, e: Event, after: seq<Event>, key: Key)
    requires OneWindow(Run(start, before)) && StartsOver(Run(start, before), e)
    ensures var empty := State(Some(QuotaConfig(e.limit, e.seconds)), map[], e.seconds, Run(start, before).now);
            && Run(start, before + [e] + after) == Run(empty, after)
            && Admissions(start, before + [e] + after, key) == Admissions(empty, after, key)
            && LimitsInForce(start, before + [e] + after, key) == LimitsInForce(empty, after, key)
    decreases after
  {
    var s := Run(start, before);
    var empty := Apply(s, e);
    StartedOver(s, e);
    if after == [] {
      OneStep(start, before, e, s, empty, key);
      assert before + [e] + [] == before + [e];
    } else {
      var last := |after| - 1;
      var with := before + [e] + after[..last];
      WindowChangeStartsOver(start, before, e, after[..last], key);
      var t := Run(start, with);
      OneStep(start, with, after[last], t, Apply(t, after[last]), key);
      OneStep(empty, after[..last], after[last], t, Apply(t, after[last]), key);
      assert before + [e] + after == with + [after[last]] && after == after[..last] + [after[last]];
    }
  }

  /** A refusal for a spent window reports a time in (0, window] that leads to the next
      window's first instant, or the longest time there is if that is further off. */
  lemma RetryReachesNextWindow(config: Option<QuotaConfig>, rows: Table, org: Org, window: Window, at: real)
    ensures match Admit(config, rows, org, window, at).1
            case Some(Exceeded(retryAfter)) =>
              var end := WindowStart(at, window) + window;
              && 0.0 < retryAfter <= window as real
              && (end as real - at <= 4294967295.0 ==>
                    at + retryAfter == end as real && WindowStart(at + retryAfter, window) == end)
              && (end as real - at > 4294967295.0 ==> retryAfter == 4294967295.0)
            case Some(Unavailable) => config == None
            case None => config.Some?
  {
    WindowIsCurrent(at, window);
    var k := at.Floor / window + 1;
    assert WindowStart(at, window) + window == k * window;
    WindowIsUnique((k * window) as real, window, k);
  }

  /** Rows go once two more windows have passed since theirs ended, or after the longest
      span the store can hold. */
  lemma SweptOnceLongOver(rows: Table, window: Window, now: real, key: Key)
    requires key in rows
    ensures 3 * window <= I64_MAX ==>
              (key in Expired(rows, window, now) <==> key.start + window + 2 * window < now.Floor)
    ensures 3 * window > I64_MAX ==> (key in Expired(rows, window, now) <==> key.start + I64_MAX < now.Floor)
  {
  }
}
