/** The gateway's per-process quota: a fixed window per organization, swept of
    expired entries whenever an unknown organization appears. */
module InProcessQuota {
  import opened Sequences

  type Org = string

  datatype Window = Window(startedAt: nat, count: nat)

  datatype Answer = Admitted | Rejected(retryAfter: nat)

  datatype Request = Request(org: Org, now: nat)

  /** `duration_since`, which is zero for an instant in the future. */
  function Elapsed(now: nat, since: nat): nat {
    if now >= since then now - since else 0
  }

  function AdmitWindow(limit: nat, window: nat, entry: Window, now: nat): (Window, Answer) {
    var current := if Elapsed(now, entry.startedAt) >= window then Window(now, 0) else entry;
    if current.count >= limit then
      var elapsed := Elapsed(now, current.startedAt);
      (current, Rejected(if window >= elapsed then window - elapsed else 0))
    else (current.(count := current.count + 1), Admitted)
  }

  function Sweep(window: nat, windows: map<Org, Window>, now: nat): map<Org, Window> {
    map o | o in windows && Elapsed(now, windows[o].startedAt) < window :: windows[o]
  }

  function Admit(limit: nat, window: nat, windows: map<Org, Window>, r: Request): (map<Org, Window>, Answer) {
    var kept := if r.org in windows then windows else Sweep(window, windows, r.now);
    var entry := if r.org in kept then kept[r.org] else Window(r.now, 0);
    var (next, answer) := AdmitWindow(limit, window, entry, r.now);
    (kept[r.org := next], answer)
  }

  class Quota {
    const limit: nat
    const window: nat
    var windows: map<Org, Window>

    constructor (limit: nat, window: nat)
      requires limit > 0 && window > 0
      ensures this.limit == limit && this.window == window && windows == map[]
    {
      this.limit, this.window, windows := limit, window, map[];
    }

    method AdmitRequest(org: Org, now: nat) returns (answer: Answer)
      modifies this
      ensures (windows, answer) == Admit(limit, window, old(windows), Request(org, now))
    {
      if org in windows {
        answer := AdmitEntry(org, now);
        return;
      }
      windows := Sweep(window, windows, now);
      ghost var kept := windows;
      if org !in windows {
        windows := windows[org := Window(now, 0)];
      }
      answer := AdmitEntry(org, now);
      assert windows == kept[org := AdmitWindow(limit, window, Window(now, 0), now).0];
    }

    /** Updates the organization's entry in place. */
    method AdmitEntry(org: Org, now: nat) returns (answer: Answer)
      requires org in windows
      modifies this
      ensures windows == old(windows)[org := AdmitWindow(limit, window, old(windows)[org], now).0]
      ensures answer == AdmitWindow(limit, window, old(windows)[org], now).1
    {
      var entry := windows[org];
      if Elapsed(now, entry.startedAt) >= window {
        entry := Window(now, 0);
      }
      if entry.count >= limit {
        windows := windows[org := entry];
        var elapsed := Elapsed(now, entry.startedAt);
        return Rejected(if window >= elapsed then window - elapsed else 0);
      }
      windows := windows[org := entry.(count := entry.count + 1)];
      answer := Admitted;
    }
  }

  // --------------------------------------------------------------------- runs

  /** A clock reading lags the ones that took the lock before it by at most `lag`:
      the clock is read before the lock is taken. */
  ghost predicate Ordered(run: seq<Request>, lag: nat) {
    forall i, j :: 0 <= i < j < |run| ==> run[i].now <= run[j].now + lag
  }

  type Step = (map<Org, Window>, Request) -> (map<Org, Window>, Answer)

  function Run(step: Step, windows: map<Org, Window>, run: seq<Request>): (answers: seq<Answer>)
    ensures |answers| == |run|
    decreases run
  {
    if run == [] then []
    else
      var (next, answer) := step(windows, run[0]);
      [answer] + Run(step, next, run[1..])
  }

  function Swept(limit: nat, window: nat): Step {
    (windows, r) => Admit(limit, window, windows, r)
  }

  /** The same table if nothing were ever swept. */
  function AdmitUnswept(limit: nat, window: nat, windows: map<Org, Window>, r: Request): (map<Org, Window>, Answer) {
    var entry := if r.org in windows then windows[r.org] else Window(r.now, 0);
    var (next, answer) := AdmitWindow(limit, window, entry, r.now);
    (windows[r.org := next], answer)
  }

  function Unswept(limit: nat, window: nat): Step {
    (windows, r) => AdmitUnswept(limit, window, windows, r)
  }

  /** The swept table misses only entries that have expired. */
  ghost predicate MissesOnlyExpired(window: nat, swept: map<Org, Window>, full: map<Org, Window>, now: nat) {
    && (forall o :: o in swept ==> o in full && swept[o] == full[o])
    && (forall o :: o in full && o !in swept ==> Elapsed(now, full[o].startedAt) >= window)
  }

  lemma SweepStepAgrees(
    limit: nat, window: nat, swept: map<Org, Window>, full: map<Org, Window>, before: nat, r: Request)
    requires limit > 0 && before <= r.now && MissesOnlyExpired(window, swept, full, before)
    ensures Admit(limit, window, swept, r).1 == AdmitUnswept(limit, window, full, r).1
    ensures MissesOnlyExpired(window, Admit(limit, window, swept, r).0, AdmitUnswept(limit, window, full, r).0, r.now)
  {
  }

  lemma {:induction false} SweepAgreesFrom(
    limit: nat, window: nat, swept: map<Org, Window>, full: map<Org, Window>, now: nat, run: seq<Request>)
    requires limit > 0 && MissesOnlyExpired(window, swept, full, now)
    requires Ordered(run, 0) && (run != [] ==> now <= run[0].now)
    ensures Run(Swept(limit, window), swept, run) == Run(Unswept(limit, window), full, run)
    decreases run
  {
    if run != [] {
      SweepStepAgrees(limit, window, swept, full, now, run[0]);
      SweepAgreesFrom(limit, window, Admit(limit, window, swept, run[0]).0, AdmitUnswept(limit, window, full, run[0]).0,
                      run[0].now, run[1..]);
    }
  }

  /** The sweep changes no answer if readings come in order. */
  lemma SweepChangesNoAnswer(limit: nat, window: nat, run: seq<Request>)
    requires limit > 0 && Ordered(run, 0)
    ensures Run(Swept(limit, window), map[], run) == Run(Unswept(limit, window), map[], run)
  {
    SweepAgreesFrom(limit, window, map[], map[], 0, run);
  }

  /** It can change one as soon as a reading may lag at all, whatever the limit and
      the window. */
  lemma SweepChangesNoAnswerIff(limit: nat, window: nat, lag: nat)
    requires limit > 0 && window > 0
    ensures lag == 0 <==>
            forall run :: Ordered(run, lag) ==>
              Run(Swept(limit, window), map[], run) == Run(Unswept(limit, window), map[], run)
  {
    if lag == 0 {
      forall run | Ordered(run, 0)
        ensures Run(Swept(limit, window), map[], run) == Run(Unswept(limit, window), map[], run)
      {
        SweepChangesNoAnswer(limit, window, run);
      }
    } else {
      var run := LateReadingIsAdmitted(limit, window);
      assert Ordered(run, lag);
    }
  }

  /** A spent organization's entry expires at another's reading and is swept; a
      reading from just before then is admitted, though without the sweep it would
      be refused. */
  lemma LateReadingIsAdmitted(limit: nat, window: nat) returns (run: seq<Request>)
    requires limit > 0 && window > 0
    ensures Ordered(run, 1)
    ensures Run(Swept(limit, window), map[], run) != Run(Unswept(limit, window), map[], run)
  {
    var rest := [Request("b", window), Request("a", window - 1)];
    run := Copies(Request("a", 0), limit) + rest;
    CopiesAreEqual(Request("a", 0), limit);
    forall used: nat | used < limit
      ensures Swept(limit, window)(Used(used), Request("a", 0)) == (Used(used + 1), Admitted)
      ensures Unswept(limit, window)(Used(used), Request("a", 0)) == (Used(used + 1), Admitted)
    {
      OneGranted(limit, window, used);
    }
    Spend(Swept(limit, window), limit, 0, limit, rest);
    Spend(Unswept(limit, window), limit, 0, limit, rest);
    LastAnswers(limit, window);
    assert Run(Swept(limit, window), map[], run)[limit + 1] != Run(Unswept(limit, window), map[], run)[limit + 1];
  }

  function Copies<T>(x: T, n: nat): seq<T> {
    if n == 0 then [] else [x] + Copies(x, n - 1)
  }

  lemma {:induction false} CopiesAreEqual<T>(x: T, n: nat)
    ensures |Copies(x, n)| == n && forall i :: 0 <= i < n ==> Copies(x, n)[i] == x
  {
    if n > 0 {
      CopiesAreEqual(x, n - 1);
    }
  }

  lemma LastAnswers(limit: nat, window: nat)
    requires limit > 0 && window > 0
    ensures var rest := [Request("b", window), Request("a", window - 1)];
            && Run(Swept(limit, window), Used(limit), rest)[1].Admitted?
            && Run(Unswept(limit, window), Used(limit), rest)[1].Rejected?
  {
    var table := Used(limit);
    var b, a := Request("b", window), Request("a", window - 1);
    assert [b, a][1..] == [a];
    assert Admit(limit, window, table, b).0 == map["b" := Window(window, 1)];
    assert AdmitUnswept(limit, window, table, b).0 == table["b" := Window(window, 1)];
  }

  /** Requests at one instant spend what is left of the limit. */
  lemma {:induction false} Spend(step: Step, limit: nat, used: nat, left: nat, rest: seq<Request>)
    requires used + left == limit
    requires forall u: nat :: u < limit ==> step(Used(u), Request("a", 0)) == (Used(u + 1), Admitted)
    ensures EndsIn(Run(step, Used(used), Copies(Request("a", 0), left) + rest), left, Run(step, Used(limit), rest))
    decreases left
  {
    if left == 0 {
      assert Copies(Request("a", 0), left) + rest == rest;
    } else {
      var fewer := Copies(Request("a", 0), left - 1) + rest;
      Spend(step, limit, used + 1, left - 1, rest);
      assert Copies(Request("a", 0), left) + rest == [Request("a", 0)] + fewer;
      assert ([Request("a", 0)] + fewer)[1..] == fewer;
    }
  }

  predicate EndsIn(answers: seq<Answer>, from: nat, last: seq<Answer>) {
    |answers| == from + |last| && forall i: nat :: i < |last| ==> answers[from + i] == last[i]
  }

  function Used(used: nat): map<Org, Window> {
    if used == 0 then map[] else map["a" := Window(0, used)]
  }

  lemma OneGranted(limit: nat, window: nat, used: nat)
    requires used < limit && window > 0
    ensures Admit(limit, window, Used(used), Request("a", 0)) == (Used(used + 1), Admitted)
    ensures AdmitUnswept(limit, window, Used(used), Request("a", 0)) == (Used(used + 1), Admitted)
  {
    assert Sweep(window, map[], 0) == map[];
    assert used > 0 ==> map["a" := Window(0, used)]["a" := Window(0, used + 1)] == map["a" := Window(0, used + 1)];
  }

  // ------------------------------------------- one organization's admissions

  /** When the organization was admitted. */
  function AdmittedTimes(run: seq<Request>, answers: seq<Answer>, org: Org): seq<nat>
    requires |answers| == |run|
  {
    if run == [] then []
    else (if run[0].org == org && answers[0].Admitted? then [run[0].now] else []) +
         AdmittedTimes(run[1..], answers[1..], org)
  }

  /** An organization's admissions so far, and for each the index of the first
      admission in its window. */
  datatype History = History(times: seq<nat>, firsts: seq<nat>)

  /** Admission `k` is one of at most `limit` in its window, and not past its end. */
  predicate InWindow(limit: nat, window: nat, h: History, k: nat) {
    && k < |h.firsts| == |h.times|
    && h.firsts[k] <= k < h.firsts[k] + limit
    && h.firsts[h.firsts[k]] == h.firsts[k]
    && h.times[k] < h.times[h.firsts[k]] + window
  }

  predicate NewWindowAt(firsts: seq<nat>, k: nat) {
    0 < k < |firsts| && firsts[k] != firsts[k - 1]
  }

  /** The window before the one that opens at `k` has ended by the time `now`. */
  predicate EndedBy(window: nat, h: History, k: nat, now: nat) {
    0 < k <= |h.firsts| && h.firsts[k - 1] < |h.times| && h.times[h.firsts[k - 1]] + window <= now
  }

  /** Windows are runs of at most `limit` admissions before their end; a new one
      opens only after a reading past the end of the one before it, so no admission
      from then on lags that end by more than `lag`. */
  ghost predicate Windowed(limit: nat, window: nat, lag: nat, h: History) {
    && |h.firsts| == |h.times|
    && (forall k: nat :: k < |h.times| ==> InWindow(limit, window, h, k))
    && (forall k: nat :: NewWindowAt(h.firsts, k) ==> h.firsts[k] == k)
    && (forall k: nat, m: nat :: NewWindowAt(h.firsts, k) && k <= m < |h.times| ==>
          EndedBy(window, h, k, h.times[m] + lag))
  }

  /** The entry of the table describes the last window of the history; an entry that
      was swept had ended by the highest reading so far. */
  ghost predicate Describes(
    limit: nat, window: nat, lag: nat, h: History, table: map<Org, Window>, org: Org, high: nat)
  {
    && Windowed(limit, window, lag, h)
    && (forall k: nat :: NewWindowAt(h.firsts, k) ==> EndedBy(window, h, k, high))
    && (org !in table ==> h.times == [] || EndedBy(window, h, |h.times|, high))
    && (org in table ==> LastWindowIs(h, table[org]))
  }

  predicate LastWindowIs(h: History, entry: Window) {
    && |h.firsts| == |h.times| > 0
    && var first := h.firsts[|h.times| - 1];
       first < |h.times| && entry == Window(h.times[first], |h.times| - first)
  }

  /** One more admission, in the last window or the first of a new one. */
  lemma OneMore(limit: nat, window: nat, lag: nat, h: History, high: nat, now: nat, first: nat) returns (h': History)
    requires limit > 0 && window > 0 && Windowed(limit, window, lag, h) && high <= now + lag
    requires forall k: nat :: NewWindowAt(h.firsts, k) ==> EndedBy(window, h, k, high)
    requires if first == |h.times| then h.times == [] || EndedBy(window, h, |h.times|, if now > high then now else high)
             else && h.times != [] && first == h.firsts[|h.times| - 1]
                  && first < |h.times| < first + limit && now < h.times[first] + window
    ensures h' == History(h.times + [now], h.firsts + [first])
    ensures Windowed(limit, window, lag, h')
    ensures forall k: nat :: NewWindowAt(h'.firsts, k) ==> EndedBy(window, h', k, if now > high then now else high)
  {
    h' := History(h.times + [now], h.firsts + [first]);
    assert h.times != [] ==> InWindow(limit, window, h, |h.times| - 1);
    forall k: nat | k < |h'.times| ensures InWindow(limit, window, h', k) {
      assert k < |h.times| ==> InWindow(limit, window, h, k);
    }
    forall k: nat | NewWindowAt(h'.firsts, k)
      ensures h'.firsts[k] == k && EndedBy(window, h', k, if now > high then now else high)
    {
      assert k < |h.times| ==> NewWindowAt(h.firsts, k);
    }
    forall k: nat, m: nat | NewWindowAt(h'.firsts, k) && k <= m < |h'.times|
      ensures EndedBy(window, h', k, h'.times[m] + lag)
    {
      if k < |h.times| {
        assert NewWindowAt(h.firsts, k);
        assert m < |h.times| ==> EndedBy(window, h, k, h.times[m] + lag);
      }
    }
  }

  /** Whether a request opens a window of its own. */
  predicate Opens(window: nat, table: map<Org, Window>, r: Request) {
    r.org in table ==> Elapsed(r.now, table[r.org].startedAt) >= window
  }

  lemma OwnEntry(limit: nat, window: nat, table: map<Org, Window>, r: Request)
    requires limit > 0 && window > 0
    ensures var (next, answer) := Admit(limit, window, table, r);
            && r.org in next
            && (Opens(window, table, r) ==> answer.Admitted? && next[r.org] == Window(r.now, 1))
            && (!Opens(window, table, r) && answer.Admitted? ==>
                  next[r.org] == Window(table[r.org].startedAt, table[r.org].count + 1) && table[r.org].count < limit)
            && (answer.Rejected? ==> r.org in table && next[r.org] == table[r.org])
  {
  }

  lemma OtherEntry(limit: nat, window: nat, table: map<Org, Window>, r: Request, org: Org)
    requires r.org != org && window > 0
    ensures var next := Admit(limit, window, table, r).0;
            if org in next then org in table && next[org] == table[org]
            else org in table ==> table[org].startedAt + window <= r.now
  {
  }

  lemma DescribesLater(
    limit: nat, window: nat, lag: nat, h: History, table: map<Org, Window>, next: map<Org, Window>, org: Org,
    high: nat, higher: nat)
    requires Describes(limit, window, lag, h, table, org, high) && high <= higher
    requires if org in next then org in table && next[org] == table[org]
             else org in table ==> table[org].startedAt + window <= higher
    ensures Describes(limit, window, lag, h, next, org, higher)
  {
    forall k: nat | NewWindowAt(h.firsts, k) ensures EndedBy(window, h, k, higher) {
      assert EndedBy(window, h, k, high);
    }
    assert h.times != [] ==> InWindow(limit, window, h, |h.times| - 1);
  }

  lemma OneRequest(
    limit: nat, window: nat, lag: nat, table: map<Org, Window>, h: History, high: nat, r: Request, org: Org)
    returns (h': History)
    requires limit > 0 && window > 0 && high <= r.now + lag && Describes(limit, window, lag, h, table, org, high)
    ensures var (next, answer) := Admit(limit, window, table, r);
            && Describes(limit, window, lag, h', next, org, if r.now > high then r.now else high)
            && h'.times == h.times + if r.org == org && answer.Admitted? then [r.now] else []
  {
    var (next, answer) := Admit(limit, window, table, r);
    var higher := if r.now > high then r.now else high;
    Neutral(h.times);
    if r.org != org {
      OtherEntry(limit, window, table, r, org);
      h' := h;
      DescribesLater(limit, window, lag, h, table, next, org, high, higher);
    } else {
      OwnEntry(limit, window, table, r);
      if answer.Rejected? {
        h' := h;
        DescribesLater(limit, window, lag, h, table, next, org, high, higher);
      } else {
        h' := OneAdmission(limit, window, lag, table, h, high, r, next[org]);
      }
    }
  }

  lemma OneAdmission(
    limit: nat, window: nat, lag: nat, table: map<Org, Window>, h: History, high: nat, r: Request, entry: Window)
    returns (h': History)
    requires limit > 0 && window > 0 && high <= r.now + lag && Describes(limit, window, lag, h, table, r.org, high)
    requires if Opens(window, table, r) then entry == Window(r.now, 1)
             else table[r.org].count < limit && entry == Window(table[r.org].startedAt, table[r.org].count + 1)
    ensures h'.times == h.times + [r.now] && Windowed(limit, window, lag, h') && LastWindowIs(h', entry)
    ensures forall k: nat :: NewWindowAt(h'.firsts, k) ==> EndedBy(window, h', k, if r.now > high then r.now else high)
  {
    assert h.times != [] ==> InWindow(limit, window, h, |h.times| - 1);
    var first := if Opens(window, table, r) then |h.times| else h.firsts[|h.times| - 1];
    h' := OneMore(limit, window, lag, h, high, r.now, first);
  }

  lemma {:induction false} RunIsDescribed(
    limit: nat, window: nat, lag: nat, table: map<Org, Window>, h: History, high: nat, run: seq<Request>, org: Org)
    returns (end: History)
    requires limit > 0 && window > 0 && Ordered(run, lag)
    requires forall j :: 0 <= j < |run| ==> high <= run[j].now + lag
    requires Describes(limit, window, lag, h, table, org, high)
    ensures Windowed(limit, window, lag, end)
    ensures end.times == h.times + AdmittedTimes(run, Run(Swept(limit, window), table, run), org)
    decreases run
  {
    if run == [] {
      end := h;
      Neutral(h.times);
    } else {
      var r := run[0];
      assert [r] + run[1..] == run;
      var (next, answer) := Admit(limit, window, table, r);
      var h' := OneRequest(limit, window, lag, table, h, high, r, org);
      end := RunIsDescribed(limit, window, lag, next, h', if r.now > high then r.now else high, run[1..], org);
      assert Run(Swept(limit, window), table, run) == [answer] + Run(Swept(limit, window), next, run[1..]);
      AdmittedTimesCons(h.times, r, run[1..], answer, Run(Swept(limit, window), next, run[1..]), org);
    }
  }

  lemma AdmittedTimesCons(
    before: seq<nat>, r: Request, run: seq<Request>, answer: Answer, answers: seq<Answer>, org: Org)
    requires |answers| == |run|
    ensures before + AdmittedTimes([r] + run, [answer] + answers, org) ==
            before + (if r.org == org && answer.Admitted? then [r.now] else []) + AdmittedTimes(run, answers, org)
  {
    assert ([r] + run)[1..] == run && ([answer] + answers)[1..] == answers;
    Regroup(before, if r.org == org && answer.Admitted? then [r.now] else [], AdmittedTimes(run, answers, org));
  }

  /** The next window opens at most `limit` admissions after this one did. */
  lemma {:induction false} NextWindow(firsts: seq<nat>, k: nat, probe: nat) returns (next: nat)
    requires k <= probe < |firsts| && firsts[probe] != firsts[k]
    ensures k < next <= probe && NewWindowAt(firsts, next) && firsts[next - 1] == firsts[k]
    decreases probe
  {
    if firsts[probe - 1] == firsts[k] {
      next := probe;
    } else {
      next := NextWindow(firsts, k, probe - 1);
    }
  }

  /** By how much less than a window 2 * limit admissions may span. A window's first
      reading may lag the end of the window before it; unless each admission is the
      first of its window, one before it may come as late as that end. */
  function Slack(limit: nat, lag: nat): nat {
    if limit == 1 || lag == 0 then lag else 2 * lag - 1
  }

  /** Any 2 * limit admissions in a row span at least a window, less the slack. */
  lemma AdmissionsAreSpaced(limit: nat, window: nat, lag: nat, h: History, k: nat, m: nat)
    requires limit > 0 && Windowed(limit, window, lag, h) && k + 2 * limit - 1 <= m < |h.times|
    ensures h.times[k] + window <= h.times[m] + Slack(limit, lag)
  {
    assert InWindow(limit, window, h, k);
    var second := NextOpens(limit, window, lag, h, k);
    if h.firsts[k] < k {
      var third := NextOpens(limit, window, lag, h, second);
      assert third <= m && h.times[k] < h.times[second] + lag;
    }
  }

  lemma NextOpens(limit: nat, window: nat, lag: nat, h: History, k: nat) returns (next: nat)
    requires limit > 0 && Windowed(limit, window, lag, h) && k < |h.times| && InWindow(limit, window, h, k)
    requires h.firsts[k] + limit < |h.times|
    ensures k < next <= h.firsts[k] + limit && h.firsts[next] == next
    ensures forall m: nat :: next <= m < |h.times| ==> h.times[h.firsts[k]] + window <= h.times[m] + lag
  {
    var probe := h.firsts[k] + limit;
    assert InWindow(limit, window, h, probe);
    next := NextWindow(h.firsts, k, probe);
    forall m: nat | next <= m < |h.times| ensures h.times[h.firsts[k]] + window <= h.times[m] + lag {
      assert EndedBy(window, h, next, h.times[m] + lag);
    }
  }

  function CountIn(times: seq<nat>, from: nat, to: nat): nat {
    if times == [] then 0
    else (if from <= times[0] < to then 1 else 0) + CountIn(times[1..], from, to)
  }

  /** The first and the last member of an interval enclose all of them. */
  lemma {:induction false} IntervalIsEnclosed(times: seq<nat>, from: nat, to: nat) returns (first: nat, last: nat)
    requires CountIn(times, from, to) > 0
    ensures first <= last < |times| && CountIn(times, from, to) <= last - first + 1
    ensures from <= times[first] < to && from <= times[last] < to
  {
    if CountIn(times[1..], from, to) > 0 {
      first, last := IntervalIsEnclosed(times[1..], from, to);
      first, last := if from <= times[0] < to then 0 else first + 1, last + 1;
    } else {
      first, last := 0, 0;
    }
  }

  function AdmissionTimes(limit: nat, window: nat, table: map<Org, Window>, run: seq<Request>, org: Org): seq<nat> {
    AdmittedTimes(run, Run(Swept(limit, window), table, run), org)
  }

  /** The admissions of the organization in the interval of that length. */
  function AdmissionsIn(
    limit: nat, window: nat, table: map<Org, Window>, run: seq<Request>, org: Org, from: nat, length: nat): nat
  {
    CountIn(AdmissionTimes(limit, window, table, run, org), from, from + length)
  }

  /** Over any run one organization's admissions fall into windows of at most `limit`.
      If no reading lags by more than `lag`, fewer than 2 * limit of them lie in any
      half-open interval shorter than a window by the slack. */
  lemma FewerThanTwiceTheLimit(
    limit: nat, window: nat, lag: nat, run: seq<Request>, org: Org, from: nat, length: nat)
    returns (h: History)
    requires limit > 0 && window > 0 && Ordered(run, lag)
    requires length == 0 || length + Slack(limit, lag) <= window
    ensures h.times == AdmissionTimes(limit, window, map[], run, org) && Windowed(limit, window, lag, h)
    ensures AdmissionsIn(limit, window, map[], run, org, from, length) < 2 * limit
  {
    h := RunIsDescribed(limit, window, lag, map[], History([], []), 0, run, org);
    Neutral(AdmissionTimes(limit, window, map[], run, org));
    if CountIn(h.times, from, from + length) >= 2 * limit {
      var first, last := IntervalIsEnclosed(h.times, from, from + length);
      AdmissionsAreSpaced(limit, window, lag, h, first, last);
      assert false;
    }
  }

  /** No longer interval will do: the bound is exact for every limit, window and lag. */
  lemma FewerThanTwiceTheLimitIff(limit: nat, window: nat, lag: nat, length: nat)
    requires limit > 0 && window > 0
    ensures length == 0 || length + Slack(limit, lag) <= window <==>
            forall run, org, from :: Ordered(run, lag) ==>
              AdmissionsIn(limit, window, map[], run, org, from, length) < 2 * limit
  {
    if length == 0 || length + Slack(limit, lag) <= window {
      forall run, org, from | Ordered(run, lag)
        ensures AdmissionsIn(limit, window, map[], run, org, from, length) < 2 * limit
      {
        var h := FewerThanTwiceTheLimit(limit, window, lag, run, org, from, length);
      }
    } else {
      var late := if lag < window then lag else window;
      if limit == 1 || lag == 0 {
        var run := TwoWindows(limit, window, late, length);
        assert Ordered(run, lag);
      } else {
        var run := ThreeWindows(limit, window, late, length);
        assert Ordered(run, lag);
      }
    }
  }

  // ------------------------------------------------------ runs that meet the bound

  type Counter = (map<Org, Window>, seq<Request>) -> nat

  /** The counter adds up a run's admissions of "a" in an interval, request by request. */
  ghost predicate Counts(count: Counter, limit: nat, window: nat, from: nat, to: nat) {
    forall table, r, rest :: count(table, [r] + rest) == count(Admit(limit, window, table, r).0, rest) +
      if r.org == "a" && Admit(limit, window, table, r).1.Admitted? && from <= r.now < to then 1 else 0
  }

  lemma CounterOf(limit: nat, window: nat, run: seq<Request>, from: nat, length: nat) returns (count: Counter)
    ensures Counts(count, limit, window, from, from + length)
    ensures count(map[], run) == AdmissionsIn(limit, window, map[], run, "a", from, length)
  {
    count := (table, run) => AdmissionsIn(limit, window, table, run, "a", from, length);
    forall table, r: Request, rest
      ensures count(table, [r] + rest) == count(Admit(limit, window, table, r).0, rest) +
        if r.org == "a" && Admit(limit, window, table, r).1.Admitted? && from <= r.now < from + length then 1 else 0
    {
      OneCounted(limit, window, table, r, rest, from, length);
    }
  }

  lemma OneCounted(
    limit: nat, window: nat, table: map<Org, Window>, r: Request, rest: seq<Request>, from: nat, length: nat)
    ensures var (next, answer) := Admit(limit, window, table, r);
            AdmissionsIn(limit, window, table, [r] + rest, "a", from, length) ==
            AdmissionsIn(limit, window, next, rest, "a", from, length) +
            if r.org == "a" && answer.Admitted? && from <= r.now < from + length then 1 else 0
  {
    assert ([r] + rest)[1..] == rest;
    var (next, answer) := Admit(limit, window, table, r);
    var answers := Run(Swept(limit, window), next, rest);
    assert Run(Swept(limit, window), table, [r] + rest) == [answer] + answers;
    assert ([answer] + answers)[1..] == answers;
    var times := AdmittedTimes(rest, answers, "a");
    assert ([r.now] + times)[1..] == times;
    Neutral(times);
  }

  function Weight(r: Request, n: nat, from: nat, to: nat): nat {
    if r.org == "a" && from <= r.now < to then n else 0
  }

  lemma FirstCopy(r: Request, n: nat, rest: seq<Request>)
    requires n > 0
    ensures Copies(r, n) + rest == [r] + (Copies(r, n - 1) + rest)
  {
  }

  lemma Stays(limit: nat, window: nat, table: map<Org, Window>, r: Request, startedAt: nat, used: nat)
    requires used < limit && Elapsed(r.now, startedAt) < window
    ensures Admit(limit, window, table[r.org := Window(startedAt, used)], r) ==
            (table[r.org := Window(startedAt, used + 1)], Admitted)
  {
    assert table[r.org := Window(startedAt, used)][r.org := Window(startedAt, used + 1)] ==
           table[r.org := Window(startedAt, used + 1)];
  }

  lemma Opening(limit: nat, window: nat, table: map<Org, Window>, r: Request)
    requires r.org !in table && limit > 0 && window > 0
    ensures Admit(limit, window, table, r) == (Sweep(window, table, r.now)[r.org := Window(r.now, 1)], Admitted)
  {
  }

  /** Requests at one instant, all admitted into the organization's open window. */
  lemma {:induction false} CopiesCounted(
    count: Counter, limit: nat, window: nat, from: nat, to: nat,
    table: map<Org, Window>, r: Request, startedAt: nat, used: nat, n: nat, rest: seq<Request>)
    requires Counts(count, limit, window, from, to)
    requires used + n <= limit && Elapsed(r.now, startedAt) < window
    ensures count(table[r.org := Window(startedAt, used)], Copies(r, n) + rest) ==
            Weight(r, n, from, to) + count(table[r.org := Window(startedAt, used + n)], rest)
    decreases n
  {
    if n == 0 {
      assert Copies(r, n) + rest == rest;
    } else {
      FirstCopy(r, n, rest);
      Stays(limit, window, table, r, startedAt, used);
      CopiesCounted(count, limit, window, from, to, table, r, startedAt, used + 1, n - 1, rest);
    }
  }

  /** Requests at one instant, the first of which opens the organization's window. */
  lemma NewCopiesCounted(
    count: Counter, limit: nat, window: nat, from: nat, to: nat,
    table: map<Org, Window>, swept: map<Org, Window>, r: Request, n: nat, rest: seq<Request>)
    requires Counts(count, limit, window, from, to)
    requires r.org !in table && 0 < n <= limit && window > 0 && swept == Sweep(window, table, r.now)
    ensures count(table, Copies(r, n) + rest) ==
            Weight(r, n, from, to) + count(swept[r.org := Window(r.now, n)], rest)
  {
    FirstCopy(r, n, rest);
    Opening(limit, window, table, r);
    CopiesCounted(count, limit, window, from, to, swept, r, r.now, 1, n - 1, rest);
  }

  ghost predicate AllFrom(run: seq<Request>, low: nat) {
    forall i :: 0 <= i < |run| ==> low <= run[i].now
  }

  /** Readings at one instant before others that lag it by no more than `lag`. */
  lemma OrderedCopies(r: Request, n: nat, rest: seq<Request>, lag: nat, low: nat)
    requires Ordered(rest, lag) && AllFrom(rest, low) && r.now <= low + lag
    ensures Ordered(Copies(r, n) + rest, lag) && AllFrom(Copies(r, n) + rest, if r.now < low then r.now else low)
  {
    CopiesAreEqual(r, n);
  }

  lemma NothingToSweep(window: nat)
    ensures Sweep(window, map[], 0) == map[]
  {
  }

  /** A whole window at zero; another organization's reading at its end has it swept;
      a whole window of readings that lag that one. */
  function TwoWindowsRun(limit: nat, window: nat, late: nat): seq<Request>
    requires late <= window
  {
    Copies(Request("a", 0), limit) + (Copies(Request("b", window), 1) +
      (Copies(Request("a", window - late), limit) + []))
  }

  lemma TwoWindows(limit: nat, window: nat, late: nat, length: nat) returns (run: seq<Request>)
    requires limit > 0 && window > 0 && late <= window && length > 0 && length + late > window
    ensures Ordered(run, late) && AdmissionsIn(limit, window, map[], run, "a", 0, length) >= 2 * limit
  {
    run := TwoWindowsRun(limit, window, late);
    TwoAreOrdered(limit, window, late);
    var count := CounterOf(limit, window, run, 0, length);
    TwoAreCounted(count, limit, window, late, length);
  }

  lemma TwoAreOrdered(limit: nat, window: nat, late: nat)
    requires late <= window
    ensures Ordered(TwoWindowsRun(limit, window, late), late)
  {
    var r2 := Copies(Request("a", window - late), limit) + [];
    OrderedCopies(Request("a", window - late), limit, [], late, window - late);
    OrderedCopies(Request("b", window), 1, r2, late, window - late);
    OrderedCopies(Request("a", 0), limit, Copies(Request("b", window), 1) + r2, late, window - late);
  }

  lemma TwoAreCounted(count: Counter, limit: nat, window: nat, late: nat, to: nat)
    requires limit > 0 && window > 0 && late <= window && to > 0 && to + late > window
    requires Counts(count, limit, window, 0, to)
    ensures count(map[], TwoWindowsRun(limit, window, late)) >= 2 * limit
  {
    var first, b, second := Request("a", 0), Request("b", window), Request("a", window - late);
    var r2 := Copies(second, limit) + [];
    var spent, other := map["a" := Window(0, limit)], map["b" := Window(window, 1)];
    NothingToSweep(window);
    NewCopiesCounted(count, limit, window, 0, to, map[], map[], first, limit, Copies(b, 1) + r2);
    assert Sweep(window, spent, window) == map[];
    NewCopiesCounted(count, limit, window, 0, to, spent, map[], b, 1, r2);
    NewCopiesCounted(count, limit, window, 0, to, other, Sweep(window, other, second.now), second, limit, []);
  }

  /** Almost a whole limit just before a window's end; after a sweep the next window
      opens as late as it may and holds almost a whole limit at the same instant; the
      third again opens as late as it may. */
  function ThreeWindowsRun(limit: nat, window: nat, late: nat, last: nat): seq<Request>
    requires limit > 0 && late <= window && window > 0
  {
    Copies(Request("a", 0), 1) + (Copies(Request("a", window - 1), limit - 1) +
      (Copies(Request("b", window), 1) + FromSecondOn(limit, window, late, last)))
  }

  function FromSecondOn(limit: nat, window: nat, late: nat, last: nat): seq<Request>
    requires limit > 0 && late <= window && window > 0
  {
    Copies(Request("a", window - late), 1) + (Copies(Request("a", window - 1), limit - 1) +
      FromThirdOn(window - late + window, last))
  }

  function FromThirdOn(end: nat, last: nat): seq<Request> {
    Copies(Request("c", end), 1) + (Copies(Request("a", last), 2) + [])
  }

  lemma ThreeWindows(limit: nat, window: nat, late: nat, length: nat) returns (run: seq<Request>)
    requires limit > 1 && 0 < late <= window && length > 0 && length + 2 * late > window + 1
    ensures Ordered(run, late) && AdmissionsIn(limit, window, map[], run, "a", window - 1, length) >= 2 * limit
  {
    var end := window - late + window;
    var last := if end > window - 1 + late then end - late else window - 1;
    run := ThreeWindowsRun(limit, window, late, last);
    ThreeAreOrdered(limit, window, late, last);
    var count := CounterOf(limit, window, run, window - 1, length);
    UpToSecond(count, limit, window, window - 1 + length, FromSecondOn(limit, window, late, last));
    FromSecond(count, limit, window, late, last, window - 1 + length);
  }

  lemma ThreeAreOrdered(limit: nat, window: nat, late: nat, last: nat)
    requires limit > 1 && 0 < late <= window && last >= window - 1 && window - late + window <= last + late
    ensures Ordered(ThreeWindowsRun(limit, window, late, last), late)
  {
    var most := Request("a", window - 1);
    var r3 := FromSecondOn(limit, window, late, last);
    var r2 := Copies(Request("b", window), 1) + r3;
    SecondIsOrdered(limit, window, late, last);
    OrderedCopies(Request("b", window), 1, r3, late, window - late);
    OrderedCopies(most, limit - 1, r2, late, window - late);
    OrderedCopies(Request("a", 0), 1, Copies(most, limit - 1) + r2, late, window - late);
  }

  lemma SecondIsOrdered(limit: nat, window: nat, late: nat, last: nat)
    requires limit > 1 && 0 < late <= window && last >= window - 1 && window - late + window <= last + late
    ensures Ordered(FromSecondOn(limit, window, late, last), late)
    ensures AllFrom(FromSecondOn(limit, window, late, last), window - late)
  {
    var most, r5 := Request("a", window - 1), FromThirdOn(window - late + window, last);
    ThirdIsOrdered(window - late + window, last, late, window - 1);
    OrderedCopies(most, limit - 1, r5, late, window - 1);
    OrderedCopies(Request("a", window - late), 1, Copies(most, limit - 1) + r5, late, window - 1);
  }

  lemma ThirdIsOrdered(end: nat, last: nat, late: nat, low: nat)
    requires low <= last && low <= end <= last + late
    ensures Ordered(FromThirdOn(end, last), late) && AllFrom(FromThirdOn(end, last), low)
  {
    OrderedCopies(Request("a", last), 2, [], late, last);
    OrderedCopies(Request("c", end), 1, Copies(Request("a", last), 2) + [], late, last);
  }

  lemma UpToSecond(count: Counter, limit: nat, window: nat, to: nat, rest: seq<Request>)
    requires limit > 1 && 0 < window <= to && Counts(count, limit, window, window - 1, to)
    ensures count(map[], Copies(Request("a", 0), 1) + (Copies(Request("a", window - 1), limit - 1) +
                           (Copies(Request("b", window), 1) + rest)))
            >= limit - 1 + count(map["b" := Window(window, 1)], rest)
  {
    var first, most, b := Request("a", 0), Request("a", window - 1), Request("b", window);
    var r2 := Copies(b, 1) + rest;
    var spent := map["a" := Window(0, limit)];
    NothingToSweep(window);
    NewCopiesCounted(count, limit, window, window - 1, to, map[], map[], first, 1, Copies(most, limit - 1) + r2);
    CopiesCounted(count, limit, window, window - 1, to, map[], most, 0, 1, limit - 1, r2);
    assert Sweep(window, spent, window) == map[];
    NewCopiesCounted(count, limit, window, window - 1, to, spent, map[], b, 1, rest);
  }

  lemma FromSecond(count: Counter, limit: nat, window: nat, late: nat, last: nat, to: nat)
    requires limit > 1 && 0 < late <= window <= to && window - 1 <= last < to
    requires Counts(count, limit, window, window - 1, to)
    ensures count(map["b" := Window(window, 1)], FromSecondOn(limit, window, late, last)) >= limit + 1
  {
    var start, end, from := window - late, window - late + window, window - 1;
    var second, most, b := Request("a", start), Request("a", from), map["b" := Window(window, 1)];
    var r5 := FromThirdOn(end, last);
    assert Sweep(window, b, start) == b;
    NewCopiesCounted(count, limit, window, from, to, b, b, second, 1, Copies(most, limit - 1) + r5);
    CopiesCounted(count, limit, window, from, to, b, most, start, 1, limit - 1, r5);
    FromThird(count, limit, window, late, last, to);
  }

  lemma FromThird(count: Counter, limit: nat, window: nat, late: nat, last: nat, to: nat)
    requires limit > 1 && 0 < late <= window <= to && window - 1 <= last < to
    requires Counts(count, limit, window, window - 1, to)
    ensures var end := window - late + window;
            count(map["b" := Window(window, 1)]["a" := Window(window - late, limit)], FromThirdOn(end, last)) >= 2
  {
    var end, b := window - late + window, map["b" := Window(window, 1)];
    var spent, after := b["a" := Window(window - late, limit)], b["c" := Window(end, 1)];
    var c, third := Request("c", end), Request("a", last);
    assert Sweep(window, spent, end) == b;
    NewCopiesCounted(count, limit, window, window - 1, to, spent, b, c, 1, Copies(third, 2) + []);
    NewCopiesCounted(count, limit, window, window - 1, to, after, Sweep(window, after, last), third, 2, []);
  }

  // ------------------------------------------------------------- retry times

  /** A refused organization is admitted exactly from the end of its window on. The
      reported time leads there from the refusal, or from the start of the window
      if the refusal's reading lies before it. */
  lemma RetryAfterIsExact(limit: nat, window: nat, windows: map<Org, Window>, r: Request, later: nat)
    requires limit > 0 && window > 0
    requires Admit(limit, window, windows, r).1.Rejected?
    ensures var (next, answer) := Admit(limit, window, windows, r);
            var startedAt := next[r.org].startedAt;
            && 0 < answer.retryAfter <= window
            && (Admit(limit, window, next, Request(r.org, later)).1.Admitted? <==> startedAt + window <= later)
            && startedAt + window == answer.retryAfter + if r.now >= startedAt then r.now else startedAt
  {
  }
}
