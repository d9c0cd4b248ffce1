/** Ingesting evidence files: lines are inserted in batches, one statement each,
    and line by line when the database refuses a batch. The reference form is one
    statement per line. */
module Evidence {
  import opened Sequences
  import opened Wrappers

  /** What is lifted out of a record. */
  datatype Keys = Keys(requestId: Option<string>, organization: Option<string>, ts: real)

  /** A line as written, with what is decided by its text: whether it is blank,
      the keys it reads as, and whether the database can hold the record. */
  datatype Line = Line(text: string, blank: bool, keys: Option<Keys>, storable: bool)

  /** A row is identified by the line it was read from. */
  type Rows = map<Line, Keys>

  datatype Ingested = Stored | AlreadyPresent | Unreadable

  datatype Summary = Summary(stored: nat, alreadyPresent: nat, unreadable: nat) {
    function Plus(other: Summary): Summary {
      Summary(stored + other.stored, alreadyPresent + other.alreadyPresent, unreadable + other.unreadable)
    }

    function Counting(what: Ingested): Summary {
      match what
      case Stored => this.(stored := stored + 1)
      case AlreadyPresent => this.(alreadyPresent := alreadyPresent + 1)
      case Unreadable => this.(unreadable := unreadable + 1)
    }

    function Total(): nat {
      stored + alreadyPresent + unreadable
    }
  }

  datatype Entry = Entry(line: Line, keys: Keys)

  // ---------------------------------------------------------- the reference form

  /** One insert: a record the database cannot hold is refused whether or not its
      line is new; a line already there is left alone. */
  function InsertLine(rows: Rows, e: Entry): (Rows, Ingested) {
    if !e.line.storable then (rows, Unreadable)
    else if e.line in rows then (rows, AlreadyPresent)
    else (rows[e.line := e.keys], Stored)
  }

  function IngestLine(rows: Rows, line: Line): (Rows, Ingested) {
    match line.keys
    case None => (rows, Unreadable)
    case Some(keys) => InsertLine(rows, Entry(line, keys))
  }

  /** Every line that is not blank, one statement each. */
  function IngestEach(rows: Rows, lines: seq<Line>): (Rows, Summary)
    decreases lines
  {
    if lines == [] then (rows, Summary(0, 0, 0))
    else
      var last := lines[|lines| - 1];
      var (before, summary) := IngestEach(rows, lines[..|lines| - 1]);
      if last.blank then (before, summary)
      else
        var (after, what) := IngestLine(before, last);
        (after, summary.Counting(what))
  }

  // ---------------------------------------------------------- the batched form

  function InsertEach(rows: Rows, batch: seq<Entry>): (Rows, Summary)
    decreases batch
  {
    if batch == [] then (rows, Summary(0, 0, 0))
    else
      var (before, summary) := InsertEach(rows, batch[..|batch| - 1]);
      var (after, what) := InsertLine(before, batch[|batch| - 1]);
      (after, summary.Counting(what))
  }

  predicate AllStorable(batch: seq<Entry>) {
    forall i :: 0 <= i < |batch| ==> batch[i].line.storable
  }

  /** The rows of a batch, as one relation. */
  function BatchRows(batch: seq<Entry>): Rows
    decreases batch
  {
    if batch == [] then map[]
    else
      var e := batch[|batch| - 1];
      var before := BatchRows(batch[..|batch| - 1]);
      if e.line in before then before else before[e.line := e.keys]
  }

  /** The batch statement: all of it or, if the database refuses one record, none
      of it. Lines that conflict with the table or an earlier line do nothing. */
  function InsertBatch(rows: Rows, batch: seq<Entry>): Option<Rows> {
    if AllStorable(batch) then Some(BatchRows(batch) + rows) else None
  }

  lemma BatchRowsStep(rows: Rows, batch: seq<Entry>, e: Entry)
    ensures BatchRows(batch + [e]) + rows ==
            if e.line in BatchRows(batch) + rows then BatchRows(batch) + rows
            else (BatchRows(batch) + rows)[e.line := e.keys]
  {
    assert (batch + [e])[..|batch|] == batch;
  }

  lemma InsertEachSnoc(rows: Rows, batch: seq<Entry>, e: Entry)
    ensures var (before, counts) := InsertEach(rows, batch);
            && InsertEach(rows, batch + [e]).0 == InsertLine(before, e).0
            && InsertEach(rows, batch + [e]).1 == counts.Counting(InsertLine(before, e).1)
  {
    assert (batch + [e])[..|batch|] == batch;
  }

  lemma {:induction false} BatchIsEach(rows: Rows, batch: seq<Entry>)
    requires AllStorable(batch)
    ensures InsertEach(rows, batch).0 == BatchRows(batch) + rows
    ensures |rows| <= |BatchRows(batch) + rows| <= |rows| + |batch|
    ensures var gained := |BatchRows(batch) + rows| - |rows|;
            InsertEach(rows, batch).1 == Summary(gained, |batch| - gained, 0)
    decreases batch
  {
    if batch == [] {
      assert map[] + rows == rows;
    } else {
      var before, e := batch[..|batch| - 1], batch[|batch| - 1];
      assert before + [e] == batch;
      BatchIsEach(rows, before);
      BatchSnocIsEach(rows, before, e);
      assert |before| + 1 == |batch|;
    }
  }

  lemma BatchSnocIsEach(rows: Rows, batch: seq<Entry>, e: Entry)
    requires e.line.storable
    requires InsertEach(rows, batch).0 == BatchRows(batch) + rows
    requires |rows| <= |BatchRows(batch) + rows| <= |rows| + |batch|
    requires var gained := |BatchRows(batch) + rows| - |rows|;
             InsertEach(rows, batch).1 == Summary(gained, |batch| - gained, 0)
    ensures InsertEach(rows, batch + [e]).0 == BatchRows(batch + [e]) + rows
    ensures |rows| <= |BatchRows(batch + [e]) + rows| <= |rows| + |batch| + 1
    ensures var gained := |BatchRows(batch + [e]) + rows| - |rows|;
            InsertEach(rows, batch + [e]).1 == Summary(gained, |batch| + 1 - gained, 0)
  {
    InsertEachSnoc(rows, batch, e);
    BatchRowsStep(rows, batch, e);
    OneMoreRow(BatchRows(batch) + rows, e);
  }

  lemma OneMoreRow(rows: Rows, e: Entry)
    ensures e.line !in rows ==> |rows[e.line := e.keys]| == |rows| + 1
  {
  }

  // ----------------------------------------------------------------- the store

  datatype IngestResult = Ok(summary: Summary) | Failed

  /** What comes of a statement: an answer, or a failure to answer, which leaves open
      whether the statement was committed. */
  datatype Fate = Answered | Lost(committed: bool)

  class PlatformStore {
    const batchLines: nat
    /** What comes of each statement, by number. */
    const fates: nat -> Fate
    var rows: Rows
    var statements: nat

    constructor (batchLines: nat, fates: nat -> Fate)
      requires batchLines > 0
      ensures this.batchLines == batchLines && rows == map[]
    {
      this.batchLines, this.fates := batchLines, fates;
      rows, statements := map[], 0;
    }

    /** A lost statement took effect exactly if it was committed. */
    method InsertEvidence(e: Entry) returns (what: Option<Ingested>)
      modifies this
      ensures statements == old(statements) + 1
      ensures what.None? <==> fates(old(statements)).Lost?
      ensures what == None && !fates(old(statements)).committed ==> rows == old(rows)
      ensures what == None && fates(old(statements)).committed ==> rows == InsertLine(old(rows), e).0
      ensures what.Some? ==> (rows, what.value) == InsertLine(old(rows), e)
    {
      var fate := fates(statements);
      statements := statements + 1;
      if fate == Lost(false) {
        return None;
      }
      if !e.line.storable {
        what := Some(Unreadable);
      } else if e.line in rows {
        what := Some(AlreadyPresent);
      } else {
        rows := rows[e.line := e.keys];
        what := Some(Stored);
      }
      if fate.Lost? {
        what := None;
      }
    }

    /** On failure a prefix of the batch is stored: none of it or, if the lost statement
        was committed, all of it, or what the lines retried before the failure leave. */
    method IngestBatch(batch: seq<Entry>, summary: Summary) returns (result: IngestResult)
      modifies this
      ensures result.Ok? ==>
                var (after, counts) := InsertEach(old(rows), batch);
                rows == after && result.summary == summary.Plus(counts)
      ensures result.Failed? ==>
                exists k | 0 <= k <= |batch| :: rows == InsertEach(old(rows), batch[..k]).0
    {
      var fate := fates(statements);
      statements := statements + 1;
      var inserted := InsertBatch(rows, batch);
      if fate == Lost(false) || (fate.Lost? && inserted.None?) {
        assert batch[..0] == [] && rows == InsertEach(rows, batch[..0]).0;
        return Failed;
      }
      if inserted.Some? {
        BatchIsEach(rows, batch);
        if fate.Lost? {
          rows := inserted.value;
          assert batch[..|batch|] == batch && rows == InsertEach(old(rows), batch[..|batch|]).0;
          return Failed;
        }
        var stored := |inserted.value| - |rows|;
        rows := inserted.value;
        return Ok(summary.(stored := summary.stored + stored,
                           alreadyPresent := summary.alreadyPresent + (|batch| - stored)));
      }
      result := IngestSingly(batch, summary);
    }

    /** The batch line by line. */
    method IngestSingly(batch: seq<Entry>, summary: Summary) returns (result: IngestResult)
      modifies this
      ensures result.Ok? ==>
                var (after, counts) := InsertEach(old(rows), batch);
                rows == after && result.summary == summary.Plus(counts)
      ensures result.Failed? ==>
                exists k | 0 <= k <= |batch| :: rows == InsertEach(old(rows), batch[..k]).0
    {
      var counts := summary;
      for i := 0 to |batch|
        invariant rows == InsertEach(old(rows), batch[..i]).0
        invariant counts == summary.Plus(InsertEach(old(rows), batch[..i]).1)
      {
        TakeOneMore(batch, i);
        InsertEachSnoc(old(rows), batch[..i], batch[i]);
        var what := InsertEvidence(batch[i]);
        if what.None? {
          assert rows == InsertEach(old(rows), batch[..i]).0 || rows == InsertEach(old(rows), batch[..i + 1]).0;
          return Failed;
        }
        counts := counts.Counting(what.value);
      }
      assert batch[..|batch|] == batch;
      result := Ok(counts);
    }

    /** For every file and batch size: what a full ingestion leaves and counts is
        what one statement per line leaves and counts; a failed one leaves what
        some prefix of the lines leaves. */
    method IngestEvidence(lines: seq<Line>) returns (result: IngestResult)
      requires batchLines > 0
      modifies this
      ensures result.Ok? ==> (rows, result.summary) == IngestEach(old(rows), lines)
      ensures result.Failed? ==> LeavesPrefix(old(rows), lines, rows)
    {
      var summary := Summary(0, 0, 0);
      var batch: seq<Entry> := [];
      ghost var done: seq<Entry> := [];
      assert lines[..0] == [];
      for i := 0 to |lines|
        invariant |batch| < batchLines
        invariant InStep(old(rows), lines[..i], done, batch, rows, summary)
      {
        assert lines[..i + 1] == lines[..i] + [lines[i]];
        if lines[i].blank {
          SkipLine(old(rows), lines[..i], done, batch, rows, summary, lines[i]);
          continue;
        }
        var keys := lines[i].keys;
        if keys.Some? {
          ReadEntry(old(rows), lines[..i], done, batch, rows, summary, lines[i]);
          batch := batch + [Entry(lines[i], keys.value)];
        } else {
          SkipLine(old(rows), lines[..i], done, batch, rows, summary, lines[i]);
          summary := summary.Counting(Unreadable);
        }
        if |batch| == batchLines {
          FlushedBatch(old(rows), lines[..i + 1], done, batch, rows, summary);
          var r := IngestBatch(batch, summary);
          if r.Failed? {
            FailedBatch(old(rows), lines, i + 1, done, batch, rows);
            return Failed;
          }
          summary, batch, done := r.summary, [], done + batch;
        }
      }
      assert lines[..|lines|] == lines;
      if batch != [] {
        FlushedBatch(old(rows), lines, done, batch, rows, summary);
        var r := IngestBatch(batch, summary);
        if r.Failed? {
          FailedBatch(old(rows), lines, |lines|, done, batch, rows);
          return Failed;
        }
        summary, done := r.summary, done + batch;
      }
      AllFlushed(old(rows), lines, done, rows, summary);
      result := Ok(summary);
    }
  }

  // --------------------------------------------------- batches refine single lines

  /** The records to insert, in file order. */
  function EntriesOf(lines: seq<Line>): seq<Entry>
    decreases lines
  {
    if lines == [] then []
    else
      var last, before := lines[|lines| - 1], EntriesOf(lines[..|lines| - 1]);
      if last.blank || last.keys.None? then before else before + [Entry(last, last.keys.value)]
  }

  /** The lines that do not read as records. */
  function UnreadableIn(lines: seq<Line>): nat
    decreases lines
  {
    if lines == [] then 0
    else
      var last := lines[|lines| - 1];
      UnreadableIn(lines[..|lines| - 1]) + if !last.blank && last.keys.None? then 1 else 0
  }

  /** Unreadable lines only count, so the rows come from the entries alone... */
  lemma {:induction false} RowsOfEntries(rows: Rows, lines: seq<Line>)
    ensures IngestEach(rows, lines).0 == InsertEach(rows, EntriesOf(lines)).0
    decreases lines
  {
    if lines != [] {
      var last, before := lines[|lines| - 1], lines[..|lines| - 1];
      RowsOfEntries(rows, before);
      if !last.blank && last.keys.Some? {
        InsertEachSnoc(rows, EntriesOf(before), Entry(last, last.keys.value));
      }
    }
  }

  lemma ReadableSnoc(lines: seq<Line>, line: Line)
    requires !line.blank && line.keys.Some?
    ensures EntriesOf(lines + [line]) == EntriesOf(lines) + [Entry(line, line.keys.value)]
    ensures UnreadableIn(lines + [line]) == UnreadableIn(lines)
  {
    assert (lines + [line])[..|lines|] == lines;
  }

  lemma BlankSnoc(rows: Rows, lines: seq<Line>, line: Line)
    requires line.blank
    ensures EntriesOf(lines + [line]) == EntriesOf(lines)
    ensures UnreadableIn(lines + [line]) == UnreadableIn(lines)
    ensures IngestEach(rows, lines + [line]).1 == IngestEach(rows, lines).1
  {
    assert (lines + [line])[..|lines|] == lines;
  }

  lemma UnreadableSnoc(rows: Rows, lines: seq<Line>, line: Line)
    requires !line.blank && line.keys.None?
    ensures EntriesOf(lines + [line]) == EntriesOf(lines)
    ensures UnreadableIn(lines + [line]) == UnreadableIn(lines) + 1
    ensures IngestEach(rows, lines + [line]).1 == IngestEach(rows, lines).1.Counting(Unreadable)
  {
    assert (lines + [line])[..|lines|] == lines;
  }

  lemma IngestSnoc(rows: Rows, lines: seq<Line>, line: Line)
    ensures IngestEach(rows, lines + [line]).1 ==
            if line.blank then IngestEach(rows, lines).1
            else IngestEach(rows, lines).1.Counting(IngestLine(IngestEach(rows, lines).0, line).1)
  {
    assert (lines + [line])[..|lines|] == lines;
  }

  /** The counts of the entries, and those of the lines not among them. */
  ghost predicate Adds(counts: Summary, entries: Summary, unreadable: nat) {
    && counts.stored == entries.stored
    && counts.alreadyPresent == entries.alreadyPresent
    && counts.unreadable == entries.unreadable + unreadable
  }

  lemma AddsSame(counts: Summary, entries: Summary, unreadable: nat, what: Ingested)
    requires Adds(counts, entries, unreadable)
    ensures Adds(counts.Counting(what), entries.Counting(what), unreadable)
    ensures Adds(counts.Counting(Unreadable), entries, unreadable + 1)
  {
  }

  ghost predicate Balanced(rows: Rows, lines: seq<Line>) {
    Adds(IngestEach(rows, lines).1, InsertEach(rows, EntriesOf(lines)).1, UnreadableIn(lines))
  }

  /** ... and the counts are theirs and the unreadable lines'. */
  lemma {:induction false} CountsOfEntries(rows: Rows, lines: seq<Line>)
    ensures Balanced(rows, lines)
    decreases lines
  {
    if lines != [] {
      var last, before := lines[|lines| - 1], lines[..|lines| - 1];
      LastOff(lines);
      CountsOfEntries(rows, before);
      if !last.blank && last.keys.Some? {
        BalancedReadable(rows, before, last);
      } else {
        BalancedSkipped(rows, before, last);
      }
    }
  }

  lemma BalancedReadable(rows: Rows, lines: seq<Line>, line: Line)
    requires !line.blank && line.keys.Some? && Balanced(rows, lines)
    ensures Balanced(rows, lines + [line])
  {
    var e := Entry(line, line.keys.value);
    RowsOfEntries(rows, lines);
    IngestSnoc(rows, lines, line);
    ReadableSnoc(lines, line);
    IngestIsInsert(IngestEach(rows, lines).0, line);
    InsertEachSnoc(rows, EntriesOf(lines), e);
    AddsSame(IngestEach(rows, lines).1, InsertEach(rows, EntriesOf(lines)).1, UnreadableIn(lines),
             InsertLine(InsertEach(rows, EntriesOf(lines)).0, e).1);
  }

  lemma BalancedSkipped(rows: Rows, lines: seq<Line>, line: Line)
    requires (line.blank || line.keys.None?) && Balanced(rows, lines)
    ensures Balanced(rows, lines + [line])
  {
    if line.blank {
      BlankSnoc(rows, lines, line);
    } else {
      UnreadableSnoc(rows, lines, line);
      AddsSame(IngestEach(rows, lines).1, InsertEach(rows, EntriesOf(lines)).1, UnreadableIn(lines), Unreadable);
    }
  }

  lemma IngestIsInsert(rows: Rows, line: Line)
    requires line.keys.Some?
    ensures IngestLine(rows, line) == InsertLine(rows, Entry(line, line.keys.value))
  {
  }

  /** Between two batches: `done` are the entries inserted, `batch` those waiting. */
  ghost predicate InStep(
    start: Rows, lines: seq<Line>, done: seq<Entry>, batch: seq<Entry>, rows: Rows, summary: Summary) {
    && EntriesOf(lines) == done + batch
    && rows == InsertEach(start, done).0
    && Adds(summary, InsertEach(start, done).1, UnreadableIn(lines))
  }

  lemma ReadEntry(
    start: Rows, lines: seq<Line>, done: seq<Entry>, batch: seq<Entry>, rows: Rows, summary: Summary, line: Line)
    requires InStep(start, lines, done, batch, rows, summary)
    requires !line.blank && line.keys.Some?
    ensures InStep(start, lines + [line], done, batch + [Entry(line, line.keys.value)], rows, summary)
  {
    ReadableSnoc(lines, line);
    Regroup(done, batch, [Entry(line, line.keys.value)]);
  }

  lemma SkipLine(
    start: Rows, lines: seq<Line>, done: seq<Entry>, batch: seq<Entry>, rows: Rows, summary: Summary, line: Line)
    requires InStep(start, lines, done, batch, rows, summary)
    requires line.blank || line.keys.None?
    ensures InStep(start, lines + [line], done, batch, rows,
                   if line.blank then summary else summary.Counting(Unreadable))
  {
    if line.blank {
      BlankSnoc(start, lines, line);
    } else {
      UnreadableSnoc(start, lines, line);
      AddsSame(summary, InsertEach(start, done).1, UnreadableIn(lines), Unreadable);
    }
  }

  lemma FlushedBatch(start: Rows, lines: seq<Line>, done: seq<Entry>, batch: seq<Entry>, rows: Rows, summary: Summary)
    requires InStep(start, lines, done, batch, rows, summary)
    ensures var (after, counts) := InsertEach(rows, batch);
            InStep(start, lines, done + batch, [], after, summary.Plus(counts))
  {
    InsertEachConcat(start, done, batch);
    assert done + batch + [] == done + batch;
  }

  lemma AllFlushed(start: Rows, lines: seq<Line>, done: seq<Entry>, rows: Rows, summary: Summary)
    requires InStep(start, lines, done, [], rows, summary)
    ensures (rows, summary) == IngestEach(start, lines)
  {
    assert done + [] == done;
    RowsOfEntries(start, lines);
    CountsOfEntries(start, lines);
  }

  lemma {:induction false} InsertEachConcat(rows: Rows, a: seq<Entry>, b: seq<Entry>)
    ensures var (mid, first) := InsertEach(rows, a);
            && InsertEach(rows, a + b).0 == InsertEach(mid, b).0
            && InsertEach(rows, a + b).1 == first.Plus(InsertEach(mid, b).1)
    decreases b
  {
    if b == [] {
      assert a + b == a;
    } else {
      var before, e := b[..|b| - 1], b[|b| - 1];
      InsertEachConcat(rows, a, before);
      InsertEachSnoc(rows, a + before, e);
      assert a + b == a + before + [e];
    }
  }

  ghost predicate LeavesPrefix(start: Rows, lines: seq<Line>, rows: Rows) {
    exists n | 0 <= n <= |lines| :: PrefixRows(start, lines, n) == rows
  }

  function PrefixRows(start: Rows, lines: seq<Line>, n: nat): Rows
    requires n <= |lines|
  {
    IngestEach(start, lines[..n]).0
  }

  lemma {:induction false} EntriesPrefix(lines: seq<Line>, k: nat) returns (n: nat)
    requires k <= |EntriesOf(lines)|
    ensures n <= |lines| && EntriesOf(lines[..n]) == EntriesOf(lines)[..k]
    decreases lines
  {
    if k == |EntriesOf(lines)| {
      n := |lines|;
      assert lines[..n] == lines && EntriesOf(lines)[..k] == EntriesOf(lines);
    } else {
      var before := lines[..|lines| - 1];
      n := EntriesPrefix(before, k);
      assert before[..n] == lines[..n];
    }
  }

  /** A batch that fails part way leaves what a prefix of the file leaves. */
  lemma FailedBatch(start: Rows, lines: seq<Line>, i: nat, done: seq<Entry>, batch: seq<Entry>, rows: Rows)
    requires i <= |lines| && EntriesOf(lines[..i]) == done + batch
    requires exists k | 0 <= k <= |batch| :: rows == InsertEach(InsertEach(start, done).0, batch[..k]).0
    ensures LeavesPrefix(start, lines, rows)
  {
    var k :| 0 <= k <= |batch| && rows == InsertEach(InsertEach(start, done).0, batch[..k]).0;
    TakePastFirst(done, batch, k);
    InsertEachConcat(start, done, batch[..k]);
    PrefixOfEntries(start, lines, i, |done| + k);
  }

  lemma PrefixOfEntries(start: Rows, lines: seq<Line>, i: nat, k: nat)
    requires i <= |lines| && k <= |EntriesOf(lines[..i])|
    ensures LeavesPrefix(start, lines, InsertEach(start, EntriesOf(lines[..i])[..k]).0)
  {
    var n := EntriesPrefix(lines[..i], k);
    assert lines[..i][..n] == lines[..n];
    RowsOfEntries(start, lines[..n]);
    assert PrefixRows(start, lines, n) == InsertEach(start, EntriesOf(lines[..i])[..k]).0;
  }

  // --------------------------------------------------------------- convergence

  function NonBlank(lines: seq<Line>): nat
    decreases lines
  {
    if lines == [] then 0
    else NonBlank(lines[..|lines| - 1]) + if lines[|lines| - 1].blank then 0 else 1
  }

  /** The counts add up to the lines that are not blank... */
  lemma {:induction false} CountsAddUp(rows: Rows, lines: seq<Line>)
    ensures IngestEach(rows, lines).1.Total() == NonBlank(lines)
    decreases lines
  {
    if lines != [] {
      CountsAddUp(rows, lines[..|lines| - 1]);
    }
  }

  /** ... and the stored ones are the rows gained. */
  lemma {:induction false} StoredAreRowsGained(rows: Rows, lines: seq<Line>)
    ensures |IngestEach(rows, lines).0| == |rows| + IngestEach(rows, lines).1.stored
    decreases lines
  {
    if lines != [] {
      var last, before := lines[|lines| - 1], lines[..|lines| - 1];
      StoredAreRowsGained(rows, before);
      if !last.blank && last.keys.Some? {
        OneMoreRow(IngestEach(rows, before).0, Entry(last, last.keys.value));
      }
    }
  }

  /** A line the store ends up holding, if it did not already. */
  predicate IsRecord(line: Line) {
    !line.blank && line.keys.Some? && line.storable
  }

  function NotRecords(lines: seq<Line>): nat
    decreases lines
  {
    if lines == [] then 0
    else
      var last := lines[|lines| - 1];
      NotRecords(lines[..|lines| - 1]) +
      if !last.blank && (last.keys.None? || !last.storable) then 1 else 0
  }

  /** Unreadable are the lines, not blank, that are no record or one the database cannot
      hold; so the lines already present are the rest. */
  lemma {:induction false} UnreadableAreCounted(rows: Rows, lines: seq<Line>)
    ensures IngestEach(rows, lines).1.unreadable == NotRecords(lines)
    decreases lines
  {
    if lines != [] {
      UnreadableAreCounted(rows, lines[..|lines| - 1]);
    }
  }

  /** The rows after ingestion: what was there, and a row with its own keys for
      every line that is a record. */
  lemma {:induction false} RowsAfter(rows: Rows, lines: seq<Line>)
    ensures forall line :: line in IngestEach(rows, lines).0 <==> line in rows || (line in lines && IsRecord(line))
    ensures forall line :: line in rows ==> IngestEach(rows, lines).0[line] == rows[line]
    ensures forall line :: line in IngestEach(rows, lines).0 && line !in rows ==>
              IsRecord(line) && IngestEach(rows, lines).0[line] == line.keys.value
    decreases lines
  {
    if lines != [] {
      var last, before := lines[|lines| - 1], lines[..|lines| - 1];
      RowsAfter(rows, before);
      assert lines == before + [last];
    }
  }

  /** Ingesting a file again after any part of it was ingested leaves what one full
      ingestion leaves, and stores exactly the records that were missing. */
  lemma IngestAgainConverges(rows: Rows, lines: seq<Line>, n: nat)
    requires n <= |lines|
    ensures var partial := PrefixRows(rows, lines, n);
            && IngestEach(partial, lines).0 == IngestEach(rows, lines).0
            && IngestEach(partial, lines).1.stored == |IngestEach(rows, lines).0| - |partial|
  {
    var partial := PrefixRows(rows, lines, n);
    RowsAfter(rows, lines[..n]);
    RowsAfter(rows, lines);
    RowsAfter(partial, lines);
    forall line | line in lines[..n] ensures line in lines {
      var i :| 0 <= i < n && lines[i] == line;
    }
    var again, once := IngestEach(partial, lines).0, IngestEach(rows, lines).0;
    assert again.Keys == once.Keys;
    assert again == once;
    StoredAreRowsGained(partial, lines);
  }
}
