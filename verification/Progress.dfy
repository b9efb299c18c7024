/**
 Full Load progress windows: poll boundaries and the row bookkeeping of the monitor
 (scripts/measure_performance.py, _next_boundary and _monitor_full_load).
 */
module Progress {
  import opened Wrappers
  import opened Reals

  // ---- wall-clock boundaries ----

  function MinReal(a: real, b: real): real {
    if a < b then a else b
  }

  function Multiple(k: int, interval: real): real {
    Times(k as real, interval)
  }

  // The next whole multiple of the interval, one too close skipped.
  function NextBoundary(now: real, interval: real): real
    requires interval > 0.0
  {
    var boundary := Multiple((now / interval).Floor + 1, interval);
    if boundary - now < MinReal(1.0, interval / 2.0) then boundary + interval else boundary
  }

  lemma Quotient(now: real, interval: real)
    requires interval > 0.0
    ensures Times(now / interval, interval) == now
  {
  }

  lemma MultiplesAscend(a: int, b: int, interval: real)
    requires a <= b && interval > 0.0
    ensures Multiple(a, interval) <= Multiple(b, interval)
  {
    hide Times;
    ScaleLe(a as real, b as real, interval);
  }

  lemma MultipleNext(k: int, interval: real)
    ensures Multiple(k + 1, interval) == Multiple(k, interval) + interval
  {
    hide Times;
    Distribute(k as real, interval);
  }

  lemma FloorTimes(now: real, interval: real)
    requires interval > 0.0
    ensures var k := (now / interval).Floor;
            Multiple(k, interval) <= now < Multiple(k, interval) + interval
  {
    hide Times;
    var q := now / interval;
    Quotient(now, interval);
    ScaleLe(q.Floor as real, q, interval);
    ScaleLt(q, q.Floor as real + 1.0, interval);
    Distribute(q.Floor as real, interval);
  }

  // A boundary is the first whole multiple of the interval at least min(1, interval/2) away,
  // so a window is never a sliver and never longer than interval + min(1, interval/2).
  lemma BoundaryIsFirstMultiple(now: real, interval: real, k: int)
    requires interval > 0.0
    ensures var gap, boundary := MinReal(1.0, interval / 2.0), NextBoundary(now, interval);
            && gap <= boundary - now < interval + gap
            && (exists m: int :: boundary == Multiple(m, interval))
            && (now + gap <= Multiple(k, interval) ==> boundary <= Multiple(k, interval))
  {
    var q := (now / interval).Floor;
    FloorTimes(now, interval);
    MultipleNext(q, interval);
    MultipleNext(q + 1, interval);
    if k <= q { MultiplesAscend(k, q, interval); } else if k > q + 1 { MultiplesAscend(q + 2, k, interval); }
    hide Multiple;
    assert NextBoundary(now, interval) == Multiple(q + 1, interval) || NextBoundary(now, interval) == Multiple(q + 2, interval);
  }

  // ---- the monitor ----

  datatype Status = Pending | InProgress | Done | Failed

  datatype Chunk = Chunk(id: string, status: Status, rows: nat)

  // What one poll sees: the job is gone, or its chunks at an instant.
  datatype Poll = Gone | Snapshot(now: real, finished: bool, jobRuns: bool, chunks: seq<Chunk>)

  datatype TableWindow = TableWindow(status: Status, rows: int)

  datatype Window = Window(
    start: real, end: real, rows: nat, done: nat, failed: nat, active: nat, tables: map<string, TableWindow>)

  function Total(chunks: seq<Chunk>): nat {
    if chunks == [] then 0 else Total(chunks[..|chunks| - 1]) + chunks[|chunks| - 1].rows
  }

  function CountOf(chunks: seq<Chunk>, status: Status): nat {
    if chunks == [] then 0 else
      CountOf(chunks[..|chunks| - 1], status) + if chunks[|chunks| - 1].status == status then 1 else 0
  }

  // `last`: the rows of each table last seen running; `tables`: the entries of this poll.
  datatype Book = Book(last: map<string, nat>, tables: map<string, TableWindow>)

  function Enter(book: Book, c: Chunk): Book {
    var running, seen := c.status == InProgress, c.id in book.last;
    if !running && !seen then book
    else
      var entry := TableWindow(c.status, c.rows - (if seen then book.last[c.id] else 0));
      Book(if running then book.last[c.id := c.rows] else book.last - {c.id}, book.tables[c.id := entry])
  }

  function EnterAll(last: map<string, nat>, chunks: seq<Chunk>): Book {
    if chunks == [] then Book(last, map[]) else Enter(EnterAll(last, chunks[..|chunks| - 1]), chunks[|chunks| - 1])
  }

  predicate AllSnapshots(polls: seq<Poll>, n: nat) {
    n <= |polls| && forall i | 0 <= i < n :: polls[i].Snapshot?
  }

  function LastAfter(polls: seq<Poll>, n: nat): map<string, nat>
    requires AllSnapshots(polls, n)
  {
    if n == 0 then map[] else EnterAll(LastAfter(polls, n - 1), polls[n - 1].chunks).last
  }

  function RowsBefore(polls: seq<Poll>, n: nat): nat
    requires AllSnapshots(polls, n)
  {
    if n == 0 then 0 else Total(polls[n - 1].chunks)
  }

  function StartOf(begun: real, polls: seq<Poll>, n: nat): real
    requires AllSnapshots(polls, n)
  {
    if n == 0 then begun else polls[n - 1].now
  }

  // The window of the n-th poll.
  function WindowAt(begun: real, polls: seq<Poll>, n: nat): Window
    requires n < |polls| && AllSnapshots(polls, n + 1)
  {
    var chunks, before := polls[n].chunks, RowsBefore(polls, n);
    Window(StartOf(begun, polls, n), polls[n].now, if Total(chunks) > before then Total(chunks) - before else 0,
           CountOf(chunks, Done), CountOf(chunks, Failed), CountOf(chunks, InProgress),
           EnterAll(LastAfter(polls, n), chunks).tables)
  }

  function Windows(begun: real, polls: seq<Poll>, n: nat): (r: seq<Window>)
    requires AllSnapshots(polls, n)
    ensures |r| == n
  {
    if n == 0 then [] else Windows(begun, polls, n - 1) + [WindowAt(begun, polls, n - 1)]
  }

  predicate Ends(p: Poll) {
    p.Snapshot? && (p.finished || !p.jobRuns)
  }

  method Sums(chunks: seq<Chunk>) returns (total: nat, done: nat, failed: nat, active: nat)
    ensures total == Total(chunks) && done == CountOf(chunks, Done)
    ensures failed == CountOf(chunks, Failed) && active == CountOf(chunks, InProgress)
  {
    total, done, failed, active := 0, 0, 0, 0;
    for i := 0 to |chunks|
      invariant total == Total(chunks[..i]) && done == CountOf(chunks[..i], Done)
      invariant failed == CountOf(chunks[..i], Failed) && active == CountOf(chunks[..i], InProgress)
    {
      assert chunks[..i + 1][..i] == chunks[..i];
      total := total + chunks[i].rows;
      match chunks[i].status {
        case Done => done := done + 1;
        case Failed => failed := failed + 1;
        case InProgress => active := active + 1;
        case Pending =>
      }
    }
    assert chunks[..|chunks|] == chunks;
  }

  method EnterChunks(last: map<string, nat>, chunks: seq<Chunk>) returns (next: map<string, nat>, tables: map<string, TableWindow>)
    ensures Book(next, tables) == EnterAll(last, chunks)
  {
    next, tables := last, map[];
    for i := 0 to |chunks|
      invariant Book(next, tables) == EnterAll(last, chunks[..i])
    {
      assert chunks[..i + 1][..i] == chunks[..i];
      var c := chunks[i];
      var running, seen := c.status == InProgress, c.id in next;
      if !running && !seen {
        continue;
      }
      tables := tables[c.id := TableWindow(c.status, c.rows - (if seen then next[c.id] else 0))];
      if !running {
        next := next - {c.id};
        continue;
      }
      next := next[c.id := c.rows];
    }
    assert chunks[..|chunks|] == chunks;
  }

  // Poll after poll until the job ends or is gone; `read` polls gave a window each.
  method MonitorFullLoad(begun: real, polls: seq<Poll>) returns (windows: seq<Window>, read: nat)
    ensures AllSnapshots(polls, read) && windows == Windows(begun, polls, read)
    // It goes on while the job runs, and stops at the first poll that finds it finished or not
    // running, or gone.
    ensures forall i | 0 <= i < read - 1 :: !polls[i].finished && polls[i].jobRuns
    ensures read < |polls| ==> polls[read].Gone? || (read > 0 && (polls[read - 1].finished || !polls[read - 1].jobRuns))
  {
    windows, read := [], 0;
    var last: map<string, nat>, prevRows: nat, windowStart := map[], 0, begun;
    while read < |polls|
      invariant AllSnapshots(polls, read) && windows == Windows(begun, polls, read)
      invariant last == LastAfter(polls, read) && prevRows == RowsBefore(polls, read) && windowStart == StartOf(begun, polls, read)
      invariant forall i | 0 <= i < read :: !Ends(polls[i])
      decreases |polls| - read
    {
      var poll := polls[read];
      if poll.Gone? {
        return;
      }
      var total, done, failed, active := Sums(poll.chunks);
      var rows := if total > prevRows then total - prevRows else 0;
      var next, tables := EnterChunks(last, poll.chunks);
      windows := windows + [Window(windowStart, poll.now, rows, done, failed, active, tables)];
      last, prevRows, windowStart, read := next, total, poll.now, read + 1;
      if Ends(poll) {
        return;
      }
    }
  }

  // ---- conservation ----

  // Each window starts where the previous one ended.
  lemma {:induction false} WindowsTile(begun: real, polls: seq<Poll>, n: nat)
    requires AllSnapshots(polls, n)
    ensures var w := Windows(begun, polls, n);
            && (n > 0 ==> w[0].start == begun && w[n - 1].end == polls[n - 1].now)
            && forall i | 0 < i < n :: w[i].start == w[i - 1].end
  {
    hide EnterAll, Total, CountOf, LastAfter;
    if n > 0 { WindowsTile(begun, polls, n - 1); }
  }

  function SumRows(windows: seq<Window>): nat {
    if windows == [] then 0 else SumRows(windows[..|windows| - 1]) + windows[|windows| - 1].rows
  }

  // The window rows sum to the final total exactly when the total never went down; otherwise
  // they exceed it.
  lemma {:induction false} RowsConservedExactly(begun: real, polls: seq<Poll>, n: nat)
    requires AllSnapshots(polls, n)
    ensures SumRows(Windows(begun, polls, n)) >= RowsBefore(polls, n)
    ensures SumRows(Windows(begun, polls, n)) == RowsBefore(polls, n)
       <==> forall i | 0 < i < n :: RowsBefore(polls, i) <= RowsBefore(polls, i + 1)
  {
    hide EnterAll, Total, CountOf, LastAfter;
    if n > 0 {
      RowsConservedExactly(begun, polls, n - 1);
      assert Windows(begun, polls, n)[..n - 1] == Windows(begun, polls, n - 1);
      if n > 1 { assert RowsBefore(polls, n - 1) <= RowsBefore(polls, n) || RowsBefore(polls, n - 1) > RowsBefore(polls, n); }
    }
  }

  // ---- one table ----

  predicate UniqueIds(chunks: seq<Chunk>) {
    forall i, j | 0 <= i < j < |chunks| :: chunks[i].id != chunks[j].id
  }

  function ChunkOf(chunks: seq<Chunk>, id: string): Option<Chunk> {
    if chunks == [] then None
    else if chunks[|chunks| - 1].id == id then Some(chunks[|chunks| - 1]) else ChunkOf(chunks[..|chunks| - 1], id)
  }

  // A table's side of a poll: what is remembered of it, and the rows it is credited with.
  datatype Track = Track(last: Option<nat>, rows: Option<int>)

  function Follow(last: Option<nat>, c: Option<Chunk>): Track {
    match c
    case None => Track(last, None)
    case Some(chunk) =>
      var before := if last.Some? then last.value else 0;
      if chunk.status == InProgress then Track(Some(chunk.rows), Some(chunk.rows - before))
      else if last.Some? then Track(None, Some(chunk.rows - before))
      else Track(None, None)
  }

  function At(last: map<string, nat>, id: string): Option<nat> {
    if id in last then Some(last[id]) else None
  }

  function RowsAt(tables: map<string, TableWindow>, id: string): Option<int> {
    if id in tables then Some(tables[id].rows) else None
  }

  lemma {:induction false} EnterAllFollows(last: map<string, nat>, chunks: seq<Chunk>, id: string)
    requires UniqueIds(chunks)
    ensures var book := EnterAll(last, chunks);
            Track(At(book.last, id), RowsAt(book.tables, id)) == Follow(At(last, id), ChunkOf(chunks, id))
    ensures ChunkOf(chunks, id).None? <==> forall i | 0 <= i < |chunks| :: chunks[i].id != id
  {
    if chunks != [] {
      EnterAllFollows(last, chunks[..|chunks| - 1], id);
    }
  }

  function TableRows(windows: seq<Window>, id: string): int {
    if windows == [] then 0 else
      var w := windows[|windows| - 1];
      TableRows(windows[..|windows| - 1], id) + if id in w.tables then w.tables[id].rows else 0
  }

  // What the polls alone say of a table.
  predicate RunsAt(polls: seq<Poll>, i: nat, id: string)
    requires i < |polls| && polls[i].Snapshot?
  {
    var c := ChunkOf(polls[i].chunks, id);
    c.Some? && c.value.status == InProgress
  }

  predicate StandsAt(polls: seq<Poll>, i: nat, id: string)
    requires i < |polls| && polls[i].Snapshot?
  {
    var c := ChunkOf(polls[i].chunks, id);
    c.Some? && c.value.status != InProgress
  }

  // Its latest observation in the first n polls.
  function Observed(polls: seq<Poll>, n: nat, id: string): Option<Chunk>
    requires AllSnapshots(polls, n)
  {
    if n == 0 then None else
      var c := ChunkOf(polls[n - 1].chunks, id);
      if c.Some? then c else Observed(polls, n - 1, id)
  }

  predicate Running(c: Option<Chunk>) {
    c.Some? && c.value.status == InProgress
  }

  // The counts at the polls that found it stopped when last observed running.
  function RowsOfEnded(polls: seq<Poll>, n: nat, id: string): nat
    requires AllSnapshots(polls, n)
  {
    if n == 0 then 0 else
      RowsOfEnded(polls, n - 1, id)
      + if StandsAt(polls, n - 1, id) && Running(Observed(polls, n - 1, id)) then ChunkOf(polls[n - 1].chunks, id).value.rows else 0
  }

  // What the monitor remembers of a table is its latest observation, while that was running.
  lemma {:induction false} RemembersRunning(polls: seq<Poll>, n: nat, id: string)
    requires AllSnapshots(polls, n) && forall i | 0 <= i < n :: UniqueIds(polls[i].chunks)
    ensures At(LastAfter(polls, n), id)
         == if Running(Observed(polls, n, id)) then Some(Observed(polls, n, id).value.rows) else None
  {
    hide EnterAll, UniqueIds, ChunkOf;
    if n > 0 {
      RemembersRunning(polls, n - 1, id);
      EnterAllFollows(LastAfter(polls, n - 1), polls[n - 1].chunks, id);
    }
  }

  // A table's window rows sum to the counts at which its runs were found ended, plus the
  // count of the run going on.
  lemma {:induction false} TableRowsAre(begun: real, polls: seq<Poll>, n: nat, id: string)
    requires AllSnapshots(polls, n) && forall i | 0 <= i < n :: UniqueIds(polls[i].chunks)
    ensures TableRows(Windows(begun, polls, n), id)
         == RowsOfEnded(polls, n, id) + if Running(Observed(polls, n, id)) then Observed(polls, n, id).value.rows else 0
  {
    hide EnterAll, Total, CountOf, Windows, TableRows, WindowAt, UniqueIds, ChunkOf, LastAfter;
    if n == 0 {
      NoWindows(begun, polls, id);
    } else {
      TableRowsAre(begun, polls, n - 1, id);
      TableRowsStep(begun, polls, n, id);
      RemembersRunning(polls, n - 1, id);
      EnterAllFollows(LastAfter(polls, n - 1), polls[n - 1].chunks, id);
    }
  }

  lemma {:induction false} NoWindows(begun: real, polls: seq<Poll>, id: string)
    ensures TableRows(Windows(begun, polls, 0), id) == 0
  {
  }

  lemma TableRowsStep(begun: real, polls: seq<Poll>, n: nat, id: string)
    requires 0 < n && AllSnapshots(polls, n)
    ensures var rows := RowsAt(EnterAll(LastAfter(polls, n - 1), polls[n - 1].chunks).tables, id);
            TableRows(Windows(begun, polls, n), id) == TableRows(Windows(begun, polls, n - 1), id) + if rows.Some? then rows.value else 0
  {
    hide EnterAll, Total, CountOf, LastAfter;
    assert Windows(begun, polls, n)[..n - 1] == Windows(begun, polls, n - 1);
  }

  predicate NeverRan(polls: seq<Poll>, n: nat, id: string)
    requires AllSnapshots(polls, n)
  {
    forall i | 0 <= i < n :: !RunsAt(polls, i, id)
  }

  // Once it ran and stopped, it does not run again.
  predicate NeverRestarted(polls: seq<Poll>, n: nat, id: string)
    requires AllSnapshots(polls, n)
  {
    forall i, j, k | 0 <= i < j < k < n && RunsAt(polls, i, id) && StandsAt(polls, j, id) :: !RunsAt(polls, k, id)
  }

  // Poll j is the first to find the table stopped after it ran.
  predicate StopsAt(polls: seq<Poll>, j: nat, id: string)
    requires AllSnapshots(polls, j + 1)
  {
    StandsAt(polls, j, id) && !NeverRan(polls, j, id) && forall k: nat | k < j && StandsAt(polls, k, id) :: NeverRan(polls, k, id)
  }

  // A table that never ran, one that runs, and one that stopped, by the polls alone.
  lemma {:induction false} OneRun(polls: seq<Poll>, n: nat, id: string)
    requires AllSnapshots(polls, n) && NeverRestarted(polls, n, id)
    ensures NeverRan(polls, n, id) ==> RowsOfEnded(polls, n, id) == 0 && !Running(Observed(polls, n, id))
    ensures !NeverRan(polls, n, id) && (forall j: nat | j < n :: !StopsAt(polls, j, id)) ==>
              RowsOfEnded(polls, n, id) == 0 && Running(Observed(polls, n, id))
    ensures forall j: nat | j < n && StopsAt(polls, j, id) ::
              RowsOfEnded(polls, n, id) == ChunkOf(polls[j].chunks, id).value.rows && !Running(Observed(polls, n, id))
  {
    hide ChunkOf;
    if n > 0 {
      var m := n - 1;
      OneRun(polls, m, id);
      assert NeverRan(polls, n, id) <==> NeverRan(polls, m, id) && !RunsAt(polls, m, id);
      if RunsAt(polls, m, id) {
        RunsBeforeStop(polls, m, id);
      } else if StandsAt(polls, m, id) {
        StopsNow(polls, m, id);
      } else {
        assert !StopsAt(polls, m, id);
      }
      hide NeverRan, NeverRestarted, StopsAt;
    }
  }

  lemma StoppedForGood(polls: seq<Poll>, j: nat, m: nat, id: string)
    requires AllSnapshots(polls, m + 1) && NeverRestarted(polls, m + 1, id) && j < m && StopsAt(polls, j, id)
    ensures !RunsAt(polls, m, id)
  {
    hide ChunkOf;
    var i: nat :| i < j && RunsAt(polls, i, id);
  }

  lemma RunsBeforeStop(polls: seq<Poll>, m: nat, id: string)
    requires AllSnapshots(polls, m + 1) && NeverRestarted(polls, m + 1, id) && RunsAt(polls, m, id)
    ensures forall j: nat | j <= m :: !StopsAt(polls, j, id)
  {
    forall j: nat | j <= m ensures StopsAt(polls, j, id) ==> !RunsAt(polls, m, id) {
      if j < m && StopsAt(polls, j, id) { StoppedForGood(polls, j, m, id); }
    }
  }

  // A poll that finds the table standing is its stop exactly when it ran and had not stopped.
  lemma StopsNow(polls: seq<Poll>, m: nat, id: string)
    requires AllSnapshots(polls, m + 1) && StandsAt(polls, m, id)
    ensures StopsAt(polls, m, id) <==> !NeverRan(polls, m, id) && forall j: nat | j < m :: !StopsAt(polls, j, id)
    ensures NeverRan(polls, m, id) ==> forall j: nat | j <= m :: !StopsAt(polls, j, id)
  {
    hide ChunkOf, StandsAt, RunsAt;
    if !NeverRan(polls, m, id) && !StopsAt(polls, m, id) {
      var k: nat :| k < m && StandsAt(polls, k, id) && !NeverRan(polls, k, id);
      FirstStop(polls, k, id);
    }
  }

  lemma {:induction false} FirstStop(polls: seq<Poll>, k: nat, id: string)
    requires AllSnapshots(polls, k + 1) && StandsAt(polls, k, id) && !NeverRan(polls, k, id)
    ensures exists j: nat :: j <= k && StopsAt(polls, j, id)
  {
    hide ChunkOf, StandsAt, RunsAt;
    if !StopsAt(polls, k, id) {
      var i: nat :| i < k && StandsAt(polls, i, id) && !NeverRan(polls, i, id);
      FirstStop(polls, i, id);
    }
  }

  // A table that never ran is credited nothing, whatever count it was observed with. One that
  // ran and was never restarted is credited the last count observed of it exactly when that is
  // still the count at which it was first found stopped, if it was.
  lemma {:induction false} TableConservedExactly(begun: real, polls: seq<Poll>, n: nat, id: string)
    requires AllSnapshots(polls, n) && forall i | 0 <= i < n :: UniqueIds(polls[i].chunks)
    requires NeverRestarted(polls, n, id)
    ensures NeverRan(polls, n, id) ==> TableRows(Windows(begun, polls, n), id) == 0
    ensures !NeverRan(polls, n, id) ==>
              && Observed(polls, n, id).Some?
              && (TableRows(Windows(begun, polls, n), id) == Observed(polls, n, id).value.rows <==>
                  forall j: nat | j < n && StopsAt(polls, j, id) ::
                    ChunkOf(polls[j].chunks, id).value.rows == Observed(polls, n, id).value.rows)
  {
    TableRowsAre(begun, polls, n, id);
    OneRun(polls, n, id);
    hide ChunkOf, LastAfter, TableRows, Windows, RowsOfEnded, StopsAt, NeverRestarted;
    if !NeverRan(polls, n, id) {
      var i: nat :| i < n && RunsAt(polls, i, id);
      ObservedSince(polls, i, n, id);
    }
  }

  lemma {:induction false} ObservedSince(polls: seq<Poll>, i: nat, n: nat, id: string)
    requires AllSnapshots(polls, n) && i < n && RunsAt(polls, i, id)
    ensures Observed(polls, n, id).Some?
  {
    hide ChunkOf;
    if i < n - 1 { ObservedSince(polls, i, n - 1, id); }
  }

  // Rows loaded after the first stop, and a table only seen done, are not in the windows.
  lemma {:induction false} LateRowsAreMissed(begun: real)
    ensures var polls := [Snapshot(1.0, false, true, [Chunk("t", InProgress, 10), Chunk("u", Done, 100)]),
                          Snapshot(2.0, false, true, [Chunk("t", Done, 20), Chunk("u", Done, 100)]),
                          Snapshot(3.0, true, true, [Chunk("t", Done, 25), Chunk("u", Done, 100)])];
            TableRows(Windows(begun, polls, 3), "t") == 20 && TableRows(Windows(begun, polls, 3), "u") == 0
  {
    var t1, t2, t3, u := Chunk("t", InProgress, 10), Chunk("t", Done, 20), Chunk("t", Done, 25), Chunk("u", Done, 100);
    var polls := [Snapshot(1.0, false, true, [t1, u]), Snapshot(2.0, false, true, [t2, u]), Snapshot(3.0, true, true, [t3, u])];
    assert "t" != "u";
    TwoChunks(t1, u);
    TwoChunks(t2, u);
    TwoChunks(t3, u);
    hide ChunkOf;
    TableRowsAre(begun, polls, 3, "t");
    TableRowsAre(begun, polls, 3, "u");
    assert Observed(polls, 1, "t") == Some(t1) && Observed(polls, 2, "t") == Some(t2) && Observed(polls, 3, "t") == Some(t3);
    assert Observed(polls, 1, "u") == Some(u) && Observed(polls, 2, "u") == Some(u) && Observed(polls, 3, "u") == Some(u);
    assert Observed(polls, 0, "t") == None && Observed(polls, 0, "u") == None;
    assert !StandsAt(polls, 0, "t") && StandsAt(polls, 1, "t") && StandsAt(polls, 2, "t");
    hide StandsAt, Observed;
    assert ChunkOf(polls[1].chunks, "t") == Some(t2);
    assert RowsOfEnded(polls, 1, "t") == 0 && RowsOfEnded(polls, 2, "t") == 20 && RowsOfEnded(polls, 3, "t") == 20;
    assert RowsOfEnded(polls, 1, "u") == 0 && RowsOfEnded(polls, 2, "u") == 0 && RowsOfEnded(polls, 3, "u") == 0;
  }

  lemma TwoChunks(a: Chunk, b: Chunk)
    requires a.id != b.id
    ensures ChunkOf([a, b], a.id) == Some(a) && ChunkOf([a, b], b.id) == Some(b)
  {
    assert [a, b][..1] == [a] && [a][..0] == [];
  }

  // ---- the counts of a window ----

  predicate ChunkIs(chunks: seq<Chunk>, i: nat, status: Status) {
    i < |chunks| && chunks[i].status == status
  }

  // The number of chunks with a status.
  lemma {:induction false} CountOfIs(chunks: seq<Chunk>, status: Status)
    ensures CountOf(chunks, status) == |set i: nat | i < |chunks| && ChunkIs(chunks, i, status)|
  {
    hide ChunkIs;
    if chunks != [] {
      CountOfIs(chunks[..|chunks| - 1], status);
      CountNext(chunks, status);
    }
  }

  lemma CountNext(chunks: seq<Chunk>, status: Status)
    requires chunks != []
    ensures var init, n := chunks[..|chunks| - 1], |chunks| - 1;
            |set i: nat | i < |chunks| && ChunkIs(chunks, i, status)|
            == |set i: nat | i < |init| && ChunkIs(init, i, status)| + if chunks[n].status == status then 1 else 0
  {
    var init, n := chunks[..|chunks| - 1], |chunks| - 1;
    var all, before := set i: nat | i < |chunks| && ChunkIs(chunks, i, status), set i: nat | i < |init| && ChunkIs(init, i, status);
    assert forall i: nat | i < n :: ChunkIs(chunks, i, status) == ChunkIs(init, i, status);
    assert ChunkIs(chunks, n, status) <==> chunks[n].status == status;
    hide ChunkIs;
    if chunks[n].status == status {
      assert all == before + {n};
    } else {
      assert all == before;
    }
  }

  // The total is that of the parts.
  lemma {:induction false} TotalIs(a: seq<Chunk>, c: Chunk, b: seq<Chunk>)
    ensures Total([]) == 0 && Total(a + [c] + b) == Total(a) + c.rows + Total(b)
  {
    if b == [] {
      assert a + [c] + b == a + [c] && (a + [c])[..|a|] == a;
    } else {
      var t := a + [c] + b;
      assert t[..|t| - 1] == a + [c] + b[..|b| - 1] && t[|t| - 1] == b[|b| - 1];
      TotalIs(a, c, b[..|b| - 1]);
    }
  }

  // A window holds the rise of the total since the poll before, the numbers of done, failed and
  // running chunks, and the status of each table in it.
  lemma {:induction false} WindowHolds(begun: real, polls: seq<Poll>, n: nat, i: nat)
    requires AllSnapshots(polls, n) && i < n
    ensures var w, chunks := Windows(begun, polls, n)[i], polls[i].chunks;
            var before := if i == 0 then 0 else Total(polls[i - 1].chunks);
            && w.rows == (if Total(chunks) > before then Total(chunks) - before else 0)
            && w.done == |set k: nat | k < |chunks| && ChunkIs(chunks, k, Done)|
            && w.failed == |set k: nat | k < |chunks| && ChunkIs(chunks, k, Failed)|
            && w.active == |set k: nat | k < |chunks| && ChunkIs(chunks, k, InProgress)|
            && (UniqueIds(chunks) ==>
                  forall c | c in chunks && c.id in w.tables :: w.tables[c.id].status == c.status)
  {
    hide EnterAll, Total, CountOf, LastAfter, UniqueIds, ChunkIs;
    if i < n - 1 {
      WindowHolds(begun, polls, n - 1, i);
    } else {
      CountOfIs(polls[i].chunks, Done);
      CountOfIs(polls[i].chunks, Failed);
      CountOfIs(polls[i].chunks, InProgress);
      if UniqueIds(polls[i].chunks) { EntersStatus(LastAfter(polls, i), polls[i].chunks); }
    }
  }

  lemma {:induction false} EntersStatus(last: map<string, nat>, chunks: seq<Chunk>)
    requires UniqueIds(chunks)
    ensures var tables := EnterAll(last, chunks).tables;
            && (forall id | id in tables :: exists c :: c in chunks && c.id == id)
            && (forall c | c in chunks && c.id in tables :: tables[c.id].status == c.status)
  {
    if chunks != [] {
      var init, c := chunks[..|chunks| - 1], chunks[|chunks| - 1];
      assert chunks == init + [c];
      assert forall x | x in init :: x.id != c.id;
      EntersStatus(last, init);
      var before := EnterAll(last, init);
      assert EnterAll(last, chunks) == Enter(before, c);
      hide EnterAll, UniqueIds;
      EnterSets(before, c);
    }
  }

  lemma EnterSets(book: Book, c: Chunk)
    ensures var tables := Enter(book, c).tables;
            && (forall id | id in tables :: id in book.tables || id == c.id)
            && (forall id | id in tables && id != c.id :: tables[id] == book.tables[id])
            && (c.id in tables && c.id !in book.tables ==> tables[c.id].status == c.status)
  {
  }
}
