/**
 The handoff from a Full Load to CDC as a step machine: source writes, Full Load watermarks,
 seeding of the offsets topic (deploy/cdc-stack/lambda/seeder.py) while the connector does
 not exist, and a connector that consumes, acknowledges, commits, crashes and is redeployed.
 */
module SeedProtocol {
  import opened Wrappers
  import opened Binlog
  import opened OffsetTopic

  // `next` is where the connector reads, `acked` what it may commit.
  datatype Connector = Absent | Down | Running(next: Coordinate, acked: Coordinate)

  datatype State = State(
    basename: string,             // of the source's binlog files
    key: string,                  // of the connector's offset records
    events: set<Coordinate>,      // the source changes, each at its start
    end: Coordinate,              // where the source writes next
    watermarks: set<Coordinate>,  // of the Full Loads taken
    log: seq<Message>,            // the key's partition of the offsets topic
    connector: Connector,
    inFlight: set<Coordinate>,    // the changes the running connector has read and not acknowledged
    acknowledged: set<Coordinate>, // the changes written to their topics
    skipped: set<Coordinate>)     // the changes in place when a start found no offset

  datatype Step =
    | Write(next: Coordinate)
    | FullLoad
    | Seed(at: Coordinate, gtids: string, tsSec: int, reached: nat)
    | Start
    | Consume(event: Coordinate, to: Coordinate)
    | Idle(to: Coordinate)
    | Acknowledge(upTo: Coordinate)
    | Commit(fields: map<string, Value>)
    | Crash
    | Stop

  function OffsetAt(s: State, c: Coordinate, fields: map<string, Value>): Offset {
    Offset(Some(BinlogName(s.basename, c.seqNo)), Some(c.pos), fields)
  }

  function WatermarkAt(s: State, at: Coordinate, gtids: string, tsSec: int): Watermark {
    Watermark(BinlogName(s.basename, at.seqNo), at.pos, gtids, tsSec)
  }

  function CoordinateOf(o: Offset): Option<Coordinate> {
    if o.file.Some? && BinlogSeq(o.file.value).Some? && o.pos.Some? && o.pos.value >= 0
    then Some(Coordinate(BinlogSeq(o.file.value).value, o.pos.value)) else None
  }

  // Where the connector would resume: the last offset stored for its key.
  function Stored(s: State): Option<Coordinate> {
    match Latest(s.log, s.key)
    case None => None
    case Some(o) => CoordinateOf(o)
  }

  // No source change in [from, to).
  predicate Quiet(s: State, from: Coordinate, to: Coordinate) {
    forall e | e in s.events :: Lt(e, from) || Le(to, e)
  }

  // What a seed reads when its poll loop reached the first `reached` records.
  function Read(s: State, reached: nat): Option<Offset>
    requires reached <= |s.log|
  {
    Latest(s.log[..reached], s.key)
  }

  predicate Enabled(s: State, step: Step) {
    match step
    case Write(next) => Lt(s.end, next)
    case FullLoad => true
    // The connector does not exist while the seeder runs.
    case Seed(at, _, _, reached) => s.connector.Absent? && at in s.watermarks && reached <= |s.log|
    case Start => !s.connector.Running?
    case Consume(e, to) =>
      && s.connector.Running? && e in s.events && Le(s.connector.next, e) && Quiet(s, s.connector.next, e)
      && Lt(e, to) && Le(to, s.end) && forall x | x in s.events :: Le(x, e) || Le(to, x)
    case Idle(to) => s.connector.Running? && Le(s.connector.next, to) && Le(to, s.end) && Quiet(s, s.connector.next, to)
    case Acknowledge(upTo) => s.connector.Running? && Le(s.connector.acked, upTo) && Le(upTo, s.connector.next)
    case Commit(_) => s.connector.Running?
    case Crash => s.connector.Running?
    case Stop => true
  }

  function Do(s: State, step: Step): State
    requires Enabled(s, step)
  {
    match step
    case Write(next) => s.(events := s.events + {s.end}, end := next)
    case FullLoad => s.(watermarks := s.watermarks + {s.end})
    case Seed(at, gtids, tsSec, reached) =>
      s.(log := AfterSeed(s.log, s.key, WatermarkAt(s, at, gtids, tsSec), Read(s, reached)))
    case Start =>
      // The connector resumes from the stored offset; with none, from the current end.
      (match Stored(s)
       case Some(c) => s.(connector := Running(c, c), inFlight := {})
       case None => s.(connector := Running(s.end, s.end), inFlight := {}, skipped := s.skipped + s.events))
    case Consume(e, to) => s.(connector := s.connector.(next := to), inFlight := s.inFlight + {e})
    case Idle(to) => s.(connector := s.connector.(next := to))
    case Acknowledge(upTo) =>
      var done := set e | e in s.inFlight && Lt(e, upTo);
      s.(connector := s.connector.(acked := upTo), inFlight := s.inFlight - done, acknowledged := s.acknowledged + done)
    case Commit(fields) => s.(log := s.log + [Message(Some(s.key), Readable(OffsetAt(s, s.connector.acked, fields)))])
    // What was read and not acknowledged is forgotten.
    case Crash => s.(connector := Down, inFlight := {})
    case Stop => s.(connector := Absent, inFlight := {})
  }

  // ---- the invariant ----

  // Covered by a Full Load watermark, or acknowledged by the connector.
  predicate Kept(s: State, e: Coordinate) {
    (exists w :: w in s.watermarks && Lt(e, w)) || e in s.acknowledged
  }

  // Kept, or skipped by a start without a stored offset.
  predicate Accounted(s: State, e: Coordinate) {
    Kept(s, e) || e in s.skipped
  }

  predicate NoGapBelow(s: State, c: Coordinate) {
    forall e | e in s.events && Lt(e, c) :: Accounted(s, e)
  }

  // Below c, every change is accounted for or still in the running connector's hands.
  predicate ReadBelow(s: State, c: Coordinate) {
    forall e | e in s.events && Lt(e, c) :: Accounted(s, e) || e in s.inFlight
  }

  // A record of the key is an offset on the source's files, not past its end, with no gap
  // below it.
  predicate GoodRecord(s: State, m: Message) {
    m.key == Some(s.key) ==>
      && m.value.Readable? && CoordinateOf(m.value.offset).Some?
      && StandsAt(m.value.offset, s.basename, CoordinateOf(m.value.offset).value)
      && Le(CoordinateOf(m.value.offset).value, s.end)
      && NoGapBelow(s, CoordinateOf(m.value.offset).value)
  }

  predicate Inv(s: State) {
    && (forall e | e in s.events :: Lt(e, s.end))
    && (forall w | w in s.watermarks :: Le(w, s.end))
    && s.acknowledged <= s.events && s.inFlight <= s.events
    && (forall m | m in s.log :: GoodRecord(s, m))
    && (s.connector.Running? ==>
          && Le(s.connector.acked, s.connector.next) && Le(s.connector.next, s.end)
          && NoGapBelow(s, s.connector.acked) && ReadBelow(s, s.connector.next)
          && (Stored(s).Some? ==> Le(Stored(s).value, s.connector.acked)))
    && (!s.connector.Running? ==> s.inFlight == {})
  }

  // Nothing has happened: the source may already hold changes.
  predicate Initial(s: State) {
    && (forall e | e in s.events :: Lt(e, s.end))
    && s.watermarks == {} && s.log == [] && s.connector.Absent? && s.inFlight == {} && s.acknowledged == {} && s.skipped == {}
  }

  lemma CoordinateOfStanding(o: Offset, basename: string, c: Coordinate)
    requires StandsAt(o, basename, c)
    ensures CoordinateOf(o) == Some(c)
  {
    BinlogSeqOfName(basename, c.seqNo);
    hide BinlogName, BinlogSeq;
  }

  lemma {:induction false} LatestInLog(messages: seq<Message>, key: string)
    ensures Latest(messages, key).Some? ==>
              exists m :: m in messages && m.key == Some(key) && m.value.Readable? && m.value.offset == Latest(messages, key).value
  {
    if messages != [] {
      LatestInLog(messages[..|messages| - 1], key);
      assert messages[|messages| - 1] in messages;
    }
  }

  // What any prefix of the log says stands at a coordinate.
  lemma ReadStands(s: State, reached: nat)
    requires Inv(s) && reached <= |s.log|
    ensures Read(s, reached).Some? ==>
              && CoordinateOf(Read(s, reached).value).Some?
              && var c := CoordinateOf(Read(s, reached).value).value;
                 StandsAt(Read(s, reached).value, s.basename, c) && Le(c, s.end) && NoGapBelow(s, c)
    ensures Stored(s).Some? <==> Latest(s.log, s.key).Some?
    ensures Stored(s).Some? ==> Le(Stored(s).value, s.end) && NoGapBelow(s, Stored(s).value)
  {
    hide CoordinateOf, Latest, NoGapBelow;
    LatestInLog(s.log[..reached], s.key);
    LatestInLog(s.log, s.key);
    if Read(s, reached).Some? {
      var m :| m in s.log[..reached] && m.key == Some(s.key) && m.value.Readable? && m.value.offset == Read(s, reached).value;
      assert m in s.log && GoodRecord(s, m);
    }
    if Latest(s.log, s.key).Some? {
      var m :| m in s.log && m.key == Some(s.key) && m.value.Readable? && m.value.offset == Latest(s.log, s.key).value;
      assert GoodRecord(s, m);
    }
  }

  // A good record stays good while the source, the watermarks and the acknowledged changes grow.
  lemma StillGood(s: State, t: State, m: Message)
    requires GoodRecord(s, m) && t.key == s.key && t.basename == s.basename && Le(s.end, t.end)
    requires s.events <= t.events && (forall e | e in t.events - s.events :: Le(s.end, e))
    requires s.watermarks <= t.watermarks && s.acknowledged <= t.acknowledged && s.skipped <= t.skipped
    ensures GoodRecord(t, m)
  {
    hide CoordinateOf, StandsAt;
    if m.key == Some(s.key) {
      StillNoGap(s, t, CoordinateOf(m.value.offset).value);
    }
  }

  lemma StillNoGap(s: State, t: State, c: Coordinate)
    requires NoGapBelow(s, c) && Le(c, s.end)
    requires s.events <= t.events && (forall e | e in t.events - s.events :: Le(s.end, e))
    requires s.watermarks <= t.watermarks && s.acknowledged <= t.acknowledged && s.skipped <= t.skipped
    ensures NoGapBelow(t, c)
  {
    forall e | e in t.events && Lt(e, c) ensures Accounted(t, e) {
      assert e in t.events - s.events ==> Le(s.end, e);
      assert Accounted(s, e);
    }
  }

  lemma AppendedIsStored(s: State, c: Coordinate, fields: map<string, Value>)
    ensures Latest(s.log + [Message(Some(s.key), Readable(OffsetAt(s, c, fields)))], s.key) == Some(OffsetAt(s, c, fields))
    ensures CoordinateOf(OffsetAt(s, c, fields)) == Some(c)
  {
    hide CoordinateOf;
    CoordinateOfStanding(OffsetAt(s, c, fields), s.basename, c);
    LatestStep(s.log, Message(Some(s.key), Readable(OffsetAt(s, c, fields))), s.key);
  }

  lemma AppendedRecord(s: State, c: Coordinate, fields: map<string, Value>)
    requires Le(c, s.end) && NoGapBelow(s, c)
    ensures GoodRecord(s, Message(Some(s.key), Readable(OffsetAt(s, c, fields))))
    ensures Latest(s.log + [Message(Some(s.key), Readable(OffsetAt(s, c, fields)))], s.key) == Some(OffsetAt(s, c, fields))
    ensures CoordinateOf(OffsetAt(s, c, fields)) == Some(c)
  {
    hide CoordinateOf, NoGapBelow;
    AppendedIsStored(s, c, fields);
  }

  lemma CoveredHasNoGap(s: State, w: Coordinate)
    requires w in s.watermarks
    ensures NoGapBelow(s, w)
  {
  }

  // A seed either leaves the log or appends a good record at the watermark.
  lemma SeedOutcome(s: State, step: Step)
    requires Inv(s) && step.Seed? && Enabled(s, step)
    ensures var t := Do(s, step);
            var skips := AtOrPast(Read(s, step.reached), BinlogName(s.basename, step.at.seqNo), step.at.pos);
            && (skips ==> t.log == s.log)
            && (!skips ==> Stored(t) == Some(step.at)
                           && exists m :: t.log == s.log + [m] && GoodRecord(s, m))
  {
    hide NoGapBelow, AtOrPast, SeededFields, Latest, CoordinateOf;
    var wm := WatermarkAt(s, step.at, step.gtids, step.tsSec);
    CoveredHasNoGap(s, step.at);
    var fields := SeededFields(wm, BaseFields(Read(s, step.reached)));
    AppendedRecord(s, step.at, fields);
    if !AtOrPast(Read(s, step.reached), wm.file, wm.pos) {
      assert Do(s, step).log == s.log + [Message(Some(s.key), Readable(OffsetAt(s, step.at, fields)))];
    }
  }

  lemma LogStaysGood(s: State, t: State)
    requires Inv(s) && t.key == s.key && t.basename == s.basename && Le(s.end, t.end)
    requires s.events <= t.events && (forall e | e in t.events - s.events :: Le(s.end, e))
    requires s.watermarks <= t.watermarks && s.acknowledged <= t.acknowledged && s.skipped <= t.skipped
    ensures forall m | m in s.log :: GoodRecord(t, m)
  {
    hide GoodRecord;
    forall m | m in s.log ensures GoodRecord(t, m) { StillGood(s, t, m); }
  }

  // Every step keeps the invariant, whatever a seed managed to read.
  lemma StepKeepsInv(s: State, step: Step)
    requires Inv(s) && Enabled(s, step)
    ensures Inv(Do(s, step))
  {
    hide CoordinateOf, StandsAt, Latest, AfterSeed, Accounted;
    var t := Do(s, step);
    LogStaysGood(s, t);
    ReadStands(s, |s.log|);
    match step {
      case Seed(_, _, _, _) =>
        SeedOutcome(s, step);
        hide GoodRecord, Stored, NoGapBelow;
        forall m | m in t.log ensures GoodRecord(t, m) {
          if m !in s.log { SameButLog(s, t, m); }
        }
      case Start => hide GoodRecord; StartInv(s);
      case Consume(e, to) =>
        hide GoodRecord, Stored;
        StillNoGap(s, t, s.connector.acked);
        assert ReadBelow(t, to) by {
          forall x | x in t.events && Lt(x, to) ensures Accounted(t, x) || x in t.inFlight {
            if Lt(x, s.connector.next) { StillRead(s, t, x); }
          }
        }
        SameLogSameStored(s, t);
      case Idle(to) =>
        hide GoodRecord, Stored;
        StillNoGap(s, t, s.connector.acked);
        assert ReadBelow(t, to) by {
          forall x | x in t.events && Lt(x, to) ensures Accounted(t, x) || x in t.inFlight { StillRead(s, t, x); }
        }
        SameLogSameStored(s, t);
      case Commit(fields) =>
        hide GoodRecord;
        AckedIsBelow(s);
        AppendedRecord(s, s.connector.acked, fields);
        StillNoGap(s, t, s.connector.acked);
        StillReadBelow(s, t, s.connector.next);
        assert Stored(t) == Some(s.connector.acked);
        forall m | m in t.log ensures GoodRecord(t, m) {
          if m !in s.log { SameButLog(s, t, m); }
        }
      case Write(_) =>
        hide GoodRecord, Stored;
        SameLogSameStored(s, t);
        if s.connector.Running? { StillNoGap(s, t, s.connector.acked); StillReadBelow(s, t, s.connector.next); }
      case FullLoad =>
        hide GoodRecord, Stored;
        SameLogSameStored(s, t);
        if s.connector.Running? { StillNoGap(s, t, s.connector.acked); StillReadBelow(s, t, s.connector.next); }
      case Acknowledge(upTo) =>
        hide GoodRecord, Stored;
        SameLogSameStored(s, t);
        StillReadBelow(s, t, s.connector.next);
        assert NoGapBelow(t, upTo) by {
          forall x | x in t.events && Lt(x, upTo) ensures Accounted(t, x) { AcknowledgedBelow(s, t, upTo, x); }
        }
      case Crash =>
      case Stop =>
    }
  }

  // A change accounted for stays so; one in flight stays in flight or is acknowledged.
  lemma StillRead(s: State, t: State, e: Coordinate)
    requires Accounted(s, e) || e in s.inFlight
    requires s.watermarks <= t.watermarks && s.acknowledged <= t.acknowledged && s.skipped <= t.skipped
    requires s.inFlight <= t.inFlight + t.acknowledged
    ensures Accounted(t, e) || e in t.inFlight
  {
  }

  lemma StillReadBelow(s: State, t: State, c: Coordinate)
    requires ReadBelow(s, c) && Le(c, s.end)
    requires s.events <= t.events && (forall e | e in t.events - s.events :: Le(s.end, e))
    requires s.watermarks <= t.watermarks && s.acknowledged <= t.acknowledged && s.skipped <= t.skipped
    requires s.inFlight <= t.inFlight + t.acknowledged
    ensures ReadBelow(t, c)
  {
    hide Accounted;
    forall e | e in t.events && Lt(e, c) ensures Accounted(t, e) || e in t.inFlight {
      assert e in t.events - s.events ==> Le(s.end, e);
      StillRead(s, t, e);
    }
  }

  lemma AcknowledgedBelow(s: State, t: State, upTo: Coordinate, e: Coordinate)
    requires Inv(s) && Enabled(s, Acknowledge(upTo)) && t == Do(s, Acknowledge(upTo))
    requires e in s.events && Lt(e, upTo)
    ensures Accounted(t, e)
  {
    hide GoodRecord, Stored;
    assert Lt(e, s.connector.next);
    assert Accounted(s, e) || e in s.inFlight;
  }

  lemma AckedIsBelow(s: State)
    requires Inv(s) && s.connector.Running?
    ensures NoGapBelow(s, s.connector.acked) && Le(s.connector.acked, s.end)
  {
    hide GoodRecord, Accounted, Stored;
  }

  lemma SameLogSameStored(s: State, t: State)
    requires s.log == t.log && s.key == t.key
    ensures Stored(s) == Stored(t)
  {
  }

  lemma SameButLog(s: State, t: State, m: Message)
    requires GoodRecord(s, m) && t == s.(log := t.log)
    ensures GoodRecord(t, m)
  {
    hide CoordinateOf, StandsAt;
    assert m.key == Some(s.key) ==> StandsAt(m.value.offset, t.basename, CoordinateOf(m.value.offset).value);
    if m.key == Some(s.key) {
      StillNoGap(s, t, CoordinateOf(m.value.offset).value);
    }
  }

  lemma StartInv(s: State)
    requires Inv(s) && Enabled(s, Start)
    ensures Inv(Do(s, Start))
  {
    var t := Do(s, Start);
    LogStaysGood(s, t);
    ReadStands(s, |s.log|);
    SameLogSameStored(s, t);
    hide GoodRecord, Stored;
    match Stored(s)
    case Some(c) => StillNoGap(s, t, c);
    case None =>
      forall e | e in t.events && Lt(e, t.end) ensures Accounted(t, e) {}
  }

  // ---- the stored offset ----

  predicate NotBackward(before: Option<Coordinate>, after: Option<Coordinate>) {
    before.Some? ==> after.Some? && Le(before.value, after.value)
  }

  // A seed that skips, or whose watermark is not behind the stored offset.
  predicate SafeSeed(s: State, step: Step)
    requires Enabled(s, step)
  {
    step.Seed? ==>
      || AtOrPast(Read(s, step.reached), BinlogName(s.basename, step.at.seqNo), step.at.pos)
      || Stored(s).None? || Le(Stored(s).value, step.at)
  }

  // The stored offset moves backward in no step but an unsafe seed, and in every one of those.
  lemma RewindsExactly(s: State, step: Step)
    requires Inv(s) && Enabled(s, step)
    ensures NotBackward(Stored(s), Stored(Do(s, step))) <==> SafeSeed(s, step)
  {
    hide GoodRecord, NoGapBelow, AtOrPast, CoordinateOf;
    match step {
      case Seed(_, _, _, _) => SeedOutcome(s, step);
      case Commit(fields) =>
        AckedIsBelow(s);
        AppendedRecord(s, s.connector.acked, fields);
      case _ => SameLogSameStored(s, Do(s, step));
    }
  }

  // A seed that read its topic to the end is safe, across every rollover.
  lemma CompleteReadIsSafe(s: State, step: Step)
    requires Inv(s) && Enabled(s, step) && step.Seed? && step.reached == |s.log|
    ensures SafeSeed(s, step)
  {
    assert s.log[..|s.log|] == s.log;
    ReadStands(s, |s.log|);
    hide GoodRecord, NoGapBelow, AtOrPast, Latest, CoordinateOf, BinlogName;
    if Read(s, |s.log|).Some? {
      GuardIsCoordinateOrder(Read(s, |s.log|).value, s.basename, Stored(s).value, step.at);
    }
  }

  // A seed that read nothing, its first poll empty, rewinds every connector that has
  // committed past the watermark.
  lemma EmptyReadRewinds(s: State, step: Step)
    requires Inv(s) && Enabled(s, step) && step.Seed? && step.reached == 0
    requires Stored(s).Some? && Lt(step.at, Stored(s).value)
    ensures Stored(Do(s, step)) == Some(step.at)
  {
    assert s.log[..0] == [];
    SeedOutcome(s, step);
  }

  // ---- runs ----

  predicate ValidRun(s: State, steps: seq<Step>)
    decreases |steps|
  {
    steps == [] || (Enabled(s, steps[0]) && ValidRun(Do(s, steps[0]), steps[1..]))
  }

  function After(s: State, steps: seq<Step>): State
    requires ValidRun(s, steps)
    decreases |steps|
  {
    if steps == [] then s else After(Do(s, steps[0]), steps[1..])
  }

  // Every seed of the run reads its topic to the end.
  predicate CompleteReads(s: State, steps: seq<Step>)
    requires ValidRun(s, steps)
    decreases |steps|
  {
    steps == [] || ((steps[0].Seed? ==> steps[0].reached == |s.log|) && CompleteReads(Do(s, steps[0]), steps[1..]))
  }

  // Every start of the run finds a stored offset.
  predicate SeededStarts(s: State, steps: seq<Step>)
    requires ValidRun(s, steps)
    decreases |steps|
  {
    steps == [] || ((steps[0].Start? ==> Stored(s).Some?) && SeededStarts(Do(s, steps[0]), steps[1..]))
  }

  // Over every run: the invariant holds, the stored offset never moves backward, and without
  // an unseeded start nothing more is skipped.
  lemma {:induction false} RunIsSafe(s: State, steps: seq<Step>)
    requires Inv(s) && ValidRun(s, steps)
    ensures Inv(After(s, steps))
    ensures CompleteReads(s, steps) ==> NotBackward(Stored(s), Stored(After(s, steps)))
    ensures SeededStarts(s, steps) ==> After(s, steps).skipped == s.skipped
    decreases |steps|
  {
    hide Inv, Stored, SafeSeed;
    if steps != [] {
      StepKeepsInv(s, steps[0]);
      RewindsExactly(s, steps[0]);
      if steps[0].Seed? && steps[0].reached == |s.log| { CompleteReadIsSafe(s, steps[0]); }
      assert !steps[0].Seed? ==> SafeSeed(s, steps[0]) by { NotSeedIsSafe(s, steps[0]); }
      RunIsSafe(Do(s, steps[0]), steps[1..]);
    }
  }

  lemma NotSeedIsSafe(s: State, step: Step)
    requires Enabled(s, step)
    ensures !step.Seed? ==> SafeSeed(s, step)
  {
  }

  // Every change behind the running connector is kept or still in its hands.
  predicate NothingLost(s: State) {
    s.connector.Running? && forall e | e in s.events && Lt(e, s.connector.next) :: Kept(s, e) || e in s.inFlight
  }

  // From the beginning, after any run: every source change below the stored offset is covered
  // by a Full Load watermark or was acknowledged by the connector, unless a start without any
  // stored offset skipped it; with no such start there is no gap at all, and a running
  // connector has lost nothing.
  lemma {:induction false} NoGapBelowStoredOffset(s: State, steps: seq<Step>)
    requires Initial(s) && ValidRun(s, steps)
    ensures var t := After(s, steps);
            Stored(t).Some? ==>
              && NoGapBelow(t, Stored(t).value)
              && (SeededStarts(s, steps) ==>
                    forall e | e in t.events && Lt(e, Stored(t).value) :: Kept(t, e))
    ensures SeededStarts(s, steps) && After(s, steps).connector.Running? ==> NothingLost(After(s, steps))
  {
    assert Latest([], s.key).None?;
    RunIsSafe(s, steps);
    var t := After(s, steps);
    ReadStands(t, |t.log|);
    assert t.connector.Running? ==> ReadBelow(t, t.connector.next);
    hide Stored, After, SeededStarts, ValidRun, Inv;
    if Stored(t).Some? {
      forall e | e in t.events && Lt(e, Stored(t).value)
        ensures SeededStarts(s, steps) ==> Kept(t, e)
      {
        assert Accounted(t, e);
      }
    }
  }

  // ---- what a start may lose ----

  // The latest of some watermarks.
  lemma {:induction false} LatestOf(watermarks: set<Coordinate>) returns (latest: Coordinate)
    requires watermarks != {}
    ensures latest in watermarks && forall w | w in watermarks :: Le(w, latest)
    decreases |watermarks|
  {
    latest :| latest in watermarks;
    var rest := watermarks - {latest};
    assert forall w | w in watermarks :: w in rest || w == latest;
    if rest != {} {
      var other := LatestOf(rest);
      if Le(latest, other) { latest := other; }
    }
  }

  // A start that finds no stored offset reads from the current end. It loses nothing exactly
  // when all changes were acknowledged, or one Full Load was taken since which all of them were.
  lemma UnseededStartIsGaplessExactly(s: State)
    requires Inv(s) && Enabled(s, Start) && Stored(s).None?
    ensures NothingLost(Do(s, Start)) <==>
            || s.events <= s.acknowledged
            || exists w :: w in s.watermarks && forall e | e in s.events && Le(w, e) :: e in s.acknowledged
  {
    hide Stored, GoodRecord;
    var t := Do(s, Start);
    assert t.connector.next == s.end && t.events == s.events && t.watermarks == s.watermarks && t.acknowledged == s.acknowledged && t.inFlight == {};
    if NothingLost(t) && !(s.events <= s.acknowledged) {
      assert forall e | e in s.events :: Lt(e, t.connector.next) && Kept(t, e);
      var w := LatestOf(s.watermarks);
      forall e | e in s.events && Le(w, e) ensures e in s.acknowledged {
        assert Kept(t, e);
      }
    }
  }

  // For a connector that never ran: exactly when the source has no change, or none since one
  // of the Full Loads.
  lemma FirstStartIsGaplessExactly(s: State)
    requires Inv(s) && Enabled(s, Start) && Stored(s).None? && s.acknowledged == {}
    ensures NothingLost(Do(s, Start)) <==> s.events == {} || exists w :: w in s.watermarks && Quiet(s, w, s.end)
  {
    UnseededStartIsGaplessExactly(s);
    hide Stored, GoodRecord, NothingLost, Do;
    if w :| w in s.watermarks && Quiet(s, w, s.end) {
      assert forall e | e in s.events && Le(w, e) :: e in s.acknowledged;
    }
    if w :| w in s.watermarks && forall e | e in s.events && Le(w, e) :: e in s.acknowledged {
      assert Quiet(s, w, s.end);
    }
  }

  // ---- the two uses of a seed ----

  // Where a connector resumes after a seed: at its stored offset, or at the watermark when
  // that is ahead of it.
  function ResumeAt(stored: Option<Coordinate>, at: Coordinate): Coordinate {
    if stored.Some? && Le(at, stored.value) then stored.value else at
  }

  // A seed that read its topic to the end, and a start: whatever was stored and however far
  // the source has moved on, the connector resumes at the later of the stored offset and the
  // watermark, and no change below is lost.
  lemma {:induction false} SeedThenStart(s: State, at: Coordinate, gtids: string, tsSec: int)
    requires Inv(s) && s.connector.Absent? && at in s.watermarks
    ensures var steps, c := [Seed(at, gtids, tsSec, |s.log|), Start], ResumeAt(Stored(s), at);
            && ValidRun(s, steps)
            && var t := After(s, steps);
               t == s.(log := t.log, connector := Running(c, c)) && Stored(t) == Some(c) && NoGapBelow(t, c)
  {
    var seed := Seed(at, gtids, tsSec, |s.log|);
    var steps, c := [seed, Start], ResumeAt(Stored(s), at);
    var seeded := Do(s, seed);
    SeededStores(s, seed);
    StepKeepsInv(s, seed);
    StartFromStored(seeded, c);
    var t := Do(seeded, Start);
    SameLogSameStored(seeded, t);
    hide Inv, NoGapBelow, Stored, AfterSeed;
    assert seeded == s.(log := seeded.log);
    TwoSteps(s, steps, seeded);
  }

  lemma SeededStores(s: State, seed: Step)
    requires Inv(s) && Enabled(s, seed) && seed.Seed? && seed.reached == |s.log|
    ensures Stored(Do(s, seed)) == Some(ResumeAt(Stored(s), seed.at))
  {
    var t := Do(s, seed);
    SeedOutcome(s, seed);
    SkippedOnlyAtOrPast(s, seed);
    hide Inv, AtOrPast, Stored, GoodRecord;
    if t.log == s.log { SameLogSameStored(s, t); }
  }

  // The writes that move the source's end through the given coordinates.
  function Writes(nexts: seq<Coordinate>): seq<Step> {
    seq(|nexts|, i requires 0 <= i < |nexts| => Write(nexts[i]))
  }

  predicate Ascend(end: Coordinate, nexts: seq<Coordinate>)
    decreases |nexts|
  {
    nexts == [] || (Lt(end, nexts[0]) && Ascend(nexts[0], nexts[1..]))
  }

  // Writes add changes at or past the old end, the first of them exactly there.
  lemma {:induction false} WritesRun(s: State, nexts: seq<Coordinate>)
    requires Inv(s) && Ascend(s.end, nexts)
    ensures ValidRun(s, Writes(nexts))
    ensures var t := After(s, Writes(nexts));
            && Inv(t) && t == s.(events := t.events, end := t.end) && s.events <= t.events
            && (forall e | e in t.events - s.events :: Le(s.end, e))
            && (if nexts == [] then t == s else s.end in t.events && Lt(s.end, t.end) && t.end == nexts[|nexts| - 1])
    decreases |nexts|
  {
    hide Inv;
    if nexts == [] {
      assert Writes(nexts) == [];
    } else {
      assert Writes(nexts)[0] == Write(nexts[0]) && Writes(nexts)[1..] == Writes(nexts[1..]);
      StepKeepsInv(s, Write(nexts[0]));
      var s1 := Do(s, Write(nexts[0]));
      WritesRun(s1, nexts[1..]);
      hide Writes;
      var t := After(s, Writes(nexts));
      assert s1.events == s.events + {s.end};
      forall e | e in t.events - s.events ensures Le(s.end, e) {
        assert e == s.end || (e in t.events - s1.events && Le(s1.end, e));
      }
    }
  }

  lemma {:induction false} RunConcat(s: State, a: seq<Step>, b: seq<Step>)
    requires ValidRun(s, a) && ValidRun(After(s, a), b)
    ensures ValidRun(s, a + b) && After(s, a + b) == After(After(s, a), b)
    decreases |a|
  {
    hide Enabled, Do;
    if a == [] {
      assert a + b == b;
    } else {
      assert (a + b)[0] == a[0] && (a + b)[1..] == a[1..] + b;
      RunConcat(Do(s, a[0]), a[1..], b);
    }
  }

  // A Full Load, then any writes.
  lemma {:induction false} LoadThenWrites(s: State, nexts: seq<Coordinate>)
    requires Inv(s) && s.connector.Absent? && Ascend(s.end, nexts)
    ensures var steps := [FullLoad] + Writes(nexts);
            && ValidRun(s, steps)
            && var t := After(s, steps);
               && Inv(t) && t == s.(watermarks := s.watermarks + {s.end}, events := t.events, end := t.end) && s.events <= t.events
               && (forall e | e in t.events - s.events :: Le(s.end, e))
               && (if nexts == [] then t.end == s.end && t.events == s.events
                   else s.end in t.events && Lt(s.end, t.end) && t.end == nexts[|nexts| - 1])
  {
    StepKeepsInv(s, FullLoad);
    assert ([FullLoad] + Writes(nexts))[0] == FullLoad && ([FullLoad] + Writes(nexts))[1..] == Writes(nexts);
    hide Inv, Writes;
    WritesRun(Do(s, FullLoad), nexts);
  }

  // The handoff: a Full Load, however many writes, a seed at the load's watermark and a start.
  // The connector resumes exactly at the watermark: every change written since the load is
  // still ahead of it, and no change is lost.
  lemma {:induction false} HandoffIsGapless(s: State, nexts: seq<Coordinate>, gtids: string, tsSec: int)
    requires Inv(s) && s.connector.Absent? && Ascend(s.end, nexts)
    ensures var steps := [FullLoad] + Writes(nexts) + [Seed(s.end, gtids, tsSec, |s.log|), Start];
            && ValidRun(s, steps)
            && var t := After(s, steps);
               && t.connector == Running(s.end, s.end) && t.skipped == s.skipped && NothingLost(t)
               && (forall e | e in t.events - s.events :: Le(t.connector.next, e))
               && (nexts != [] ==> s.end in t.events && Lt(s.end, t.end))
  {
    var load, seed := [FullLoad] + Writes(nexts), [Seed(s.end, gtids, tsSec, |s.log|), Start];
    LoadThenWrites(s, nexts);
    var loaded := After(s, load);
    ReadStands(s, |s.log|);
    SameLogSameStored(s, loaded);
    hide Inv, Stored, Writes, ValidRun, After, NoGapBelow;
    SeedThenStart(loaded, s.end, gtids, tsSec);
    RunConcat(s, load, seed);
    var t := After(loaded, seed);
    assert s.end in t.watermarks;
    assert forall e | e in t.events && Lt(e, s.end) :: Kept(t, e);
  }

  // Without the seed, a connector with no stored offset loses every change written between
  // the load and its start.
  lemma {:induction false} UnseededHandoffLoses(s: State, nexts: seq<Coordinate>)
    requires Inv(s) && s.connector.Absent? && Stored(s).None? && Ascend(s.end, nexts)
    ensures var steps := [FullLoad] + Writes(nexts) + [Start];
            && ValidRun(s, steps)
            && var t := After(s, steps);
               && t.connector == Running(t.end, t.end)
               && (forall e | e in t.events - s.events :: Lt(e, t.connector.next) && !Kept(t, e))
               && (nexts != [] ==> t.end == nexts[|nexts| - 1] && s.end in t.events - s.events && !NothingLost(t))
  {
    var load := [FullLoad] + Writes(nexts);
    LoadThenWrites(s, nexts);
    var loaded := After(s, load);
    SameLogSameStored(s, loaded);
    assert Inv(s) && Inv(loaded);
    hide Stored, Writes, GoodRecord, After, ValidRun;
    var t := Do(loaded, Start);
    OneStep(loaded, Start);
    RunConcat(s, load, [Start]);
    assert s.end !in s.events;
    forall e | e in t.events - s.events ensures Lt(e, t.connector.next) && !Kept(t, e) {
      assert Le(s.end, e) && e !in t.acknowledged;
    }
    if nexts != [] { assert s.end in t.events - s.events; }
  }

  // The smallest loss: from nothing, one load, one write, one start. With the seed in between
  // the change is still ahead.
  lemma {:induction false} OneWriteIsLost(basename: string, key: string, gtids: string, tsSec: int)
    ensures var at, next := Coordinate(1, 4), Coordinate(1, 200);
            var s := State(basename, key, {}, at, {}, [], Absent, {}, {}, {});
            && Initial(s)
            && ValidRun(s, [FullLoad] + Writes([next]) + [Start])
            && After(s, [FullLoad] + Writes([next]) + [Start]).connector == Running(next, next)
            && !NothingLost(After(s, [FullLoad] + Writes([next]) + [Start]))
            && ValidRun(s, [FullLoad] + Writes([next]) + [Seed(at, gtids, tsSec, 0), Start])
            && After(s, [FullLoad] + Writes([next]) + [Seed(at, gtids, tsSec, 0), Start]).connector == Running(at, at)
            && NothingLost(After(s, [FullLoad] + Writes([next]) + [Seed(at, gtids, tsSec, 0), Start]))
  {
    var at, next := Coordinate(1, 4), Coordinate(1, 200);
    var s := State(basename, key, {}, at, {}, [], Absent, {}, {}, {});
    assert [next][1..] == [] && Ascend(at, [next]);
    assert Stored(s).None?;
    UnseededHandoffLoses(s, [next]);
    HandoffIsGapless(s, [next], gtids, tsSec);
  }

  lemma StartFromStored(s: State, c: Coordinate)
    requires Inv(s) && Enabled(s, Start) && Stored(s) == Some(c)
    ensures var t := Do(s, Start);
            t == s.(connector := Running(c, c)) && NoGapBelow(t, c)
  {
    ReadStands(s, |s.log|);
    StillNoGap(s, Do(s, Start), c);
    hide Inv, Stored, NoGapBelow;
  }

  // ---- a seed at a coordinate given by hand ----

  // A seed that writes any coordinate up to the source's end, of a Full Load or not, leaves no
  // change unaccounted for below it exactly when all changes below it are acknowledged, or
  // all of them since one of the Full Loads; and the start that follows loses nothing then.
  lemma SeedAnywhereIsGaplessExactly(s: State, at: Coordinate, gtids: string, tsSec: int, reached: nat)
    requires Inv(s) && s.connector.Absent? && Le(at, s.end) && reached <= |s.log|
    requires !AtOrPast(Read(s, reached), BinlogName(s.basename, at.seqNo), at.pos)
    ensures var t := s.(log := AfterSeed(s.log, s.key, WatermarkAt(s, at, gtids, tsSec), Read(s, reached)));
            && Stored(t) == Some(at) && Enabled(t, Start)
            && Do(t, Start).connector == Running(at, at)
            && (NothingLost(Do(t, Start)) <==>
                || (forall e | e in s.events && Lt(e, at) :: e in s.acknowledged)
                || exists w :: w in s.watermarks && forall e | e in s.events && Le(w, e) && Lt(e, at) :: e in s.acknowledged)
  {
    var wm := WatermarkAt(s, at, gtids, tsSec);
    var fields := SeededFields(wm, BaseFields(Read(s, reached)));
    var t := s.(log := AfterSeed(s.log, s.key, wm, Read(s, reached)));
    AppendedIsStored(s, at, fields);
    assert t.log == s.log + [Message(Some(s.key), Readable(OffsetAt(s, at, fields)))];
    assert Stored(t) == Some(at);
    var u := Do(t, Start);
    hide Stored, AfterSeed, SeededFields, AtOrPast, GoodRecord, Latest;
    assert u.events == s.events && u.watermarks == s.watermarks && u.acknowledged == s.acknowledged && u.inFlight == {} && u.connector == Running(at, at);
    if NothingLost(u) && exists e :: e in s.events && Lt(e, at) && e !in s.acknowledged {
      assert forall e | e in s.events && Lt(e, at) :: Kept(u, e);
      var w := LatestOf(s.watermarks);
      forall e | e in s.events && Le(w, e) && Lt(e, at) ensures e in s.acknowledged {
        assert Kept(u, e);
      }
    }
  }

  // ---- the failures, from nothing ----

  lemma {:induction false} RunThen(s: State, steps: seq<Step>, step: Step)
    requires ValidRun(s, steps) && Enabled(After(s, steps), step)
    ensures ValidRun(s, steps + [step]) && After(s, steps + [step]) == Do(After(s, steps), step)
  {
    hide Enabled, Do, ValidRun, After;
    OneStep(After(s, steps), step);
    RunConcat(s, steps, [step]);
  }

  // A change read and not acknowledged when the connector crashes is lost by a start that
  // finds no stored offset: it is behind, and in no topic.
  lemma {:induction false} CrashLosesUnacknowledged(basename: string, key: string)
    ensures var at, next := Coordinate(1, 4), Coordinate(1, 200);
            var s := State(basename, key, {}, at, {}, [], Absent, {}, {}, {});
            var steps := [Start, Write(next), Consume(at, next), Crash, Start];
            && Initial(s) && ValidRun(s, steps)
            && var t := After(s, steps); t.connector == Running(next, next) && at in t.events && !NothingLost(t)
  {
    var at, next := Coordinate(1, 4), Coordinate(1, 200);
    var s := State(basename, key, {}, at, {}, [], Absent, {}, {}, {});
    assert Latest([], key).None?;
    var s1 := s.(connector := Running(at, at));
    OneStep(s, Start);
    assert After(s, [Start]) == s1;
    var s2 := s1.(events := {at}, end := next);
    RunThen(s, [Start], Write(next));
    assert [Start] + [Write(next)] == [Start, Write(next)];
    var s3 := s2.(connector := Running(next, at), inFlight := {at});
    RunThen(s, [Start, Write(next)], Consume(at, next));
    assert [Start, Write(next)] + [Consume(at, next)] == [Start, Write(next), Consume(at, next)];
    var s4 := s3.(connector := Down, inFlight := {});
    RunThen(s, [Start, Write(next), Consume(at, next)], Crash);
    assert [Start, Write(next), Consume(at, next)] + [Crash] == [Start, Write(next), Consume(at, next), Crash];
    RunThen(s, [Start, Write(next), Consume(at, next), Crash], Start);
    assert [Start, Write(next), Consume(at, next), Crash] + [Start] == [Start, Write(next), Consume(at, next), Crash, Start];
  }

  // The rewind happens: a connector is seeded, reads and acknowledges a change, commits past
  // it, is stopped, and a second seed at the same watermark, its first poll empty, puts it back.
  lemma {:induction false} RewindIsReached(basename: string, key: string, gtids: string, tsSec: int)
    ensures var at, next := Coordinate(1, 4), Coordinate(1, 200);
            var s, seed := State(basename, key, {}, at, {}, [], Absent, {}, {}, {}), Seed(at, gtids, tsSec, 0);
            var steps := [FullLoad, seed, Write(next), Start, Consume(at, next), Acknowledge(next), Commit(map[]), Stop];
            && Initial(s) && ValidRun(s, steps) && Stored(After(s, steps)) == Some(next)
            && ValidRun(s, steps + [seed]) && Stored(After(s, steps + [seed])) == Some(at)
  {
    var at, next := Coordinate(1, 4), Coordinate(1, 200);
    var s, seed := State(basename, key, {}, at, {}, [], Absent, {}, {}, {}), Seed(at, gtids, tsSec, 0);
    HandoffState(s, at, next, seed);
    var early, late := [FullLoad, seed, Write(next), Start], [Consume(at, next), Acknowledge(next), Commit(map[]), Stop];
    var steps := [FullLoad, seed, Write(next), Start, Consume(at, next), Acknowledge(next), Commit(map[]), Stop];
    assert early + late == steps;
    CommitsPast(After(s, early), at, next);
    var s8 := After(After(s, early), late);
    hide *;
    RunConcat(s, early, late);
    InitialInv(s);
    RunIsSafe(s, steps);
    SeedEnabled(s8, seed);
    RunThen(s, steps, seed);
    EmptyReadRewinds(s8, seed);
  }

  lemma InitialInv(s: State)
    requires Initial(s)
    ensures Inv(s)
  {
    assert Latest([], s.key).None?;
  }

  lemma SeedEnabled(s: State, seed: Step)
    requires seed.Seed? && s.connector.Absent? && seed.at in s.watermarks && seed.reached == 0
    ensures Enabled(s, seed)
  {
  }

  // A connector reads one change, acknowledges it, commits past it and is stopped.
  lemma {:induction false} CommitsPast(s: State, at: Coordinate, next: Coordinate)
    requires s == State(s.basename, s.key, {at}, next, {at}, s.log, Running(at, at), {}, {}, {}) && Lt(at, next)
    ensures var steps := [Consume(at, next), Acknowledge(next), Commit(map[]), Stop];
            && ValidRun(s, steps)
            && var t := After(s, steps); Stored(t) == Some(next) && t.connector.Absent? && t.watermarks == {at}
  {
    var s1 := s.(connector := Running(next, at), inFlight := {at});
    var s2 := s1.(connector := Running(next, next), inFlight := {}, acknowledged := {at});
    assert Do(s, Consume(at, next)) == s1;
    assert Do(s1, Acknowledge(next)) == s2;
    var s3 := Do(s2, Commit(map[]));
    AppendedIsStored(s2, next, map[]);
    assert Stored(s3) == Some(next);
    var t := Do(s3, Stop);
    SameLogSameStored(s3, t);
    hide Stored, Latest, OffsetAt;
    FourSteps(s, [Consume(at, next), Acknowledge(next), Commit(map[]), Stop], s1, s2, s3);
  }

  // Seeded before its first change and started, a connector stands at the watermark.
  lemma {:induction false} HandoffState(s: State, at: Coordinate, next: Coordinate, seed: Step)
    requires s == State(s.basename, s.key, {}, at, {}, [], Absent, {}, {}, {}) && Lt(at, next)
    requires seed.Seed? && seed.at == at && seed.reached == 0
    ensures var steps := [FullLoad, seed, Write(next), Start];
            && Initial(s) && ValidRun(s, steps)
            && var t := After(s, steps);
               t == State(s.basename, s.key, {at}, next, {at}, t.log, Running(at, at), {}, {}, {})
  {
    InitialInv(s);
    var s1 := s.(watermarks := {at});
    assert Enabled(s, FullLoad) && Do(s, FullLoad) == s1 && Enabled(s1, seed);
    StepKeepsInv(s, FullLoad);
    FirstSeed(s1, at, seed);
    var s2 := Do(s1, seed);
    hide Inv, Initial, Stored, AfterSeed;
    var s3 := Do(s2, Write(next));
    SameLogSameStored(s2, s3);
    FourSteps(s, [FullLoad, seed, Write(next), Start], s1, s2, s3);
  }

  // A seed of an empty topic is stored.
  lemma FirstSeed(s: State, at: Coordinate, seed: Step)
    requires Inv(s) && Enabled(s, seed) && seed.Seed? && seed.at == at && seed.reached == 0
    ensures Stored(Do(s, seed)) == Some(at) && Do(s, seed) == s.(log := Do(s, seed).log)
  {
    SeedOutcome(s, seed);
    assert s.log[..0] == [];
    hide Inv, Stored, AfterSeed, GoodRecord;
  }

  lemma {:induction false} OneStep(s: State, step: Step)
    requires Enabled(s, step)
    ensures ValidRun(s, [step]) && After(s, [step]) == Do(s, step)
  {
    hide Enabled, Do;
    assert [step][1..] == [] && ValidRun(Do(s, step), []) && After(Do(s, step), []) == Do(s, step);
  }

  lemma {:induction false} TwoSteps(s: State, steps: seq<Step>, s1: State)
    requires |steps| == 2
    requires Enabled(s, steps[0]) && s1 == Do(s, steps[0])
    requires Enabled(s1, steps[1])
    ensures ValidRun(s, steps) && After(s, steps) == Do(s1, steps[1])
  {
    hide Enabled, Do;
    assert steps[1..] == [steps[1]];
    OneStep(s1, steps[1]);
  }

  lemma {:induction false} ThreeSteps(s: State, steps: seq<Step>, s1: State, s2: State)
    requires |steps| == 3
    requires Enabled(s, steps[0]) && s1 == Do(s, steps[0])
    requires Enabled(s1, steps[1]) && s2 == Do(s1, steps[1])
    requires Enabled(s2, steps[2])
    ensures ValidRun(s, steps) && After(s, steps) == Do(s2, steps[2])
  {
    hide Enabled, Do;
    assert steps[1..][0] == steps[1] && steps[1..][1] == steps[2];
    TwoSteps(s1, steps[1..], s2);
  }

  lemma {:induction false} FourSteps(s: State, steps: seq<Step>, s1: State, s2: State, s3: State)
    requires |steps| == 4
    requires Enabled(s, steps[0]) && s1 == Do(s, steps[0])
    requires Enabled(s1, steps[1]) && s2 == Do(s1, steps[1])
    requires Enabled(s2, steps[2]) && s3 == Do(s2, steps[2])
    requires Enabled(s3, steps[3])
    ensures ValidRun(s, steps) && After(s, steps) == Do(s3, steps[3])
  {
    hide Enabled, Do;
    assert steps[1..][0] == steps[1] && steps[1..][1] == steps[2] && steps[1..][2] == steps[3];
    ThreeSteps(s1, steps[1..], s2, s3);
  }

  // A seed that skips has read an offset at or past its watermark.
  lemma SkippedOnlyAtOrPast(s: State, step: Step)
    requires Inv(s) && Enabled(s, step) && step.Seed? && step.reached == |s.log|
    ensures AtOrPast(Read(s, step.reached), BinlogName(s.basename, step.at.seqNo), step.at.pos)
       <==> Stored(s).Some? && Le(step.at, Stored(s).value)
  {
    assert s.log[..|s.log|] == s.log;
    ReadStands(s, |s.log|);
    hide GoodRecord, NoGapBelow, Latest, CoordinateOf, BinlogName;
    if Read(s, |s.log|).Some? {
      GuardIsCoordinateOrder(Read(s, |s.log|).value, s.basename, Stored(s).value, step.at);
    }
  }

  // A redeploy with an earlier watermark never rewinds an advanced connector: stopped, seeded
  // again and started, it resumes exactly at its stored offset.
  lemma {:induction false} RedeployResumesWhereStored(s: State, at: Coordinate, gtids: string, tsSec: int)
    requires Inv(s) && at in s.watermarks
    requires Stored(s).Some? && Le(at, Stored(s).value)
    ensures var steps := [Stop, Seed(at, gtids, tsSec, |s.log|), Start];
            && ValidRun(s, steps)
            && var t := After(s, steps);
               t.connector == Running(Stored(s).value, Stored(s).value) && t.log == s.log && t.skipped == s.skipped
  {
    var stopped := Do(s, Stop);
    var seed := Seed(at, gtids, tsSec, |s.log|);
    StepKeepsInv(s, Stop);
    SameLogSameStored(s, stopped);
    SkippedOnlyAtOrPast(stopped, seed);
    SeedOutcome(stopped, seed);
    var seeded := Do(stopped, seed);
    SameLogSameStored(s, seeded);
    hide Inv, AtOrPast, Stored, GoodRecord;
    ThreeSteps(s, [Stop, seed, Start], stopped, seeded);
  }
}
