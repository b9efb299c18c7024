/**
 The connect-offsets topic: reading the connector's live offset with a poll loop, building
 the seed record, and seeding it unless the connector is already at or past the watermark
 (deploy/cdc-stack/lambda/seeder.py).
 */
module OffsetTopic {
  import opened Wrappers
  import opened Binlog

  // A record value: a tombstone, bytes that are no JSON offset, or an offset.
  datatype Payload = Tombstone | Unreadable | Readable(offset: Offset)

  datatype Message = Message(key: Option<string>, value: Payload)

  // The last non-tombstone value written for `key`.
  function Latest(messages: seq<Message>, key: string): Option<Offset> {
    if messages == [] then None else
      var m := messages[|messages| - 1];
      if m.key == Some(key) && !m.value.Tombstone? then
        if m.value.Readable? then Some(m.value.offset) else None
      else Latest(messages[..|messages| - 1], key)
  }

  // A record of the key that is no tombstone.
  predicate WrittenAt(messages: seq<Message>, i: nat, key: string) {
    i < |messages| && messages[i].key == Some(key) && !messages[i].value.Tombstone?
  }

  // An offset is read exactly when the last such record holds it.
  lemma {:induction false} LatestExactly(messages: seq<Message>, key: string, o: Offset)
    ensures Latest(messages, key) == Some(o) <==>
            exists i: nat :: WrittenAt(messages, i, key) && messages[i].value == Readable(o)
                             && forall j: nat | i < j < |messages| :: !WrittenAt(messages, j, key)
  {
    if messages != [] {
      var init, n := messages[..|messages| - 1], |messages| - 1;
      LatestExactly(init, key, o);
      forall i: nat | i < n ensures WrittenAt(messages, i, key) == WrittenAt(init, i, key) {}
      if WrittenAt(messages, n, key) {
        if i: nat :| WrittenAt(messages, i, key) && messages[i].value == Readable(o)
                     && forall j: nat | i < j < |messages| :: !WrittenAt(messages, j, key) {
          assert i == n;
        }
      } else if Latest(init, key) == Some(o) {
        var i: nat :| WrittenAt(init, i, key) && init[i].value == Readable(o)
                      && forall j: nat | i < j < |init| :: !WrittenAt(init, j, key);
        assert WrittenAt(messages, i, key);
        assert forall j: nat | i < j < |messages| :: j < n ==> !WrittenAt(init, j, key);
      }
      if i: nat :| !WrittenAt(messages, n, key) && WrittenAt(messages, i, key) && messages[i].value == Readable(o)
                   && forall j: nat | i < j < |messages| :: !WrittenAt(messages, j, key) {
        assert WrittenAt(init, i, key) && init[i].value == Readable(o);
        assert forall j: nat | i < j < |init| :: WrittenAt(messages, j, key) == WrittenAt(init, j, key);
      }
    }
  }

  // ---- the seed record ----

  datatype Watermark = Watermark(file: string, pos: nat, gtids: string, tsSec: int)

  const FRESH_FIELDS: map<string, Value> := map["row" := Num(0), "server_id" := Num(0), "event" := Num(0)]

  // The fields of `base` with the skip counters reset, the snapshot marks and any stale GTID
  // set removed, and the watermark's own GTID set and time.
  function SeededFields(wm: Watermark, base: map<string, Value>): map<string, Value> {
    (base - {"gtids", "snapshot", "snapshot_completed"})
    + map["ts_sec" := Num(wm.tsSec), "row" := Num(0), "event" := Num(0)]
    + (if wm.gtids == "" then map[] else map["gtids" := Str(wm.gtids)])
  }

  function BaseFields(base: Option<Offset>): map<string, Value> {
    if base.None? || base.value == Offset(None, None, map[]) then FRESH_FIELDS else base.value.fields
  }

  function SeededOffset(wm: Watermark, base: Option<Offset>): Offset {
    Offset(Some(wm.file), Some(wm.pos), SeededFields(wm, BaseFields(base)))
  }

  method BuildSourceOffset(wm: Watermark, base: Option<Offset>) returns (offset: Offset)
    ensures offset == SeededOffset(wm, base)
  {
    hide BaseFields;
    var fields := BaseFields(base);
    fields := fields["ts_sec" := Num(wm.tsSec)];
    var file, pos := Some(wm.file), Some(wm.pos);
    fields := fields["row" := Num(0)];
    fields := fields["event" := Num(0)];
    if wm.gtids != "" {
      fields := fields["gtids" := Str(wm.gtids)];
    } else {
      fields := fields - {"gtids"};
    }
    fields := fields - {"snapshot"};
    fields := fields - {"snapshot_completed"};
    assert fields == SeededFields(wm, BaseFields(base));
    offset := Offset(file, pos, fields);
  }

  const SEEDED_FIELDS := {"ts_sec", "row", "event", "gtids", "snapshot", "snapshot_completed"}

  // A seed resumes exactly at the watermark: nothing of the earlier offset can make the
  // connector skip rows or events there, and every unrelated field is kept.
  lemma SeedResumesAtWatermark(wm: Watermark, base: Option<Offset>)
    ensures var o := SeededOffset(wm, base);
            && o.file == Some(wm.file) && o.pos == Some(wm.pos)
            && "row" in o.fields && o.fields["row"] == Num(0) && "event" in o.fields && o.fields["event"] == Num(0)
            && "snapshot" !in o.fields && "snapshot_completed" !in o.fields
            && "ts_sec" in o.fields && o.fields["ts_sec"] == Num(wm.tsSec)
            && ("gtids" in o.fields <==> wm.gtids != "") && (wm.gtids != "" ==> o.fields["gtids"] == Str(wm.gtids))
    // Of an offset that holds anything, every other field is kept, with its value.
    ensures base.Some? && (base.value.file.Some? || base.value.pos.Some? || base.value.fields != map[]) ==>
              var o := SeededOffset(wm, base);
              forall f | f !in SEEDED_FIELDS ::
                (f in o.fields <==> f in base.value.fields) && (f in o.fields ==> o.fields[f] == base.value.fields[f])
    // Without one, the only other field is a zero server id.
    ensures base.None? || base.value == Offset(None, None, map[]) ==>
              var o := SeededOffset(wm, base);
              forall f | f !in SEEDED_FIELDS :: (f in o.fields <==> f == "server_id") && (f in o.fields ==> o.fields[f] == Num(0))
  {
    assert "server_id" !in SEEDED_FIELDS;
  }

  // ---- the poll loop ----

  datatype Batch = Batch(partition: nat, messages: seq<Message>)

  datatype Delivery = Delivery(partition: nat, message: Message)

  // What a poll may return: of some partitions, each at most once, the next messages.
  predicate ValidPoll(recs: seq<Batch>, log: seq<seq<Message>>, position: seq<nat>) {
    && |position| == |log|
    && (forall i | 0 <= i < |recs| ::
          && recs[i].partition < |log| && recs[i].messages != []
          && position[recs[i].partition] <= |log[recs[i].partition]|
          && recs[i].messages <= log[recs[i].partition][position[recs[i].partition]..])
    && (forall i, j | 0 <= i < j < |recs| :: recs[i].partition != recs[j].partition)
  }

  function Messages(deliveries: seq<Delivery>): seq<Message> {
    seq(|deliveries|, i requires 0 <= i < |deliveries| => deliveries[i].message)
  }

  function OfPartition(deliveries: seq<Delivery>, p: nat): seq<Message> {
    if deliveries == [] then [] else
      var d := deliveries[|deliveries| - 1];
      OfPartition(deliveries[..|deliveries| - 1], p) + if d.partition == p then [d.message] else []
  }

  function Deliveries(b: Batch): seq<Delivery> {
    seq(|b.messages|, i requires 0 <= i < |b.messages| => Delivery(b.partition, b.messages[i]))
  }

  lemma {:induction false} OfPartitionConcat(a: seq<Delivery>, b: seq<Delivery>, p: nat)
    ensures OfPartition(a + b, p) == OfPartition(a, p) + OfPartition(b, p)
  {
    if b == [] {
      assert a + b == a;
    } else {
      assert (a + b)[..|a + b| - 1] == a + b[..|b| - 1];
      OfPartitionConcat(a, b[..|b| - 1], p);
    }
  }

  lemma {:induction false} OfPartitionBatch(b: Batch, p: nat)
    ensures OfPartition(Deliveries(b), p) == if b.partition == p then b.messages else []
    decreases |b.messages|
  {
    if b.messages != [] {
      var init := Batch(b.partition, b.messages[..|b.messages| - 1]);
      OfPartitionBatch(init, p);
      assert Deliveries(b)[..|b.messages| - 1] == Deliveries(init);
    }
  }

  function Remaining(log: seq<seq<Message>>, position: seq<nat>): int
    requires |position| == |log|
  {
    if log == [] then 0 else Remaining(log[1..], position[1..]) + |log[0]| - position[0]
  }

  lemma {:induction false} RemainingNat(log: seq<seq<Message>>, position: seq<nat>)
    requires |position| == |log| && forall p | 0 <= p < |log| :: position[p] <= |log[p]|
    ensures Remaining(log, position) >= 0
  {
    if log != [] { RemainingNat(log[1..], position[1..]); }
  }

  lemma {:induction false} RemainingDecreases(log: seq<seq<Message>>, position: seq<nat>, p: nat, n: nat)
    requires |position| == |log| && p < |log|
    ensures Remaining(log, position[p := position[p] + n]) == Remaining(log, position) - n
  {
    if p > 0 {
      assert position[p := position[p] + n][1..] == position[1..][p - 1 := position[1..][p - 1] + n];
      RemainingDecreases(log[1..], position[1..], p - 1, n);
    } else {
      assert position[p := position[p] + n][1..] == position[1..];
    }
  }

  // With the next records of its partition taken, what was delivered is again what is below the
  // positions.
  lemma {:induction false} BatchTaken(log: seq<seq<Message>>, position: seq<nat>, delivered: seq<Delivery>, b: Batch)
    requires |position| == |log| && b.partition < |log| && position[b.partition] <= |log[b.partition]|
    requires b.messages <= log[b.partition][position[b.partition]..]
    requires forall q | 0 <= q < |log| :: position[q] <= |log[q]| && OfPartition(delivered, q) == log[q][..position[q]]
    requires forall d | d in delivered :: d.partition < |log|
    ensures forall d | d in delivered + Deliveries(b) :: d.partition < |log|
    ensures forall q | 0 <= q < |log| ::
              var to := if q == b.partition then position[q] + |b.messages| else position[q];
              to <= |log[q]| && OfPartition(delivered + Deliveries(b), q) == log[q][..to]
  {
    var p := b.partition;
    assert log[p][..position[p]] + b.messages == log[p][..position[p] + |b.messages|];
    assert forall d | d in Deliveries(b) :: d.partition == p;
    forall q | 0 <= q < |log|
      ensures OfPartition(delivered + Deliveries(b), q) == log[q][..if q == p then position[q] + |b.messages| else position[q]]
    {
      OfPartitionConcat(delivered, Deliveries(b), q);
      OfPartitionBatch(b, q);
    }
  }

  // A consumer assigned every partition of the topic, from the beginning. `answers` is what
  // the brokers would return to each poll, whatever that is; an answer that is not the next
  // records counts as an empty poll.
  class Consumer {
    const log: seq<seq<Message>>
    const answers: nat -> seq<Batch>
    var polls: nat
    var position: seq<nat>
    ghost var delivered: seq<Delivery>

    ghost predicate Valid()
      reads this
    {
      && |position| == |log|
      && (forall d | d in delivered :: d.partition < |log|)
      && (forall p | 0 <= p < |log| :: position[p] <= |log[p]| && OfPartition(delivered, p) == log[p][..position[p]])
    }

    constructor (log: seq<seq<Message>>, answers: nat -> seq<Batch>)
      ensures Valid() && this.log == log && this.answers == answers
      ensures polls == 0 && delivered == [] && forall p | 0 <= p < |log| :: position[p] == 0
    {
      this.log, this.answers := log, answers;
      polls, delivered := 0, [];
      position := seq(|log|, p => 0);
    }

    method Poll() returns (recs: seq<Batch>)
      requires Valid()
      modifies `polls
      ensures polls == old(polls) + 1
      ensures ValidPoll(recs, log, position)
      ensures recs == answers(old(polls)) || recs == []
    {
      recs := answers(polls);
      polls := polls + 1;
      if !ValidPoll(recs, log, position) {
        recs := [];
      }
    }

    // The position after the application has taken a batch.
    method Take(b: Batch)
      requires Valid() && b.partition < |log| && b.messages <= log[b.partition][position[b.partition]..]
      modifies `position, `delivered
      ensures Valid() && delivered == old(delivered) + Deliveries(b)
      ensures position == old(position)[b.partition := old(position)[b.partition] + |b.messages|]
    {
      var p := b.partition;
      BatchTaken(log, position, delivered, b);
      hide OfPartition, Deliveries;
      position := position[p := position[p] + |b.messages|];
      delivered := delivered + Deliveries(b);
    }

    predicate AtEnd()
      requires |position| == |log|
      reads this
    {
      forall p | 0 <= p < |log| :: position[p] >= |log[p]|
    }
  }

  lemma {:induction false} LatestAppend(a: seq<Message>, b: seq<Message>, key: string)
    requires forall m | m in b :: m.key != Some(key) || m.value.Tombstone?
    ensures Latest(a + b, key) == Latest(a, key)
  {
    if b == [] {
      assert a + b == a;
    } else {
      assert b[|b| - 1] in b;
      assert (a + b)[..|a + b| - 1] == a + b[..|b| - 1];
      LatestAppend(a, b[..|b| - 1], key);
    }
  }

  method ScanBatch(b: Batch, key: string, seen: Option<Offset>, ghost before: seq<Delivery>) returns (latest: Option<Offset>)
    requires seen == Latest(Messages(before), key)
    ensures latest == Latest(Messages(before + Deliveries(b)), key)
  {
    latest := seen;
    assert before + Deliveries(b)[..0] == before;
    for i := 0 to |b.messages|
      invariant latest == Latest(Messages(before + Deliveries(b)[..i]), key)
    {
      var m := b.messages[i];
      ghost var next := Messages(before + Deliveries(b)[..i + 1]);
      assert next[..|next| - 1] == Messages(before + Deliveries(b)[..i]);
      assert next[|next| - 1] == m;
      if m.key == Some(key) && !m.value.Tombstone? {
        latest := if m.value.Readable? then Some(m.value.offset) else None;
      }
    }
    assert Deliveries(b)[..|b.messages|] == Deliveries(b);
  }

  // Poll until an empty answer or the end of every partition. The result is the last
  // non-tombstone value of the key among the records received, in the order they came.
  // `emptied` tells that an empty answer ended the loop.
  method ReadExistingOffset(consumer: Consumer, key: string) returns (latest: Option<Offset>, ghost emptied: bool)
    requires consumer.Valid() && consumer.delivered == [] && consumer.polls == 0
    requires forall p | 0 <= p < |consumer.log| :: consumer.position[p] == 0
    modifies consumer
    ensures consumer.Valid()
    ensures latest == Latest(Messages(consumer.delivered), key)
    ensures !emptied ==> consumer.AtEnd()
    ensures consumer.answers(0) == [] ==> forall p | 0 <= p < |consumer.log| :: consumer.position[p] == 0
  {
    hide Deliveries, Remaining, OfPartition;
    latest := None;
    if forall p | 0 <= p < |consumer.log| :: consumer.log[p] == [] {
      return None, false;
    }
    emptied := false;
    while true
      invariant consumer.Valid()
      invariant latest == Latest(Messages(consumer.delivered), key)
      invariant !emptied
      invariant consumer.polls == 0 ==> forall p | 0 <= p < |consumer.log| :: consumer.position[p] == 0
      invariant consumer.polls > 0 ==> consumer.answers(0) != []
      decreases Remaining(consumer.log, consumer.position)
    {
      var recs := consumer.Poll();
      if recs == [] {
        emptied := true;
        break;
      }
      ghost var position, log := consumer.position, consumer.log;
      RemainingNat(log, position);
      for i := 0 to |recs|
        invariant consumer.Valid() && consumer.polls > 0
        invariant latest == Latest(Messages(consumer.delivered), key)
        invariant forall j | i <= j < |recs| :: consumer.position[recs[j].partition] == position[recs[j].partition]
        invariant Remaining(log, consumer.position) <= Remaining(log, position) - i
      {
        latest := ScanBatch(recs[i], key, latest, consumer.delivered);
        RemainingDecreases(log, consumer.position, recs[i].partition, |recs[i].messages|);
        consumer.Take(recs[i]);
      }
      if consumer.AtEnd() {
        break;
      }
    }
  }

  // ---- what a complete read returns ----

  // Keyed records go to one partition.
  ghost predicate KeyedTo(log: seq<seq<Message>>, key: string, home: nat) {
    home < |log| && forall p, m | 0 <= p < |log| && p != home && m in log[p] :: m.key != Some(key)
  }

  lemma {:induction false} LatestStep(messages: seq<Message>, m: Message, key: string)
    ensures Latest(messages + [m], key)
         == if m.key == Some(key) && !m.value.Tombstone? then (if m.value.Readable? then Some(m.value.offset) else None)
            else Latest(messages, key)
  {
    assert (messages + [m])[..|messages|] == messages;
  }

  lemma {:induction false} LatestOfHome(deliveries: seq<Delivery>, key: string, home: nat)
    requires forall d | d in deliveries && d.partition != home :: d.message.key != Some(key)
    ensures Latest(Messages(deliveries), key) == Latest(OfPartition(deliveries, home), key)
  {
    if deliveries != [] {
      var init, d := deliveries[..|deliveries| - 1], deliveries[|deliveries| - 1];
      assert d in deliveries;
      assert Messages(deliveries)[..|init|] == Messages(init) && Messages(deliveries)[|init|] == d.message;
      LatestOfHome(init, key, home);
      LatestStep(Messages(init), d.message, key);
      assert Messages(deliveries) == Messages(init) + [d.message];
      if d.partition == home {
        LatestStep(OfPartition(init, home), d.message, key);
      } else {
        assert OfPartition(deliveries, home) == OfPartition(init, home);
      }
    }
  }

  lemma {:induction false} DeliveredFrom(deliveries: seq<Delivery>, d: Delivery)
    requires d in deliveries
    ensures d.message in OfPartition(deliveries, d.partition)
  {
    if d in deliveries[..|deliveries| - 1] {
      DeliveredFrom(deliveries[..|deliveries| - 1], d);
    }
  }

  // Whatever was delivered, in whatever interleaving: the value read is the last one in the
  // part of the key's own partition that was reached. A read that reached every end returns
  // the last non-tombstone value ever written for the key.
  lemma {:induction false} ReadIsLatestReached(log: seq<seq<Message>>, position: seq<nat>, delivered: seq<Delivery>, key: string, home: nat)
    requires KeyedTo(log, key, home) && |position| == |log|
    requires forall p | 0 <= p < |log| :: position[p] <= |log[p]| && OfPartition(delivered, p) == log[p][..position[p]]
    requires forall d | d in delivered :: d.partition < |log|
    ensures Latest(Messages(delivered), key) == Latest(log[home][..position[home]], key)
    ensures position[home] == |log[home]| ==> Latest(Messages(delivered), key) == Latest(log[home], key)
  {
    forall d | d in delivered && d.partition != home ensures d.message.key != Some(key) {
      DeliveredFrom(delivered, d);
      assert d.message in log[d.partition];
    }
    LatestOfHome(delivered, key, home);
    assert log[home][..|log[home]|] == log[home];
  }

  // ---- seeding ----

  // The key's partition after a seed that read `read`.
  function AfterSeed(messages: seq<Message>, key: string, wm: Watermark, read: Option<Offset>): seq<Message> {
    if AtOrPast(read, wm.file, wm.pos) then messages
    else messages + [Message(Some(key), Readable(SeededOffset(wm, read)))]
  }

  // Seeding twice in a row appends at most one record, whatever the first read saw.
  lemma {:induction false} SeedingTwiceAppendsOnce(messages: seq<Message>, key: string, wm: Watermark, read: Option<Offset>)
    requires wm.file != ""
    ensures var once := AfterSeed(messages, key, wm, read);
            |AfterSeed(once, key, wm, Latest(once, key))| <= |messages| + 1
    ensures read == Latest(messages, key) ==>
              var once := AfterSeed(messages, key, wm, read);
              AfterSeed(once, key, wm, Latest(once, key)) == once
  {
    hide SeededFields, BaseFields, BinlogSeq;
    if !AtOrPast(read, wm.file, wm.pos) {
      LatestStep(messages, Message(Some(key), Readable(SeededOffset(wm, read))), key);
    }
  }

  class Topic {
    var log: seq<seq<Message>>

    constructor (log: seq<seq<Message>>)
      ensures this.log == log
    {
      this.log := log;
    }

    method Produce(home: nat, m: Message)
      requires home < |log|
      modifies this
      ensures log == old(log)[home := old(log)[home] + [m]]
    {
      log := log[home := log[home] + [m]];
    }
  }

  // Read-modify-write: the watermark is produced unless the offset read is at or past it.
  method Seed(topic: Topic, home: nat, key: string, wm: Watermark, answers: nat -> seq<Batch>)
    returns (seeded: bool, ghost read: Option<Offset>, ghost reached: nat, ghost emptied: bool)
    requires KeyedTo(topic.log, key, home)
    modifies topic
    ensures !emptied ==> reached == |old(topic.log)[home]|
    // An empty answer to the first poll reads nothing.
    ensures answers(0) == [] ==> reached == 0
    ensures reached <= |old(topic.log)[home]| && read == Latest(old(topic.log)[home][..reached], key)
    ensures topic.log == old(topic.log)[home := AfterSeed(old(topic.log)[home], key, wm, read)]
    ensures seeded <==> !AtOrPast(read, wm.file, wm.pos)
  {
    var consumer := new Consumer(topic.log, answers);
    var existing;
    existing, emptied := ReadExistingOffset(consumer, key);
    ReadIsLatestReached(topic.log, consumer.position, consumer.delivered, key, home);
    read, reached := existing, consumer.position[home];
    if AtOrPast(existing, wm.file, wm.pos) {
      assert topic.log == topic.log[home := topic.log[home]];
      return false, read, reached, emptied;
    }
    var offset := BuildSourceOffset(wm, existing);
    topic.Produce(home, Message(Some(key), Readable(offset)));
    seeded := true;
  }
}
