/**
 Kafka topic preparation: the plan (src/dsql_migrator/core/cdc_kafka_prep.py) and its
 execution against a throttling broker (deploy/cdc-stack/lambda/seeder.py).
 */
module TopicPrep {
  import opened Wrappers
  import opened Text

  // ---- the partition map text ----

  // The digits of an int(...) literal: single underscores may stand between digits.
  predicate Grouped(s: string) {
    s != [] && IsDigit(s[0])
    && (|s| == 1 || Grouped(s[1..]) || (s[1] == '_' && |s| > 2 && Grouped(s[2..])))
  }

  function Ungroup(s: string): (r: string)
    ensures (forall c | c in s :: IsDigit(c) || c == '_') ==> AllDigits(r)
  {
    if s == [] then [] else
      assert forall c | c in s[1..] :: c in s;
      (if s[0] == '_' then [] else [s[0]]) + Ungroup(s[1..])
  }

  // int(text), or None where it raises ValueError.
  function ParseInt(text: string): Option<int> {
    var s := Strip(text);
    if s != [] && s[0] == '-' then ParseNat(s[1..], -1)
    else if s != [] && s[0] == '+' then ParseNat(s[1..], 1)
    else ParseNat(s, 1)
  }

  function ParseNat(body: string, sign: int): Option<int> {
    if !Grouped(body) || exists c :: c in body && !IsDigit(c) && c != '_' then None
    else Some(sign * TextNat(Ungroup(body)))
  }

  function AddPair(m: map<string, int>, text: string): map<string, int> {
    match RPartition(Strip(text), ':')
    case None => m
    case Some((topic, count)) =>
      match ParseInt(count)
      case None => m
      case Some(n) => m[Strip(topic) := n]
  }

  function PairsOf(parts: seq<string>): map<string, int> {
    if parts == [] then map[] else AddPair(PairsOf(parts[..|parts| - 1]), parts[|parts| - 1])
  }

  method ParsePartitionsMap(csv: string) returns (result: map<string, int>)
    ensures result == PairsOf(Split(csv, ','))
  {
    var parts := Split(csv, ',');
    result := map[];
    for i := 0 to |parts|
      invariant result == PairsOf(parts[..i])
    {
      assert parts[..i + 1][..i] == parts[..i];
      hide ParseInt;
      var pair := RPartition(Strip(parts[i]), ':');
      if pair.None? {
        continue;
      }
      var n := ParseInt(pair.value.1);
      if n.Some? {
        result := result[Strip(pair.value.0) := n.value];
      }
    }
    assert parts[..|parts|] == parts;
  }

  datatype Entry = Entry(topic: string, count: nat)

  function EntryText(e: Entry): string {
    e.topic + ":" + NatText(e.count)
  }

  function EntryTexts(entries: seq<Entry>): seq<string> {
    seq(|entries|, i requires 0 <= i < |entries| => EntryText(entries[i]))
  }

  // The entries as a map, the last one of a topic winning.
  function EntryMap(entries: seq<Entry>): map<string, int> {
    if entries == [] then map[] else
      var e := entries[|entries| - 1];
      EntryMap(entries[..|entries| - 1])[e.topic := e.count]
  }

  predicate PrintableName(topic: string) {
    Trimmed(topic) && ',' !in topic
  }

  lemma {:induction false} DigitsAreGrouped(s: string)
    requires DigitText(s)
    ensures Grouped(s) && Ungroup(s) == s
  {
    assert s[0] in s;
    if |s| == 1 {
      assert s[1..] == [] && Ungroup(s[1..]) == [];
    } else {
      assert forall c | c in s[1..] :: c in s;
      DigitsAreGrouped(s[1..]);
    }
  }

  lemma DigitsNotSpaces(s: string)
    requires DigitText(s)
    ensures Trimmed(s) && ',' !in s && ':' !in s && s[0] != '+' && s[0] != '-'
  {
    assert s[0] in s && s[|s| - 1] in s;
  }

  lemma {:induction false} ParseIntOfNatText(n: nat)
    ensures ParseInt(NatText(n)) == Some(n)
  {
    var s := NatText(n);
    hide NatText;
    DigitsNotSpaces(s);
    StripTrimmed(s);
    DigitsAreGrouped(s);
    TextNatOfNatText(n);
  }

  lemma AddPairOfEntry(m: map<string, int>, e: Entry)
    requires PrintableName(e.topic)
    ensures AddPair(m, EntryText(e)) == m[e.topic := e.count]
  {
    var digits, text := NatText(e.count), EntryText(e);
    hide NatText, ParseInt;
    DigitsNotSpaces(digits);
    assert text[|text| - 1] == digits[|digits| - 1];
    assert text[0] == if e.topic == "" then ':' else e.topic[0];
    StripTrimmed(text);
    StripTrimmed(e.topic);
    RPartitionOfJoined(e.topic, ':', digits);
    ParseIntOfNatText(e.count);
  }

  lemma {:induction false} PairsOfEntries(entries: seq<Entry>)
    requires forall e | e in entries :: PrintableName(e.topic)
    ensures PairsOf(EntryTexts(entries)) == EntryMap(entries)
  {
    hide EntryText, AddPair;
    if entries != [] {
      var init, e := entries[..|entries| - 1], entries[|entries| - 1];
      assert e in entries && forall x | x in init :: x in entries;
      assert EntryTexts(entries)[..|init|] == EntryTexts(init);
      PairsOfEntries(init);
      AddPairOfEntry(EntryMap(init), e);
    }
  }

  // The printed partition map parses back, colons in names included, the last duplicate
  // winning.
  lemma {:induction false} PartitionsMapParsesBack(entries: seq<Entry>)
    requires forall e | e in entries :: PrintableName(e.topic)
    ensures PairsOf(Split(Join(EntryTexts(entries), ','), ',')) == EntryMap(entries)
  {
    hide EntryMap, Join, Split, PairsOf;
    if entries == [] {
      EmptyMapText();
    } else {
      forall t | t in EntryTexts(entries) ensures ',' !in t {
        var i :| 0 <= i < |entries| && t == EntryText(entries[i]);
        assert entries[i] in entries;
        DigitsNotSpaces(NatText(entries[i].count));
      }
      SplitOfJoined(EntryTexts(entries), ',');
      PairsOfEntries(entries);
    }
  }

  lemma EmptyMapText()
    ensures PairsOf(Split(Join([], ','), ',')) == EntryMap([])
  {
    assert Join([], ',') == "";
    assert Split("", ',') == [""];
    assert [""][..0] == [];
    assert AddPair(map[], "") == map[];
  }

  // ---- the plan ----

  datatype TopicSpec = TopicSpec(name: string, partitions: int, configs: map<string, string>)

  // max.message.bytes when one is given, as the broker expects it.
  function MaxBytes(n: nat): map<string, string> {
    if n == 0 then map[] else map["max.message.bytes" := NatText(n)]
  }

  function TrimmedNames(parts: seq<string>): (r: seq<string>)
    ensures forall n | n in r :: n != ""
  {
    if parts == [] then [] else
      TrimmedNames(parts[..|parts| - 1]) + if Strip(parts[|parts| - 1]) == "" then [] else [Strip(parts[|parts| - 1])]
  }

  function DataSpec(name: string, partMap: map<string, int>, defaultPartitions: int, maxBytes: nat): TopicSpec {
    TopicSpec(name, if name in partMap then partMap[name] else defaultPartitions, MaxBytes(maxBytes))
  }

  function DataSpecs(names: seq<string>, partMap: map<string, int>, defaultPartitions: int, maxBytes: nat): seq<TopicSpec> {
    if names == [] then [] else
      DataSpecs(names[..|names| - 1], partMap, defaultPartitions, maxBytes)
      + [DataSpec(names[|names| - 1], partMap, defaultPartitions, maxBytes)]
  }

  function DlqSpecs(dlq: string, maxBytes: nat): seq<TopicSpec> {
    if dlq == "" then [] else [TopicSpec(dlq, 1, MaxBytes(maxBytes))]
  }

  function OffsetSpec(name: string, partitions: int): TopicSpec {
    TopicSpec(name, partitions, map["cleanup.policy" := "compact"])
  }

  method PlanTopics(offsetTopic: string, offsetPartitions: int, sinkTopics: seq<string>, defaultPartitions: int,
                    partMap: map<string, int>, maxBytes: nat, dlq: string)
    returns (specs: seq<TopicSpec>)
    ensures specs == [OffsetSpec(offsetTopic, offsetPartitions)]
                     + DataSpecs(TrimmedNames(sinkTopics), partMap, defaultPartitions, maxBytes) + DlqSpecs(dlq, maxBytes)
  {
    specs := [OffsetSpec(offsetTopic, offsetPartitions)];
    ghost var start := specs;
    for i := 0 to |sinkTopics|
      invariant specs == start + DataSpecs(TrimmedNames(sinkTopics[..i]), partMap, defaultPartitions, maxBytes)
    {
      assert sinkTopics[..i + 1][..i] == sinkTopics[..i];
      hide Strip;
      var name := Strip(sinkTopics[i]);
      ghost var before := TrimmedNames(sinkTopics[..i]);
      if name == "" {
        assert TrimmedNames(sinkTopics[..i + 1]) == before;
        continue;
      }
      assert TrimmedNames(sinkTopics[..i + 1]) == before + [name];
      assert (before + [name])[..|before|] == before;
      specs := specs + [TopicSpec(name, if name in partMap then partMap[name] else defaultPartitions, MaxBytes(maxBytes))];
    }
    assert sinkTopics[..|sinkTopics|] == sinkTopics;
    if dlq != "" {
      specs := specs + [TopicSpec(dlq, 1, MaxBytes(maxBytes))];
    }
  }

  // ---- creating topics ----

  datatype Shape = Shape(partitions: int, configs: map<string, string>)

  type Topics = map<string, Shape>

  // An existing topic is left as it is.
  function AddIfAbsent(topics: Topics, spec: TopicSpec): Topics {
    if spec.name in topics then topics else topics[spec.name := Shape(spec.partitions, spec.configs)]
  }

  function EnsureAll(topics: Topics, specs: seq<TopicSpec>): Topics {
    if specs == [] then topics else AddIfAbsent(EnsureAll(topics, specs[..|specs| - 1]), specs[|specs| - 1])
  }

  function SpecNames(specs: seq<TopicSpec>): set<string> {
    set s | s in specs :: s.name
  }

  // The first spec of a name.
  function FirstSpec(specs: seq<TopicSpec>, name: string): Option<TopicSpec> {
    if specs == [] then None else if specs[0].name == name then Some(specs[0]) else FirstSpec(specs[1..], name)
  }

  lemma {:induction false} EnsureAllConcat(topics: Topics, a: seq<TopicSpec>, b: seq<TopicSpec>)
    ensures EnsureAll(topics, a + b) == EnsureAll(EnsureAll(topics, a), b)
  {
    if b == [] {
      assert a + b == a;
    } else {
      assert (a + b)[..|a + b| - 1] == a + b[..|b| - 1];
      EnsureAllConcat(topics, a, b[..|b| - 1]);
    }
  }

  // Existing topics are never altered; the new ones are exactly the planned names not there
  // before, each with its first spec.
  lemma {:induction false} EnsureAllIs(topics: Topics, specs: seq<TopicSpec>)
    ensures var r := EnsureAll(topics, specs);
            && r.Keys == topics.Keys + SpecNames(specs)
            && (forall n | n in topics :: r[n] == topics[n])
            && (forall n | n in r && n !in topics ::
                  FirstSpec(specs, n).Some? && r[n] == Shape(FirstSpec(specs, n).value.partitions, FirstSpec(specs, n).value.configs))
  {
    if specs != [] {
      var init, last := specs[..|specs| - 1], specs[|specs| - 1];
      assert specs == init + [last];
      EnsureAllIs(topics, init);
      assert SpecNames(specs) == SpecNames(init) + {last.name};
      forall n ensures FirstSpec(specs, n) == if FirstSpec(init, n).Some? then FirstSpec(init, n) else if last.name == n then Some(last) else None {
        FirstSpecAppend(init, last, n);
      }
      forall n ensures FirstSpec(init, n).Some? <==> n in SpecNames(init) { FirstSpecFinds(init, n); }
    }
  }

  lemma {:induction false} FirstSpecAppend(init: seq<TopicSpec>, last: TopicSpec, n: string)
    ensures FirstSpec(init + [last], n)
         == if FirstSpec(init, n).Some? then FirstSpec(init, n) else if last.name == n then Some(last) else None
  {
    if init == [] {
      assert [last][1..] == [] && init + [last] == [last];
    } else {
      assert (init + [last])[1..] == init[1..] + [last];
      FirstSpecAppend(init[1..], last, n);
    }
  }

  lemma {:induction false} FirstSpecFinds(specs: seq<TopicSpec>, n: string)
    ensures FirstSpec(specs, n).Some? <==> n in SpecNames(specs)
    ensures FirstSpec(specs, n).Some? ==> FirstSpec(specs, n).value in specs && FirstSpec(specs, n).value.name == n
  {
    if specs != [] {
      assert specs == [specs[0]] + specs[1..];
      FirstSpecFinds(specs[1..], n);
    }
  }

  predicate DistinctNames(specs: seq<TopicSpec>) {
    forall i, j | 0 <= i < j < |specs| :: specs[i].name != specs[j].name
  }

  // With distinct names the result is the old map plus every planned topic that was absent.
  lemma {:induction false} PlannedTopicsAreAdded(topics: Topics, specs: seq<TopicSpec>)
    requires DistinctNames(specs)
    ensures var r := EnsureAll(topics, specs);
            && r.Keys == topics.Keys + SpecNames(specs)
            && (forall n | n in topics :: r[n] == topics[n])
            && (forall s | s in specs && s.name !in topics :: r[s.name] == Shape(s.partitions, s.configs))
  {
    EnsureAllIs(topics, specs);
    forall s | s in specs && s.name !in topics
      ensures s.name in EnsureAll(topics, specs) && EnsureAll(topics, specs)[s.name] == Shape(s.partitions, s.configs)
    {
      FirstSpecFinds(specs, s.name);
      assert s.name in SpecNames(specs);
    }
  }

  // A second run creates nothing.
  lemma {:induction false} SecondRunCreatesNothing(topics: Topics, specs: seq<TopicSpec>)
    ensures EnsureAll(EnsureAll(topics, specs), specs) == EnsureAll(topics, specs)
  {
    hide EnsureAll;
    EnsureAllIs(topics, specs);
    EnsureAllIs(EnsureAll(topics, specs), specs);
  }

  // Which spec names a topic, with the offset topic first and with it last.
  lemma {:induction false} FirstSpecEitherEnd(offset: TopicSpec, rest: seq<TopicSpec>, m: string)
    ensures FirstSpec([offset] + rest, m) == if m == offset.name then Some(offset) else FirstSpec(rest, m)
    ensures FirstSpec(rest + [offset], m)
         == if FirstSpec(rest, m).Some? then FirstSpec(rest, m) else if m == offset.name then Some(offset) else None
  {
    assert ([offset] + rest)[1..] == rest;
    FirstSpecAppend(rest, offset, m);
  }

  // The two orders differ on the offset topic's name alone.
  lemma {:induction false} OrderAt(topics: Topics, offset: TopicSpec, rest: seq<TopicSpec>, m: string)
    requires forall s | s in rest :: s.configs != offset.configs
    ensures var first, last := EnsureAll(topics, [offset] + rest), EnsureAll(topics, rest + [offset]);
            && (m in first <==> m in last)
            && (m in first ==> (first[m] == last[m] <==> m in topics || m != offset.name || m !in SpecNames(rest)))
  {
    EnsureAllIs(topics, [offset] + rest);
    EnsureAllIs(topics, rest + [offset]);
    assert SpecNames([offset] + rest) == SpecNames(rest) + {offset.name} == SpecNames(rest + [offset]);
    FirstSpecEitherEnd(offset, rest, m);
    FirstSpecFinds(rest, m);
    hide EnsureAll, SpecNames, FirstSpec;
  }

  // The plan lists the offset topic first, the seeder creates it last. They agree exactly
  // when its name is not also the name of a data or dead-letter topic, or exists already.
  lemma {:induction false} OrderMattersExactly(topics: Topics, offset: TopicSpec, rest: seq<TopicSpec>)
    requires forall s | s in rest :: s.configs != offset.configs
    ensures EnsureAll(topics, [offset] + rest) == EnsureAll(topics, rest + [offset])
       <==> offset.name in topics || offset.name !in SpecNames(rest)
  {
    var first, last := EnsureAll(topics, [offset] + rest), EnsureAll(topics, rest + [offset]);
    EnsureAllIs(topics, [offset] + rest);
    assert offset in [offset] + rest;
    assert offset.name in first;
    hide *;
    OrderAt(topics, offset, rest, offset.name);
    if offset.name in topics || offset.name !in SpecNames(rest) {
      forall m ensures m in first <==> m in last { OrderAt(topics, offset, rest, m); }
      forall m | m in first ensures first[m] == last[m] { OrderAt(topics, offset, rest, m); }
    }
  }

  // No data or dead-letter spec has the offset topic's configs.
  lemma {:induction false} OnlyOffsetIsCompact(names: seq<string>, partMap: map<string, int>, defaultPartitions: int, maxBytes: nat, dlq: string, offset: TopicSpec)
    requires offset.configs == map["cleanup.policy" := "compact"]
    ensures forall s | s in DataSpecs(names, partMap, defaultPartitions, maxBytes) + DlqSpecs(dlq, maxBytes) :: s.configs != offset.configs
  {
    assert "cleanup.policy" !in MaxBytes(maxBytes) && "cleanup.policy" in offset.configs;
    if names != [] {
      OnlyOffsetIsCompact(names[..|names| - 1], partMap, defaultPartitions, maxBytes, dlq, offset);
    }
  }

  // ---- the throttling broker ----

  const RETRIES := 8
  const FIRST_WAIT := 0.5
  const MAX_WAIT := 8.0

  // What the broker does to one attempt. A throttled request may have taken effect all the
  // same.
  datatype Attempt = Served | Throttled(effective: bool)

  datatype Request = List | Create(spec: TopicSpec)

  datatype Response = Names(names: set<string>) | Created | AlreadyExists | NotReady

  class Broker {
    const attempts: nat -> Attempt
    var topics: Topics
    var sent: nat
    var creates: nat

    constructor (topics: Topics, attempts: nat -> Attempt)
      ensures this.topics == topics && this.attempts == attempts && sent == 0 && creates == 0
    {
      this.topics, this.attempts, sent, creates := topics, attempts, 0, 0;
    }

    method Send(request: Request) returns (r: Response)
      modifies this
      ensures sent == old(sent) + 1
      ensures creates == old(creates) + if request.Create? then 1 else 0
      ensures r.NotReady? <==> attempts(old(sent)).Throttled?
      ensures request.List? ==> topics == old(topics) && (r.NotReady? || r == Names(topics.Keys))
      ensures request.Create? ==>
                if r.NotReady? then topics == old(topics) || topics == AddIfAbsent(old(topics), request.spec)
                else topics == AddIfAbsent(old(topics), request.spec)
                     && r == if request.spec.name in old(topics) then AlreadyExists else Created
    {
      var attempt := attempts(sent);
      sent := sent + 1;
      r := NotReady;
      match request {
        case List =>
          if attempt.Served? {
            r := Names(topics.Keys);
          }
        case Create(spec) =>
          creates := creates + 1;
          if attempt.Served? {
            r := if spec.name in topics then AlreadyExists else Created;
          }
          if attempt.Served? || attempt.effective {
            topics := AddIfAbsent(topics, spec);
          }
      }
    }
  }

  function WaitAt(k: nat): real {
    if k == 0 then FIRST_WAIT else if WaitAt(k - 1) * 2.0 < MAX_WAIT then WaitAt(k - 1) * 2.0 else MAX_WAIT
  }

  function SleptBefore(k: nat): real {
    if k == 0 then 0.0 else SleptBefore(k - 1) + WaitAt(k - 1)
  }

  lemma {:induction false} SleepBounds(k: nat)
    requires k < RETRIES
    ensures 0.0 <= SleptBefore(k) <= SleptBefore(7) == 31.5
  {
    assert WaitAt(0) == 0.5 && WaitAt(1) == 1.0 && WaitAt(2) == 2.0;
    assert WaitAt(3) == 4.0 && WaitAt(4) == 8.0 && WaitAt(5) == 8.0 && WaitAt(6) == 8.0;
    assert SleptBefore(1) == 0.5 && SleptBefore(2) == 1.5 && SleptBefore(3) == 3.5;
    assert SleptBefore(4) == 7.5 && SleptBefore(5) == 15.5 && SleptBefore(6) == 23.5 && SleptBefore(7) == 31.5;
    assert k == 0 || k == 1 || k == 2 || k == 3 || k == 4 || k == 5 || k == 6 || k == 7;
  }

  predicate AllThrottled(attempts: nat -> Attempt, from: nat, to: nat) {
    forall k: nat | from <= k < to :: attempts(k).Throttled?
  }

  // All eight attempts from the given one on are throttled.
  predicate Exhausted(attempts: nat -> Attempt, from: nat) {
    AllThrottled(attempts, from, from + 8)
  }

  ghost predicate NeverExhausted(attempts: nat -> Attempt) {
    forall k: nat :: !Exhausted(attempts, k)
  }

  // Retry a throttled request, waiting twice as long each time. It fails only when all eight
  // attempts were throttled; a create that succeeds has taken effect once, whichever attempt
  // did it.
  method ThrottleTolerant(broker: Broker, request: Request) returns (r: Response, slept: real)
    modifies broker
    ensures 0.0 <= slept <= 31.5
    ensures r.NotReady? <==> Exhausted(broker.attempts, old(broker.sent))
    ensures request.List? ==> broker.topics == old(broker.topics) && broker.creates == old(broker.creates) && (r.NotReady? || r == Names(broker.topics.Keys))
    ensures request.Create? ==>
              && (broker.topics == old(broker.topics) || broker.topics == AddIfAbsent(old(broker.topics), request.spec))
              && (!r.NotReady? ==> broker.topics == AddIfAbsent(old(broker.topics), request.spec) && (r.Created? || r.AlreadyExists?))
              && (r.Created? ==> request.spec.name !in old(broker.topics))
  {
    var wait := FIRST_WAIT;
    slept := 0.0;
    r := NotReady;
    for attempt := 0 to RETRIES
      invariant broker.sent == old(broker.sent) + attempt
      invariant r.NotReady?
      invariant AllThrottled(broker.attempts, old(broker.sent), old(broker.sent) + attempt)
      invariant attempt < RETRIES ==> wait == WaitAt(attempt) && slept == SleptBefore(attempt)
      invariant 0.0 <= slept <= 31.5
      invariant request.List? ==> broker.topics == old(broker.topics) && broker.creates == old(broker.creates)
      invariant request.Create? ==> broker.topics == old(broker.topics) || broker.topics == AddIfAbsent(old(broker.topics), request.spec)
    {
      r := broker.Send(request);
      if !r.NotReady? {
        assert broker.attempts(old(broker.sent) + attempt).Served?;
        return r, slept;
      }
      if attempt < RETRIES - 1 {
        SleepBounds(attempt + 1);
        assert SleptBefore(attempt + 1) == slept + wait;
        slept := slept + wait;
        wait := if wait * 2.0 < MAX_WAIT then wait * 2.0 else MAX_WAIT;
      }
    }
  }

  // The topics grow by planned ones only.
  ghost predicate Grown(before: Topics, after: Topics, specs: seq<TopicSpec>) {
    && before.Keys <= after.Keys <= before.Keys + SpecNames(specs)
    && forall n | n in before :: after[n] == before[n]
  }

  lemma {:induction false} NothingEnsured(topics: Topics, names: seq<string>, partMap: map<string, int>, defaultPartitions: int, maxBytes: nat)
    ensures EnsureAll(topics, DataSpecs(names[..0], partMap, defaultPartitions, maxBytes)) == topics
    ensures Grown(topics, topics, DataSpecs(names, partMap, defaultPartitions, maxBytes))
  {
  }

  // The existing topics are read once and only the missing ones are created, one by one.
  method EnsureDataTopics(broker: Broker, names: seq<string>, partMap: map<string, int>, defaultPartitions: int, maxBytes: nat)
    returns (ok: bool, created: nat, skipped: nat)
    modifies broker
    ensures ok ==> broker.topics == EnsureAll(old(broker.topics), DataSpecs(names, partMap, defaultPartitions, maxBytes))
    ensures NeverExhausted(broker.attempts) ==> ok
    ensures ok ==> created + skipped == |names|
    ensures Grown(old(broker.topics), broker.topics, DataSpecs(names, partMap, defaultPartitions, maxBytes))
    ensures (forall n | n in names :: n in old(broker.topics)) ==>
              broker.creates == old(broker.creates) && broker.topics == old(broker.topics) && created == 0
  {
    hide EnsureAll, DataSpecs, DataSpec, Grown, MaxBytes, Exhausted, AddIfAbsent;
    created, skipped := 0, 0;
    NothingEnsured(broker.topics, names, partMap, defaultPartitions, maxBytes);
    if names == [] {
      return true, 0, 0;
    }
    var list, _ := ThrottleTolerant(broker, List);
    if list.NotReady? {
      return false, 0, 0;
    }
    var existing := list.names;
    ghost var missing := exists n :: n in names && n !in existing;
    var specs := DataSpecs(names, partMap, defaultPartitions, maxBytes);
    for i := 0 to |names|
      invariant broker.topics == EnsureAll(old(broker.topics), DataSpecs(names[..i], partMap, defaultPartitions, maxBytes))
      invariant created + skipped == i
      invariant existing <= broker.topics.Keys
      invariant Grown(old(broker.topics), broker.topics, specs)
      invariant !missing ==> broker.creates == old(broker.creates) && broker.topics == old(broker.topics) && created == 0
    {
      var name := names[i];
      assert name in names;
      var spec := DataSpec(name, partMap, defaultPartitions, maxBytes);
      DataStep(old(broker.topics), names, i, partMap, defaultPartitions, maxBytes);
      GrowOne(old(broker.topics), broker.topics, spec, specs);
      if name in existing {
        skipped := skipped + 1;
        AlreadyThere(broker.topics, spec);
        continue;
      }
      assert missing;
      var r, _ := ThrottleTolerant(broker, Create(spec));
      if r.NotReady? {
        return false, created, skipped;
      }
      if r.Created? {
        created := created + 1;
      } else {
        skipped := skipped + 1;
      }
    }
    assert names[..|names|] == names;
    ok := true;
  }

  lemma {:induction false} DataStep(topics: Topics, names: seq<string>, i: nat, partMap: map<string, int>, defaultPartitions: int, maxBytes: nat)
    requires i < |names|
    ensures var spec := DataSpec(names[i], partMap, defaultPartitions, maxBytes);
            && spec.name == names[i] && spec.name in SpecNames(DataSpecs(names, partMap, defaultPartitions, maxBytes))
            && EnsureAll(topics, DataSpecs(names[..i + 1], partMap, defaultPartitions, maxBytes))
               == AddIfAbsent(EnsureAll(topics, DataSpecs(names[..i], partMap, defaultPartitions, maxBytes)), spec)
  {
    hide MaxBytes;
    assert names[..i + 1][..i] == names[..i];
    var before, spec := DataSpecs(names[..i], partMap, defaultPartitions, maxBytes), DataSpec(names[i], partMap, defaultPartitions, maxBytes);
    assert (before + [spec])[..|before|] == before;
    DataSpecName(names, i, partMap, defaultPartitions, maxBytes);
  }

  lemma {:induction false} DataSpecName(names: seq<string>, i: nat, partMap: map<string, int>, defaultPartitions: int, maxBytes: nat)
    requires i < |names|
    ensures DataSpec(names[i], partMap, defaultPartitions, maxBytes) in DataSpecs(names, partMap, defaultPartitions, maxBytes)
  {
    hide MaxBytes;
    if i < |names| - 1 { DataSpecName(names[..|names| - 1], i, partMap, defaultPartitions, maxBytes); }
  }

  lemma AlreadyThere(topics: Topics, spec: TopicSpec)
    requires spec.name in topics
    ensures AddIfAbsent(topics, spec) == topics
  {
  }

  lemma GrowOne(before: Topics, topics: Topics, spec: TopicSpec, specs: seq<TopicSpec>)
    requires Grown(before, topics, specs) && spec.name in SpecNames(specs)
    ensures Grown(before, AddIfAbsent(topics, spec), specs)
    ensures topics.Keys <= AddIfAbsent(topics, spec).Keys
  {
  }

  // Create one topic if it is absent.
  method EnsureOne(broker: Broker, spec: TopicSpec) returns (ok: bool)
    modifies broker
    ensures NeverExhausted(broker.attempts) ==> ok
    ensures ok ==> broker.topics == EnsureAll(old(broker.topics), [spec])
    ensures Grown(old(broker.topics), broker.topics, [spec])
  {
    OneEnsured(broker.topics, spec);
    assert SpecNames([spec]) == {spec.name};
    var r, _ := ThrottleTolerant(broker, Create(spec));
    ok := !r.NotReady?;
  }

  method EnsureDlqTopic(broker: Broker, dlq: string, maxBytes: nat) returns (ok: bool)
    modifies broker
    ensures NeverExhausted(broker.attempts) ==> ok
    ensures ok ==> broker.topics == EnsureAll(old(broker.topics), DlqSpecs(dlq, maxBytes))
    ensures Grown(old(broker.topics), broker.topics, DlqSpecs(dlq, maxBytes))
  {
    if dlq == "" {
      return true;
    }
    ok := EnsureOne(broker, TopicSpec(dlq, 1, MaxBytes(maxBytes)));
  }

  lemma GrownTransitive(a: Topics, b: Topics, c: Topics, s: seq<TopicSpec>, t: seq<TopicSpec>)
    requires Grown(a, b, s) && Grown(b, c, t)
    ensures Grown(a, c, s + t)
  {
    assert SpecNames(s + t) == SpecNames(s) + SpecNames(t) by {
      assert forall x | x in s || x in t :: x in s + t;
    }
  }

  lemma GrownMore(a: Topics, b: Topics, s: seq<TopicSpec>, t: seq<TopicSpec>)
    requires Grown(a, b, s)
    ensures Grown(a, b, s + t)
  {
    assert forall x | x in s :: x in s + t;
  }

  // The whole preparation: data topics, dead-letter topic, offset topic. When no request was
  // throttled eight times, the topics are what the plan's specs add, in this order; a failed
  // run leaves the old topics as they were and adds planned ones only.
  method PrepareTopics(broker: Broker, sinkTopicsCsv: string, partMap: map<string, int>, defaultPartitions: int,
                       maxBytes: nat, dlq: string, offsetTopic: string, offsetPartitions: int)
    returns (ok: bool)
    modifies broker
    ensures NeverExhausted(broker.attempts) ==> ok
    ensures var specs := DataSpecs(TrimmedNames(Split(sinkTopicsCsv, ',')), partMap, defaultPartitions, maxBytes)
                         + DlqSpecs(dlq, maxBytes) + [OffsetSpec(offsetTopic, offsetPartitions)];
            && (ok ==> broker.topics == EnsureAll(old(broker.topics), specs))
            && Grown(old(broker.topics), broker.topics, specs)
  {
    hide EnsureAll, Grown, DataSpecs, DlqSpecs, TrimmedNames, Split, OffsetSpec;
    var names := TrimmedNames(Split(sinkTopicsCsv, ','));
    var offset := OffsetSpec(offsetTopic, offsetPartitions);
    ghost var data, dead := DataSpecs(names, partMap, defaultPartitions, maxBytes), DlqSpecs(dlq, maxBytes);
    ghost var t0 := broker.topics;
    var done, _, _ := EnsureDataTopics(broker, names, partMap, defaultPartitions, maxBytes);
    ghost var t1 := broker.topics;
    GrownMore(t0, t1, data, dead);
    GrownMore(t0, t1, data + dead, [offset]);
    if !done {
      return false;
    }
    done := EnsureDlqTopic(broker, dlq, maxBytes);
    ghost var t2 := broker.topics;
    GrownTransitive(t0, t1, t2, data, dead);
    GrownMore(t0, t2, data + dead, [offset]);
    if !done {
      return false;
    }
    ok := EnsureOne(broker, offset);
    GrownTransitive(t0, t2, broker.topics, data + dead, [offset]);
    EnsureAllConcat(t0, data, dead);
    EnsureAllConcat(t0, data + dead, [offset]);
  }

  lemma {:induction false} OneEnsured(topics: Topics, spec: TopicSpec)
    ensures EnsureAll(topics, [spec]) == AddIfAbsent(topics, spec)
  {
    assert [spec][..0] == [];
  }

  // The preparation refines the plan: started from any topics, what it leaves is what creating
  // the plan's specs in the plan's own order leaves, exactly unless the offset topic is new
  // and shares its name with a data or dead-letter topic.
  lemma {:induction false} PreparationRefinesPlan(topics: Topics, sinkTopics: seq<string>, partMap: map<string, int>, defaultPartitions: int,
                               maxBytes: nat, dlq: string, offsetTopic: string, offsetPartitions: int)
    ensures var rest := DataSpecs(TrimmedNames(sinkTopics), partMap, defaultPartitions, maxBytes) + DlqSpecs(dlq, maxBytes);
            var offset := OffsetSpec(offsetTopic, offsetPartitions);
            (EnsureAll(topics, rest + [offset]) == EnsureAll(topics, [offset] + rest)
             <==> offsetTopic in topics || offsetTopic !in SpecNames(rest))
  {
    hide DataSpecs, TrimmedNames, EnsureAll;
    OnlyOffsetIsCompact(TrimmedNames(sinkTopics), partMap, defaultPartitions, maxBytes, dlq, OffsetSpec(offsetTopic, offsetPartitions));
    OrderMattersExactly(topics, OffsetSpec(offsetTopic, offsetPartitions),
                        DataSpecs(TrimmedNames(sinkTopics), partMap, defaultPartitions, maxBytes) + DlqSpecs(dlq, maxBytes));
  }

  // ---- what the plan asks for, from its inputs alone ----

  // Each data topic has its own count from the map, or the default, and the size limit if one
  // is given.
  lemma {:induction false} DataSpecsAre(names: seq<string>, partMap: map<string, int>, defaultPartitions: int, maxBytes: nat)
    ensures var specs := DataSpecs(names, partMap, defaultPartitions, maxBytes);
            && |specs| == |names|
            && forall i | 0 <= i < |names| ::
                 && specs[i].name == names[i]
                 && (names[i] in partMap ==> specs[i].partitions == partMap[names[i]])
                 && (names[i] !in partMap ==> specs[i].partitions == defaultPartitions)
                 && specs[i].configs == if maxBytes == 0 then map[] else map["max.message.bytes" := NatText(maxBytes)]
  {
    hide NatText;
    if names != [] { DataSpecsAre(names[..|names| - 1], partMap, defaultPartitions, maxBytes); }
  }

  // So has each that was created for it.
  lemma {:induction false} CreatedTopicsAre(topics: Topics, names: seq<string>, partMap: map<string, int>, defaultPartitions: int, maxBytes: nat, n: string)
    requires n in names && n !in topics
    ensures var made := EnsureAll(topics, DataSpecs(names, partMap, defaultPartitions, maxBytes));
            && n in made
            && (n in partMap ==> made[n].partitions == partMap[n]) && (n !in partMap ==> made[n].partitions == defaultPartitions)
            && made[n].configs == if maxBytes == 0 then map[] else map["max.message.bytes" := NatText(maxBytes)]
  {
    var specs := DataSpecs(names, partMap, defaultPartitions, maxBytes);
    DataSpecsAre(names, partMap, defaultPartitions, maxBytes);
    EnsureAllIs(topics, specs);
    FirstSpecFinds(specs, n);
    var i :| 0 <= i < |names| && names[i] == n;
    assert specs[i] in specs;
    assert n in SpecNames(specs);
    hide EnsureAll, DataSpecs, NatText, MaxBytes, FirstSpec;
    var spec := FirstSpec(specs, n).value;
    var j :| 0 <= j < |specs| && specs[j] == spec;
  }

  // The dead-letter topic has one partition and the same limit; the offset topic is compacted.
  lemma {:induction false} OtherSpecsAre(dlq: string, maxBytes: nat, offsetTopic: string, offsetPartitions: int)
    ensures dlq == "" ==> DlqSpecs(dlq, maxBytes) == []
    ensures dlq != "" ==>
              DlqSpecs(dlq, maxBytes) == [TopicSpec(dlq, 1, if maxBytes == 0 then map[] else map["max.message.bytes" := NatText(maxBytes)])]
    ensures var o := OffsetSpec(offsetTopic, offsetPartitions);
            o.name == offsetTopic && o.partitions == offsetPartitions && o.configs == map["cleanup.policy" := "compact"]
  {
  }

  // Names are read without the white space around them, empty ones left out, in order.
  lemma {:induction false} TrimmedNamesAre(parts: seq<string>, names: seq<string>)
    requires |parts| == |names|
    requires forall i | 0 <= i < |parts| :: Padded(parts[i], names[i])
    ensures TrimmedNames(parts) == WithoutEmpty(names)
  {
    hide Strip, Padded;
    if parts != [] {
      var m := |parts| - 1;
      TrimmedNamesAre(parts[..m], names[..m]);
      PaddedStrips(parts[m], names[m]);
    }
  }

  ghost predicate Padded(text: string, inner: string) {
    Trimmed(inner) && exists left, right :: (forall c | c in left + right :: IsSpace(c)) && text == left + inner + right
  }

  lemma PaddedStrips(text: string, inner: string)
    requires Padded(text, inner)
    ensures Strip(text) == inner
  {
    var left, right :| (forall c | c in left + right :: IsSpace(c)) && text == left + inner + right;
    StripOfPadded(left, inner, right);
  }

  function WithoutEmpty(names: seq<string>): seq<string> {
    if names == [] then [] else WithoutEmpty(names[..|names| - 1]) + if names[|names| - 1] == "" then [] else [names[|names| - 1]]
  }

  // ---- which pairs of the partition map are read ----

  predicate DoubledAt(s: string, i: nat) {
    i + 1 < |s| && s[i] == '_' && s[i + 1] == '_'
  }

  // Digits, with single underscores between them.
  lemma {:induction false} GroupedExactly(s: string)
    requires forall c | c in s :: IsDigit(c) || c == '_'
    ensures Grouped(s) <==> s != [] && s[0] != '_' && s[|s| - 1] != '_' && forall i: nat :: !DoubledAt(s, i)
  {
    if |s| == 1 {
      assert s[0] in s;
    } else if |s| > 1 {
      assert s[0] in s && s[1] in s;
      assert forall c | c in s[1..] :: c in s;
      GroupedExactly(s[1..]);
      DoubledFrom(s, 1);
      if |s| > 2 {
        assert forall c | c in s[2..] :: c in s;
        GroupedExactly(s[2..]);
        DoubledFrom(s, 2);
      }
      hide Grouped;
      assert DoubledAt(s, 0) <==> s[0] == '_' && s[1] == '_';
      assert |s| > 2 ==> (DoubledAt(s, 1) <==> s[1] == '_' && s[2] == '_');
    }
  }

  lemma DoubledFrom(s: string, k: nat)
    requires k < |s|
    ensures forall i: nat :: DoubledAt(s[k..], i) <==> DoubledAt(s, i + k)
    ensures (forall i: nat :: !DoubledAt(s, i)) <==> (forall i: nat | i < k :: !DoubledAt(s, i)) && forall i: nat :: !DoubledAt(s[k..], i)
  {
    forall i: nat ensures DoubledAt(s[k..], i) <==> DoubledAt(s, i + k) {}
    hide DoubledAt;
    if (forall i: nat | i < k :: !DoubledAt(s, i)) && forall i: nat :: !DoubledAt(s[k..], i) {
      forall i: nat ensures !DoubledAt(s, i) {
        if i >= k { assert !DoubledAt(s[k..], i - k); }
      }
    }
  }

  // An integer text, sign and white space around it included; any other is none.
  lemma {:induction false} ParseIntExactly(text: string, sign: string, body: string)
    requires Padded(text, sign + body) && (sign == "" || sign == "+" || sign == "-")
    requires sign == "" ==> body == "" || (body[0] != '+' && body[0] != '-')
    ensures (exists c :: c in body && !IsDigit(c) && c != '_') ==> ParseInt(text) == None
    ensures (forall c | c in body :: IsDigit(c) || c == '_') && !Grouped(body) ==> ParseInt(text) == None
    ensures DigitText(body) ==> ParseInt(text) == Some(if sign == "-" then -(TextNat(body) as int) else TextNat(body))
  {
    hide *;
    PaddedStrips(text, sign + body);
    SignedIs(text, sign, body);
    ParseNatIs(body, if sign == "-" then -1 else 1);
  }

  lemma SignedIs(text: string, sign: string, body: string)
    requires Strip(text) == sign + body && (sign == "" || sign == "+" || sign == "-")
    requires sign == "" ==> body == "" || (body[0] != '+' && body[0] != '-')
    ensures ParseInt(text) == ParseNat(body, if sign == "-" then -1 else 1)
  {
    hide Strip, ParseNat;
    if sign == "" {
      assert sign + body == body;
    } else {
      assert (sign + body)[1..] == body && (sign + body)[0] == sign[0];
    }
  }

  lemma {:induction false} ParseNatIs(body: string, sign: int)
    ensures (exists c :: c in body && !IsDigit(c) && c != '_') ==> ParseNat(body, sign) == None
    ensures !Grouped(body) ==> ParseNat(body, sign) == None
    ensures DigitText(body) ==> ParseNat(body, sign) == Some(sign * TextNat(body))
  {
    hide Grouped, TextNat, Ungroup;
    if DigitText(body) { DigitsAreGrouped(body); }
  }

  // A part without a colon, or with a count that is no integer, is passed over.
  lemma OtherPartsAreSkipped(m: map<string, int>, text: string, topic: string, count: string)
    ensures ':' !in Strip(text) ==> AddPair(m, text) == m
    ensures Strip(text) == topic + ":" + count && ':' !in count ==>
              AddPair(m, text) == if ParseInt(count).Some? then m[Strip(topic) := ParseInt(count).value] else m
  {
    hide ParseInt, Strip;
    if ':' !in count { RPartitionOfJoined(topic, ':', count); }
  }

  // An underscore between digits is left out.
  lemma {:induction false} UngroupAt(digits: string, rest: string)
    requires DigitText(digits) && Grouped(rest)
    ensures Grouped(digits + ("_" + rest)) && Ungroup(digits + ("_" + rest)) == digits + Ungroup(rest)
  {
    hide *;
    DigitsTail(digits);
    if |digits| == 1 {
      UngroupOne(digits[0], rest);
      assert digits == [digits[0]];
    } else {
      var more := digits[1..];
      UngroupAt(more, rest);
      UngroupCons(digits[0], more + ("_" + rest));
      assert digits + ("_" + rest) == [digits[0]] + (more + ("_" + rest));
      assert [digits[0]] + (more + Ungroup(rest)) == digits + Ungroup(rest);
    }
  }

  lemma DigitsTail(digits: string)
    requires DigitText(digits)
    ensures digits != [] && IsDigit(digits[0]) && (|digits| > 1 ==> DigitText(digits[1..]))
  {
    assert digits[0] in digits && forall c | c in digits[1..] :: c in digits;
  }

  lemma {:induction false} UngroupCons(c: char, s: string)
    requires IsDigit(c) && Grouped(s)
    ensures Grouped([c] + s) && Ungroup([c] + s) == [c] + Ungroup(s)
  {
    assert ([c] + s)[1..] == s;
  }

  lemma {:induction false} UngroupOne(c: char, rest: string)
    requires IsDigit(c) && Grouped(rest)
    ensures Grouped([c] + ("_" + rest)) && Ungroup([c] + ("_" + rest)) == [c] + Ungroup(rest)
  {
    var s := [c] + ("_" + rest);
    assert s[1..] == "_" + rest && s[2..] == rest;
    assert Ungroup(s) == [c] + Ungroup("_" + rest);
    assert Grouped(s);
    hide Grouped;
    assert ("_" + rest)[1..] == rest;
  }
}
