/**
 The CDC start-point fingerprint and its check (src/dsql_migrator/core/cdc_catalog_drift.py,
 start_point_value and check_start_point). The two digests are functions of the payloads
 they hash.
 */
module StartPoint {
  import opened Wrappers
  import opened Text
  import opened Sorting
  import opened CatalogTypes
  import opened CatalogDrift
  import opened DriftScript
  import opened DriftTheorems
  import opened DriftReports
  import opened BaselineDigest

  const FINGERPRINT_VERSION := 2

  // How a binlog row of one column is decoded.
  datatype Decoding = Decoding(name: string, typ: string, nullable: bool, generated: bool, charset: string)

  // The digests of the names and of the definition with its key.
  datatype Digests = Digests(names: seq<string> -> string, definition: ((seq<Decoding>, seq<string>)) -> string)

  predicate HexText(s: string, n: nat) {
    |s| == n && forall c | c in s :: IsDigit(c) || 'a' <= c <= 'f'
  }

  ghost predicate ValidDigests(d: Digests) {
    (forall x :: HexText(d.names(x), 8)) && (forall x :: HexText(d.definition(x), 16))
  }

  function InOrder(live: LiveTable): seq<LiveColumn> {
    Sort(PositionLe, live.columns)
  }

  function ColumnNames(columns: seq<LiveColumn>): seq<string> {
    seq(|columns|, i requires 0 <= i < |columns| => columns[i].name)
  }

  function Decodings(columns: seq<LiveColumn>): seq<Decoding> {
    seq(|columns|, i requires 0 <= i < |columns| =>
      var c := columns[i];
      Decoding(c.name, DecodeType(c.typ), c.nullable, c.generated, c.charset))
  }

  // `<version>:<count>:<names>:<definition>`
  function StartPointValue(live: LiveTable, d: Digests): string {
    var columns := InOrder(live);
    Join([NatText(FINGERPRINT_VERSION), NatText(|columns|), d.names(ColumnNames(columns)),
          d.definition((Decodings(columns), SortedSet(live.primaryKey)))], ':')
  }

  // The digests tell the payloads of two tables apart.
  predicate ToldApart(d: Digests, a: LiveTable, b: LiveTable) {
    var x, y := InOrder(a), InOrder(b);
    && (d.names(ColumnNames(x)) == d.names(ColumnNames(y)) ==> ColumnNames(x) == ColumnNames(y))
    && (d.definition((Decodings(x), SortedSet(a.primaryKey))) == d.definition((Decodings(y), SortedSet(b.primaryKey))) ==>
          Decodings(x) == Decodings(y) && SortedSet(a.primaryKey) == SortedSet(b.primaryKey))
  }

  // The groups of ^(\d+):(\d+):([0-9a-f]{8}):([0-9a-f]{16})$, whose end may precede a line feed.
  datatype Groups = Groups(version: string, count: string, names: string, definition: string)

  function MatchValue(value: string): (m: Option<Groups>)
    ensures m.Some? ==> DigitText(m.value.version)
  {
    var text := if value != [] && value[|value| - 1] == '\n' then value[..|value| - 1] else value;
    var parts := Split(text, ':');
    if |parts| == 4 && DigitText(parts[0]) && DigitText(parts[1]) && HexText(parts[2], 8) && HexText(parts[3], 16)
    then Some(Groups(parts[0], parts[1], parts[2], parts[3])) else None
  }

  predicate Comparable(value: string) {
    var m := MatchValue(value);
    m.Some? && TextNat(m.value.version) == FINGERPRINT_VERSION
  }

  // Digits for this version, digits, and eight and sixteen hexadecimal digits.
  predicate Comparables(parts: seq<string>) {
    |parts| == 4 && DigitText(parts[0]) && TextNat(parts[0]) == 2 && DigitText(parts[1]) && HexText(parts[2], 8) && HexText(parts[3], 16)
  }

  // A value is comparable exactly when it is such parts with colons between them, a line feed
  // at the end aside.
  lemma ComparableExactly(value: string)
    ensures Comparable(value) <==>
            exists parts :: Comparables(parts) && (value == Join(parts, ':') || value == Join(parts, ':') + "\n")
  {
    var text := if value != [] && value[|value| - 1] == '\n' then value[..|value| - 1] else value;
    ComparableSplit(value, text);
    hide Comparable, Comparables, HexText;
    if Comparable(value) {
      JoinOfSplit(text, ':');
    }
    if parts :| Comparables(parts) && (value == Join(parts, ':') || value == Join(parts, ':') + "\n") {
      ComparablesSplit(parts);
    }
  }

  lemma {:induction false} ComparableSplit(value: string, text: string)
    requires text == if value != [] && value[|value| - 1] == '\n' then value[..|value| - 1] else value
    ensures Comparable(value) <==> Comparables(Split(text, ':'))
    ensures value == text || value == text + "\n"
  {
    hide TextNat, Split, HexText;
  }

  lemma {:induction false} ComparablesSplit(parts: seq<string>)
    requires Comparables(parts)
    ensures Split(Join(parts, ':'), ':') == parts
    ensures var text := Join(parts, ':'); text != [] && text[|text| - 1] != '\n'
  {
    hide TextNat;
    EndsInDigit(parts);
    SplitOfJoined(parts, ':');
  }

  // Every value that is printed is read back, group by group.
  lemma PrintedIsRead(live: LiveTable, d: Digests)
    requires ValidDigests(d)
    ensures var columns := InOrder(live);
            MatchValue(StartPointValue(live, d))
            == Some(Groups(NatText(FINGERPRINT_VERSION), NatText(|columns|), d.names(ColumnNames(columns)),
                           d.definition((Decodings(columns), SortedSet(live.primaryKey)))))
    ensures Comparable(StartPointValue(live, d))
  {
    var columns := InOrder(live);
    var parts := [NatText(FINGERPRINT_VERSION), NatText(|columns|), d.names(ColumnNames(columns)),
                  d.definition((Decodings(columns), SortedSet(live.primaryKey)))];
    hide InOrder, ColumnNames, Decodings, SortedSet, NatText;
    SplitOfJoined(parts, ':');
    EndsInDigit(parts);
    TextNatOfNatText(FINGERPRINT_VERSION);
  }

  lemma {:induction false} EndsInDigit(parts: seq<string>)
    requires |parts| == 4 && HexText(parts[3], 16)
    ensures var text := Join(parts, ':'); text != [] && text[|text| - 1] == parts[3][15] != '\n'
  {
    assert parts[1..][1..] == parts[2..] && parts[2..][1..] == parts[3..] && parts[3..] == [parts[3]];
    assert Join(parts[3..], ':') == parts[3];
    assert Join(parts[2..], ':') == parts[2] + [':'] + parts[3];
    assert Join(parts[1..], ':') == parts[1] + [':'] + (parts[2] + [':'] + parts[3]);
    assert parts[3][15] in parts[3];
  }

  datatype Reason = Missing | CountChanged(before: string, after: string) | NamesChanged | DefinitionChanged

  datatype Verdict = Unverified | Changed(reason: Reason) | Unchanged

  function Compare(recorded: map<string, string>, live: map<string, LiveTable>, d: Digests, name: string): Verdict {
    if SplitQualified(name).None? || name !in recorded || !Comparable(recorded[name]) then Unverified
    else if name !in live then Changed(Missing)
    else
      var value, now := MatchValue(recorded[name]).value, MatchValue(StartPointValue(live[name], d));
      if now.None? then Unverified
      else if now.value.count != value.count then Changed(CountChanged(value.count, now.value.count))
      else if now.value.names != value.names then Changed(NamesChanged)
      else if now.value.definition != value.definition then Changed(DefinitionChanged)
      else Unchanged
  }

  datatype StartPointCheck = StartPointCheck(changed: seq<(string, Reason)>, unverified: seq<string>)

  function ChangedIn(asked: seq<string>, recorded: map<string, string>, live: map<string, LiveTable>, d: Digests): seq<(string, Reason)> {
    if asked == [] then [] else
      var name := asked[|asked| - 1];
      ChangedIn(asked[..|asked| - 1], recorded, live, d)
      + match Compare(recorded, live, d, name) case Changed(reason) => [(name, reason)] case _ => []
  }

  function UnverifiedIn(asked: seq<string>, recorded: map<string, string>, live: map<string, LiveTable>, d: Digests): seq<string> {
    if asked == [] then [] else
      var name := asked[|asked| - 1];
      UnverifiedIn(asked[..|asked| - 1], recorded, live, d)
      + if Compare(recorded, live, d, name) == Unverified then [name] else []
  }

  lemma {:induction false} ReportLast(init: seq<string>, last: string, recorded: map<string, string>, live: map<string, LiveTable>, d: Digests)
    ensures ChangedIn(init + [last], recorded, live, d)
         == if Compare(recorded, live, d, last).Changed? then ChangedIn(init, recorded, live, d) + [(last, Compare(recorded, live, d, last).reason)]
            else ChangedIn(init, recorded, live, d)
    ensures UnverifiedIn(init + [last], recorded, live, d)
         == if Compare(recorded, live, d, last) == Unverified then UnverifiedIn(init, recorded, live, d) + [last]
            else UnverifiedIn(init, recorded, live, d)
  {
    hide Compare;
    assert (init + [last])[..|init|] == init;
    assert ChangedIn(init, recorded, live, d) + [] == ChangedIn(init, recorded, live, d);
    assert UnverifiedIn(init, recorded, live, d) + [] == UnverifiedIn(init, recorded, live, d);
  }

  lemma {:induction false} ReportStep(asked: seq<string>, i: nat, recorded: map<string, string>, live: map<string, LiveTable>, d: Digests)
    requires i < |asked|
    ensures var verdict, changed := Compare(recorded, live, d, asked[i]), ChangedIn(asked[..i], recorded, live, d);
            ChangedIn(asked[..i + 1], recorded, live, d) == if verdict.Changed? then changed + [(asked[i], verdict.reason)] else changed
    ensures var verdict, unverified := Compare(recorded, live, d, asked[i]), UnverifiedIn(asked[..i], recorded, live, d);
            UnverifiedIn(asked[..i + 1], recorded, live, d) == if verdict == Unverified then unverified + [asked[i]] else unverified
  {
    hide *;
    assert asked[..i + 1] == asked[..i] + [asked[i]];
    ReportLast(asked[..i], asked[i], recorded, live, d);
  }

  method CheckStartPoint(recorded: map<string, string>, live: map<string, LiveTable>, d: Digests, names: seq<string>)
    returns (check: StartPointCheck)
    ensures var asked := SortedSet(set n | n in names && n != "");
            check == StartPointCheck(ChangedIn(asked, recorded, live, d), UnverifiedIn(asked, recorded, live, d))
  {
    var asked := SortedSet(set n | n in names && n != "");
    var changed: seq<(string, Reason)>, unverified: seq<string> := [], [];
    for i := 0 to |asked|
      invariant changed == ChangedIn(asked[..i], recorded, live, d)
      invariant unverified == UnverifiedIn(asked[..i], recorded, live, d)
    {
      hide *;
      var name := asked[i];
      ReportStep(asked, i, recorded, live, d);
      match Compare(recorded, live, d, name) {
        case Unverified => unverified := unverified + [name];
        case Changed(reason) => changed := changed + [(name, reason)];
        case Unchanged =>
      }
    }
    assert asked[..|asked|] == asked;
    check := StartPointCheck(changed, unverified);
  }

  lemma {:induction false} ReportedIn(asked: seq<string>, recorded: map<string, string>, live: map<string, LiveTable>, d: Digests)
    ensures forall e :: e in ChangedIn(asked, recorded, live, d) <==> e.0 in asked && Compare(recorded, live, d, e.0) == Changed(e.1)
    ensures forall n :: n in UnverifiedIn(asked, recorded, live, d) <==> n in asked && Compare(recorded, live, d, n) == Unverified
  {
    hide Compare;
    if asked != [] {
      assert asked == asked[..|asked| - 1] + [asked[|asked| - 1]];
      ReportedIn(asked[..|asked| - 1], recorded, live, d);
    }
  }

  // Entries are in name order, each name once.
  predicate Ascending(entries: seq<(string, Reason)>) {
    forall i, j | 0 <= i < j < |entries| :: entries[i].0 != entries[j].0 && StringLe(entries[i].0, entries[j].0)
  }

  predicate Before(a: string, b: string) {
    a != b && StringLe(a, b)
  }

  lemma AscendingAppend(entries: seq<(string, Reason)>, last: (string, Reason))
    requires Ascending(entries) && forall e | e in entries :: Before(e.0, last.0)
    ensures Ascending(entries + [last])
  {
    hide StringLe;
  }

  lemma {:induction false} SortedAppend(names: seq<string>, last: string)
    requires Distinct(names) && Sorted(StringLe, names) && forall n | n in names :: Before(n, last)
    ensures Distinct(names + [last]) && Sorted(StringLe, names + [last])
  {
    hide StringLe;
    assert forall i | 0 <= i < |names| :: names[i] in names;
  }

  lemma {:induction false} ReportedInOrder(asked: seq<string>, recorded: map<string, string>, live: map<string, LiveTable>, d: Digests)
    requires Sorted(StringLe, asked) && Distinct(asked)
    ensures Ascending(ChangedIn(asked, recorded, live, d))
    ensures Distinct(UnverifiedIn(asked, recorded, live, d)) && Sorted(StringLe, UnverifiedIn(asked, recorded, live, d))
  {
    hide *;
    if asked == [] {
      NothingAsked(recorded, live, d);
    } else {
      var init, name := asked[..|asked| - 1], asked[|asked| - 1];
      assert asked == init + [name];
      LastIsGreatest(init, name);
      ReportedInOrder(init, recorded, live, d);
      ReportedIn(init, recorded, live, d);
      ReportLast(init, name, recorded, live, d);
      match Compare(recorded, live, d, name) {
        case Unverified => SortedAppend(UnverifiedIn(init, recorded, live, d), name);
        case Changed(reason) => AscendingAppend(ChangedIn(init, recorded, live, d), (name, reason));
        case Unchanged =>
      }
    }
  }

  lemma {:induction false} NothingAsked(recorded: map<string, string>, live: map<string, LiveTable>, d: Digests)
    ensures ChangedIn([], recorded, live, d) == [] && UnverifiedIn([], recorded, live, d) == []
    ensures Ascending([]) && Distinct<string>([]) && Sorted(StringLe, [])
  {
  }

  lemma LastIsGreatest(init: seq<string>, last: string)
    requires Sorted(StringLe, init + [last]) && Distinct(init + [last])
    ensures Sorted(StringLe, init) && Distinct(init)
    ensures forall n | n in init :: Before(n, last)
  {
    hide StringLe;
    var asked := init + [last];
    forall n | n in init ensures Before(n, last) {
      var i :| 0 <= i < |init| && init[i] == n;
      assert asked[i] == n && asked[|init|] == last;
    }
    forall i, j | 0 <= i < j < |init| ensures StringLe(init[i], init[j]) && init[i] != init[j] {
      assert asked[i] == init[i] && asked[j] == init[j];
    }
  }

  // Each non-empty name asked about is reported once, under its verdict, in name order.
  lemma EachNameReportedOnce(names: seq<string>, recorded: map<string, string>, live: map<string, LiveTable>, d: Digests)
    ensures var asked := SortedSet(set n | n in names && n != "");
            var changed, unverified := ChangedIn(asked, recorded, live, d), UnverifiedIn(asked, recorded, live, d);
            && (forall e :: e in changed <==> e.0 in names && e.0 != "" && Compare(recorded, live, d, e.0) == Changed(e.1))
            && (forall n :: n in unverified <==> n in names && n != "" && Compare(recorded, live, d, n) == Unverified)
            && Ascending(changed) && Distinct(unverified) && Sorted(StringLe, unverified)
  {
    hide Compare, StringLe, ChangedIn, UnverifiedIn;
    var asked := SortedSet(set n | n in names && n != "");
    ReportedIn(asked, recorded, live, d);
    ReportedInOrder(asked, recorded, live, d);
  }

  // ---- exactness ----

  lemma SameDecodings(a: seq<LiveColumn>, b: seq<LiveColumn>)
    requires Decodings(a) == Decodings(b)
    ensures |a| == |b| && ColumnNames(a) == ColumnNames(b)
    ensures forall i | 0 <= i < |a| ::
              && a[i].name == b[i].name && a[i].nullable == b[i].nullable && a[i].generated == b[i].generated
              && a[i].charset == b[i].charset && DecodeType(a[i].typ) == DecodeType(b[i].typ)
  {
    hide DecodeType;
    assert |a| == |Decodings(a)| == |Decodings(b)| == |b|;
    forall i | 0 <= i < |a|
      ensures && a[i].name == b[i].name && a[i].nullable == b[i].nullable && a[i].generated == b[i].generated
              && a[i].charset == b[i].charset && DecodeType(a[i].typ) == DecodeType(b[i].typ)
    {
      var x, y := Decodings(a)[i], Decodings(b)[i];
      assert x == y;
      assert x.name == a[i].name && y.name == b[i].name;
    }
  }

  lemma {:induction false} SameKeys(a: set<string>, b: set<string>)
    ensures SortedSet(a) == SortedSet(b) <==> a == b
  {
    if SortedSet(a) == SortedSet(b) {
      assert forall n :: n in a <==> n in SortedSet(a);
      assert forall n :: n in b <==> n in SortedSet(b);
    }
  }

  // The check is exact. Against a fingerprint of an earlier definition, a table is reported
  // changed exactly when it is gone, or its columns in ordinal order decode differently, or
  // its key set differs; the reason is the first that applies; and it is never unverified.
  lemma StartPointCheckIsExact(earlier: LiveTable, recorded: map<string, string>, live: map<string, LiveTable>, d: Digests, name: string)
    requires ValidDigests(d) && (name in live ==> ToldApart(d, earlier, live[name]))
    requires SplitQualified(name).Some? && name in recorded && recorded[name] == StartPointValue(earlier, d)
    ensures var verdict := Compare(recorded, live, d, name);
            if name !in live then verdict == Changed(Missing)
            else
              var before, now := InOrder(earlier), InOrder(live[name]);
              if |before| != |now| then verdict == Changed(CountChanged(NatText(|before|), NatText(|now|)))
              else if ColumnNames(before) != ColumnNames(now) then verdict == Changed(NamesChanged)
              else if Decodings(before) != Decodings(now) || earlier.primaryKey != live[name].primaryKey
              then verdict == Changed(DefinitionChanged)
              else verdict == Unchanged
    ensures Compare(recorded, live, d, name) == Unchanged <==>
            && name in live && Decodings(InOrder(earlier)) == Decodings(InOrder(live[name]))
            && earlier.primaryKey == live[name].primaryKey
  {
    PrintedIsRead(earlier, d);
    hide SplitQualified, Decodings, InOrder, ColumnNames, NatText, StartPointValue, MatchValue, Comparable, SortedSet, ValidDigests;
    if name in live {
      PrintedIsRead(live[name], d);
      var before, now := InOrder(earlier), InOrder(live[name]);
      if NatText(|before|) == NatText(|now|) { NatTextInjective(|before|, |now|); }
      SameKeys(earlier.primaryKey, live[name].primaryKey);
      if Decodings(before) == Decodings(now) { SameDecodings(before, now); }
    }
  }

  // Equal values are equal payloads: the columns decode the same in order, and the keys agree.
  lemma SameValueExactly(earlier: LiveTable, now: LiveTable, d: Digests)
    requires ValidDigests(d) && ToldApart(d, earlier, now)
    ensures StartPointValue(earlier, d) == StartPointValue(now, d) <==>
            Decodings(InOrder(earlier)) == Decodings(InOrder(now)) && earlier.primaryKey == now.primaryKey
  {
    PrintedIsRead(earlier, d);
    PrintedIsRead(now, d);
    SameKeys(earlier.primaryKey, now.primaryKey);
    if Decodings(InOrder(earlier)) == Decodings(InOrder(now)) {
      SameDecodings(InOrder(earlier), InOrder(now));
    }
    hide InOrder, Decodings, ColumnNames, MatchValue, SortedSet, NatText, Comparable, Join;
  }

  // A name is left unverified exactly when it is unqualified or has no recorded value of this
  // version: the value of a live table is always in the format.
  lemma UnverifiedExactly(recorded: map<string, string>, live: map<string, LiveTable>, d: Digests, name: string)
    requires ValidDigests(d)
    ensures Compare(recorded, live, d, name) == Unverified <==>
            SplitQualified(name).None? || name !in recorded || !Comparable(recorded[name])
  {
    if name in live { PrintedIsRead(live[name], d); }
    hide SplitQualified, MatchValue, StartPointValue, Comparable, InOrder, Decodings, ColumnNames, SortedSet, NatText, ValidDigests;
  }

  // ---- against the drift comparison ----

  function AsColumn(c: LiveColumn): Column {
    Column(c.name, c.typ, c.nullable, c.generated, false)
  }

  function AsColumns(columns: seq<LiveColumn>): seq<Column> {
    seq(|columns|, i requires 0 <= i < |columns| => AsColumn(columns[i]))
  }

  // A live table taken as a baseline.
  function AsBaseline(live: LiveTable): TableDef {
    TableDef(AsColumns(InOrder(live)), SortedSet(live.primaryKey))
  }

  // Baseline and live columns stand pairwise, up to their types.
  predicate AlikeButType(b: Base, c: LiveColumn) {
    b.name == c.name && b.nullable == Some(c.nullable) && b.generated == c.generated && !b.added
  }

  lemma {:induction false} CapturedAlike(earlier: seq<LiveColumn>, now: seq<LiveColumn>, skip: set<string>)
    requires Decodings(earlier) == Decodings(now)
    ensures var base, columns := InventoryBase(AsColumns(earlier), skip), NotSkipped(now, skip);
            |base| == |columns| && forall i | 0 <= i < |base| :: AlikeButType(base[i], columns[i])
  {
    hide DecodeType;
    SameDecodings(earlier, now);
    if earlier != [] {
      var a, b := earlier[..|earlier| - 1], now[..|now| - 1];
      assert Decodings(a) == Decodings(earlier)[..|a|] == Decodings(now)[..|a|] == Decodings(b);
      assert AsColumns(earlier)[..|a|] == AsColumns(a);
      CapturedAlike(a, b, skip);
    }
  }

  lemma AlikeNames(base: seq<Base>, live: seq<LiveColumn>)
    requires |base| == |live| && forall i | 0 <= i < |base| :: AlikeButType(base[i], live[i])
    ensures BaseNames(base) == LiveNames(live)
  {
    forall n ensures n in BaseNames(base) <==> n in LiveNames(live) {
      if n in BaseNames(base) {
        var i :| 0 <= i < |base| && base[i].name == n;
        assert live[i] in live;
      }
      if n in LiveNames(live) {
        var i :| 0 <= i < |live| && live[i].name == n;
        assert base[i] in base;
      }
    }
  }

  lemma {:induction false} OnlyTypeChanges(base: seq<Base>, liveBy: map<string, LiveColumn>, source: SourceType)
    requires forall b | b in base && b.name in liveBy :: AlikeButType(b, liveBy[b.name])
    ensures forall ch | ch in KeptChanges(base, liveBy, source) :: ch.Kind() == TypeChange
  {
    hide SameType;
    if base != [] {
      assert base[|base| - 1] in base;
      assert forall b | b in base[..|base| - 1] :: b in base;
      OnlyTypeChanges(base[..|base| - 1], liveBy, source);
    }
  }

  lemma AlikeFinds(base: seq<Base>, live: seq<LiveColumn>, source: SourceType)
    requires DistinctLive(live)
    requires |base| == |live| && forall i | 0 <= i < |base| :: AlikeButType(base[i], live[i])
    ensures forall ch | ch in FoundChanges(base, live, [], source) :: ch.Kind() == TypeChange
  {
    hide Removed, AddedColumns, Additions, KeptChanges, LiveBy;
    var added := AddedColumns(live, BaseNames(base));
    AlikeNames(base, live);
    RemovedEmpty(base, LiveNames(live), added, source);
    AddedEmpty(live, BaseNames(base));
    AdditionsEmpty(added);
    forall b | b in base && b.name in LiveBy(live) ensures AlikeButType(b, LiveBy(live)[b.name]) {
      var i :| 0 <= i < |base| && base[i] == b;
      assert live[i] in live;
      SameLive(live, live[i], LiveBy(live)[b.name]);
    }
    OnlyTypeChanges(base, LiveBy(live), source);
  }

  // A table whose start-point fingerprint is unchanged drifts from its own earlier definition
  // in types only, whatever columns are skipped.
  lemma UnchangedStartPointDriftsInTypesOnly(earlier: LiveTable, now: LiveTable, d: Digests, skip: set<string>)
    requires ValidLive(now) && ValidDigests(d) && ToldApart(d, earlier, now)
    requires StartPointValue(earlier, d) == StartPointValue(now, d)
    ensures match Diff(AsBaseline(earlier), Some(now), skip, map[], MySql)
            case None => true
            case Some(found) => forall k | k in found.kinds :: k == TypeChange
  {
    hide *;
    var def := AsBaseline(earlier);
    var base, columns := Baseline(def, skip, map[]), Captured(now, skip);
    CapturedDistinct(now, skip);
    SameValueExactly(earlier, now, d);
    AlikeBaseline(earlier, now, skip);
    AlikeFinds(base, columns, MySql);
    SameKeyNoChange(earlier, now);
    BoundedKinds(AllChanges(def, now, skip, map[], MySql));
    FoundKindsSorted(def, now, skip);
    DiffIsBounded(def, now, skip);
  }

  lemma AlikeBaseline(earlier: LiveTable, now: LiveTable, skip: set<string>)
    requires Decodings(InOrder(earlier)) == Decodings(InOrder(now))
    ensures var base, columns := Baseline(AsBaseline(earlier), skip, map[]), Captured(now, skip);
            |base| == |columns| && forall i | 0 <= i < |base| :: AlikeButType(base[i], columns[i])
  {
    CapturedAlike(InOrder(earlier), InOrder(now), skip);
    BaseIsInventory(AsBaseline(earlier), skip);
    hide Baseline, InventoryBase, NotSkipped, Sort, AlikeButType;
  }

  lemma SameKeyNoChange(earlier: LiveTable, now: LiveTable)
    requires earlier.primaryKey == now.primaryKey
    ensures KeyChanges(AsBaseline(earlier), now) == []
  {
    assert (set n | n in AsBaseline(earlier).primaryKey) == earlier.primaryKey;
    hide OrderedKey;
  }

  lemma FoundKindsSorted(def: TableDef, now: LiveTable, skip: set<string>)
    requires KeyChanges(def, now) == []
    requires forall ch | ch in FoundChanges(Baseline(def, skip, map[]), Captured(now, skip), [], MySql) :: ch.Kind() == TypeChange
    ensures forall ch | ch in AllChanges(def, now, skip, map[], MySql) :: ch.Kind() == TypeChange
  {
    hide Sort, FoundChanges, Captured, Baseline, KeyChanges, ChangeLe;
    SortMembers(ChangeLe, FoundChanges(Baseline(def, skip, map[]), Captured(now, skip), [], MySql));
  }

  // A bounded finding has no other kinds than its changes.
  lemma BoundedKinds(changes: seq<Change>)
    ensures Bounded(changes).Some? ==>
              forall k | k in Bounded(changes).value.kinds :: exists ch :: ch in changes && ch.Kind() == k
  {
    KindsAre(KIND_ORDER, changes);
    hide KindsIn;
  }

  lemma DiffIsBounded(def: TableDef, now: LiveTable, skip: set<string>)
    ensures Diff(def, Some(now), skip, map[], MySql) == Bounded(AllChanges(def, now, skip, map[], MySql))
  {
    hide Bounded, AllChanges;
  }

  lemma {:induction false} BaseIsInventory(def: TableDef, skip: set<string>)
    ensures Baseline(def, skip, map[]) == InventoryBase(def.columns, skip)
  {
    var none: map<string, string> := map[];
    assert |SortedSet(none.Keys)| == 0;
  }

  // ---- the other way round ----

  // What a table's definition may change in without a drift from its earlier definition: the
  // order of its columns, their charsets and generated flags, the NULL rules of generated
  // columns, and anything of a skipped column.
  predicate AlikeBesideDrift(a: LiveColumn, b: LiveColumn, skip: set<string>) {
    && a.generated == b.generated && a.charset == b.charset
    && (a.generated || a.name in skip ==> a.nullable == b.nullable)
    && (a.name in skip ==> DecodeType(a.typ) == DecodeType(b.typ))
  }

  // Where no drift is found, the fingerprint is unchanged exactly when those are.
  lemma NoDriftLeavesExactly(earlier: LiveTable, now: LiveTable, d: Digests, skip: set<string>)
    requires ValidLive(earlier) && ValidLive(now) && ValidDigests(d) && ToldApart(d, earlier, now)
    requires Diff(AsBaseline(earlier), Some(now), skip, map[], MySql).None?
    ensures var a, b := InOrder(earlier), InOrder(now);
            StartPointValue(earlier, d) == StartPointValue(now, d) <==>
            ColumnNames(a) == ColumnNames(b) && forall i | 0 <= i < |a| :: AlikeBesideDrift(a[i], b[i], skip)
  {
    hide *;
    var a, b := InOrder(earlier), InOrder(now);
    SameValueExactly(earlier, now, d);
    NoDriftSameKey(earlier, now, skip);
    if Decodings(a) == Decodings(b) {
      SameDecodings(a, b);
      forall i | 0 <= i < |a| ensures AlikeBesideDrift(a[i], b[i], skip) { AlikeIs(a[i], b[i], skip); }
    }
    if ColumnNames(a) == ColumnNames(b) {
      SameNames(a, b);
      if forall i | 0 <= i < |a| :: AlikeBesideDrift(a[i], b[i], skip) {
        forall i | 0 <= i < |a|
          ensures a[i].nullable == b[i].nullable && DecodeType(a[i].typ) == DecodeType(b[i].typ)
                  && a[i].generated == b[i].generated && a[i].charset == b[i].charset
        {
          AlikeIs(a[i], b[i], skip);
          if a[i].name !in skip { NoDriftAt(earlier, now, skip, i); }
        }
        PairwiseDecodings(a, b);
      }
    }
  }

  lemma AlikeIs(a: LiveColumn, b: LiveColumn, skip: set<string>)
    ensures AlikeBesideDrift(a, b, skip) <==>
            && a.generated == b.generated && a.charset == b.charset
            && (a.generated || a.name in skip ==> a.nullable == b.nullable)
            && (a.name in skip ==> DecodeType(a.typ) == DecodeType(b.typ))
  {
    hide DecodeType;
  }

  lemma SameNames(a: seq<LiveColumn>, b: seq<LiveColumn>)
    requires ColumnNames(a) == ColumnNames(b)
    ensures |a| == |b| && forall i | 0 <= i < |a| :: a[i].name == b[i].name
  {
    assert |a| == |ColumnNames(a)| == |ColumnNames(b)| == |b|;
    forall i | 0 <= i < |a| ensures a[i].name == b[i].name {
      assert ColumnNames(a)[i] == ColumnNames(b)[i];
    }
  }

  lemma PairwiseDecodings(a: seq<LiveColumn>, b: seq<LiveColumn>)
    requires |a| == |b|
    requires forall i | 0 <= i < |a| ::
               && a[i].name == b[i].name && a[i].nullable == b[i].nullable && DecodeType(a[i].typ) == DecodeType(b[i].typ)
               && a[i].generated == b[i].generated && a[i].charset == b[i].charset
    ensures Decodings(a) == Decodings(b)
  {
    hide DecodeType;
  }

  lemma {:induction false} InOrderIsLive(live: LiveTable)
    ensures forall c :: c in InOrder(live) <==> c in live.columns
    ensures ValidLive(live) ==> ValidDef(AsBaseline(live))
  {
    SortMembers(PositionLe, live.columns);
    if ValidLive(live) { InOrderDistinct(live); }
  }

  lemma NoDriftSameKey(earlier: LiveTable, now: LiveTable, skip: set<string>)
    requires ValidLive(earlier)
    requires Diff(AsBaseline(earlier), Some(now), skip, map[], MySql).None?
    ensures earlier.primaryKey == now.primaryKey
  {
    InOrderIsLive(earlier);
    NoDriftIff(AsBaseline(earlier), now, skip, map[], MySql);
    hide Diff, Matches, InOrder, ValidDef;
    assert (set n | n in AsBaseline(earlier).primaryKey) == earlier.primaryKey;
  }

  // Two captured columns of one name agree where no drift is found.
  lemma NoDriftAt(earlier: LiveTable, now: LiveTable, skip: set<string>, i: nat)
    requires ValidLive(earlier) && ValidLive(now)
    requires Diff(AsBaseline(earlier), Some(now), skip, map[], MySql).None?
    requires i < |InOrder(earlier)| && i < |InOrder(now)|
    requires InOrder(earlier)[i].name == InOrder(now)[i].name && InOrder(earlier)[i].name !in skip
    ensures var a, b := InOrder(earlier)[i], InOrder(now)[i];
            DecodeType(a.typ) == DecodeType(b.typ) && (!a.generated && !b.generated ==> a.nullable == b.nullable)
  {
    hide *;
    var a, b, def := InOrder(earlier)[i], InOrder(now)[i], AsBaseline(earlier);
    InOrderIsLive(earlier);
    InOrderIsLive(now);
    NoDriftIff(def, now, skip, map[], MySql);
    BaseIsInventory(def, skip);
    CapturedDistinct(now, skip);
    assert b in InOrder(now);
    DefOf(earlier, skip, i);
    var specs, liveBy := Specs(InventoryBase(def.columns, skip), MySql), LiveBy(Captured(now, skip));
    MatchesAt(specs, liveBy, a.name);
    SameLive(Captured(now, skip), b, liveBy[a.name]);
    AcceptsColumn(a, b, specs[a.name]);
  }

  lemma {:induction false} DefOf(earlier: LiveTable, skip: set<string>, i: nat)
    requires ValidLive(earlier) && i < |InOrder(earlier)| && InOrder(earlier)[i].name !in skip
    ensures var c, specs := InOrder(earlier)[i], Specs(InventoryBase(AsBaseline(earlier).columns, skip), MySql);
            c.name in specs && specs[c.name] == Spec(NormalizedType(c.typ, MySql), if c.generated then None else Some(c.nullable), false)
  {
    InOrderIsLive(earlier);
    hide InOrder, Specs, InventoryBase, NormalizedType;
    var def := AsBaseline(earlier);
    assert AsColumn(InOrder(earlier)[i]) == def.columns[i] && def.columns[i] in def.columns;
    InventorySpecs(def.columns, skip, MySql);
  }

  lemma MatchesAt(specs: map<string, Spec>, live: map<string, LiveColumn>, n: string)
    requires Matches(specs, live, MySql) && n in specs
    ensures n in live && Accepts(specs[n], live[n], MySql)
  {
    hide Accepts;
  }

  lemma AcceptsColumn(a: LiveColumn, b: LiveColumn, s: Spec)
    requires s == Spec(NormalizedType(a.typ, MySql), if a.generated then None else Some(a.nullable), false)
    requires Accepts(s, b, MySql)
    ensures DecodeType(a.typ) == DecodeType(b.typ) && (!a.generated && !b.generated ==> a.nullable == b.nullable)
  {
    SameTypeIsKernel(MySql);
    assert SameType(a.typ, b.typ, MySql);
    hide NormalizedType, DecodeType;
    SameTypeRefinesDecode(a.typ, b.typ);
  }

  lemma InOrderDistinct(live: LiveTable)
    requires ValidLive(live)
    ensures ValidDef(AsBaseline(live))
  {
    CapturedDistinct(live, {});
    NothingSkipped(InOrder(live), {});
  }

  // ---- a type that decodes differently is never missed ----

  // Where a column's earlier and present types are two texts that decode as they are written,
  // the check reports the table's definition as changed.
  lemma {:induction false} DecodeChangeIsReported(earlier: LiveTable, recorded: map<string, string>, live: map<string, LiveTable>, d: Digests,
                               names: seq<string>, name: string, i: nat)
    requires ValidDigests(d) && SplitQualified(name).Some? && name in names && name != ""
    requires name in recorded && recorded[name] == StartPointValue(earlier, d)
    requires name in live && ToldApart(d, earlier, live[name])
    requires ColumnNames(InOrder(earlier)) == ColumnNames(InOrder(live[name]))
    requires i < |InOrder(earlier)| && i < |InOrder(live[name])|
    requires var a, b := InOrder(earlier)[i].typ, InOrder(live[name])[i].typ; Verbatim(a) && Verbatim(b) && a != b
    ensures (name, DefinitionChanged) in ChangedIn(SortedSet(set n | n in names && n != ""), recorded, live, d)
  {
    var before, now := InOrder(earlier), InOrder(live[name]);
    VerbatimTypes(before[i].typ, now[i].typ);
    SameNames(before, now);
    hide *;
    StartPointCheckIsExact(earlier, recorded, live, d, name);
    if Decodings(before) == Decodings(now) { SameDecodings(before, now); }
    EachNameReportedOnce(names, recorded, live, d);
  }

  // The columns are taken in the order of their positions.
  lemma InOrderIs(live: LiveTable)
    ensures multiset(InOrder(live)) == multiset(live.columns)
    ensures forall i, j | 0 <= i < j < |InOrder(live)| :: InOrder(live)[i].position <= InOrder(live)[j].position
  {
    PositionLeIsPreorder();
    SortSorts(PositionLe, live.columns);
    SortPermutes(PositionLe, live.columns);
    hide Sort;
    forall i, j | 0 <= i < j < |InOrder(live)| ensures InOrder(live)[i].position <= InOrder(live)[j].position {
      assert PositionLe(InOrder(live)[i], InOrder(live)[j]);
    }
  }
}
