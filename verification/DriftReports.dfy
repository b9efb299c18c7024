/**
 What the drift comparison reports, change by change, from the fields of the columns alone
 (src/dsql_migrator/core/cdc_catalog_drift.py, diff_table).
 */
module DriftReports {
  import opened Wrappers
  import opened Text
  import opened Sorting
  import opened CatalogTypes
  import opened CatalogDrift
  import opened DriftScript
  import opened DriftTheorems

  // Other than a key change, the reported changes are exactly those the two sides explain.
  lemma ReportedExactly(def: TableDef, live: LiveTable, skip: set<string>, targetAdded: map<string, string>, source: SourceType, ch: Change)
    requires ValidDef(def) && ValidLive(live) && !ch.KeyChanged?
    ensures ch in AllChanges(def, live, skip, targetAdded, source)
       <==> Explains(ch, Baseline(def, skip, targetAdded), Captured(live, skip), source)
  {
    var base, columns := Baseline(def, skip, targetAdded), Captured(live, skip);
    BaselineValid(def, skip, targetAdded);
    CapturedDistinct(live, skip);
    assert ch !in KeyChanges(def, live);
    hide Explains, FoundChanges, ChangeLe, KeyChanges, Captured, Baseline;
    FoundExactly(base, columns, KeyChanges(def, live), source);
    SortMembers(ChangeLe, FoundChanges(base, columns, KeyChanges(def, live), source));
  }

  // ---- the baseline and the live side, column by column ----

  // A captured column of the inventory as it is compared: its rule unless NOT VALID, and its
  // place among the captured columns.
  predicate Recorded(b: Base, c: Column, rank: nat) {
    && b.name == c.name && b.typ == c.typ && b.generated == c.generated && !b.added && b.position == Some(rank)
    && b.nullable == if c.notNullNotValid then None else Some(c.nullable)
  }

  // The number of captured columns before the k-th.
  ghost function RankIn(columns: seq<Column>, k: nat, skip: set<string>): nat
    requires k <= |columns|
  {
    |set j: nat | j < k && columns[j].name !in skip|
  }

  lemma {:induction false} InventoryCount(columns: seq<Column>, skip: set<string>)
    ensures |InventoryBase(columns, skip)| == RankIn(columns, |columns|, skip)
  {
    if columns != [] {
      var init, n := columns[..|columns| - 1], |columns| - 1;
      InventoryCount(init, skip);
      var all, before := set j: nat | j < n + 1 && columns[j].name !in skip, set j: nat | j < n && init[j].name !in skip;
      assert all == if columns[n].name in skip then before else before + {n};
    }
  }

  lemma {:induction false} InventoryAt(columns: seq<Column>, k: nat, skip: set<string>)
    requires k < |columns| && columns[k].name !in skip
    ensures var r := RankIn(columns, k, skip);
            r < |InventoryBase(columns, skip)| && Recorded(InventoryBase(columns, skip)[r], columns[k], r)
  {
    var init, n := columns[..|columns| - 1], |columns| - 1;
    if k < n {
      InventoryAt(init, k, skip);
      assert (set j: nat | j < k && columns[j].name !in skip) == set j: nat | j < k && init[j].name !in skip;
    } else {
      InventoryCount(init, skip);
      assert (set j: nat | j < n && columns[j].name !in skip) == set j: nat | j < n && init[j].name !in skip;
    }
  }

  lemma BaselineAt(def: TableDef, k: nat, skip: set<string>, targetAdded: map<string, string>)
    requires k < |def.columns| && def.columns[k].name !in skip
    ensures var r, base := RankIn(def.columns, k, skip), Baseline(def, skip, targetAdded);
            r < |base| && Recorded(base[r], def.columns[k], r) && base[r] in base
  {
    InventoryAt(def.columns, k, skip);
    hide InventoryBase, AddedBase, Recorded;
  }

  // A column added to the target through the fix, and not in the inventory, joins with its type.
  lemma {:induction false} TargetAddedAt(names: seq<string>, targetAdded: map<string, string>, inventory: set<string>, skip: set<string>, n: string)
    requires forall m | m in names :: m in targetAdded
    requires n in names && n !in inventory && n !in skip
    ensures Base(n, targetAdded[n], None, false, None, true) in AddedBase(names, targetAdded, inventory, skip)
  {
    if n in names[..|names| - 1] { TargetAddedAt(names[..|names| - 1], targetAdded, inventory, skip, n); }
  }

  // A live column's place among the captured ones: how many stand before it.
  ghost function RankOf(live: LiveTable, c: LiveColumn, skip: set<string>): nat {
    |set d | d in live.columns && d.name !in skip && d.position < c.position|
  }

  predicate DistinctPositions(live: LiveTable) {
    forall c, d | c in live.columns && d in live.columns && c.position == d.position :: c == d
  }

  lemma {:induction false} NotSkippedSorted(columns: seq<LiveColumn>, skip: set<string>)
    requires Sorted(PositionLe, columns)
    ensures Sorted(PositionLe, NotSkipped(columns, skip))
  {
    if columns != [] { NotSkippedSorted(columns[..|columns| - 1], skip); }
  }

  lemma CapturedAt(live: LiveTable, c: LiveColumn, skip: set<string>)
    requires ValidLive(live) && DistinctPositions(live) && c in live.columns && c.name !in skip
    ensures var r := RankOf(live, c, skip); r < |Captured(live, skip)| && Captured(live, skip)[r] == c
  {
    var columns := Captured(live, skip);
    CapturedDistinct(live, skip);
    CapturedSorted(live, skip);
    var i :| 0 <= i < |columns| && columns[i] == c;
    hide *;
    var before := set d | d in live.columns && d.name !in skip && d.position < c.position;
    forall d ensures d in before <==> d in columns[..i] {
      StandsBefore(live, columns, skip, i, d);
    }
    PrefixDistinct(columns, i);
    CountDistinct(columns[..i]);
    assert before == set d | d in columns[..i];
    RankIs(live, c, skip);
  }

  lemma RankIs(live: LiveTable, c: LiveColumn, skip: set<string>)
    ensures RankOf(live, c, skip) == |set d | d in live.columns && d.name !in skip && d.position < c.position|
  {
  }

  lemma PrefixDistinct(columns: seq<LiveColumn>, i: nat)
    requires DistinctLive(columns) && i <= |columns|
    ensures forall j, k | 0 <= j < k < |columns[..i]| :: columns[..i][j].name != columns[..i][k].name
  {
  }

  // Among the sorted captured columns, those before the i-th are those with smaller positions.
  lemma StandsBefore(live: LiveTable, columns: seq<LiveColumn>, skip: set<string>, i: nat, d: LiveColumn)
    requires DistinctPositions(live) && DistinctLive(columns) && Sorted(PositionLe, columns) && i < |columns|
    requires forall c :: c in columns <==> c in live.columns && c.name !in skip
    ensures d in live.columns && d.name !in skip && d.position < columns[i].position <==> d in columns[..i]
  {
    assert columns[i] in columns;
    if d in columns {
      var j :| 0 <= j < |columns| && columns[j] == d;
      if j < i {
        assert columns[..i][j] == d && PositionLe(columns[j], columns[i]) && columns[j] != columns[i];
      } else {
        assert j == i || PositionLe(columns[i], columns[j]);
        assert forall m | 0 <= m < i :: columns[m].name != d.name;
      }
    }
  }

  lemma {:induction false} CountDistinct(s: seq<LiveColumn>)
    requires forall i, j | 0 <= i < j < |s| :: s[i].name != s[j].name
    ensures |set x | x in s| == |s|
  {
    if s != [] {
      var init, last := s[..|s| - 1], s[|s| - 1];
      CountDistinct(init);
      assert s == init + [last];
      assert (set x | x in s) == (set x | x in init) + {last};
    }
  }

  lemma CapturedSorted(live: LiveTable, skip: set<string>)
    ensures Sorted(PositionLe, Captured(live, skip))
  {
    PositionLeIsPreorder();
    SortSorts(PositionLe, live.columns);
    NotSkippedSorted(Sort(PositionLe, live.columns), skip);
  }

  lemma PositionLeIsPreorder()
    ensures TotalPreorder(PositionLe)
  {
  }

  // ---- the reports ----

  // Two texts that are compared as they are written.
  ghost predicate ComparedAsWritten(typ: string, source: SourceType) {
    if source.Postgres? then Trimmed(typ) && '.' !in typ else Verbatim(typ)
  }

  lemma AsWritten(a: string, b: string, source: SourceType)
    requires ComparedAsWritten(a, source) && ComparedAsWritten(b, source)
    ensures SameType(a, b, source) <==> a == b
  {
    if source.Postgres? { PlainPostgresTypes(a, b); } else { VerbatimTypes(a, b); }
  }

  // A captured column whose recorded type and live type are two such texts is reported with
  // both, and the finding says so.
  lemma TypeChangeIsReported(def: TableDef, live: LiveTable, skip: set<string>, targetAdded: map<string, string>, source: SourceType,
                             k: nat, now: LiveColumn)
    requires ValidDef(def) && ValidLive(live) && k < |def.columns| && now in live.columns
    requires def.columns[k].name == now.name && now.name !in skip
    requires ComparedAsWritten(def.columns[k].typ, source) && ComparedAsWritten(now.typ, source)
    ensures TypeChanged(now.name, def.columns[k].typ, now.typ) in AllChanges(def, live, skip, targetAdded, source)
       <==> def.columns[k].typ != now.typ
    ensures def.columns[k].typ != now.typ ==>
              match Diff(def, Some(live), skip, targetAdded, source)
              case None => false
              case Some(d) => TypeChange in d.kinds
  {
    var before := def.columns[k];
    var ch := TypeChanged(now.name, before.typ, now.typ);
    AsWritten(before.typ, now.typ, source);
    BaselineAt(def, k, skip, targetAdded);
    CapturedDistinct(live, skip);
    var base, columns := Baseline(def, skip, targetAdded), Captured(live, skip);
    var b := base[RankIn(def.columns, k, skip)];
    assert b in base && now in columns && b.name == now.name && b.typ == before.typ && !b.added;
    hide SameType, ComparedAsWritten, Captured, Baseline, AllChanges, Diff;
    ReportedExactly(def, live, skip, targetAdded, source, ch);
    MostSevereKept(def, live, skip, targetAdded, source);
    assert ch.Kind() == TypeChange;
    if before.typ != now.typ {
      assert Explains(ch, base, columns, source);
      AllAreFound(def, live, skip, targetAdded, source, ch);
    }
  }

  lemma AllAreFound(def: TableDef, live: LiveTable, skip: set<string>, targetAdded: map<string, string>, source: SourceType, ch: Change)
    ensures ch in AllChanges(def, live, skip, targetAdded, source)
       <==> ch in FoundChanges(Baseline(def, skip, targetAdded), Captured(live, skip), KeyChanges(def, live), source)
  {
    hide ChangeLe, FoundChanges, Captured, Baseline, KeyChanges;
    SortMembers(ChangeLe, FoundChanges(Baseline(def, skip, targetAdded), Captured(live, skip), KeyChanges(def, live), source));
  }

  // The NULL rule of a captured column is reported as changed exactly when it differs, on a
  // column that neither side generates and whose NOT NULL was not added NOT VALID.
  lemma NullRuleIsReportedExactly(def: TableDef, live: LiveTable, skip: set<string>, targetAdded: map<string, string>, source: SourceType,
                                  k: nat, now: LiveColumn, was: bool, nowNullable: bool)
    requires ValidDef(def) && ValidLive(live) && k < |def.columns| && now in live.columns
    requires def.columns[k].name == now.name && now.name !in skip
    ensures var c := def.columns[k];
            NullRuleChanged(now.name, was, nowNullable) in AllChanges(def, live, skip, targetAdded, source) <==>
            && !c.generated && !now.generated && !c.notNullNotValid
            && was == c.nullable && nowNullable == now.nullable && was != nowNullable
  {
    hide *;
    BaselineAt(def, k, skip, targetAdded);
    BaselineValid(def, skip, targetAdded);
    CapturedDistinct(live, skip);
    var base, columns := Baseline(def, skip, targetAdded), Captured(live, skip);
    var r := RankIn(def.columns, k, skip);
    ReportedExactly(def, live, skip, targetAdded, source, NullRuleChanged(now.name, was, nowNullable));
    NullRuleExplained(base, columns, source, def.columns[k], base[r], r, now, was, nowNullable);
  }

  lemma NullRuleExplained(base: seq<Base>, live: seq<LiveColumn>, source: SourceType, before: Column, b: Base, r: nat, c: LiveColumn,
                          was: bool, nowNullable: bool)
    requires ValidBase(base) && DistinctLive(live) && b in base && c in live && Recorded(b, before, r) && before.name == c.name
    ensures Explains(NullRuleChanged(c.name, was, nowNullable), base, live, source) <==>
            && !before.generated && !c.generated && !before.notNullNotValid
            && was == before.nullable && nowNullable == c.nullable && was != nowNullable
  {
    OnlyOne(base, live, b, c);
    hide ValidBase, DistinctLive;
  }

  lemma OnlyOne(base: seq<Base>, live: seq<LiveColumn>, b: Base, c: LiveColumn)
    requires ValidBase(base) && DistinctLive(live) && b in base && c in live
    ensures forall x | x in base && x.name == b.name :: x == b
    ensures forall x | x in live && x.name == c.name :: x == c
  {
  }

  // With no new column to be renamed to, a captured column that is gone is reported as dropped.
  lemma DropIsReported(def: TableDef, live: LiveTable, skip: set<string>, targetAdded: map<string, string>, source: SourceType, k: nat)
    requires ValidDef(def) && ValidLive(live) && k < |def.columns| && def.columns[k].name !in skip
    requires forall c | c in live.columns :: c.name != def.columns[k].name
    requires forall c | c in live.columns && c.name !in skip :: c.name in Names(def.columns)
    ensures Dropped(def.columns[k].name, def.columns[k].typ) in AllChanges(def, live, skip, targetAdded, source)
  {
    var base, columns := Baseline(def, skip, targetAdded), Captured(live, skip);
    hide *;
    BaselineAt(def, k, skip, targetAdded);
    BaselineValid(def, skip, targetAdded);
    CapturedDistinct(live, skip);
    forall c | c in columns ensures c.name in BaseNames(base) && c.name != def.columns[k].name {}
    DropExplained(base, columns, source, def.columns[k], RankIn(def.columns, k, skip));
    ReportedExactly(def, live, skip, targetAdded, source, Dropped(def.columns[k].name, def.columns[k].typ));
  }

  lemma DropExplained(base: seq<Base>, live: seq<LiveColumn>, source: SourceType, before: Column, r: nat)
    requires r < |base| && Recorded(base[r], before, r)
    requires forall c | c in live :: c.name in BaseNames(base) && c.name != before.name
    ensures Explains(Dropped(before.name, before.typ), base, live, source)
  {
    hide SameType, BaseNames;
    assert RenamedTo(base[r], live, BaseNames(base), source).None? by {
      if r < |live| { assert live[r] in live; }
    }
  }

  // With no column missing, a new captured column is reported as added.
  lemma AddIsReported(def: TableDef, live: LiveTable, skip: set<string>, targetAdded: map<string, string>, source: SourceType, now: LiveColumn)
    requires ValidDef(def) && ValidLive(live) && now in live.columns && now.name !in skip
    requires now.name !in Names(def.columns) && now.name !in targetAdded
    requires forall n | n in Names(def.columns) + targetAdded.Keys && n !in skip :: n in LiveNames(live.columns)
    ensures Added(now.name, now.typ, now.generated) in AllChanges(def, live, skip, targetAdded, source)
  {
    hide *;
    BaselineValid(def, skip, targetAdded);
    CapturedDistinct(live, skip);
    var base, columns := Baseline(def, skip, targetAdded), Captured(live, skip);
    forall n | n in BaseNames(base) ensures n in LiveNames(columns) {
      StillLive(live.columns, columns, n, skip);
    }
    AddExplained(base, columns, source, now);
    ReportedExactly(def, live, skip, targetAdded, source, Added(now.name, now.typ, now.generated));
  }

  lemma StillLive(all: seq<LiveColumn>, captured: seq<LiveColumn>, n: string, skip: set<string>)
    requires n in LiveNames(all) && n !in skip && forall c | c in all && c.name !in skip :: c in captured
    ensures n in LiveNames(captured)
  {
    var c :| c in all && c.name == n;
    assert c in captured;
  }

  lemma AddExplained(base: seq<Base>, live: seq<LiveColumn>, source: SourceType, now: LiveColumn)
    requires now in live && now.name !in BaseNames(base) && forall n | n in BaseNames(base) :: n in LiveNames(live)
    ensures Explains(Added(now.name, now.typ, now.generated), base, live, source)
  {
    NoTargets(base, |base|, live, source);
    hide RenameTargets, BaseNames, LiveNames;
  }

  lemma {:induction false} NoTargets(base: seq<Base>, k: nat, live: seq<LiveColumn>, source: SourceType)
    requires k <= |base| && forall n | n in BaseNames(base) :: n in LiveNames(live)
    ensures RenameTargets(base, k, live, source) == {}
  {
    hide RenamedTo;
    if k > 0 {
      assert base[k - 1] in base;
      NoTargets(base, k - 1, live, source);
    }
  }

  // A captured column that is gone, and a new column in its place among the captured ones with
  // the same type, are reported as a rename.
  lemma RenameIsReported(def: TableDef, live: LiveTable, skip: set<string>, targetAdded: map<string, string>, source: SourceType,
                         k: nat, now: LiveColumn)
    requires ValidDef(def) && ValidLive(live) && DistinctPositions(live)
    requires k < |def.columns| && def.columns[k].name !in skip && now in live.columns && now.name !in skip
    requires forall c | c in live.columns :: c.name != def.columns[k].name
    requires now.name !in Names(def.columns) && now.name !in targetAdded
    requires RankIn(def.columns, k, skip) == RankOf(live, now, skip)
    requires ComparedAsWritten(def.columns[k].typ, source) && now.typ == def.columns[k].typ
    ensures Renamed(def.columns[k].name, def.columns[k].typ, now.name) in AllChanges(def, live, skip, targetAdded, source)
  {
    hide *;
    BaselineAt(def, k, skip, targetAdded);
    BaselineValid(def, skip, targetAdded);
    CapturedDistinct(live, skip);
    CapturedAt(live, now, skip);
    AsWritten(now.typ, now.typ, source);
    var base, columns := Baseline(def, skip, targetAdded), Captured(live, skip);
    RenameExplained(base, columns, source, def.columns[k], RankIn(def.columns, k, skip), now);
    ReportedExactly(def, live, skip, targetAdded, source, Renamed(def.columns[k].name, def.columns[k].typ, now.name));
  }

  lemma RenameExplained(base: seq<Base>, live: seq<LiveColumn>, source: SourceType, before: Column, r: nat, now: LiveColumn)
    requires r < |base| && r < |live| && live[r] == now && Recorded(base[r], before, r)
    requires now.name !in BaseNames(base) && forall c | c in live :: c.name != before.name
    requires SameType(before.typ, now.typ, source)
    ensures Explains(Renamed(before.name, before.typ, now.name), base, live, source)
  {
    hide SameType, BaseNames;
    assert RenamedTo(base[r], live, BaseNames(base), source) == Some(now);
  }

  // A target-added column on the source is compared by its type there, unless the source
  // generates it: then it is reported as added.
  lemma TargetAddedIsReported(def: TableDef, live: LiveTable, skip: set<string>, targetAdded: map<string, string>, source: SourceType, now: LiveColumn)
    requires ValidDef(def) && ValidLive(live) && now in live.columns && now.name !in skip
    requires now.name in targetAdded && now.name !in Names(def.columns)
    requires ComparedAsWritten(targetAdded[now.name], source) && ComparedAsWritten(now.typ, source)
    ensures var all := AllChanges(def, live, skip, targetAdded, source);
            && (now.generated ==> Added(now.name, now.typ, true) in all)
            && (!now.generated && targetAdded[now.name] != now.typ ==> TypeChanged(now.name, targetAdded[now.name], now.typ) in all)
  {
    hide *;
    BaselineValid(def, skip, targetAdded);
    CapturedDistinct(live, skip);
    BaselineHasAdded(def, skip, targetAdded, now.name);
    AsWritten(targetAdded[now.name], now.typ, source);
    var base, columns := Baseline(def, skip, targetAdded), Captured(live, skip);
    AddedExplained(base, columns, source, targetAdded[now.name], now);
    ReportedExactly(def, live, skip, targetAdded, source, Added(now.name, now.typ, true));
    ReportedExactly(def, live, skip, targetAdded, source, TypeChanged(now.name, targetAdded[now.name], now.typ));
  }

  lemma BaselineHasAdded(def: TableDef, skip: set<string>, targetAdded: map<string, string>, n: string)
    requires n in targetAdded && n !in Names(def.columns) && n !in skip
    ensures Base(n, targetAdded[n], None, false, None, true) in Baseline(def, skip, targetAdded)
  {
    TargetAddedAt(SortedSet(targetAdded.Keys), targetAdded, Names(def.columns), skip, n);
    hide AddedBase, InventoryBase, SortedSet;
  }

  lemma AddedExplained(base: seq<Base>, live: seq<LiveColumn>, source: SourceType, typ: string, now: LiveColumn)
    requires now in live && Base(now.name, typ, None, false, None, true) in base
    ensures now.generated ==> Explains(Added(now.name, now.typ, true), base, live, source)
    ensures !now.generated && !SameType(typ, now.typ, source) ==> Explains(TypeChanged(now.name, typ, now.typ), base, live, source)
  {
    hide SameType, RenameTargets;
    var b := Base(now.name, typ, None, false, None, true);
    assert b in base && b.name in BaseNames(base);
  }

  // A key change stands first, exactly when the key sets differ, with the recorded key and the
  // live one.
  lemma KeyIsReportedExactly(def: TableDef, live: LiveTable, skip: set<string>, targetAdded: map<string, string>, source: SourceType)
    requires ValidDef(def) && ValidLive(live)
    ensures var all := AllChanges(def, live, skip, targetAdded, source);
            if forall n :: n in def.primaryKey <==> n in live.primaryKey then forall ch | ch in all :: !ch.KeyChanged?
            else all != [] && all[0] == KeyChanged(def.primaryKey, OrderedKey(live))
  {
    AllChangesSplit(def, live, skip, targetAdded, source);
    BaselineValid(def, skip, targetAdded);
    CapturedDistinct(live, skip);
    var base, columns := Baseline(def, skip, targetAdded), Captured(live, skip);
    FoundExactly(base, columns, [], source);
    hide Captured, Baseline, FoundChanges, OrderedKey, AllChanges, ChangeLe;
    SortMembers(ChangeLe, FoundChanges(base, columns, [], source));
    assert (set n | n in def.primaryKey) == live.primaryKey <==> forall n :: n in def.primaryKey <==> n in live.primaryKey by {
      var key := set n | n in def.primaryKey;
      assert forall n :: n in key <==> n in def.primaryKey;
    }
    hide Explains;
    forall ch | ch in FoundChanges(base, columns, [], source) ensures !ch.KeyChanged? { NoKeyExplained(ch, base, columns, source); }
  }

  lemma NoKeyExplained(ch: Change, base: seq<Base>, live: seq<LiveColumn>, source: SourceType)
    requires Explains(ch, base, live, source)
    ensures !ch.KeyChanged?
  {
  }
}
