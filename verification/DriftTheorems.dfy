/**
 Further properties of the drift comparison: in-place renames are found exactly, skipped
 columns do not matter, and a finding keeps the most severe changes.
 */
module DriftTheorems {
  import opened Wrappers
  import opened Sorting
  import opened CatalogTypes
  import opened CatalogDrift
  import opened DriftScript

  // ---- renames in place ----

  // The live columns are the baseline's: those of the inventory in their places, some of them
  // renamed to names the baseline does not have, and after them the target-added ones, in any
  // order.
  predicate RenamedInPlace(base: seq<Base>, live: seq<LiveColumn>, source: SourceType) {
    |live| == |base| && forall i | 0 <= i < |base| ::
      if base[i].position.Some? then InItsPlace(base, live, source, i) else AfterItsPlace(base, live, source, i)
  }

  predicate InItsPlace(base: seq<Base>, live: seq<LiveColumn>, source: SourceType, i: nat)
    requires i < |base| == |live|
  {
    && base[i].position == Some(i) && SameType(base[i].typ, live[i].typ, source)
    && if live[i].name == base[i].name then KeptChange(base[i], live[i], source) == [] else live[i].name !in BaseNames(base)
  }

  predicate AfterItsPlace(base: seq<Base>, live: seq<LiveColumn>, source: SourceType, i: nat)
    requires i < |base| == |live|
  {
    && (exists c :: c in live && c.name == base[i].name && KeptChange(base[i], c, source) == [])
    && (exists j :: 0 <= j < |base| && base[j].position.None? && base[j].name == live[i].name)
  }

  predicate RenamedAt(base: seq<Base>, live: seq<LiveColumn>, i: nat)
    requires i < |base| == |live|
  {
    base[i].position.Some? && live[i].name != base[i].name
  }

  function RenamesOf(base: seq<Base>, live: seq<LiveColumn>, k: nat): seq<Change>
    requires k <= |base| == |live|
  {
    if k == 0 then [] else
      RenamesOf(base, live, k - 1)
      + if RenamedAt(base, live, k - 1) then [Renamed(base[k - 1].name, base[k - 1].typ, live[k - 1].name)] else []
  }

  function NewName(n: string, base: seq<Base>, live: seq<LiveColumn>): string
    requires |base| == |live|
  {
    if base == [] then n
    else if RenamedAt(base, live, |base| - 1) && base[|base| - 1].name == n then live[|live| - 1].name
    else NewName(n, base[..|base| - 1], live[..|live| - 1])
  }

  lemma KeptIffNotRenamed(base: seq<Base>, live: seq<LiveColumn>, source: SourceType, i: nat)
    requires ValidBase(base) && DistinctLive(live) && RenamedInPlace(base, live, source) && i < |base|
    ensures base[i].name in LiveNames(live) <==> !RenamedAt(base, live, i)
    ensures live[i].name in BaseNames(base) <==> !RenamedAt(base, live, i)
  {
    hide SameType, KeptChange;
    assert base[i] in base && live[i] in live;
    if RenamedAt(base, live, i) {
      assert InItsPlace(base, live, source, i);
      hide InItsPlace, AfterItsPlace, RenamedInPlace, LiveNames;
      RenamedIsGone(base, live, source, i);
    } else if base[i].position.None? {
      assert AfterItsPlace(base, live, source, i);
    }
  }

  // The name of a renamed column is nowhere else in the live table.
  lemma RenamedIsGone(base: seq<Base>, live: seq<LiveColumn>, source: SourceType, i: nat)
    requires ValidBase(base) && RenamedInPlace(base, live, source) && i < |base| && RenamedAt(base, live, i)
    ensures base[i].name !in LiveNames(live)
  {
    hide SameType, KeptChange, BaseNames;
    forall j | 0 <= j < |live| ensures live[j].name != base[i].name {
      if base[j].position.None? {
        assert AfterItsPlace(base, live, source, j);
        var m :| 0 <= m < |base| && base[m].position.None? && base[m].name == live[j].name;
        assert m != i;
      } else if j != i {
        assert InItsPlace(base, live, source, j);
        assert base[j].name != base[i].name && base[i] in base;
        InBaseNames(base, i);
      }
    }
  }

  lemma InBaseNames(base: seq<Base>, i: nat)
    requires i < |base|
    ensures base[i].name in BaseNames(base)
  {
    assert base[i] in base;
  }

  lemma RenamedHere(base: seq<Base>, live: seq<LiveColumn>, source: SourceType, i: nat)
    requires RenamedInPlace(base, live, source) && i < |base| && RenamedAt(base, live, i)
    ensures RenamedTo(base[i], live, BaseNames(base), source) == Some(live[i])
  {
    hide SameType, KeptChange;
  }

  lemma {:induction false} RemovedInPlace(base: seq<Base>, live: seq<LiveColumn>, source: SourceType, k: nat)
    requires ValidBase(base) && DistinctLive(live) && RenamedInPlace(base, live, source) && k <= |base|
    ensures Removed(base[..k], LiveNames(live), AddedColumns(live, BaseNames(base)), source).changes == RenamesOf(base, live, k)
  {
    hide SameType, AddedColumns, Removed, ValidBase, DistinctLive, RenamedInPlace, RenamedTo;
    if k == 0 {
      NothingRemoved(LiveNames(live), AddedColumns(live, BaseNames(base)), source);
      assert base[..0] == [];
    } else {
      SameLength(base, live, source);
      RemovedInPlace(base, live, source, k - 1);
      RemovedStep(base, k, live, source);
      KeptIffNotRenamed(base, live, source, k - 1);
      if RenamedAt(base, live, k - 1) {
        RenamedHere(base, live, source, k - 1);
      }
    }
  }

  lemma SameLength(base: seq<Base>, live: seq<LiveColumn>, source: SourceType)
    requires RenamedInPlace(base, live, source)
    ensures |base| == |live|
  {
  }

  lemma {:induction false} NothingRemoved(liveNames: set<string>, added: seq<Ranked>, source: SourceType)
    ensures Removed([], liveNames, added, source) == Removals([], {})
  {
  }

  lemma {:induction false} NothingAdded(added: seq<Ranked>, paired: set<string>)
    requires forall a | a in added :: a.column.name in paired
    ensures Additions(added, paired) == []
  {
    if added != [] {
      assert added[|added| - 1] in added;
      assert forall a | a in added[..|added| - 1] :: a in added;
      NothingAdded(added[..|added| - 1], paired);
    }
  }

  lemma {:induction false} NothingKept(base: seq<Base>, liveBy: map<string, LiveColumn>, source: SourceType)
    requires forall b | b in base && b.name in liveBy :: KeptChange(b, liveBy[b.name], source) == []
    ensures KeptChanges(base, liveBy, source) == []
  {
    hide KeptChange;
    if base != [] {
      assert base[|base| - 1] in base;
      assert forall b | b in base[..|base| - 1] :: b in base;
      NothingKept(base[..|base| - 1], liveBy, source);
    }
  }

  // The found changes are exactly the renames.
  lemma {:induction false} RenamesFound(base: seq<Base>, live: seq<LiveColumn>, key: seq<Change>, source: SourceType)
    requires ValidBase(base) && DistinctLive(live) && RenamedInPlace(base, live, source)
    ensures FoundChanges(base, live, key, source) == RenamesOf(base, live, |base|) + key
  {
    hide *;
    RemovedInPlace(base, live, source, |base|);
    PairingIsByPosition(base, |base|, live, source);
    assert base[..|base|] == base;
    AllPaired(base, live, source);
    NothingAdded(AddedColumns(live, BaseNames(base)), RenameTargets(base, |base|, live, source));
    AllUnchanged(base, live, source);
    NothingKept(base, LiveBy(live), source);
    FoundIs(base, live, key, source);
  }

  lemma {:induction false} FoundIs(base: seq<Base>, live: seq<LiveColumn>, key: seq<Change>, source: SourceType)
    ensures var added := AddedColumns(live, BaseNames(base));
            var removed := Removed(base, LiveNames(live), added, source);
            FoundChanges(base, live, key, source)
            == removed.changes + Additions(added, removed.paired) + KeptChanges(base, LiveBy(live), source) + key
  {
  }

  lemma {:induction false} AllPaired(base: seq<Base>, live: seq<LiveColumn>, source: SourceType)
    requires ValidBase(base) && DistinctLive(live) && RenamedInPlace(base, live, source)
    ensures forall a | a in AddedColumns(live, BaseNames(base)) :: a.column.name in RenameTargets(base, |base|, live, source)
  {
    hide SameType, RenameTargets, RenamedTo, AddedColumns, KeptChange;
    forall a | a in AddedColumns(live, BaseNames(base)) ensures a.column.name in RenameTargets(base, |base|, live, source) {
      assert live[a.rank] == a.column;
      KeptIffNotRenamed(base, live, source, a.rank);
      RenamedHere(base, live, source, a.rank);
      TargetsInclude(base, a.rank, |base|, live, source);
    }
  }

  lemma {:induction false} AllUnchanged(base: seq<Base>, live: seq<LiveColumn>, source: SourceType)
    requires ValidBase(base) && DistinctLive(live) && RenamedInPlace(base, live, source)
    ensures forall b | b in base && b.name in LiveBy(live) :: KeptChange(b, LiveBy(live)[b.name], source) == []
  {
    hide SameType, KeptChange, LiveBy, BaseNames, LiveNames;
    forall b | b in base && b.name in LiveBy(live) ensures KeptChange(b, LiveBy(live)[b.name], source) == [] {
      var i :| 0 <= i < |base| && base[i] == b;
      KeptIffNotRenamed(base, live, source, i);
      var c := KeptAs(base, live, source, i);
      hide RenamedInPlace;
      SameLive(live, c, LiveBy(live)[b.name]);
    }
  }

  lemma KeptAs(base: seq<Base>, live: seq<LiveColumn>, source: SourceType, i: nat) returns (c: LiveColumn)
    requires RenamedInPlace(base, live, source) && i < |base| && !RenamedAt(base, live, i)
    ensures c in live && c.name == base[i].name && KeptChange(base[i], c, source) == []
  {
    hide SameType, KeptChange, BaseNames;
    if base[i].position.Some? {
      assert InItsPlace(base, live, source, i);
      c := live[i];
    } else {
      assert AfterItsPlace(base, live, source, i);
      c :| c in live && c.name == base[i].name && KeptChange(base[i], c, source) == [];
    }
  }

  lemma {:induction false} NewNameOf(n: string, base: seq<Base>, live: seq<LiveColumn>)
    requires |base| == |live|
    requires forall i, j | 0 <= i < j < |base| :: base[i].name != base[j].name
    ensures forall i | 0 <= i < |base| && base[i].name == n :: NewName(n, base, live) == if RenamedAt(base, live, i) then live[i].name else n
    ensures n !in BaseNames(base) ==> NewName(n, base, live) == n
  {
    if base != [] {
      NewNameOf(n, base[..|base| - 1], live[..|live| - 1]);
      assert base[|base| - 1] in base;
      assert forall i | 0 <= i < |base| - 1 :: RenamedAt(base[..|base| - 1], live[..|live| - 1], i) == RenamedAt(base, live, i);
      if forall i | 0 <= i < |base| :: base[i].name != n {
        assert n !in BaseNames(base[..|base| - 1]);
      } else if base[|base| - 1].name == n {
        assert n !in BaseNames(base[..|base| - 1]);
      }
    }
  }

  // In-place renames are found exactly: the diff is those renames and, if and only if a
  // renamed column is in the primary key, a key change.
  lemma InPlaceRenamesFoundExactly(def: TableDef, live: LiveTable, skip: set<string>, targetAdded: map<string, string>, source: SourceType)
    requires ValidDef(def) && ValidLive(live)
    requires forall n | n in def.primaryKey :: n in Names(def.columns)
    requires RenamedInPlace(Baseline(def, skip, targetAdded), Captured(live, skip), source)
    requires live.primaryKey == set n | n in def.primaryKey :: NewName(n, Baseline(def, skip, targetAdded), Captured(live, skip))
    ensures var base, columns := Baseline(def, skip, targetAdded), Captured(live, skip);
            && multiset(AllChanges(def, live, skip, targetAdded, source))
               == multiset(RenamesOf(base, columns, |base|) + KeyChanges(def, live))
            && (KeyChanges(def, live) != [] <==>
                exists i :: 0 <= i < |base| && RenamedAt(base, columns, i) && base[i].name in def.primaryKey)
  {
    var base, columns := Baseline(def, skip, targetAdded), Captured(live, skip);
    BaselineValid(def, skip, targetAdded);
    CapturedDistinct(live, skip);
    hide Baseline, Captured, OrderedKey, ChangeLe, SameType, NewName, RenamesOf, RenamedInPlace, RenamedAt, InItsPlace, AfterItsPlace;
    RenamesFound(base, columns, KeyChanges(def, live), source);
    SortPermutes(ChangeLe, FoundChanges(base, columns, KeyChanges(def, live), source));
    RenamedKey(def, base, columns, skip, targetAdded.Keys, live.primaryKey, source);
  }

  lemma {:induction false} RenamedKey(def: TableDef, base: seq<Base>, live: seq<LiveColumn>, skip: set<string>,
                                      targetAdded: set<string>, liveKey: set<string>, source: SourceType)
    requires ValidBase(base) && RenamedInPlace(base, live, source)
    requires BaseNames(base) == Names(def.columns) + targetAdded - skip
    requires forall n | n in def.primaryKey :: n in Names(def.columns)
    requires forall c | c in live :: c.name !in skip
    requires liveKey == set n | n in def.primaryKey :: NewName(n, base, live)
    ensures (set n | n in def.primaryKey) != liveKey <==>
            exists i :: 0 <= i < |base| && RenamedAt(base, live, i) && base[i].name in def.primaryKey
  {
    hide NewName, SameType, KeptChange;
    if i :| 0 <= i < |base| && RenamedAt(base, live, i) && base[i].name in def.primaryKey {
      NewNameOf(base[i].name, base, live);
      assert live[i].name in liveKey;
      assert live[i] in live && live[i].name !in Names(def.columns);
    } else {
      hide RenamedInPlace;
      forall n | n in def.primaryKey ensures NewName(n, base, live) == n {
        NewNameOf(n, base, live);
        if n in BaseNames(base) {
          var i :| 0 <= i < |base| && base[i].name == n;
          assert !RenamedAt(base, live, i);
        }
      }
    }
  }

  // ---- the key change comes first ----

  lemma {:induction false} KeyFirst(rest: seq<Change>, key: Change)
    requires key.KeyChanged? && forall ch | ch in rest :: !ch.KeyChanged?
    ensures Sort(ChangeLe, rest + [key]) == [key] + Sort(ChangeLe, rest)
  {
    if rest == [] {
      assert rest + [key] == [key];
      assert [key][1..] == [];
      assert Sort(ChangeLe, [key]) == Insert(ChangeLe, key, Sort(ChangeLe, []));
    } else {
      assert rest[0] in rest;
      assert (rest + [key])[1..] == rest[1..] + [key];
      KeyFirst(rest[1..], key);
      var s := Sort(ChangeLe, rest[1..]);
      assert !ChangeLe(rest[0], key);
      assert ([key] + s)[1..] == s;
    }
  }

  // A change list is its key change, if any, then its column changes.
  lemma AllChangesSplit(def: TableDef, live: LiveTable, skip: set<string>, targetAdded: map<string, string>, source: SourceType)
    ensures AllChanges(def, live, skip, targetAdded, source)
         == KeyChanges(def, live) + Sort(ChangeLe, FoundChanges(Baseline(def, skip, targetAdded), Captured(live, skip), [], source))
  {
    hide Baseline, Captured, OrderedKey, Sort;
    var base, columns, key := Baseline(def, skip, targetAdded), Captured(live, skip), KeyChanges(def, live);
    var rest := FoundChanges(base, columns, [], source);
    assert FoundChanges(base, columns, key, source) == rest + key;
    NoKeyChange(base, columns, source);
    if key == [] {
      assert rest + key == rest;
      assert key + Sort(ChangeLe, rest) == Sort(ChangeLe, rest);
    } else {
      KeyFirst(rest, key[0]);
    }
  }

  lemma NoKeyChange(base: seq<Base>, live: seq<LiveColumn>, source: SourceType)
    ensures forall ch | ch in FoundChanges(base, live, [], source) :: !ch.KeyChanged?
  {
    hide AddedColumns, LiveBy;
    var added := AddedColumns(live, BaseNames(base));
    NoKeyInRemoved(base, LiveNames(live), added, source);
    NoKeyInAdditions(added, Removed(base, LiveNames(live), added, source).paired);
    NoKeyInKept(base, LiveBy(live), source);
  }

  lemma {:induction false} NoKeyInRemoved(base: seq<Base>, liveNames: set<string>, added: seq<Ranked>, source: SourceType)
    ensures forall ch | ch in Removed(base, liveNames, added, source).changes :: !ch.KeyChanged?
  {
    hide SameType, FirstPair;
    if base != [] { NoKeyInRemoved(base[..|base| - 1], liveNames, added, source); }
  }

  lemma {:induction false} NoKeyInAdditions(added: seq<Ranked>, paired: set<string>)
    ensures forall ch | ch in Additions(added, paired) :: !ch.KeyChanged?
  {
    if added != [] { NoKeyInAdditions(added[..|added| - 1], paired); }
  }

  lemma {:induction false} NoKeyInKept(base: seq<Base>, liveBy: map<string, LiveColumn>, source: SourceType)
    ensures forall ch | ch in KeptChanges(base, liveBy, source) :: !ch.KeyChanged?
  {
    hide SameType;
    if base != [] { NoKeyInKept(base[..|base| - 1], liveBy, source); }
  }

  // ---- skipped columns ----

  // A live column without its catalog position and character set.
  function Blank(c: LiveColumn): LiveColumn {
    c.(position := 0, charset := "")
  }

  function Blanked(live: seq<LiveColumn>): seq<LiveColumn> {
    seq(|live|, i requires 0 <= i < |live| => Blank(live[i]))
  }

  lemma BlankedNames(live: seq<LiveColumn>)
    ensures LiveNames(Blanked(live)) == LiveNames(live)
  {
    forall n | n in LiveNames(live) ensures n in LiveNames(Blanked(live)) {
      var i :| 0 <= i < |live| && live[i].name == n;
      assert Blanked(live)[i] in Blanked(live);
    }
  }

  function BlankedRanks(added: seq<Ranked>): seq<Ranked> {
    seq(|added|, i requires 0 <= i < |added| => Ranked(added[i].rank, Blank(added[i].column)))
  }

  lemma {:induction false} AddedBlanked(live: seq<LiveColumn>, baseNames: set<string>)
    ensures AddedColumns(Blanked(live), baseNames) == BlankedRanks(AddedColumns(live, baseNames))
  {
    if live != [] {
      AddedBlanked(live[..|live| - 1], baseNames);
      assert Blanked(live)[..|live| - 1] == Blanked(live[..|live| - 1]);
    }
  }

  lemma {:induction false} FirstPairBlanked(b: Base, added: seq<Ranked>, paired: set<string>, source: SourceType)
    ensures FirstPair(b, BlankedRanks(added), paired, source)
         == match FirstPair(b, added, paired, source) case Some(c) => Some(Blank(c)) case None => None
  {
    hide SameType;
    if added != [] {
      assert BlankedRanks(added)[1..] == BlankedRanks(added[1..]);
      FirstPairBlanked(b, added[1..], paired, source);
    }
  }

  lemma {:induction false} RemovedBlanked(base: seq<Base>, liveNames: set<string>, added: seq<Ranked>, source: SourceType)
    ensures Removed(base, liveNames, BlankedRanks(added), source) == Removed(base, liveNames, added, source)
  {
    hide FirstPair;
    if base != [] {
      var init, b := base[..|base| - 1], base[|base| - 1];
      RemovedBlanked(init, liveNames, added, source);
      FirstPairBlanked(b, added, Removed(init, liveNames, added, source).paired, source);
    }
  }

  lemma {:induction false} AdditionsBlanked(added: seq<Ranked>, paired: set<string>)
    ensures Additions(BlankedRanks(added), paired) == Additions(added, paired)
  {
    if added != [] {
      assert BlankedRanks(added)[..|added| - 1] == BlankedRanks(added[..|added| - 1]);
      AdditionsBlanked(added[..|added| - 1], paired);
    }
  }

  lemma {:induction false} LiveByBlanked(live: seq<LiveColumn>)
    ensures LiveBy(Blanked(live)).Keys == LiveBy(live).Keys
    ensures forall n | n in LiveBy(live) :: LiveBy(Blanked(live))[n] == Blank(LiveBy(live)[n])
  {
    if live != [] {
      LiveByBlanked(live[..|live| - 1]);
      assert Blanked(live)[..|live| - 1] == Blanked(live[..|live| - 1]);
    }
    BlankedNames(live);
  }

  lemma {:induction false} KeptBlanked(base: seq<Base>, liveBy: map<string, LiveColumn>, blanked: map<string, LiveColumn>, source: SourceType)
    requires blanked.Keys == liveBy.Keys && forall n | n in liveBy :: blanked[n] == Blank(liveBy[n])
    ensures KeptChanges(base, blanked, source) == KeptChanges(base, liveBy, source)
  {
    hide SameType;
    if base != [] { KeptBlanked(base[..|base| - 1], liveBy, blanked, source); }
  }

  lemma FoundBlanked(base: seq<Base>, live: seq<LiveColumn>, source: SourceType)
    ensures FoundChanges(base, Blanked(live), [], source) == FoundChanges(base, live, [], source)
  {
    hide LiveBy, Removed, Additions, KeptChanges, AddedColumns;
    var added := AddedColumns(live, BaseNames(base));
    BlankedNames(live);
    AddedBlanked(live, BaseNames(base));
    RemovedBlanked(base, LiveNames(live), added, source);
    AdditionsBlanked(added, Removed(base, LiveNames(live), added, source).paired);
    LiveByBlanked(live);
    KeptBlanked(base, LiveBy(live), LiveBy(Blanked(live)), source);
  }

  // Skipped columns cannot affect the column changes: two live tables with the same captured
  // columns in the same order, and the same key, have the same kinds and column changes,
  // whatever else they hold and wherever it stands.
  lemma SkippedColumnsDoNotMatter(def: TableDef, live1: LiveTable, live2: LiveTable, skip: set<string>, targetAdded: map<string, string>, source: SourceType)
    requires Blanked(Captured(live1, skip)) == Blanked(Captured(live2, skip))
    requires live1.primaryKey == live2.primaryKey
    ensures exists rest: seq<Change> ::
              && AllChanges(def, live1, skip, targetAdded, source) == KeyChanges(def, live1) + rest
              && AllChanges(def, live2, skip, targetAdded, source) == KeyChanges(def, live2) + rest
    ensures |KeyChanges(def, live1)| == |KeyChanges(def, live2)|
    ensures match (Diff(def, Some(live1), skip, targetAdded, source), Diff(def, Some(live2), skip, targetAdded, source))
            case (None, None) => true
            case (Some(d1), Some(d2)) => d1.kinds == d2.kinds && d1.moreChanges == d2.moreChanges
            case _ => false
  {
    hide Baseline, Captured, OrderedKey, Blanked, AllChanges, FoundChanges, Sort, KindsIn;
    var base := Baseline(def, skip, targetAdded);
    FoundBlanked(base, Captured(live1, skip), source);
    FoundBlanked(base, Captured(live2, skip), source);
    AllChangesSplit(def, live1, skip, targetAdded, source);
    AllChangesSplit(def, live2, skip, targetAdded, source);
    var rest := Sort(ChangeLe, FoundChanges(base, Captured(live1, skip), [], source));
    SameKinds(KIND_ORDER, KeyChanges(def, live1) + rest, KeyChanges(def, live2) + rest);
  }

  lemma {:induction false} SameKinds(order: seq<Kind>, a: seq<Change>, b: seq<Change>)
    requires |a| == |b| && forall i | 0 <= i < |a| :: a[i].Kind() == b[i].Kind()
    ensures KindsIn(order, a) == KindsIn(order, b)
  {
    if order != [] {
      SameKinds(order[..|order| - 1], a, b);
      var k := order[|order| - 1];
      if ch :| ch in a && ch.Kind() == k {
        var i :| 0 <= i < |a| && a[i] == ch;
        assert b[i] in b;
      } else if ch :| ch in b && ch.Kind() == k {
        var i :| 0 <= i < |b| && b[i] == ch;
        assert a[i] in a;
      }
    }
  }

  // ---- the bounded finding ----

  lemma ChangeLeIsPreorder()
    ensures TotalPreorder(ChangeLe)
  {
    hide StringLe;
    StringLeIsOrder();
  }

  lemma {:induction false} KindsAre(order: seq<Kind>, changes: seq<Change>)
    ensures forall k :: k in KindsIn(order, changes) <==> k in order && exists ch :: ch in changes && ch.Kind() == k
  {
    if order != [] {
      KindsAre(order[..|order| - 1], changes);
      assert order == order[..|order| - 1] + [order[|order| - 1]];
    }
  }

  // A finding keeps the most severe changes: what it holds plus what it only counts is every
  // change, no change left out is more severe than one kept, and its kinds are exactly the
  // kinds of all changes.
  lemma MostSevereKept(def: TableDef, live: LiveTable, skip: set<string>, targetAdded: map<string, string>, source: SourceType)
    ensures var found := FoundChanges(Baseline(def, skip, targetAdded), Captured(live, skip), KeyChanges(def, live), source);
            match Diff(def, Some(live), skip, targetAdded, source)
            case None => found == []
            case Some(d) =>
              && |d.changes| == (if |found| < 6 then |found| else 6) && |d.changes| + d.moreChanges == |found|
              && (exists rest: seq<Change> ::
                    && multiset(d.changes + rest) == multiset(found)
                    && forall x, y | x in d.changes && y in rest :: ChangeLe(x, y))
              && (forall k :: k in d.kinds <==> exists ch :: ch in found && ch.Kind() == k)
  {
    hide Baseline, Captured, OrderedKey, ChangeLe, FoundChanges, KindsIn, Sort;
    var found := FoundChanges(Baseline(def, skip, targetAdded), Captured(live, skip), KeyChanges(def, live), source);
    var all := Sort(ChangeLe, found);
    ChangeLeIsPreorder();
    SortPermutes(ChangeLe, found);
    SortMembers(ChangeLe, found);
    SortSorts(ChangeLe, found);
    KindsAre(KIND_ORDER, all);
    if all != [] {
      var cut := if |all| < CHANGE_LIMIT then |all| else CHANGE_LIMIT;
      assert all == all[..cut] + all[cut..];
      assert forall ch: Change :: ch.Kind() in KIND_ORDER by {
        forall ch: Change ensures ch.Kind() in KIND_ORDER {
          assert KIND_ORDER[Severity(ch.Kind())] == ch.Kind();
        }
      }
    }
  }

  // ---- the order of the findings ----

  // Key, type, drop, rename, NULL rule, addition.
  function Weight(ch: Change): nat {
    match ch
    case KeyChanged(_, _) => 0
    case TypeChanged(_, _, _) => 1
    case Dropped(_, _) => 2
    case Renamed(_, _, _) => 3
    case NullRuleChanged(_, _, _) => 4
    case Added(_, _, _) => 5
  }

  // The changes stand in that order, and by column name within a kind.
  lemma ChangesAreInOrder(def: TableDef, live: LiveTable, skip: set<string>, targetAdded: map<string, string>, source: SourceType)
    ensures var all := AllChanges(def, live, skip, targetAdded, source);
            forall i, j | 0 <= i < j < |all| ::
              Weight(all[i]) < Weight(all[j]) || (Weight(all[i]) == Weight(all[j]) && (all[i].KeyChanged? || StringLe(all[i].column, all[j].column)))
  {
    hide Baseline, Captured, OrderedKey, FoundChanges, StringLe;
    var found := FoundChanges(Baseline(def, skip, targetAdded), Captured(live, skip), KeyChanges(def, live), source);
    ChangeLeIsPreorder();
    SortSorts(ChangeLe, found);
    var all := AllChanges(def, live, skip, targetAdded, source);
    forall i, j | 0 <= i < j < |all|
      ensures Weight(all[i]) < Weight(all[j]) || (Weight(all[i]) == Weight(all[j]) && (all[i].KeyChanged? || StringLe(all[i].column, all[j].column)))
    {
      ChangeLeMeans(all[i], all[j]);
    }
  }

  lemma ChangeLeMeans(a: Change, b: Change)
    requires ChangeLe(a, b)
    ensures Weight(a) < Weight(b) || (Weight(a) == Weight(b) && (a.KeyChanged? || StringLe(a.column, b.column)))
  {
    hide StringLe;
  }

  // A reported live key lists each key column once, in column order.
  lemma KeyIsInColumnOrder(live: LiveTable)
    requires ValidLive(live)
    requires forall n | n in live.primaryKey :: exists c :: c in live.columns && c.name == n
    ensures var key := OrderedKey(live);
            && Distinct(key) && (forall n :: n in key <==> n in live.primaryKey)
            && forall i, j, c, d | 0 <= i < j < |key| && c in live.columns && d in live.columns && c.name == key[i] && d.name == key[j] ::
                 c.position <= d.position
  {
    var le := (a: string, b: string) => KeyRank(live.columns, a) <= KeyRank(live.columns, b);
    var names := SortedSet(live.primaryKey);
    var key := OrderedKey(live);
    assert key == Sort(le, names);
    SortMembers(le, names);
    SortPermutes(le, names);
    SortSorts(le, names);
    PermutedDistinct(names, key);
    forall i, j, c, d | 0 <= i < j < |key| && c in live.columns && d in live.columns && c.name == key[i] && d.name == key[j]
      ensures c.position <= d.position
    {
      KeyRankIs(live, c);
      KeyRankIs(live, d);
      assert le(key[i], key[j]);
    }
  }

  lemma KeyRankIs(live: LiveTable, c: LiveColumn)
    requires ValidLive(live) && c in live.columns
    ensures KeyRank(live.columns, c.name) == c.position
  {
    hide LiveBy;
    assert c.name in LiveNames(live.columns);
    SameLive(live.columns, c, LiveBy(live.columns)[c.name]);
  }

  lemma PermutedDistinct(s: seq<string>, t: seq<string>)
    requires multiset(s) == multiset(t) && Distinct(s)
    ensures Distinct(t)
  {
    forall i, j | 0 <= i < j < |t| ensures t[i] != t[j] {
      if t[i] == t[j] {
        assert t == t[..i] + [t[i]] + t[i + 1..j] + [t[j]] + t[j + 1..];
        assert multiset(t)[t[i]] >= 2;
        DistinctOccursOnce(s, t[i]);
      }
    }
  }
}
