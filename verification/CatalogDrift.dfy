/**
 The catalog drift comparison: how one table's live definition differs from its baseline
 (src/dsql_migrator/core/cdc_catalog_drift.py, diff_table). The change list is kept uncut:
 a type text is whole and a key is the list of its columns.
 */
module CatalogDrift {
  import opened Wrappers
  import opened Sorting
  import opened CatalogTypes

  // ---- the two definitions ----

  // One column of the Step 1 inventory.
  datatype Column = Column(name: string, typ: string, nullable: bool, generated: bool, notNullNotValid: bool)

  datatype TableDef = TableDef(columns: seq<Column>, primaryKey: seq<string>)

  datatype LiveColumn = LiveColumn(
    name: string, typ: string, nullable: bool, generated: bool, position: int, charset: string)

  datatype LiveTable = LiveTable(columns: seq<LiveColumn>, primaryKey: set<string>)

  // ---- the outcome ----

  datatype Kind =
    | SourceTableMissing | KeyChange | TypeChange | DropColumn | RenameColumn
    | NullabilityChange | AddColumn

  // Most severe first.
  const KIND_ORDER := [SourceTableMissing, KeyChange, TypeChange, DropColumn, RenameColumn, NullabilityChange, AddColumn]

  const CHANGE_LIMIT := 6

  datatype Change =
    | KeyChanged(before: seq<string>, after: seq<string>)
    | TypeChanged(column: string, oldType: string, newType: string)
    | Dropped(column: string, oldType: string)
    | Renamed(column: string, oldType: string, newName: string)
    | NullRuleChanged(column: string, wasNullable: bool, nowNullable: bool)
    | Added(column: string, newType: string, isGenerated: bool)
  {
    function Kind(): Kind {
      match this
      case KeyChanged(_, _) => KeyChange
      case TypeChanged(_, _, _) => TypeChange
      case Dropped(_, _) => DropColumn
      case Renamed(_, _, _) => RenameColumn
      case NullRuleChanged(_, _, _) => NullabilityChange
      case Added(_, _, _) => AddColumn
    }

    function ColumnText(): string {
      if KeyChanged? then "" else column
    }
  }

  datatype CatalogDiff = CatalogDiff(kinds: seq<Kind>, changes: seq<Change>, moreChanges: nat)

  function Severity(k: Kind): nat {
    match k
    case SourceTableMissing => 0
    case KeyChange => 1
    case TypeChange => 2
    case DropColumn => 3
    case RenameColumn => 4
    case NullabilityChange => 5
    case AddColumn => 6
  }

  predicate ChangeLe(a: Change, b: Change) {
    var i, j := Severity(a.Kind()), Severity(b.Kind());
    i < j || (i == j && StringLe(a.ColumnText(), b.ColumnText()))
  }

  function KindsIn(order: seq<Kind>, changes: seq<Change>): seq<Kind> {
    if order == [] then [] else
      KindsIn(order[..|order| - 1], changes)
      + if exists ch :: ch in changes && ch.Kind() == order[|order| - 1] then [order[|order| - 1]] else []
  }

  // ---- the baseline ----

  // A baseline column as it is compared. `nullable` is None when no NULL rule is compared;
  // a column added through Fix target schema has no position.
  datatype Base = Base(
    name: string, typ: string, nullable: Option<bool>, generated: bool, position: Option<nat>, added: bool)

  function Names(columns: seq<Column>): set<string> {
    set c | c in columns :: c.name
  }

  function BaseNames(base: seq<Base>): set<string> {
    set b | b in base :: b.name
  }

  function LiveNames(live: seq<LiveColumn>): set<string> {
    set c | c in live :: c.name
  }

  function BaseOf(c: Column, position: nat): Base {
    Base(c.name, c.typ, if c.notNullNotValid then None else Some(c.nullable), c.generated, Some(position), false)
  }

  function InventoryBase(columns: seq<Column>, skip: set<string>): (r: seq<Base>) {
    if columns == [] then [] else
      var init, c := InventoryBase(columns[..|columns| - 1], skip), columns[|columns| - 1];
      if c.name in skip then init else init + [BaseOf(c, |init|)]
  }

  function AddedBase(names: seq<string>, targetAdded: map<string, string>, inventory: set<string>, skip: set<string>): seq<Base>
    requires forall n | n in names :: n in targetAdded
  {
    if names == [] then [] else
      var n := names[|names| - 1];
      assert forall m | m in names[..|names| - 1] :: m in names;
      AddedBase(names[..|names| - 1], targetAdded, inventory, skip)
      + if n in inventory || n in skip then [] else [Base(n, targetAdded[n], None, false, None, true)]
  }

  function Baseline(def: TableDef, skip: set<string>, targetAdded: map<string, string>): seq<Base> {
    InventoryBase(def.columns, skip)
    + AddedBase(SortedSet(targetAdded.Keys), targetAdded, Names(def.columns), skip)
  }

  // ---- the live side ----

  predicate PositionLe(a: LiveColumn, b: LiveColumn) {
    a.position <= b.position
  }

  function NotSkipped(columns: seq<LiveColumn>, skip: set<string>): (r: seq<LiveColumn>)
    ensures forall c :: c in r <==> c in columns && c.name !in skip
  {
    if columns == [] then [] else
      var init, c := NotSkipped(columns[..|columns| - 1], skip), columns[|columns| - 1];
      assert columns == columns[..|columns| - 1] + [c];
      if c.name in skip then init else init + [c]
  }

  // The columns CDC captures, in position order: a column's rank is its index here.
  function Captured(live: LiveTable, skip: set<string>): seq<LiveColumn> {
    NotSkipped(Sort(PositionLe, live.columns), skip)
  }

  // The column of each name (the last one, should a name repeat).
  function LiveBy(live: seq<LiveColumn>): (m: map<string, LiveColumn>)
    ensures m.Keys == LiveNames(live)
    ensures forall n | n in m :: m[n] in live && m[n].name == n
  {
    if live == [] then map[] else
      var c := live[|live| - 1];
      assert live == live[..|live| - 1] + [c];
      LiveBy(live[..|live| - 1])[c.name := c]
  }

  datatype Ranked = Ranked(rank: nat, column: LiveColumn)

  // The live columns whose name the baseline does not have, with their ranks.
  function AddedColumns(live: seq<LiveColumn>, baseNames: set<string>): (r: seq<Ranked>)
    ensures forall a | a in r :: a.rank < |live| && live[a.rank] == a.column && a.column.name !in baseNames
    ensures forall k | 0 <= k < |live| && live[k].name !in baseNames :: Ranked(k, live[k]) in r
  {
    if live == [] then [] else
      var init, c := AddedColumns(live[..|live| - 1], baseNames), live[|live| - 1];
      if c.name in baseNames then init else init + [Ranked(|live| - 1, c)]
  }

  // ---- the changes ----

  predicate Pairs(b: Base, a: Ranked, paired: set<string>, source: SourceType) {
    b.position == Some(a.rank) && a.column.name !in paired && SameType(b.typ, a.column.typ, source)
  }

  // The first added column the missing baseline column pairs with.
  function FirstPair(b: Base, added: seq<Ranked>, paired: set<string>, source: SourceType): (r: Option<LiveColumn>)
    ensures r.None? <==> forall a | a in added :: !Pairs(b, a, paired, source)
    ensures r.Some? ==> exists a :: a in added && Pairs(b, a, paired, source) && a.column == r.value
  {
    if added == [] then None
    else if Pairs(b, added[0], paired, source) then
      assert added[0] in added;
      Some(added[0].column)
    else FirstPair(b, added[1..], paired, source)
  }

  datatype Removals = Removals(changes: seq<Change>, paired: set<string>)

  // Each baseline column missing on the source: renamed to a column not yet paired, or dropped.
  function Removed(base: seq<Base>, liveNames: set<string>, added: seq<Ranked>, source: SourceType): Removals {
    if base == [] then Removals([], {}) else
      var r, b := Removed(base[..|base| - 1], liveNames, added, source), base[|base| - 1];
      if b.name in liveNames then r else
        match FirstPair(b, added, r.paired, source)
        case Some(c) => Removals(r.changes + [Renamed(b.name, b.typ, c.name)], r.paired + {c.name})
        case None => Removals(r.changes + [Dropped(b.name, b.typ)], r.paired)
  }

  function Additions(added: seq<Ranked>, paired: set<string>): seq<Change> {
    if added == [] then [] else
      var c := added[|added| - 1].column;
      Additions(added[..|added| - 1], paired)
      + if c.name in paired then [] else [Added(c.name, c.typ, c.generated)]
  }

  predicate RuleDiffers(b: Base, c: LiveColumn) {
    b.nullable.Some? && !b.generated && !c.generated && b.nullable.value != c.nullable
  }

  // A column both sides have.
  function KeptChange(b: Base, c: LiveColumn, source: SourceType): seq<Change> {
    if b.added && c.generated then [Added(c.name, c.typ, true)] else
      (if SameType(b.typ, c.typ, source) then [] else [TypeChanged(b.name, b.typ, c.typ)])
      + (if RuleDiffers(b, c) then [NullRuleChanged(b.name, b.nullable.value, c.nullable)] else [])
  }

  function KeptChanges(base: seq<Base>, liveBy: map<string, LiveColumn>, source: SourceType): seq<Change> {
    if base == [] then [] else
      var b := base[|base| - 1];
      KeptChanges(base[..|base| - 1], liveBy, source)
      + if b.name in liveBy then KeptChange(b, liveBy[b.name], source) else []
  }

  // A key column's position in the live table, or past the last one.
  function KeyRank(columns: seq<LiveColumn>, name: string): int {
    var ranked := LiveBy(columns);
    if name in ranked then ranked[name].position else |ranked|
  }

  // The live key in column order.
  function OrderedKey(live: LiveTable): seq<string> {
    var le := (a: string, b: string) => KeyRank(live.columns, a) <= KeyRank(live.columns, b);
    Sort(le, SortedSet(live.primaryKey))
  }

  function KeyChanges(def: TableDef, live: LiveTable): seq<Change> {
    if (set n | n in def.primaryKey) == live.primaryKey then []
    else [KeyChanged(def.primaryKey, OrderedKey(live))]
  }

  // Every change, in the order it is found.
  function FoundChanges(base: seq<Base>, columns: seq<LiveColumn>, key: seq<Change>, source: SourceType): seq<Change> {
    var added := AddedColumns(columns, BaseNames(base));
    var removed := Removed(base, LiveNames(columns), added, source);
    removed.changes + Additions(added, removed.paired) + KeptChanges(base, LiveBy(columns), source) + key
  }

  // Every change of a table that exists, most severe first.
  function AllChanges(def: TableDef, live: LiveTable, skip: set<string>, targetAdded: map<string, string>, source: SourceType): seq<Change> {
    Sort(ChangeLe, FoundChanges(Baseline(def, skip, targetAdded), Captured(live, skip), KeyChanges(def, live), source))
  }

  function Bounded(changes: seq<Change>): Option<CatalogDiff> {
    if changes == [] then None else
      Some(CatalogDiff(
        KindsIn(KIND_ORDER, changes),
        changes[..if |changes| < CHANGE_LIMIT then |changes| else CHANGE_LIMIT],
        if |changes| < CHANGE_LIMIT then 0 else |changes| - CHANGE_LIMIT))
  }

  function Diff(def: TableDef, live: Option<LiveTable>, skip: set<string>, targetAdded: map<string, string>, source: SourceType): Option<CatalogDiff> {
    if live.None? then Some(CatalogDiff([SourceTableMissing], [], 0))
    else Bounded(AllChanges(def, live.value, skip, targetAdded, source))
  }

  // ---- the comparison as it runs ----

  method ReadInventory(columns: seq<Column>, skip: set<string>) returns (base: seq<Base>, inventory: set<string>)
    ensures base == InventoryBase(columns, skip)
    ensures inventory == Names(columns)
  {
    base := [];
    inventory := {};
    for i := 0 to |columns|
      invariant inventory == Names(columns[..i])
      invariant base == InventoryBase(columns[..i], skip)
    {
      var column := columns[i];
      assert columns[..i + 1][..i] == columns[..i];
      assert columns[..i + 1] == columns[..i] + [column];
      inventory := inventory + {column.name};
      if column.name !in skip {
        base := base + [BaseOf(column, |base|)];
      }
    }
    assert columns[..|columns|] == columns;
  }

  method ReadTargetAdded(names: seq<string>, targetAdded: map<string, string>, inventory: set<string>, skip: set<string>)
    returns (base: seq<Base>)
    requires forall n | n in names :: n in targetAdded
    ensures base == AddedBase(names, targetAdded, inventory, skip)
  {
    base := [];
    for i := 0 to |names|
      invariant base == AddedBase(names[..i], targetAdded, inventory, skip)
    {
      assert names[..i + 1][..i] == names[..i];
      assert names[i] in names;
      if names[i] !in inventory && names[i] !in skip {
        base := base + [Base(names[i], targetAdded[names[i]], None, false, None, true)];
      }
    }
    assert names[..|names|] == names;
  }

  method FindPair(b: Base, added: seq<Ranked>, paired: set<string>, source: SourceType) returns (r: Option<LiveColumn>)
    ensures r == FirstPair(b, added, paired, source)
  {
    for i := 0 to |added|
      invariant FirstPair(b, added, paired, source) == FirstPair(b, added[i..], paired, source)
    {
      if Pairs(b, added[i], paired, source) {
        return Some(added[i].column);
      }
    }
    r := None;
  }

  method CompareMissing(base: seq<Base>, liveNames: set<string>, added: seq<Ranked>, source: SourceType)
    returns (changes: seq<Change>, paired: set<string>)
    ensures Removals(changes, paired) == Removed(base, liveNames, added, source)
  {
    changes, paired := [], {};
    for i := 0 to |base|
      invariant Removals(changes, paired) == Removed(base[..i], liveNames, added, source)
    {
      assert base[..i + 1][..i] == base[..i];
      var b := base[i];
      if b.name !in liveNames {
        var pair := FindPair(b, added, paired, source);
        if pair.Some? {
          paired := paired + {pair.value.name};
          changes := changes + [Renamed(b.name, b.typ, pair.value.name)];
        } else {
          changes := changes + [Dropped(b.name, b.typ)];
        }
      }
    }
    assert base[..|base|] == base;
  }

  method CompareAdded(added: seq<Ranked>, paired: set<string>) returns (changes: seq<Change>)
    ensures changes == Additions(added, paired)
  {
    changes := [];
    for i := 0 to |added|
      invariant changes == Additions(added[..i], paired)
    {
      assert added[..i + 1][..i] == added[..i];
      var c := added[i].column;
      if c.name !in paired {
        changes := changes + [Added(c.name, c.typ, c.generated)];
      }
    }
    assert added[..|added|] == added;
  }

  method CompareKept(base: seq<Base>, liveBy: map<string, LiveColumn>, source: SourceType) returns (changes: seq<Change>)
    ensures changes == KeptChanges(base, liveBy, source)
  {
    changes := [];
    for i := 0 to |base|
      invariant changes == KeptChanges(base[..i], liveBy, source)
    {
      assert base[..i + 1][..i] == base[..i];
      var b := base[i];
      if b.name in liveBy {
        var c := liveBy[b.name];
        var before := changes;
        if b.added && c.generated {
          changes := changes + [Added(c.name, c.typ, true)];
        } else {
          if !SameType(b.typ, c.typ, source) {
            changes := changes + [TypeChanged(b.name, b.typ, c.typ)];
          }
          if RuleDiffers(b, c) {
            changes := changes + [NullRuleChanged(b.name, b.nullable.value, c.nullable)];
          }
        }
        assert changes == before + KeptChange(b, c, source);
      }
    }
    assert base[..|base|] == base;
  }

  method DiffTable(def: TableDef, live: Option<LiveTable>, skip: set<string>, targetAdded: map<string, string>, source: SourceType)
    returns (r: Option<CatalogDiff>)
    ensures r == Diff(def, live, skip, targetAdded, source)
    ensures live.None? ==> r.Some? && r.value.kinds == [SourceTableMissing] && r.value.changes == [] && r.value.moreChanges == 0
  {
    if live.None? {
      return Some(CatalogDiff([SourceTableMissing], [], 0));
    }
    var base, inventory := ReadInventory(def.columns, skip);
    var more := ReadTargetAdded(SortedSet(targetAdded.Keys), targetAdded, inventory, skip);
    base := base + more;
    var columns := Captured(live.value, skip);
    var liveBy := LiveBy(columns);
    var added := AddedColumns(columns, BaseNames(base));
    var changes, paired := CompareMissing(base, liveBy.Keys, added, source);
    var additions := CompareAdded(added, paired);
    var kept := CompareKept(base, liveBy, source);
    changes := changes + additions + kept;
    if (set n | n in def.primaryKey) != live.value.primaryKey {
      changes := changes + [KeyChanged(def.primaryKey, OrderedKey(live.value))];
    }
    assert changes == FoundChanges(base, columns, KeyChanges(def, live.value), source);
    SortPermutes(ChangeLe, changes);
    if changes == [] {
      return None;
    }
    changes := Sort(ChangeLe, changes);
    r := Bounded(changes);
  }
}
