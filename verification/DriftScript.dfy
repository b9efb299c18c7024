/**
 What the drift change list means: it is an edit script. Applied to the baseline, in any
 order, it yields the live table.
 */
module DriftScript {
  import opened Wrappers
  import opened Sorting
  import opened CatalogTypes
  import opened CatalogDrift

  // ---- well-formed definitions: a table's column names are distinct ----

  predicate ValidDef(def: TableDef) {
    forall i, j | 0 <= i < j < |def.columns| :: def.columns[i].name != def.columns[j].name
  }

  predicate ValidLive(live: LiveTable) {
    DistinctLive(live.columns)
  }

  predicate DistinctLive(columns: seq<LiveColumn>) {
    forall i, j | 0 <= i < j < |columns| :: columns[i].name != columns[j].name
  }

  // Distinct names, and a position, where there is one, is the index.
  predicate ValidBase(base: seq<Base>) {
    && (forall i, j | 0 <= i < j < |base| :: base[i].name != base[j].name)
    && (forall i | 0 <= i < |base| :: base[i].position.Some? ==> base[i].position.value == i)
    && (forall i | 0 <= i < |base| :: base[i].added ==> base[i].nullable.None?)
  }

  lemma BaseNamesConcat(a: seq<Base>, b: seq<Base>)
    ensures BaseNames(a + b) == BaseNames(a) + BaseNames(b)
  {
    forall n | n in BaseNames(a) + BaseNames(b) ensures n in BaseNames(a + b) {
      var x :| (x in a || x in b) && x.name == n;
      assert x in a + b;
    }
  }

  lemma {:induction false} InventoryValid(columns: seq<Column>, skip: set<string>)
    requires forall i, j | 0 <= i < j < |columns| :: columns[i].name != columns[j].name
    ensures ValidBase(InventoryBase(columns, skip))
    ensures BaseNames(InventoryBase(columns, skip)) == Names(columns) - skip
  {
    if columns != [] {
      var init := columns[..|columns| - 1];
      InventoryValid(init, skip);
      assert columns == init + [columns[|columns| - 1]];
      forall b | b in InventoryBase(init, skip) ensures b.name != columns[|columns| - 1].name {
        assert b.name in BaseNames(InventoryBase(init, skip));
        var c :| c in init && c.name == b.name;
      }
      var last := columns[|columns| - 1];
      assert Names(columns) == Names(init) + {last.name} by {
        assert forall c | c in init :: c in columns;
        assert last in columns;
      }
      if last.name !in skip {
        BaseNamesConcat(InventoryBase(init, skip), [BaseOf(last, |InventoryBase(init, skip)|)]);
      }
    }
  }

  lemma {:induction false} AddedBaseValid(names: seq<string>, targetAdded: map<string, string>, inventory: set<string>, skip: set<string>)
    requires forall n | n in names :: n in targetAdded
    requires Distinct(names)
    ensures var r := AddedBase(names, targetAdded, inventory, skip);
            && ValidBase(r)
            && (forall b | b in r :: b == Base(b.name, if b.name in targetAdded then targetAdded[b.name] else "", None, false, None, true))
            && BaseNames(r) == (set n | n in names) - inventory - skip
  {
    hide SameType;
    if names != [] {
      var init, n := names[..|names| - 1], names[|names| - 1];
      assert names == init + [n];
      AddedBaseValid(init, targetAdded, inventory, skip);
      forall b | b in AddedBase(init, targetAdded, inventory, skip) ensures b.name != n {
        assert b.name in BaseNames(AddedBase(init, targetAdded, inventory, skip));
      }
      assert (set m | m in names) == (set m | m in init) + {n};
      var more := if n in inventory || n in skip then [] else [Base(n, targetAdded[n], None, false, None, true)];
      assert AddedBase(names, targetAdded, inventory, skip) == AddedBase(init, targetAdded, inventory, skip) + more;
      BaseNamesConcat(AddedBase(init, targetAdded, inventory, skip), more);
      assert BaseNames(more) == if more == [] then {} else {n};
    }
  }

  lemma BaselineValid(def: TableDef, skip: set<string>, targetAdded: map<string, string>)
    requires ValidDef(def)
    ensures ValidBase(Baseline(def, skip, targetAdded))
    ensures BaseNames(Baseline(def, skip, targetAdded)) == Names(def.columns) + targetAdded.Keys - skip
  {
    InventoryValid(def.columns, skip);
    var added := SortedSet(targetAdded.Keys);
    AddedBaseValid(added, targetAdded, Names(def.columns), skip);
    var i, a := InventoryBase(def.columns, skip), AddedBase(added, targetAdded, Names(def.columns), skip);
    assert (set n | n in added) == targetAdded.Keys;
    BaseNamesConcat(i, a);
    ValidConcat(i, a);
  }

  lemma ValidConcat(i: seq<Base>, a: seq<Base>)
    requires ValidBase(i) && ValidBase(a) && BaseNames(i) !! BaseNames(a)
    requires forall b | b in a :: b.position.None?
    ensures ValidBase(i + a)
  {
    assert forall b | b in i :: b.name in BaseNames(i);
    assert forall b | b in a :: b.name in BaseNames(a);
    forall j, k | 0 <= j < k < |i + a| ensures (i + a)[j].name != (i + a)[k].name {
      assert (i + a)[j] == if j < |i| then i[j] else a[j - |i|];
      assert (i + a)[k] == if k < |i| then i[k] else a[k - |i|];
    }
  }

  lemma {:induction false} NotSkippedDistinct(columns: seq<LiveColumn>, skip: set<string>)
    requires DistinctLive(columns)
    ensures DistinctLive(NotSkipped(columns, skip))
  {
    if columns != [] {
      NotSkippedDistinct(columns[..|columns| - 1], skip);
    }
  }

  lemma CapturedDistinct(live: LiveTable, skip: set<string>)
    requires ValidLive(live)
    ensures DistinctLive(Captured(live, skip))
    ensures forall c :: c in Captured(live, skip) <==> c in live.columns && c.name !in skip
  {
    var s := live.columns;
    var t := Sort(PositionLe, s);
    SortPermutes(PositionLe, s);
    SortMembers(PositionLe, s);
    assert Distinct(s);
    PermutationKeepsDistinct(s, t);
    forall i, j | 0 <= i < j < |t| ensures t[i].name != t[j].name {
      assert t[i] in s && t[j] in s;
    }
    NotSkippedDistinct(t, skip);
  }

  // ---- rename pairing in closed form ----

  // The column a missing baseline column is renamed to: the live column at its position, if
  // that one is new and has the same type.
  function RenamedTo(b: Base, live: seq<LiveColumn>, baseNames: set<string>, source: SourceType): Option<LiveColumn> {
    if b.position.Some? && b.position.value < |live| && live[b.position.value].name !in baseNames
       && SameType(b.typ, live[b.position.value].typ, source)
    then Some(live[b.position.value]) else None
  }

  function RenameTargets(base: seq<Base>, k: nat, live: seq<LiveColumn>, source: SourceType): set<string>
    requires k <= |base|
  {
    if k == 0 then {} else
      RenameTargets(base, k - 1, live, source)
      + if base[k - 1].name in LiveNames(live) then {} else
          match RenamedTo(base[k - 1], live, BaseNames(base), source)
          case Some(c) => {c.name}
          case None => {}
  }

  // Ranks are injective, so an earlier column never took the name at a later position.
  lemma {:induction false} EarlierTargets(base: seq<Base>, k: nat, live: seq<LiveColumn>, source: SourceType, p: nat)
    requires ValidBase(base) && DistinctLive(live) && k <= |base| && k <= p < |live|
    ensures live[p].name !in RenameTargets(base, k, live, source)
  {
    if k > 0 {
      EarlierTargets(base, k - 1, live, source, p);
    }
  }

  lemma {:induction false} FirstPairIsByPosition(b: Base, live: seq<LiveColumn>, baseNames: set<string>, paired: set<string>, source: SourceType)
    requires forall a | a in AddedColumns(live, baseNames) && b.position == Some(a.rank) :: a.column.name !in paired
    ensures FirstPair(b, AddedColumns(live, baseNames), paired, source) == RenamedTo(b, live, baseNames, source)
  {
    var added := AddedColumns(live, baseNames);
    if RenamedTo(b, live, baseNames, source).Some? {
      assert Ranked(b.position.value, live[b.position.value]) in added;
      assert Pairs(b, Ranked(b.position.value, live[b.position.value]), paired, source);
    }
  }

  // The already-paired guard never rejects a candidate: when column k is paired, no column
  // at its position has been taken, so it pairs exactly with the live column there.
  lemma {:induction false} PairingIsByPosition(base: seq<Base>, k: nat, live: seq<LiveColumn>, source: SourceType)
    requires ValidBase(base) && DistinctLive(live) && k <= |base|
    ensures var added := AddedColumns(live, BaseNames(base));
            var paired := Removed(base[..k], LiveNames(live), added, source).paired;
            && paired == RenameTargets(base, k, live, source)
            && (k < |base| ==>
                  && (forall a | a in added && base[k].position == Some(a.rank) :: a.column.name !in paired)
                  && FirstPair(base[k], added, paired, source) == RenamedTo(base[k], live, BaseNames(base), source))
  {
    hide SameType, AddedColumns;
    var added := AddedColumns(live, BaseNames(base));
    if k > 0 {
      PairingIsByPosition(base, k - 1, live, source);
      assert base[..k][..k - 1] == base[..k - 1];
    }
    var paired := Removed(base[..k], LiveNames(live), added, source).paired;
    assert paired == RenameTargets(base, k, live, source);
    if k < |base| {
      forall a | a in added && base[k].position == Some(a.rank) ensures a.column.name !in paired {
        EarlierTargets(base, k, live, source, a.rank);
      }
      FirstPairIsByPosition(base[k], live, BaseNames(base), paired, source);
    }
  }

  // ---- replaying a change list ----

  datatype ColumnState = ColumnState(typ: string, rule: Option<bool>)

  datatype Shape = Shape(columns: map<string, ColumnState>, key: set<string>)

  function Apply(ch: Change, s: Shape): Shape {
    match ch
    case Renamed(gone, _, name) =>
      if gone in s.columns then s.(columns := (s.columns - {gone})[name := s.columns[gone]]) else s
    case Dropped(gone, _) => s.(columns := s.columns - {gone})
    case Added(name, typ, _) => s.(columns := s.columns[name := ColumnState(typ, None)])
    case TypeChanged(name, _, typ) =>
      if name in s.columns then s.(columns := s.columns[name := s.columns[name].(typ := typ)]) else s
    case NullRuleChanged(name, _, rule) =>
      if name in s.columns then s.(columns := s.columns[name := s.columns[name].(rule := Some(rule))]) else s
    case KeyChanged(_, key) => s.(key := set n | n in key)
  }

  function Replay(changes: seq<Change>, s: Shape): Shape {
    if changes == [] then s else Replay(changes[1..], Apply(changes[0], s))
  }

  lemma {:induction false} ReplayConcat(a: seq<Change>, b: seq<Change>, s: Shape)
    ensures Replay(a + b, s) == Replay(b, Replay(a, s))
  {
    if a == [] {
      assert a + b == b;
    } else {
      assert (a + b)[1..] == a[1..] + b;
      ReplayConcat(a[1..], b, Apply(a[0], s));
    }
  }

  lemma {:induction false} ReplayNothing(s: Shape)
    ensures Replay([], s) == s
  {
  }

  lemma {:induction false} ReplayAppend(a: seq<Change>, ch: Change, s: Shape)
    ensures Replay(a + [ch], s) == Apply(ch, Replay(a, s))
  {
    ReplayConcat(a, [ch], s);
    assert Replay([ch], Replay(a, s)) == Replay([], Apply(ch, Replay(a, s)));
  }

  // The names a change reads or writes.
  function Touched(ch: Change): set<string> {
    match ch
    case Renamed(gone, _, name) => {gone, name}
    case KeyChanged(_, _) => {}
    case _ => {ch.column}
  }

  predicate Compatible(a: Change, b: Change) {
    || a == b
    || (Touched(a) !! Touched(b) && !(a.KeyChanged? && b.KeyChanged?))
    || (a.TypeChanged? && b.NullRuleChanged?) || (a.NullRuleChanged? && b.TypeChanged?)
  }

  function At(s: Shape, n: string): Option<ColumnState> {
    if n in s.columns then Some(s.columns[n]) else None
  }

  // A change leaves the names it does not touch, and reads only those it touches.
  lemma ApplyElsewhere(ch: Change, s: Shape, n: string)
    requires n !in Touched(ch)
    ensures At(Apply(ch, s), n) == At(s, n)
  {
  }

  lemma ApplyLocal(ch: Change, s: Shape, t: Shape, n: string)
    requires n in Touched(ch) && forall m | m in Touched(ch) :: At(s, m) == At(t, m)
    ensures At(Apply(ch, s), n) == At(Apply(ch, t), n)
  {
    if ch.Renamed? { assert At(s, ch.column) == At(t, ch.column); }
    assert At(s, n) == At(t, n);
  }

  lemma SameEntries(s: Shape, t: Shape)
    requires s.key == t.key && forall n :: At(s, n) == At(t, n)
    ensures s == t
  {
    forall n ensures (n in s.columns <==> n in t.columns) && (n in s.columns ==> s.columns[n] == t.columns[n]) {
      assert At(s, n) == At(t, n);
    }
    assert s.columns == t.columns;
  }

  lemma DisjointCommuteAt(a: Change, b: Change, s: Shape, n: string)
    requires Touched(a) !! Touched(b) && n !in Touched(b)
    ensures At(Apply(a, Apply(b, s)), n) == At(Apply(b, Apply(a, s)), n)
  {
    hide Apply, At, Touched;
    ApplyElsewhere(b, Apply(a, s), n);
    if n in Touched(a) {
      forall m | m in Touched(a) ensures At(Apply(b, s), m) == At(s, m) { ApplyElsewhere(b, s, m); }
      ApplyLocal(a, Apply(b, s), s, n);
    } else {
      ApplyElsewhere(a, Apply(b, s), n);
      ApplyElsewhere(b, s, n);
      ApplyElsewhere(a, s, n);
    }
  }

  lemma CompatibleCommute(a: Change, b: Change, s: Shape)
    requires Compatible(a, b)
    ensures Apply(a, Apply(b, s)) == Apply(b, Apply(a, s))
  {
    if a != b && Touched(a) !! Touched(b) {
      assert Apply(a, Apply(b, s)).key == Apply(b, Apply(a, s)).key;
      hide *;
      forall n ensures At(Apply(a, Apply(b, s)), n) == At(Apply(b, Apply(a, s)), n) {
        if n in Touched(b) { DisjointCommuteAt(b, a, s, n); } else { DisjointCommuteAt(a, b, s, n); }
      }
      SameEntries(Apply(a, Apply(b, s)), Apply(b, Apply(a, s)));
    }
  }

  lemma {:induction false} MoveToFront(changes: seq<Change>, x: Change, s: Shape)
    requires forall ch | ch in changes :: Compatible(x, ch)
    ensures Replay(changes + [x], s) == Replay([x] + changes, s)
  {
    assert ([x] + changes)[1..] == changes;
    if changes == [] {
      assert changes + [x] == [x] + changes;
    } else {
      CompatibleCommute(x, changes[0], s);
      MoveToFront(changes[1..], x, Apply(changes[0], s));
      assert (changes + [x])[1..] == changes[1..] + [x];
      assert ([x] + changes[1..])[1..] == changes[1..];
    }
  }

  // A change can be taken from anywhere in a compatible list and replayed first.
  lemma {:induction false} ReplayFirst(front: seq<Change>, x: Change, back: seq<Change>, s: Shape)
    requires forall ch | ch in front :: Compatible(x, ch)
    ensures Replay(front + [x] + back, s) == Replay(front + back, Apply(x, s))
  {
    MoveToFront(front, x, s);
    ReplayConcat(front + [x], back, s);
    ReplayConcat([x] + front, back, s);
    assert [x] + front + back == [x] + (front + back);
    assert ([x] + (front + back))[1..] == front + back;
  }

  lemma RemoveOne(a: seq<Change>, front: seq<Change>, x: Change, back: seq<Change>)
    requires a != [] && a[0] == x && multiset(a) == multiset(front + [x] + back)
    ensures multiset(a[1..]) == multiset(front + back)
  {
    DropHead(a);
    assert multiset(front + [x] + back) == multiset(front) + multiset{x} + multiset(back);
    assert multiset(front + back) == multiset(front) + multiset(back);
  }

  // Pairwise compatible changes replay the same in any order.
  lemma {:induction false} ReplayPermuted(a: seq<Change>, b: seq<Change>, s: Shape)
    requires multiset(a) == multiset(b)
    requires forall x, y | x in a && y in a :: Compatible(x, y)
    ensures Replay(a, s) == Replay(b, s)
  {
    assert |a| == |multiset(a)| == |multiset(b)| == |b|;
    if a != [] {
      var x := a[0];
      assert x in multiset(b);
      var j :| 0 <= j < |b| && b[j] == x;
      var front, back := b[..j], b[j + 1..];
      assert b == front + [x] + back;
      forall ch | ch in front ensures Compatible(x, ch) {
        assert ch in multiset(b);
        assert ch in a;
      }
      ReplayFirst(front, x, back, s);
      RemoveOne(a, front, x, back);
      ReplayPermuted(a[1..], front + back, Apply(x, s));
    }
  }

  // ---- where each found change comes from ----

  ghost predicate Explains(ch: Change, base: seq<Base>, live: seq<LiveColumn>, source: SourceType) {
    match ch
    case Renamed(gone, typ, name) =>
      exists i :: 0 <= i < |base| && base[i].name == gone && base[i].typ == typ && gone !in LiveNames(live)
                  && RenamedTo(base[i], live, BaseNames(base), source).Some?
                  && RenamedTo(base[i], live, BaseNames(base), source).value.name == name
    case Dropped(gone, typ) =>
      exists i :: 0 <= i < |base| && base[i].name == gone && base[i].typ == typ && gone !in LiveNames(live)
                  && RenamedTo(base[i], live, BaseNames(base), source).None?
    case Added(name, typ, generated) =>
      exists c :: c in live && c.name == name && c.typ == typ && c.generated == generated
                  && if name in BaseNames(base) then exists b :: b in base && b.name == name && b.added && generated
                     else name !in RenameTargets(base, |base|, live, source)
    case TypeChanged(name, gone, typ) =>
      exists b, c :: b in base && c in live && b.name == c.name == name && b.typ == gone && c.typ == typ
                     && !(b.added && c.generated) && !SameType(gone, typ, source)
    case NullRuleChanged(name, was, now) =>
      exists b, c :: b in base && c in live && b.name == c.name == name && b.nullable == Some(was) && c.nullable == now
                     && !(b.added && c.generated) && RuleDiffers(b, c)
    case KeyChanged(_, _) => false
  }

  lemma {:induction false} RemovedExplained(base: seq<Base>, k: nat, live: seq<LiveColumn>, source: SourceType)
    requires ValidBase(base) && DistinctLive(live) && k <= |base|
    ensures forall ch | ch in Removed(base[..k], LiveNames(live), AddedColumns(live, BaseNames(base)), source).changes
              :: Explains(ch, base, live, source) && (ch.Renamed? || ch.Dropped?)
  {
    if k > 0 {
      RemovedExplained(base, k - 1, live, source);
      RemovedStep(base, k, live, source);
      hide Removed, RemovalChange, Explains, AddedColumns, BaseNames, LiveNames;
      if base[k - 1].name !in LiveNames(live) {
        RemovalExplained(base, k - 1, live, source);
      }
    }
  }

  lemma RemovalExplained(base: seq<Base>, i: nat, live: seq<LiveColumn>, source: SourceType)
    requires i < |base| && base[i].name !in LiveNames(live)
    ensures var ch := RemovalChange(base[i], live, BaseNames(base), source);
            Explains(ch, base, live, source) && (ch.Renamed? || ch.Dropped?)
  {
    hide RenamedTo, LiveNames, BaseNames;
  }

  lemma {:induction false} AdditionsExplained(base: seq<Base>, added: seq<Ranked>, live: seq<LiveColumn>, source: SourceType)
    requires forall a | a in added :: a in AddedColumns(live, BaseNames(base))
    ensures forall ch | ch in Additions(added, RenameTargets(base, |base|, live, source)) :: Explains(ch, base, live, source) && ch.Added?
  {
    if added != [] {
      var a := added[|added| - 1];
      assert a in added;
      AdditionsExplained(base, added[..|added| - 1], live, source);
      assert a.column in live;
    }
  }

  lemma {:induction false} KeptExplained(base: seq<Base>, k: nat, live: seq<LiveColumn>, source: SourceType)
    requires k <= |base|
    ensures forall ch | ch in KeptChanges(base[..k], LiveBy(live), source) :: Explains(ch, base, live, source)
  {
    if k > 0 {
      KeptExplained(base, k - 1, live, source);
      assert base[..k][..k - 1] == base[..k - 1];
      var b := base[k - 1];
      if b.name in LiveBy(live) {
        var c := LiveBy(live)[b.name];
        assert b in base && c in live && c.name == b.name;
        assert b.name in BaseNames(base);
        forall ch | ch in KeptChange(b, c, source) ensures Explains(ch, base, live, source) {
        }
      }
    }
  }

  lemma SameLive(live: seq<LiveColumn>, x: LiveColumn, y: LiveColumn)
    requires DistinctLive(live) && x in live && y in live && x.name == y.name
    ensures x == y
  {
  }

  // Removals, additions and comparisons of kept columns touch different names.
  lemma {:induction false} ExplainedTouches(ch: Change, base: seq<Base>, live: seq<LiveColumn>, source: SourceType)
    requires ValidBase(base) && Explains(ch, base, live, source)
    ensures ch.Renamed? ==>
              && ch.column in BaseNames(base) - LiveNames(live)
              && ch.newName in (LiveNames(live) - BaseNames(base)) * RenameTargets(base, |base|, live, source)
    ensures ch.Dropped? ==> ch.column in BaseNames(base) - LiveNames(live)
    ensures ch.Added? ==> ch.column in LiveNames(live)
    ensures ch.Added? && ch.column !in BaseNames(base) ==> ch.column !in RenameTargets(base, |base|, live, source)
    ensures ch.TypeChanged? || ch.NullRuleChanged? ==> ch.column in BaseNames(base) * LiveNames(live)
  {
    assert forall b | b in base :: b.name in BaseNames(base);
    assert forall c | c in live :: c.name in LiveNames(live);
    if ch.Renamed? {
      var i :| 0 <= i < |base| && base[i].name == ch.column && base[i].name !in LiveNames(live)
               && RenamedTo(base[i], live, BaseNames(base), source).Some?
               && RenamedTo(base[i], live, BaseNames(base), source).value.name == ch.newName;
      assert base[i] in base;
      TargetsInclude(base, i, |base|, live, source);
    }
  }

  lemma {:induction false} TargetsInclude(base: seq<Base>, i: nat, k: nat, live: seq<LiveColumn>, source: SourceType)
    requires i < k <= |base| && base[i].name !in LiveNames(live)
    requires RenamedTo(base[i], live, BaseNames(base), source).Some?
    ensures RenamedTo(base[i], live, BaseNames(base), source).value.name in RenameTargets(base, k, live, source)
  {
    if i < k - 1 { TargetsInclude(base, i, k - 1, live, source); }
  }

  lemma RemovalsCompatible(x: Change, y: Change, base: seq<Base>, live: seq<LiveColumn>, source: SourceType)
    requires ValidBase(base) && DistinctLive(live)
    requires Explains(x, base, live, source) && Explains(y, base, live, source)
    requires (x.Renamed? || x.Dropped?) && (y.Renamed? || y.Dropped?)
    ensures Compatible(x, y)
  {
    ExplainedTouches(x, base, live, source);
    ExplainedTouches(y, base, live, source);
    var i := RemovalIndex(x, base, live, source);
    var j := RemovalIndex(y, base, live, source);
    hide LiveNames, BaseNames, RenameTargets, RenamedTo, Explains;
    if i != j {
      assert x.column != y.column;
      assert x.Renamed? && y.Renamed? ==> x.newName == live[i].name && y.newName == live[j].name;
    }
  }

  // The baseline column a removal is about; a rename goes to the live column at its position.
  lemma RemovalIndex(x: Change, base: seq<Base>, live: seq<LiveColumn>, source: SourceType) returns (i: nat)
    requires ValidBase(base) && Explains(x, base, live, source) && (x.Renamed? || x.Dropped?)
    ensures i < |base| && base[i].name == x.column && base[i].typ == x.oldType
    ensures var r := RenamedTo(base[i], live, BaseNames(base), source);
            if x.Renamed? then r == Some(live[i]) && i < |live| && live[i].name == x.newName else r.None?
  {
    hide LiveNames, BaseNames;
    i :| 0 <= i < |base| && base[i].name == x.column && base[i].typ == x.oldType
         && var r := RenamedTo(base[i], live, BaseNames(base), source);
            if x.Renamed? then r.Some? && r.value.name == x.newName else r.None?;
  }

  lemma KeptCompatible(x: Change, y: Change, base: seq<Base>, live: seq<LiveColumn>, source: SourceType)
    requires ValidBase(base) && DistinctLive(live)
    requires Explains(x, base, live, source) && Explains(y, base, live, source)
    requires (x.Added? || x.TypeChanged? || x.NullRuleChanged?) && (y.Added? || y.TypeChanged? || y.NullRuleChanged?)
    ensures Compatible(x, y)
  {
    if x.column == y.column {
      var n := x.column;
      assert forall b, b' | b in base && b' in base && b.name == n == b'.name :: b == b';
      assert forall c, c' | c in live && c' in live && c.name == n == c'.name :: c == c';
      assert forall b | b in base :: b.name in BaseNames(base);
    }
  }

  lemma ExplainedCompatible(x: Change, y: Change, base: seq<Base>, live: seq<LiveColumn>, source: SourceType)
    requires ValidBase(base) && DistinctLive(live)
    requires Explains(x, base, live, source) && Explains(y, base, live, source)
    ensures Compatible(x, y)
  {
    ExplainedTouches(x, base, live, source);
    ExplainedTouches(y, base, live, source);
    if (x.Renamed? || x.Dropped?) && (y.Renamed? || y.Dropped?) {
      RemovalsCompatible(x, y, base, live, source);
    } else if !x.Renamed? && !x.Dropped? && !y.Renamed? && !y.Dropped? {
      KeptCompatible(x, y, base, live, source);
    }
  }

  // A change is found exactly when the two sides explain it: none is missing, none superfluous.
  lemma FoundExactly(base: seq<Base>, live: seq<LiveColumn>, key: seq<Change>, source: SourceType)
    requires ValidBase(base) && DistinctLive(live)
    ensures forall ch :: ch in FoundChanges(base, live, key, source) <==> ch in key || Explains(ch, base, live, source)
  {
    hide Explains, RenameTargets, Removed, Additions, KeptChanges, AddedColumns;
    PairingIsByPosition(base, |base|, live, source);
    RemovedExplained(base, |base|, live, source);
    AdditionsExplained(base, AddedColumns(live, BaseNames(base)), live, source);
    KeptExplained(base, |base|, live, source);
    assert base[..|base|] == base;
    hide BaseNames, LiveNames, LiveBy;
    forall ch | Explains(ch, base, live, source) ensures ch in FoundChanges(base, live, key, source) {
      ExplainedFound(ch, base, live, source);
    }
  }

  lemma {:induction false} RemovedComplete(base: seq<Base>, k: nat, live: seq<LiveColumn>, source: SourceType, i: nat)
    requires ValidBase(base) && DistinctLive(live) && i < k <= |base| && base[i].name !in LiveNames(live)
    ensures RemovalChange(base[i], live, BaseNames(base), source) in Removed(base[..k], LiveNames(live), AddedColumns(live, BaseNames(base)), source).changes
  {
    RemovedStep(base, k, live, source);
    hide *;
    if i < k - 1 { RemovedComplete(base, k - 1, live, source, i); }
  }

  lemma {:induction false} AdditionsComplete(added: seq<Ranked>, paired: set<string>, a: Ranked)
    requires a in added && a.column.name !in paired
    ensures Added(a.column.name, a.column.typ, a.column.generated) in Additions(added, paired)
  {
    if a in added[..|added| - 1] { AdditionsComplete(added[..|added| - 1], paired, a); }
  }

  lemma {:induction false} KeptComplete(base: seq<Base>, liveBy: map<string, LiveColumn>, source: SourceType, i: nat)
    requires i < |base| && base[i].name in liveBy
    ensures forall ch | ch in KeptChange(base[i], liveBy[base[i].name], source) :: ch in KeptChanges(base, liveBy, source)
  {
    hide KeptChange;
    if i < |base| - 1 { KeptComplete(base[..|base| - 1], liveBy, source, i); }
  }

  // An explained change is in the list of its kind.
  lemma {:induction false} ExplainedFound(ch: Change, base: seq<Base>, live: seq<LiveColumn>, source: SourceType)
    requires ValidBase(base) && DistinctLive(live) && Explains(ch, base, live, source)
    ensures var added := AddedColumns(live, BaseNames(base));
            || ch in Removed(base, LiveNames(live), added, source).changes
            || ch in Additions(added, RenameTargets(base, |base|, live, source))
            || ch in KeptChanges(base, LiveBy(live), source)
  {
    if ch.Renamed? || ch.Dropped? {
      RemovalFound(ch, base, live, source);
    } else if ch.Added? && ch.column !in BaseNames(base) {
      AdditionFound(ch, base, live, source);
    } else {
      hide Removed, Additions, AddedColumns, RenameTargets;
      KeptFound(ch, base, live, source);
    }
  }

  lemma {:induction false} RemovalFound(ch: Change, base: seq<Base>, live: seq<LiveColumn>, source: SourceType)
    requires ValidBase(base) && DistinctLive(live) && Explains(ch, base, live, source) && (ch.Renamed? || ch.Dropped?)
    ensures ch in Removed(base, LiveNames(live), AddedColumns(live, BaseNames(base)), source).changes
  {
    ExplainedTouches(ch, base, live, source);
    var i := RemovalIndex(ch, base, live, source);
    hide Explains, RenamedTo, BaseNames, LiveNames, Removed, AddedColumns, RenameTargets;
    assert base[..|base|] == base;
    RemovedComplete(base, |base|, live, source, i);
  }

  lemma {:induction false} AdditionFound(ch: Change, base: seq<Base>, live: seq<LiveColumn>, source: SourceType)
    requires Explains(ch, base, live, source) && ch.Added? && ch.column !in BaseNames(base)
    ensures ch in Additions(AddedColumns(live, BaseNames(base)), RenameTargets(base, |base|, live, source))
  {
    hide RenameTargets, Additions, SameType, BaseNames;
    var k :| 0 <= k < |live| && ch == Added(live[k].name, live[k].typ, live[k].generated);
    assert Ranked(k, live[k]) in AddedColumns(live, BaseNames(base));
    AdditionsComplete(AddedColumns(live, BaseNames(base)), RenameTargets(base, |base|, live, source), Ranked(k, live[k]));
  }

  lemma {:induction false} KeptFound(ch: Change, base: seq<Base>, live: seq<LiveColumn>, source: SourceType)
    requires DistinctLive(live) && Explains(ch, base, live, source)
    requires ch.TypeChanged? || ch.NullRuleChanged? || (ch.Added? && ch.column in BaseNames(base))
    ensures ch in KeptChanges(base, LiveBy(live), source)
  {
    hide SameType, KeptChanges, LiveBy, RenameTargets;
    var b, c :| b in base && c in live && b.name == c.name == ch.column && ch in KeptChange(b, c, source);
    var i :| 0 <= i < |base| && base[i] == b;
    assert c.name in LiveNames(live);
    SameLive(live, c, LiveBy(live)[c.name]);
    KeptComplete(base, LiveBy(live), source, i);
  }

  lemma FoundCompatible(base: seq<Base>, live: seq<LiveColumn>, key: seq<Change>, source: SourceType)
    requires ValidBase(base) && DistinctLive(live)
    requires |key| <= 1 && forall ch | ch in key :: ch.KeyChanged?
    ensures forall x, y | x in FoundChanges(base, live, key, source) && y in FoundChanges(base, live, key, source) :: Compatible(x, y)
  {
    FoundExactly(base, live, key, source);
    var found := FoundChanges(base, live, key, source);
    forall x, y | x in found && y in found ensures Compatible(x, y) {
      if x !in key && y !in key {
        ExplainedCompatible(x, y, base, live, source);
      }
    }
  }

  // ---- the script leads from the baseline to the live table ----

  function BaseShape(base: seq<Base>): (m: map<string, ColumnState>)
    ensures m.Keys == BaseNames(base)
  {
    if base == [] then map[] else
      var init, b := base[..|base| - 1], base[|base| - 1];
      assert base == init + [b];
      BaseNamesConcat(init, [b]);
      BaseShape(init)[b.name := ColumnState(b.typ, b.nullable)]
  }

  lemma {:induction false} BaseShapeAt(base: seq<Base>, k: nat)
    requires ValidBase(base) && k < |base|
    ensures base[k].name in BaseNames(base)
    ensures BaseShape(base)[base[k].name] == ColumnState(base[k].typ, base[k].nullable)
  {
    assert base[k] in base;
    if k < |base| - 1 {
      BaseShapeAt(base[..|base| - 1], k);
    }
  }

  // The shape has the live names, each with the live type up to SameType, and for every
  // column that kept its name and whose NULL rule is compared, the live NULL rule.
  ghost predicate Reaches(s: Shape, base: seq<Base>, live: seq<LiveColumn>, source: SourceType) {
    && s.columns.Keys == LiveNames(live)
    && (forall c | c in live :: SameType(s.columns[c.name].typ, c.typ, source))
    && (forall b, c | b in base && c in live && b.name == c.name && b.nullable.Some? && !b.generated && !c.generated
          :: s.columns[c.name].rule == Some(c.nullable))
  }

  function MissingNames(base: seq<Base>, k: nat, liveNames: set<string>): set<string>
    requires k <= |base|
  {
    if k == 0 then {} else
      MissingNames(base, k - 1, liveNames) + if base[k - 1].name in liveNames then {} else {base[k - 1].name}
  }

  lemma {:induction false} MissingNamesAre(base: seq<Base>, k: nat, liveNames: set<string>)
    requires k <= |base|
    ensures forall n :: n in MissingNames(base, k, liveNames) <==> (n !in liveNames && exists i | 0 <= i < k :: base[i].name == n)
  {
    if k > 0 { MissingNamesAre(base, k - 1, liveNames); }
  }

  lemma {:induction false} TargetsAreNew(base: seq<Base>, k: nat, live: seq<LiveColumn>, source: SourceType)
    requires k <= |base|
    ensures RenameTargets(base, k, live, source) <= LiveNames(live) - BaseNames(base)
  {
    if k > 0 { TargetsAreNew(base, k - 1, live, source); }
  }

  // After the removals: missing names are gone, rename targets are present with the type of
  // the live column, the other baseline columns are untouched.
  ghost predicate AfterRemovals(m: map<string, ColumnState>, base: seq<Base>, k: nat, live: seq<LiveColumn>, source: SourceType)
    requires k <= |base|
  {
    && m.Keys == (BaseNames(base) - MissingNames(base, k, LiveNames(live))) + RenameTargets(base, k, live, source)
    && (forall n | n in BaseNames(base) && n in m :: m[n] == BaseShape(base)[n])
    && (forall c | c in live && c.name in RenameTargets(base, k, live, source) :: SameType(m[c.name].typ, c.typ, source))
  }

  function RemovalChange(b: Base, live: seq<LiveColumn>, baseNames: set<string>, source: SourceType): Change {
    match RenamedTo(b, live, baseNames, source)
    case Some(c) => Renamed(b.name, b.typ, c.name)
    case None => Dropped(b.name, b.typ)
  }

  lemma {:induction false} RemovedStep(base: seq<Base>, k: nat, live: seq<LiveColumn>, source: SourceType)
    requires ValidBase(base) && DistinctLive(live) && 0 < k <= |base|
    ensures var added := AddedColumns(live, BaseNames(base));
            Removed(base[..k], LiveNames(live), added, source).changes
            == Removed(base[..k - 1], LiveNames(live), added, source).changes
               + if base[k - 1].name in LiveNames(live) then [] else [RemovalChange(base[k - 1], live, BaseNames(base), source)]
  {
    hide SameType, RenamedTo, AddedColumns, FirstPair, RenameTargets, BaseNames, LiveNames, ValidBase, DistinctLive;
    PairingIsByPosition(base, k - 1, live, source);
    assert base[..k][..k - 1] == base[..k - 1];
  }

  lemma {:induction false} ReplayRemovals(base: seq<Base>, k: nat, live: seq<LiveColumn>, source: SourceType, key: set<string>)
    requires ValidBase(base) && DistinctLive(live) && k <= |base|
    ensures var r := Replay(Removed(base[..k], LiveNames(live), AddedColumns(live, BaseNames(base)), source).changes, Shape(BaseShape(base), key));
            r.key == key && AfterRemovals(r.columns, base, k, live, source)
  {
    hide *;
    if k == 0 {
      NothingRemoved(base, live, source, key);
    } else {
      ReplayRemovals(base, k - 1, live, source, key);
      RemovedStep(base, k, live, source);
      var shape := Shape(BaseShape(base), key);
      var before := Removed(base[..k - 1], LiveNames(live), AddedColumns(live, BaseNames(base)), source).changes;
      if base[k - 1].name in LiveNames(live) {
        assert before + [] == before;
        KeptStays(base, k, live, source, Replay(before, shape).columns);
      } else {
        var ch := RemovalChange(base[k - 1], live, BaseNames(base), source);
        RemovalStep(base, k, live, source, Replay(before, shape));
        ReplayAppend(before, ch, shape);
      }
    }
  }

  lemma KeptStays(base: seq<Base>, k: nat, live: seq<LiveColumn>, source: SourceType, m: map<string, ColumnState>)
    requires 0 < k <= |base| && base[k - 1].name in LiveNames(live)
    requires AfterRemovals(m, base, k - 1, live, source)
    ensures AfterRemovals(m, base, k, live, source)
  {
    hide SameType, BaseShape, BaseNames, LiveNames;
  }

  lemma {:induction false} NothingRemoved(base: seq<Base>, live: seq<LiveColumn>, source: SourceType, key: set<string>)
    ensures Replay(Removed(base[..0], LiveNames(live), AddedColumns(live, BaseNames(base)), source).changes, Shape(BaseShape(base), key))
         == Shape(BaseShape(base), key)
    ensures AfterRemovals(BaseShape(base), base, 0, live, source)
  {
    hide SameType, AddedColumns;
  }

  lemma RemovalStep(base: seq<Base>, k: nat, live: seq<LiveColumn>, source: SourceType, s: Shape)
    requires ValidBase(base) && DistinctLive(live) && 0 < k <= |base|
    requires base[k - 1].name !in LiveNames(live)
    requires AfterRemovals(s.columns, base, k - 1, live, source)
    ensures var r := Apply(RemovalChange(base[k - 1], live, BaseNames(base), source), s);
            r.key == s.key && AfterRemovals(r.columns, base, k, live, source)
  {
    hide SameType, BaseShape, RenamedTo, AfterRemovals;
    var b := base[k - 1];
    BaseShapeAt(base, k - 1);
    StillPresent(base, k, live, source);
    BasePresent(base, k, live, source, s.columns);
    match RenamedTo(b, live, BaseNames(base), source)
    case None => DropStep(base, k, live, source, s.columns);
    case Some(c) =>
      RenamedToIs(b, live, BaseNames(base), source);
      RenameStep(base, k, live, source, s.columns, c);
  }

  lemma RenamedToIs(b: Base, live: seq<LiveColumn>, baseNames: set<string>, source: SourceType)
    ensures match RenamedTo(b, live, baseNames, source)
            case None => true
            case Some(c) => c in live && c.name in LiveNames(live) && c.name !in baseNames && SameType(b.typ, c.typ, source)
  {
    hide SameType;
  }

  lemma BasePresent(base: seq<Base>, k: nat, live: seq<LiveColumn>, source: SourceType, m: map<string, ColumnState>)
    requires 0 < k <= |base| && AfterRemovals(m, base, k - 1, live, source)
    requires base[k - 1].name in BaseNames(base) - MissingNames(base, k - 1, LiveNames(live))
    ensures base[k - 1].name in m && m[base[k - 1].name] == BaseShape(base)[base[k - 1].name]
  {
    hide SameType, BaseShape, MissingNames;
  }

  lemma DropStep(base: seq<Base>, k: nat, live: seq<LiveColumn>, source: SourceType, m: map<string, ColumnState>)
    requires ValidBase(base) && DistinctLive(live) && 0 < k <= |base|
    requires base[k - 1].name !in LiveNames(live) && RenamedTo(base[k - 1], live, BaseNames(base), source).None?
    requires AfterRemovals(m, base, k - 1, live, source)
    ensures AfterRemovals(m - {base[k - 1].name}, base, k, live, source)
  {
    hide SameType, BaseShape, RenamedTo;
    StillPresent(base, k, live, source);
    assert RenameTargets(base, k, live, source) == RenameTargets(base, k - 1, live, source);
    assert MissingNames(base, k, LiveNames(live)) == MissingNames(base, k - 1, LiveNames(live)) + {base[k - 1].name};
  }

  // A missing column not yet handled is still present, and is no rename target.
  lemma StillPresent(base: seq<Base>, k: nat, live: seq<LiveColumn>, source: SourceType)
    requires ValidBase(base) && DistinctLive(live) && 0 < k <= |base|
    ensures base[k - 1].name in BaseNames(base) - MissingNames(base, k - 1, LiveNames(live))
    ensures base[k - 1].name !in RenameTargets(base, k - 1, live, source)
  {
    MissingNamesAre(base, k - 1, LiveNames(live));
    TargetsAreNew(base, k - 1, live, source);
    assert base[k - 1] in base;
  }

  lemma RenameStep(base: seq<Base>, k: nat, live: seq<LiveColumn>, source: SourceType, m: map<string, ColumnState>, c: LiveColumn)
    requires ValidBase(base) && DistinctLive(live) && 0 < k <= |base|
    requires base[k - 1].name !in LiveNames(live) && base[k - 1].name in m
    requires AfterRemovals(m, base, k - 1, live, source)
    requires c in live && c.name in LiveNames(live) && c.name !in BaseNames(base)
    requires RenamedTo(base[k - 1], live, BaseNames(base), source) == Some(c)
    requires SameType(m[base[k - 1].name].typ, c.typ, source)
    ensures AfterRemovals((m - {base[k - 1].name})[c.name := m[base[k - 1].name]], base, k, live, source)
  {
    hide SameType, BaseShape, RenamedTo;
    var b := base[k - 1];
    StillPresent(base, k, live, source);
    forall d | d in live && d.name == c.name ensures d == c { SameLive(live, c, d); }
    assert RenameTargets(base, k, live, source) == RenameTargets(base, k - 1, live, source) + {c.name};
    assert MissingNames(base, k, LiveNames(live)) == MissingNames(base, k - 1, LiveNames(live)) + {b.name};
  }

  function RankedNames(added: seq<Ranked>): set<string> {
    set a | a in added :: a.column.name
  }

  // After the additions: the new names not paired are present with the live type.
  ghost predicate AfterAdditions(m: map<string, ColumnState>, before: map<string, ColumnState>, added: seq<Ranked>, paired: set<string>) {
    && m.Keys == before.Keys + (RankedNames(added) - paired)
    && (forall n | n in before && n !in RankedNames(added) - paired :: m[n] == before[n])
    && (forall a | a in added && a.column.name !in paired :: m[a.column.name].typ == a.column.typ)
  }

  lemma {:induction false} ReplayAdditions(added: seq<Ranked>, paired: set<string>, live: seq<LiveColumn>, s: Shape)
    requires DistinctLive(live)
    requires forall a | a in added :: a.column in live
    ensures var r := Replay(Additions(added, paired), s);
            r.key == s.key && AfterAdditions(r.columns, s.columns, added, paired)
  {
    if added != [] {
      var init, a := added[..|added| - 1], added[|added| - 1];
      assert added == init + [a];
      ReplayAdditions(init, paired, live, s);
      forall x | x in added && x.column.name == a.column.name ensures x.column == a.column {
        SameLive(live, x.column, a.column);
      }
      if a.column.name in paired {
        assert Additions(added, paired) == Additions(init, paired);
      } else {
        ReplayAppend(Additions(init, paired), Added(a.column.name, a.column.typ, a.column.generated), s);
      }
      var m1 := Replay(Additions(init, paired), s).columns;
      var m2 := Replay(Additions(added, paired), s).columns;
      assert m2 == if a.column.name in paired then m1 else m1[a.column.name := ColumnState(a.column.typ, None)];
      hide Replay, Additions, AfterAdditions;
      AfterAdditionsStep(init, a, paired, s.columns, m1);
    }
  }

  lemma AfterAdditionsStep(init: seq<Ranked>, a: Ranked, paired: set<string>, before: map<string, ColumnState>, m: map<string, ColumnState>)
    requires AfterAdditions(m, before, init, paired)
    requires forall x | x in init + [a] && x.column.name == a.column.name :: x.column == a.column
    ensures AfterAdditions(if a.column.name in paired then m else m[a.column.name := ColumnState(a.column.typ, None)], before, init + [a], paired)
  {
    assert RankedNames(init + [a]) == RankedNames(init) + {a.column.name};
    hide RankedNames;
  }

  predicate KeptReaches(state: ColumnState, b: Base, c: LiveColumn, source: SourceType) {
    && SameType(state.typ, c.typ, source)
    && (b.nullable.Some? && !b.generated && !c.generated ==> state.rule == Some(c.nullable))
  }

  // After the comparison of kept columns: the live type and the live NULL rule.
  ghost predicate AfterKept(m: map<string, ColumnState>, before: map<string, ColumnState>, base: seq<Base>, k: nat, liveBy: map<string, LiveColumn>, source: SourceType)
    requires k <= |base|
  {
    && m.Keys == before.Keys
    && (forall n | n in before && n !in BaseNames(base[..k]) :: m[n] == before[n])
    && (forall i | 0 <= i < k && base[i].name in liveBy :: base[i].name in m && KeptReaches(m[base[i].name], base[i], liveBy[base[i].name], source))
  }

  // One more baseline column compared: only its own entry changes, and reaches the live one.
  lemma AfterKeptStep(base: seq<Base>, k: nat, liveBy: map<string, LiveColumn>, source: SourceType,
                      before: map<string, ColumnState>, m1: map<string, ColumnState>, m2: map<string, ColumnState>)
    requires ValidBase(base) && 0 < k <= |base|
    requires AfterKept(m1, before, base, k - 1, liveBy, source)
    requires m2.Keys == m1.Keys && forall n | n in m1 && n != base[k - 1].name :: m2[n] == m1[n]
    requires base[k - 1].name !in liveBy ==> m2 == m1
    requires base[k - 1].name in liveBy ==>
               base[k - 1].name in m2 && KeptReaches(m2[base[k - 1].name], base[k - 1], liveBy[base[k - 1].name], source)
    ensures AfterKept(m2, before, base, k, liveBy, source)
  {
    hide KeptReaches;
    assert base[..k] == base[..k - 1] + [base[k - 1]];
    BaseNamesConcat(base[..k - 1], [base[k - 1]]);
    assert base[k - 1] in base[..k];
    hide BaseNames;
    forall i | 0 <= i < k && base[i].name in liveBy
      ensures base[i].name in m2 && KeptReaches(m2[base[i].name], base[i], liveBy[base[i].name], source)
    {
      if i < k - 1 { assert base[i].name != base[k - 1].name; }
    }
  }

  lemma {:induction false} ReplayKept(base: seq<Base>, k: nat, liveBy: map<string, LiveColumn>, source: SourceType, s: Shape)
    requires ValidBase(base) && k <= |base|
    requires forall n | n in liveBy :: liveBy[n].name == n
    requires forall i | 0 <= i < |base| && base[i].name in liveBy ::
               base[i].name in s.columns && s.columns[base[i].name] == ColumnState(base[i].typ, base[i].nullable)
    ensures var r := Replay(KeptChanges(base[..k], liveBy, source), s);
            r.key == s.key && AfterKept(r.columns, s.columns, base, k, liveBy, source)
  {
    if k == 0 {
      ReplayNothing(s);
    } else {
      var b, before := base[k - 1], KeptChanges(base[..k - 1], liveBy, source);
      assert base[..k][..k - 1] == base[..k - 1];
      assert KeptChanges(base[..k], liveBy, source) == before + if b.name in liveBy then KeptChange(b, liveBy[b.name], source) else [];
      ReplayKept(base, k - 1, liveBy, source, s);
      NotBefore(base, k - 1);
      hide SameType, KeptReaches, KeptChange, Replay, KeptChanges, BaseNames;
      if b.name in liveBy {
        ReplayConcat(before, KeptChange(b, liveBy[b.name], source), s);
        KeptStep(b, liveBy[b.name], source, Replay(before, s));
      } else {
        assert before + [] == before;
      }
      hide AfterKept;
      AfterKeptStep(base, k, liveBy, source, s.columns, Replay(before, s).columns, Replay(KeptChanges(base[..k], liveBy, source), s).columns);
    }
  }

  lemma NotBefore(base: seq<Base>, k: nat)
    requires ValidBase(base) && k < |base|
    ensures base[k].name !in BaseNames(base[..k])
  {
  }

  lemma TypeIsItself(typ: string, source: SourceType)
    ensures SameType(typ, typ, source)
  {
  }

  lemma {:induction false} KeptStep(b: Base, c: LiveColumn, source: SourceType, s: Shape)
    requires b.added ==> b.nullable.None?
    requires b.name == c.name && b.name in s.columns && s.columns[b.name] == ColumnState(b.typ, b.nullable)
    ensures var r := Replay(KeptChange(b, c, source), s);
            && r.key == s.key && r.columns.Keys == s.columns.Keys
            && (forall n | n in s.columns && n != b.name :: r.columns[n] == s.columns[n])
            && KeptReaches(r.columns[b.name], b, c, source)
  {
    hide SameType;
    TypeIsItself(c.typ, source);
    var changes := KeptChange(b, c, source);
    if |changes| == 1 {
      assert changes == [] + [changes[0]];
      ReplayAppend([], changes[0], s);
    } else if |changes| == 2 {
      assert changes == [changes[0]] + [changes[1]];
      ReplayAppend([], changes[0], s);
      assert [changes[0]] == [] + [changes[0]];
      ReplayAppend([changes[0]], changes[1], s);
    }
  }

  // Replaying all of the found changes: the live names, their types and compared NULL rules.
  lemma {:induction false} FoundReaches(base: seq<Base>, live: seq<LiveColumn>, source: SourceType,
                                        m1: map<string, ColumnState>, m2: map<string, ColumnState>,
                                        m3: map<string, ColumnState>)
    requires ValidBase(base) && DistinctLive(live)
    requires AfterRemovals(m1, base, |base|, live, source)
    requires AfterAdditions(m2, m1, AddedColumns(live, BaseNames(base)), RenameTargets(base, |base|, live, source))
    requires AfterKept(m3, m2, base, |base|, LiveBy(live), source)
    ensures m3.Keys == LiveNames(live)
    ensures Reaches(Shape(m3, {}), base, live, source)
  {
    NamesReached(base, live, source, m1, m2, m3);
    hide *;
    forall c | c in live ensures SameType(m3[c.name].typ, c.typ, source) {
      NameReaches(base, live, source, m1, m2, m3, c);
    }
    forall b, c | b in base && c in live && b.name == c.name && b.nullable.Some? && !b.generated && !c.generated
      ensures m3[c.name].rule == Some(c.nullable)
    {
      KeptNameReaches(base, live, source, m2, m3, b, c);
    }
    MakeReaches(base, live, source, m3);
  }

  lemma MakeReaches(base: seq<Base>, live: seq<LiveColumn>, source: SourceType, m: map<string, ColumnState>)
    requires m.Keys == LiveNames(live)
    requires forall c | c in live :: c.name in m && SameType(m[c.name].typ, c.typ, source)
    requires forall b, c | b in base && c in live && b.name == c.name && b.nullable.Some? && !b.generated && !c.generated
               :: m[c.name].rule == Some(c.nullable)
    ensures Reaches(Shape(m, {}), base, live, source)
  {
    hide SameType;
  }

  lemma {:induction false} NamesReached(base: seq<Base>, live: seq<LiveColumn>, source: SourceType,
                                        m1: map<string, ColumnState>, m2: map<string, ColumnState>,
                                        m3: map<string, ColumnState>)
    requires AfterRemovals(m1, base, |base|, live, source)
    requires AfterAdditions(m2, m1, AddedColumns(live, BaseNames(base)), RenameTargets(base, |base|, live, source))
    requires AfterKept(m3, m2, base, |base|, LiveBy(live), source)
    ensures m3.Keys == LiveNames(live)
    ensures forall c | c in live :: c.name in m3
  {
    NewNames(base, live);
    MissingAre(base, LiveNames(live));
    TargetsAreNew(base, |base|, live, source);
    assert m3.Keys == m2.Keys == m1.Keys + (RankedNames(AddedColumns(live, BaseNames(base))) - RenameTargets(base, |base|, live, source));
    assert m1.Keys == (BaseNames(base) - MissingNames(base, |base|, LiveNames(live))) + RenameTargets(base, |base|, live, source);
    hide *;
    KeptRenamedAndNew(BaseNames(base), LiveNames(live), RenameTargets(base, |base|, live, source));
    forall c | c in live ensures c.name in m3 { LiveNamed(live, c); }
  }

  lemma LiveNamed(live: seq<LiveColumn>, c: LiveColumn)
    requires c in live
    ensures c.name in LiveNames(live)
  {
  }

  lemma {:induction false} MissingAre(base: seq<Base>, liveNames: set<string>)
    ensures MissingNames(base, |base|, liveNames) == BaseNames(base) - liveNames
  {
    MissingNamesAre(base, |base|, liveNames);
  }

  lemma KeptRenamedAndNew(base: set<string>, live: set<string>, targets: set<string>)
    requires targets <= live - base
    ensures (base - (base - live) + targets) + (live - base - targets) == live
  {
  }

  // A new name is present after the comparisons as it was after the additions, or, when it is
  // a rename target, as it was after the removals.
  lemma {:induction false} NewNameUntouched(base: seq<Base>, live: seq<LiveColumn>, source: SourceType,
                                            m1: map<string, ColumnState>, m2: map<string, ColumnState>,
                                            m3: map<string, ColumnState>, n: string)
    requires AfterRemovals(m1, base, |base|, live, source)
    requires AfterAdditions(m2, m1, AddedColumns(live, BaseNames(base)), RenameTargets(base, |base|, live, source))
    requires AfterKept(m3, m2, base, |base|, LiveBy(live), source)
    requires n in m3 && n !in BaseNames(base)
    ensures n in m2 && m3[n] == m2[n]
    ensures n in RenameTargets(base, |base|, live, source) ==> n in m1 && m3[n] == m1[n]
  {
    assert base[..|base|] == base;
    hide KeptReaches, SameType, LiveBy, RenameTargets, AddedColumns, MissingNames, BaseNames, RankedNames, BaseShape;
  }

  lemma {:induction false} KeptNameReaches(base: seq<Base>, live: seq<LiveColumn>, source: SourceType,
                                           m2: map<string, ColumnState>, m3: map<string, ColumnState>, b: Base,
                                           c: LiveColumn)
    requires DistinctLive(live) && c in live && b in base && b.name == c.name
    requires AfterKept(m3, m2, base, |base|, LiveBy(live), source)
    ensures c.name in m3 && KeptReaches(m3[c.name], b, c, source)
  {
    hide KeptReaches, LiveBy;
    var i :| 0 <= i < |base| && base[i] == b;
    assert c.name in LiveNames(live);
    SameLive(live, c, LiveBy(live)[c.name]);
    assert KeptReaches(m3[base[i].name], base[i], LiveBy(live)[base[i].name], source);
  }

  lemma {:induction false} NameReaches(base: seq<Base>, live: seq<LiveColumn>, source: SourceType,
                                       m1: map<string, ColumnState>, m2: map<string, ColumnState>,
                                       m3: map<string, ColumnState>, c: LiveColumn)
    requires ValidBase(base) && DistinctLive(live) && c in live
    requires AfterRemovals(m1, base, |base|, live, source)
    requires AfterAdditions(m2, m1, AddedColumns(live, BaseNames(base)), RenameTargets(base, |base|, live, source))
    requires AfterKept(m3, m2, base, |base|, LiveBy(live), source)
    requires c.name in m3
    ensures SameType(m3[c.name].typ, c.typ, source)
  {
    hide *;
    if c.name in BaseNames(base) {
      var b := BaseNamed(base, c.name);
      KeptNameReaches(base, live, source, m2, m3, b, c);
      KeptReachesType(m3[c.name], b, c, source);
    } else {
      NewNameUntouched(base, live, source, m1, m2, m3, c.name);
      NewNameReaches(base, live, source, m1, m2, c);
    }
  }

  lemma BaseNamed(base: seq<Base>, n: string) returns (b: Base)
    requires n in BaseNames(base)
    ensures b in base && b.name == n
  {
    b :| b in base && b.name == n;
  }

  lemma {:induction false} NewNameReaches(base: seq<Base>, live: seq<LiveColumn>, source: SourceType,
                                          m1: map<string, ColumnState>, m2: map<string, ColumnState>, c: LiveColumn)
    requires DistinctLive(live) && c in live && c.name !in BaseNames(base)
    requires AfterRemovals(m1, base, |base|, live, source)
    requires AfterAdditions(m2, m1, AddedColumns(live, BaseNames(base)), RenameTargets(base, |base|, live, source))
    requires c.name in m2 && (c.name in RenameTargets(base, |base|, live, source) ==> c.name in m1 && m2[c.name] == m1[c.name])
    ensures SameType(m2[c.name].typ, c.typ, source)
  {
    hide SameType, RenameTargets, AddedColumns, BaseShape, MissingNames, BaseNames;
    if c.name !in RenameTargets(base, |base|, live, source) {
      assert c.name in LiveNames(live);
      NewNames(base, live);
      var a :| a in AddedColumns(live, BaseNames(base)) && a.column.name == c.name;
      SameLive(live, a.column, c);
      TypeIsItself(c.typ, source);
    }
  }

  lemma KeptReachesType(state: ColumnState, b: Base, c: LiveColumn, source: SourceType)
    requires KeptReaches(state, b, c, source)
    ensures SameType(state.typ, c.typ, source)
  {
  }

  lemma {:induction false} NewNames(base: seq<Base>, live: seq<LiveColumn>)
    ensures RankedNames(AddedColumns(live, BaseNames(base))) == LiveNames(live) - BaseNames(base)
  {
    var added := AddedColumns(live, BaseNames(base));
    forall n | n in LiveNames(live) - BaseNames(base) ensures n in RankedNames(added) {
      var k :| 0 <= k < |live| && live[k].name == n;
      assert Ranked(k, live[k]) in added;
    }
  }

  lemma {:induction false} KeptStart(base: seq<Base>, live: seq<LiveColumn>, source: SourceType, m1: map<string, ColumnState>, m2: map<string, ColumnState>)
    requires ValidBase(base) && DistinctLive(live)
    requires AfterRemovals(m1, base, |base|, live, source)
    requires AfterAdditions(m2, m1, AddedColumns(live, BaseNames(base)), RenameTargets(base, |base|, live, source))
    ensures forall i | 0 <= i < |base| && base[i].name in LiveBy(live) ::
              base[i].name in m2 && m2[base[i].name] == ColumnState(base[i].typ, base[i].nullable)
  {
    NewNames(base, live);
    MissingNamesAre(base, |base|, LiveNames(live));
    forall i | 0 <= i < |base| && base[i].name in LiveBy(live)
      ensures base[i].name in m2 && m2[base[i].name] == ColumnState(base[i].typ, base[i].nullable)
    {
      BaseShapeAt(base, i);
    }
  }

  lemma {:induction false} ReplayFound(base: seq<Base>, live: seq<LiveColumn>, source: SourceType, key: set<string>)
    requires ValidBase(base) && DistinctLive(live)
    ensures var r := Replay(FoundChanges(base, live, [], source), Shape(BaseShape(base), key));
            r.key == key && Reaches(r, base, live, source)
  {
    hide Removed, AddedColumns, Additions, KeptChanges, LiveBy, Replay, AfterRemovals, AfterAdditions, AfterKept, RenameTargets, BaseShape;
    var added := AddedColumns(live, BaseNames(base));
    var removed := Removed(base, LiveNames(live), added, source);
    var additions, kept := Additions(added, removed.paired), KeptChanges(base, LiveBy(live), source);
    var s0 := Shape(BaseShape(base), key);
    assert base[..|base|] == base;
    ReplayRemovals(base, |base|, live, source, key);
    PairingIsByPosition(base, |base|, live, source);
    var s1 := Replay(removed.changes, s0);
    ReplayAdditions(added, removed.paired, live, s1);
    var s2 := Replay(additions, s1);
    KeptStart(base, live, source, s1.columns, s2.columns);
    ReplayKept(base, |base|, LiveBy(live), source, s2);
    var s3 := Replay(kept, s2);
    FoundReaches(base, live, source, s1.columns, s2.columns, s3.columns);
    ReplayConcat(removed.changes, additions, s0);
    ReplayConcat(removed.changes + additions, kept, s0);
    assert FoundChanges(base, live, [], source) == removed.changes + additions + kept;
  }

  // The edit script: the changes of a diff, in the reported order or any other, turn the
  // baseline into the live table.
  lemma ChangesAreAnEditScript(
    def: TableDef, live: LiveTable, skip: set<string>, targetAdded: map<string, string>, source: SourceType, script: seq<Change>)
    requires ValidDef(def) && ValidLive(live)
    requires multiset(script) == multiset(AllChanges(def, live, skip, targetAdded, source))
    ensures var base := Baseline(def, skip, targetAdded);
            var r := Replay(script, Shape(BaseShape(base), set n | n in def.primaryKey));
            r.key == live.primaryKey && Reaches(r, base, Captured(live, skip), source)
  {
    hide Baseline, Captured, Reaches, ValidBase, BaseShape, OrderedKey, Removed, Additions, KeptChanges, AddedColumns, Replay, Compatible;
    var base, columns, key := Baseline(def, skip, targetAdded), Captured(live, skip), KeyChanges(def, live);
    BaselineValid(def, skip, targetAdded);
    CapturedDistinct(live, skip);
    OrderedKeyMembers(live);
    var baseKey := set n | n in def.primaryKey;
    var s0 := Shape(BaseShape(base), baseKey);
    var found, rest := FoundChanges(base, columns, key, source), FoundChanges(base, columns, [], source);
    SortPermutes(ChangeLe, found);
    FoundCompatible(base, columns, key, source);
    ReplayPermuted(found, script, s0);
    ReplayFound(base, columns, source, baseKey);
    assert found == rest + key;
    hide FoundChanges;
    KeyReplayed(rest, key, s0, live.primaryKey);
    KeyIrrelevant(Replay(rest, s0), Replay(found, s0), base, columns, source);
  }

  lemma {:induction false} KeyReplayed(rest: seq<Change>, key: seq<Change>, s: Shape, liveKey: set<string>)
    requires Replay(rest, s).key == s.key
    requires if s.key == liveKey then key == [] else |key| == 1 && key[0].KeyChanged? && (set n | n in key[0].after) == liveKey
    ensures Replay(rest + key, s) == Replay(rest, s).(key := liveKey)
  {
    if key == [] {
      assert rest + key == rest;
    } else {
      assert key == [key[0]];
      ReplayAppend(rest, key[0], s);
    }
  }

  lemma KeyIrrelevant(s: Shape, t: Shape, base: seq<Base>, live: seq<LiveColumn>, source: SourceType)
    requires s.columns == t.columns && Reaches(s, base, live, source)
    ensures Reaches(t, base, live, source)
  {
  }

  lemma OrderedKeyMembers(live: LiveTable)
    ensures (set n | n in OrderedKey(live)) == live.primaryKey
  {
    var le := (a: string, b: string) => KeyRank(live.columns, a) <= KeyRank(live.columns, b);
    SortMembers(le, SortedSet(live.primaryKey));
    assert OrderedKey(live) == Sort(le, SortedSet(live.primaryKey));
  }
}
