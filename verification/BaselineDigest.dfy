/**
 The baseline digest (src/dsql_migrator/core/cdc_catalog_drift.py, baseline_digest) against
 the drift comparison: two baselines have the same digest exactly when no live table tells
 them apart. A digest is modelled by the payload it hashes.
 */
module BaselineDigest {
  import opened Wrappers
  import opened Sorting
  import opened CatalogTypes
  import opened CatalogDrift
  import opened DriftScript

  // ---- when there is no difference ----

  // What the comparison holds a live column against.
  datatype Spec = Spec(norm: string, rule: Option<bool>, added: bool)

  function SpecOf(b: Base, source: SourceType): Spec {
    Spec(NormalizedType(b.typ, source), if b.generated then None else b.nullable, b.added)
  }

  predicate Accepts(s: Spec, c: LiveColumn, source: SourceType) {
    && !(s.added && c.generated)
    && s.norm == NormalizedType(c.typ, source)
    && (s.rule.None? || c.generated || s.rule.value == c.nullable)
  }

  function Specs(base: seq<Base>, source: SourceType): (m: map<string, Spec>)
    ensures m.Keys == BaseNames(base)
  {
    if base == [] then map[] else
      var init, b := base[..|base| - 1], base[|base| - 1];
      assert base == init + [b];
      BaseNamesConcat(init, [b]);
      Specs(init, source)[b.name := SpecOf(b, source)]
  }

  lemma {:induction false} SpecsAt(base: seq<Base>, source: SourceType, k: nat)
    requires k < |base| && forall i, j | 0 <= i < j < |base| :: base[i].name != base[j].name
    ensures base[k].name in Specs(base, source) && Specs(base, source)[base[k].name] == SpecOf(base[k], source)
  {
    hide NormalizedType;
    assert base[k] in base;
    if k < |base| - 1 { SpecsAt(base[..|base| - 1], source, k); }
  }

  lemma KeptEmpty(b: Base, c: LiveColumn, source: SourceType)
    ensures KeptChange(b, c, source) == [] <==> Accepts(SpecOf(b, source), c, source)
  {
    SameTypeIsKernel(source);
    hide SameType, NormalizedType;
  }

  lemma {:induction false} RemovedEmpty(base: seq<Base>, liveNames: set<string>, added: seq<Ranked>, source: SourceType)
    ensures Removed(base, liveNames, added, source).changes == [] <==> BaseNames(base) <= liveNames
    ensures Removed(base, liveNames, added, source).changes == [] ==> Removed(base, liveNames, added, source).paired == {}
  {
    hide FirstPair;
    if base != [] {
      var init, b := base[..|base| - 1], base[|base| - 1];
      assert base == init + [b];
      BaseNamesConcat(init, [b]);
      RemovedEmpty(init, liveNames, added, source);
      assert BaseNames([b]) == {b.name};
    }
  }

  lemma {:induction false} AdditionsEmpty(added: seq<Ranked>)
    ensures Additions(added, {}) == [] <==> added == []
  {
  }

  lemma {:induction false} AddedEmpty(live: seq<LiveColumn>, baseNames: set<string>)
    ensures AddedColumns(live, baseNames) == [] <==> LiveNames(live) <= baseNames
  {
    var added := AddedColumns(live, baseNames);
    if added != [] {
      assert added[0] in added && added[0].column in live;
      assert added[0].column.name in LiveNames(live);
    }
    if n :| n in LiveNames(live) && n !in baseNames {
      var k :| 0 <= k < |live| && live[k].name == n;
      assert Ranked(k, live[k]) in added;
    }
  }

  lemma {:induction false} KeptAllEmpty(base: seq<Base>, liveBy: map<string, LiveColumn>, source: SourceType)
    ensures KeptChanges(base, liveBy, source) == [] <==>
            forall i | 0 <= i < |base| && base[i].name in liveBy :: KeptChange(base[i], liveBy[base[i].name], source) == []
  {
    hide KeptChange;
    if base != [] {
      var init := base[..|base| - 1];
      KeptAllEmpty(init, liveBy, source);
      assert forall i | 0 <= i < |init| :: init[i] == base[i];
    }
  }

  predicate Matches(specs: map<string, Spec>, live: map<string, LiveColumn>, source: SourceType) {
    specs.Keys == live.Keys && forall n | n in specs :: Accepts(specs[n], live[n], source)
  }

  // No drift is found exactly when names, normalized types, compared NULL rules and key
  // sets agree.
  lemma {:induction false} NoDriftIff(def: TableDef, live: LiveTable, skip: set<string>, targetAdded: map<string, string>, source: SourceType)
    requires ValidDef(def)
    ensures Diff(def, Some(live), skip, targetAdded, source).None? <==>
            && Matches(Specs(Baseline(def, skip, targetAdded), source), LiveBy(Captured(live, skip)), source)
            && (set n | n in def.primaryKey) == live.primaryKey
  {
    BaselineValid(def, skip, targetAdded);
    var base, columns := Baseline(def, skip, targetAdded), Captured(live, skip);
    hide *;
    var key := KeyChanges(def, live);
    SortPermutes(ChangeLe, FoundChanges(base, columns, key, source));
    DiffEmpty(def, live, skip, targetAdded, source);
    FoundEmpty(base, columns, key, source);
    AllAccepted(base, LiveBy(columns), source);
  }

  lemma DiffEmpty(def: TableDef, live: LiveTable, skip: set<string>, targetAdded: map<string, string>, source: SourceType)
    ensures Diff(def, Some(live), skip, targetAdded, source).None? <==>
            FoundChanges(Baseline(def, skip, targetAdded), Captured(live, skip), KeyChanges(def, live), source) == []
    ensures KeyChanges(def, live) == [] <==> (set n | n in def.primaryKey) == live.primaryKey
  {
    hide Baseline, Captured, FoundChanges, Sort;
    SortPermutes(ChangeLe, FoundChanges(Baseline(def, skip, targetAdded), Captured(live, skip), KeyChanges(def, live), source));
  }

  lemma {:induction false} FoundEmpty(base: seq<Base>, live: seq<LiveColumn>, key: seq<Change>, source: SourceType)
    ensures FoundChanges(base, live, key, source) == [] <==>
            && BaseNames(base) == LiveNames(live) && key == []
            && forall i | 0 <= i < |base| && base[i].name in LiveBy(live) :: KeptChange(base[i], LiveBy(live)[base[i].name], source) == []
  {
    hide Removed, Additions, KeptChanges, KeptChange, AddedColumns, LiveBy;
    var added := AddedColumns(live, BaseNames(base));
    RemovedEmpty(base, LiveNames(live), added, source);
    AdditionsEmpty(added);
    AddedEmpty(live, BaseNames(base));
    KeptAllEmpty(base, LiveBy(live), source);
  }

  lemma {:induction false} AllAccepted(base: seq<Base>, liveBy: map<string, LiveColumn>, source: SourceType)
    requires ValidBase(base)
    ensures Matches(Specs(base, source), liveBy, source) <==>
            && BaseNames(base) == liveBy.Keys
            && forall i | 0 <= i < |base| && base[i].name in liveBy :: KeptChange(base[i], liveBy[base[i].name], source) == []
  {
    hide Specs, KeptChange, Accepts, SpecOf;
    forall i | 0 <= i < |base|
      ensures base[i].name in Specs(base, source) && Specs(base, source)[base[i].name] == SpecOf(base[i], source)
    {
      SpecsAt(base, source, i);
    }
    forall i | 0 <= i < |base| && base[i].name in liveBy
      ensures KeptChange(base[i], liveBy[base[i].name], source) == [] <==> Accepts(SpecOf(base[i], source), liveBy[base[i].name], source)
    {
      KeptEmpty(base[i], liveBy[base[i].name], source);
    }
  }

  // ---- telling two baselines apart ----

  ghost predicate SameVerdicts(d1: TableDef, d2: TableDef, skip: set<string>, targetAdded: map<string, string>, source: SourceType) {
    forall live: Option<LiveTable> ::
      Diff(d1, live, skip, targetAdded, source).None? <==> Diff(d2, live, skip, targetAdded, source).None?
  }

  // What a baseline is to the comparison.
  datatype Facts = Facts(specs: map<string, Spec>, key: set<string>)

  function FactsOf(def: TableDef, skip: set<string>, targetAdded: map<string, string>, source: SourceType): Facts {
    Facts(Specs(Baseline(def, skip, targetAdded), source), set n | n in def.primaryKey)
  }

  function WitnessColumn(b: Base, i: nat): LiveColumn {
    LiveColumn(b.name, b.typ, b.nullable == Some(true), false, i, "")
  }

  // The live table a baseline describes, its k-th column (if any) with another NULL rule or
  // generated flag.
  function WitnessColumns(base: seq<Base>, k: nat, nullable: bool, generated: bool): (r: seq<LiveColumn>)
    ensures |r| == |base|
  {
    seq(|base|, i requires 0 <= i < |base| =>
      if i == k then LiveColumn(base[i].name, base[i].typ, nullable, generated, i, "") else WitnessColumn(base[i], i))
  }

  lemma {:induction false} NothingSkipped(columns: seq<LiveColumn>, skip: set<string>)
    requires forall c | c in columns :: c.name !in skip
    ensures NotSkipped(columns, skip) == columns
  {
    if columns != [] {
      assert columns[|columns| - 1] in columns;
      assert forall c | c in columns[..|columns| - 1] :: c in columns;
      NothingSkipped(columns[..|columns| - 1], skip);
    }
  }

  lemma WitnessShape(base: seq<Base>, k: nat, nullable: bool, generated: bool)
    requires ValidBase(base)
    ensures var columns := WitnessColumns(base, k, nullable, generated);
            && (forall i | 0 <= i < |base| :: columns[i].name == base[i].name && columns[i] in columns)
            && Sorted(PositionLe, columns) && DistinctLive(columns) && LiveNames(columns) == BaseNames(base)
  {
    var columns := WitnessColumns(base, k, nullable, generated);
    assert forall i | 0 <= i < |base| :: columns[i].name == base[i].name && columns[i].position == i;
    hide WitnessColumns, ValidBase;
    forall n ensures n in LiveNames(columns) <==> n in BaseNames(base) {
      if n in BaseNames(base) {
        var i :| 0 <= i < |base| && base[i].name == n;
        assert columns[i] in columns;
      }
      if n in LiveNames(columns) {
        var i :| 0 <= i < |columns| && columns[i].name == n;
        assert base[i] in base;
      }
    }
  }

  lemma WitnessCaptured(base: seq<Base>, k: nat, nullable: bool, generated: bool, skip: set<string>, key: set<string>)
    requires ValidBase(base) && BaseNames(base) !! skip
    ensures var columns := WitnessColumns(base, k, nullable, generated);
            && Captured(LiveTable(columns, key), skip) == columns
            && LiveBy(columns).Keys == BaseNames(base)
            && forall i | 0 <= i < |base| :: base[i].name in LiveBy(columns) && LiveBy(columns)[base[i].name] == columns[i]
  {
    hide LiveBy, WitnessColumns, DistinctLive, ValidBase, Sorted, Sort, NotSkipped;
    var columns := WitnessColumns(base, k, nullable, generated);
    WitnessShape(base, k, nullable, generated);
    SortOfSorted(PositionLe, columns);
    NothingSkipped(columns, skip);
    forall i | 0 <= i < |base| ensures base[i].name in LiveBy(columns) && LiveBy(columns)[base[i].name] == columns[i] {
      assert base[i] in base && base[i].name in BaseNames(base);
      SameLive(columns, columns[i], LiveBy(columns)[base[i].name]);
    }
  }

  // The verdict of any baseline on a witness.
  lemma WitnessVerdict(def: TableDef, base: seq<Base>, k: nat, nullable: bool, generated: bool, key: set<string>,
                       skip: set<string>, targetAdded: map<string, string>, source: SourceType)
    requires ValidDef(def) && ValidBase(base) && BaseNames(base) !! skip
    ensures var columns := WitnessColumns(base, k, nullable, generated);
            var facts := FactsOf(def, skip, targetAdded, source);
            Diff(def, Some(LiveTable(columns, key)), skip, targetAdded, source).None? <==>
            && facts.specs.Keys == BaseNames(base) && facts.key == key
            && forall i | 0 <= i < |base| && base[i].name in facts.specs :: Accepts(facts.specs[base[i].name], columns[i], source)
  {
    hide Diff, Baseline, Captured, LiveBy, Accepts, WitnessColumns, Specs, ValidDef;
    var columns := WitnessColumns(base, k, nullable, generated);
    NoDriftIff(def, LiveTable(columns, key), skip, targetAdded, source);
    WitnessCaptured(base, k, nullable, generated, skip, key);
    var specs := Specs(Baseline(def, skip, targetAdded), source);
    if specs.Keys == BaseNames(base) && forall i | 0 <= i < |base| :: Accepts(specs[base[i].name], columns[i], source) {
      forall n | n in specs ensures Accepts(specs[n], LiveBy(columns)[n], source) {
        var i :| 0 <= i < |base| && base[i].name == n;
      }
    }
  }

  lemma SpecNormal(def: TableDef, skip: set<string>, targetAdded: map<string, string>, source: SourceType)
    requires ValidDef(def)
    ensures var base, facts := Baseline(def, skip, targetAdded), FactsOf(def, skip, targetAdded, source);
            && ValidBase(base) && BaseNames(base) !! skip && facts.specs.Keys == BaseNames(base)
            && forall i | 0 <= i < |base| :: base[i].name in facts.specs && facts.specs[base[i].name] == SpecOf(base[i], source)
  {
    hide SpecOf, Baseline, Specs;
    BaselineValid(def, skip, targetAdded);
    var base := Baseline(def, skip, targetAdded);
    forall i | 0 <= i < |base|
      ensures base[i].name in Specs(base, source) && Specs(base, source)[base[i].name] == SpecOf(base[i], source)
    {
      SpecsAt(base, source, i);
    }
  }

  // Specs with the same normalized type accept the same columns only if they are equal.
  lemma SpecsSeparated(b: Base, t: Spec, i: nat, source: SourceType)
    requires b.added ==> b.nullable.None?
    requires t.added ==> t.rule.None?
    requires t.norm == SpecOf(b, source).norm
    requires forall nullable, generated ::
               Accepts(SpecOf(b, source), LiveColumn(b.name, b.typ, nullable, generated, i, ""), source)
               <==> Accepts(t, LiveColumn(b.name, b.typ, nullable, generated, i, ""), source)
    ensures t == SpecOf(b, source)
  {
    hide NormalizedType;
    var s := SpecOf(b, source);
    assert Accepts(s, LiveColumn(b.name, b.typ, true, false, i, ""), source) <==> Accepts(t, LiveColumn(b.name, b.typ, true, false, i, ""), source);
    assert Accepts(s, LiveColumn(b.name, b.typ, false, false, i, ""), source) <==> Accepts(t, LiveColumn(b.name, b.typ, false, false, i, ""), source);
    assert Accepts(s, LiveColumn(b.name, b.typ, true, true, i, ""), source) <==> Accepts(t, LiveColumn(b.name, b.typ, true, true, i, ""), source);
  }

  lemma SameVerdictsSameFacts(d1: TableDef, d2: TableDef, skip: set<string>, targetAdded: map<string, string>, source: SourceType)
    requires ValidDef(d1) && ValidDef(d2) && SameVerdicts(d1, d2, skip, targetAdded, source)
    ensures FactsOf(d1, skip, targetAdded, source) == FactsOf(d2, skip, targetAdded, source)
  {
    hide *;
    SpecNormal(d1, skip, targetAdded, source);
    SpecNormal(d2, skip, targetAdded, source);
    var base, f1, f2 := Baseline(d1, skip, targetAdded), FactsOf(d1, skip, targetAdded, source), FactsOf(d2, skip, targetAdded, source);
    WitnessAccepted(base, source, |base|);
    WitnessVerdict(d1, base, |base|, false, false, f1.key, skip, targetAdded, source);
    WitnessVerdict(d2, base, |base|, false, false, f1.key, skip, targetAdded, source);
    VerdictsAgree(d1, d2, skip, targetAdded, source, WitnessColumns(base, |base|, false, false), f1.key);
    forall i | 0 <= i < |base| ensures f2.specs[base[i].name] == f1.specs[base[i].name] {
      SpecPinned(d1, d2, skip, targetAdded, source, i);
    }
    MapsEqual(base, f1.specs, f2.specs);
  }

  lemma VerdictsAgree(d1: TableDef, d2: TableDef, skip: set<string>, targetAdded: map<string, string>, source: SourceType,
                      columns: seq<LiveColumn>, key: set<string>)
    requires SameVerdicts(d1, d2, skip, targetAdded, source)
    ensures Diff(d1, Some(LiveTable(columns, key)), skip, targetAdded, source).None?
       <==> Diff(d2, Some(LiveTable(columns, key)), skip, targetAdded, source).None?
  {
    hide Diff;
  }

  lemma MapsEqual(base: seq<Base>, m1: map<string, Spec>, m2: map<string, Spec>)
    requires m1.Keys == m2.Keys == BaseNames(base)
    requires forall i | 0 <= i < |base| :: base[i].name in m1 && base[i].name in m2 && m2[base[i].name] == m1[base[i].name]
    ensures m1 == m2
  {
    forall n | n in m1 ensures m1[n] == m2[n] {
      var i :| 0 <= i < |base| && base[i].name == n;
    }
  }

  // The baseline's own description is accepted.
  lemma WitnessAccepted(base: seq<Base>, source: SourceType, k: nat)
    requires ValidBase(base)
    ensures forall i | 0 <= i < |base| && i != k :: Accepts(SpecOf(base[i], source), WitnessColumns(base, k, false, false)[i], source)
  {
    hide NormalizedType;
  }

  lemma SpecPinned(d1: TableDef, d2: TableDef, skip: set<string>, targetAdded: map<string, string>, source: SourceType, k: nat)
    requires ValidDef(d1) && ValidDef(d2) && SameVerdicts(d1, d2, skip, targetAdded, source)
    requires k < |Baseline(d1, skip, targetAdded)|
    ensures var f1, f2, n := FactsOf(d1, skip, targetAdded, source), FactsOf(d2, skip, targetAdded, source), Baseline(d1, skip, targetAdded)[k].name;
            n in f1.specs && n in f2.specs && f1.specs[n] == f2.specs[n]
  {
    hide *;
    SpecNormal(d1, skip, targetAdded, source);
    SpecNormal(d2, skip, targetAdded, source);
    var base, f1, f2 := Baseline(d1, skip, targetAdded), FactsOf(d1, skip, targetAdded, source), FactsOf(d2, skip, targetAdded, source);
    WitnessAccepted(base, source, |base|);
    WitnessVerdict(d1, base, |base|, false, false, f1.key, skip, targetAdded, source);
    WitnessVerdict(d2, base, |base|, false, false, f1.key, skip, targetAdded, source);
    VerdictsAgree(d1, d2, skip, targetAdded, source, WitnessColumns(base, |base|, false, false), f1.key);
    var t := f2.specs[base[k].name];
    forall nullable, generated
      ensures Accepts(SpecOf(base[k], source), LiveColumn(base[k].name, base[k].typ, nullable, generated, k, ""), source)
         <==> Accepts(t, LiveColumn(base[k].name, base[k].typ, nullable, generated, k, ""), source)
    {
      WitnessVerdict(d1, base, k, nullable, generated, f1.key, skip, targetAdded, source);
      WitnessVerdict(d2, base, k, nullable, generated, f1.key, skip, targetAdded, source);
      VerdictsAgree(d1, d2, skip, targetAdded, source, WitnessColumns(base, k, nullable, generated), f1.key);
      WitnessDiffers(base, k, nullable, generated);
    }
    AcceptedNorm(t, WitnessColumns(base, |base|, false, false)[k], source);
    WitnessDiffers(base, |base|, false, false);
    AddedRules(d1, skip, targetAdded, source, k);
    AddedSpecs(d2, skip, targetAdded, source, base[k].name);
    SpecsSeparated(base[k], t, k, source);
  }

  lemma AcceptedNorm(t: Spec, c: LiveColumn, source: SourceType)
    requires Accepts(t, c, source)
    ensures t.norm == NormalizedType(c.typ, source)
  {
  }

  // Only the k-th column of two witnesses differs.
  lemma WitnessDiffers(base: seq<Base>, k: nat, nullable: bool, generated: bool)
    ensures var w, w0 := WitnessColumns(base, k, nullable, generated), WitnessColumns(base, |base|, false, false);
            && (forall i | 0 <= i < |base| && i != k :: w[i] == w0[i])
            && (forall i | 0 <= i < |base| :: w0[i].typ == base[i].typ)
            && (k < |base| ==> w[k] == LiveColumn(base[k].name, base[k].typ, nullable, generated, k, ""))
  {
  }

  lemma AddedRules(def: TableDef, skip: set<string>, targetAdded: map<string, string>, source: SourceType, k: nat)
    requires ValidDef(def) && k < |Baseline(def, skip, targetAdded)|
    ensures var b := Baseline(def, skip, targetAdded)[k];
            (b.added ==> b.nullable.None?) && SpecOf(b, source).norm == NormalizedType(b.typ, source)
  {
    hide Baseline, NormalizedType;
    BaselineValid(def, skip, targetAdded);
  }

  lemma AddedSpecs(def: TableDef, skip: set<string>, targetAdded: map<string, string>, source: SourceType, n: string)
    requires ValidDef(def) && n in FactsOf(def, skip, targetAdded, source).specs
    ensures var t := FactsOf(def, skip, targetAdded, source).specs[n]; t.added ==> t.rule.None?
  {
    hide Baseline, NormalizedType, Specs;
    SpecNormal(def, skip, targetAdded, source);
    BaselineValid(def, skip, targetAdded);
    var base := Baseline(def, skip, targetAdded);
    var i :| 0 <= i < |base| && base[i].name == n;
  }

  // No live table tells two baselines apart exactly when their compared facts are equal.
  lemma VerdictsAreFacts(d1: TableDef, d2: TableDef, skip: set<string>, targetAdded: map<string, string>, source: SourceType)
    requires ValidDef(d1) && ValidDef(d2)
    ensures SameVerdicts(d1, d2, skip, targetAdded, source)
       <==> FactsOf(d1, skip, targetAdded, source) == FactsOf(d2, skip, targetAdded, source)
  {
    hide Baseline, Captured, Matches, Specs, LiveBy, AllChanges, ValidDef;
    if FactsOf(d1, skip, targetAdded, source) == FactsOf(d2, skip, targetAdded, source) {
      forall live: Option<LiveTable>
        ensures Diff(d1, live, skip, targetAdded, source).None? <==> Diff(d2, live, skip, targetAdded, source).None?
      {
        if live.Some? {
          NoDriftIff(d1, live.value, skip, targetAdded, source);
          NoDriftIff(d2, live.value, skip, targetAdded, source);
        }
      }
    } else if SameVerdicts(d1, d2, skip, targetAdded, source) {
      SameVerdictsSameFacts(d1, d2, skip, targetAdded, source);
    }
  }

  // ---- the digest ----

  // One column of the payload: its name, normalized type and, unless it is generated, its
  // NULL rule.
  datatype DigestColumn = DigestColumn(name: string, norm: string, rule: Option<bool>)

  datatype Payload = Payload(columns: seq<DigestColumn>, key: seq<string>)

  function RuleRank(rule: Option<bool>): int {
    match rule
    case None => 0
    case Some(nullable) => if nullable then 2 else 1
  }

  predicate DigestLe(a: DigestColumn, b: DigestColumn) {
    if a.name != b.name then StringLe(a.name, b.name)
    else if a.norm != b.norm then StringLe(a.norm, b.norm)
    else RuleRank(a.rule) <= RuleRank(b.rule)
  }

  function DigestColumnOf(c: Column, source: SourceType): DigestColumn {
    DigestColumn(c.name, NormalizedType(c.typ, source), if c.generated then None else Some(c.nullable))
  }

  function DigestColumns(columns: seq<Column>, skip: set<string>, source: SourceType): seq<DigestColumn> {
    if columns == [] then [] else
      var c := columns[|columns| - 1];
      DigestColumns(columns[..|columns| - 1], skip, source) + if c.name in skip then [] else [DigestColumnOf(c, source)]
  }

  function Digest(def: TableDef, skip: set<string>, source: SourceType): Payload {
    Payload(Sort(DigestLe, DigestColumns(def.columns, skip, source)), Sort(StringLe, def.primaryKey))
  }

  lemma DigestLeIsOrder()
    ensures TotalPreorder(DigestLe) && AntiSymmetric(DigestLe)
  {
    hide StringLe;
    StringLeIsOrder();
    assert forall a: DigestColumn, b: DigestColumn | DigestLe(a, b) && DigestLe(b, a) :: a == b;
    assert forall a: DigestColumn, b: DigestColumn, c: DigestColumn | DigestLe(a, b) && DigestLe(b, c) :: DigestLe(a, c);
  }

  lemma {:induction false} DigestColumnsAre(columns: seq<Column>, skip: set<string>, source: SourceType)
    ensures forall x :: x in DigestColumns(columns, skip, source) <==>
                        exists c :: c in columns && c.name !in skip && x == DigestColumnOf(c, source)
  {
    hide DigestColumnOf;
    if columns != [] {
      var init, last := columns[..|columns| - 1], columns[|columns| - 1];
      assert columns == init + [last];
      DigestColumnsAre(init, skip, source);
    }
  }

  lemma {:induction false} DigestColumnsDistinct(columns: seq<Column>, skip: set<string>, source: SourceType)
    requires forall i, j | 0 <= i < j < |columns| :: columns[i].name != columns[j].name
    ensures Distinct(DigestColumns(columns, skip, source))
  {
    hide NormalizedType;
    if columns != [] {
      var init, last := columns[..|columns| - 1], columns[|columns| - 1];
      DigestColumnsDistinct(init, skip, source);
      DigestColumnsAre(init, skip, source);
      assert forall x | x in DigestColumns(init, skip, source) :: x.name != last.name;
      var r := DigestColumns(init, skip, source);
      assert forall i | 0 <= i < |r| :: r[i] in r;
    }
  }

  // A key lists each of its columns once.
  predicate ValidKey(def: TableDef) {
    Distinct(def.primaryKey)
  }

  // Payloads are equal exactly when they hold the same columns and key names.
  lemma {:induction false} PayloadsAreMembers(d1: TableDef, d2: TableDef, skip: set<string>, source: SourceType)
    requires ValidDef(d1) && ValidDef(d2) && ValidKey(d1) && ValidKey(d2)
    ensures Digest(d1, skip, source) == Digest(d2, skip, source) <==>
            && (forall x :: x in DigestColumns(d1.columns, skip, source) <==> x in DigestColumns(d2.columns, skip, source))
            && (set n | n in d1.primaryKey) == (set n | n in d2.primaryKey)
  {
    hide DigestColumns, DigestLe, StringLe;
    var c1, c2 := DigestColumns(d1.columns, skip, source), DigestColumns(d2.columns, skip, source);
    DigestLeIsOrder();
    StringLeIsOrder();
    DigestColumnsDistinct(d1.columns, skip, source);
    DigestColumnsDistinct(d2.columns, skip, source);
    SameSort(DigestLe, c1, c2);
    SameSort(StringLe, d1.primaryKey, d2.primaryKey);
    SameSets(d1.primaryKey, d2.primaryKey);
  }

  lemma SameSets(s: seq<string>, t: seq<string>)
    ensures (set n | n in s) == (set n | n in t) <==> forall n :: n in s <==> n in t
  {
    var a, b := set n | n in s, set n | n in t;
    assert forall n :: n in a <==> n in s;
    assert forall n :: n in b <==> n in t;
  }

  lemma {:induction false} SameSort<T(!new)>(le: (T, T) -> bool, s: seq<T>, t: seq<T>)
    requires TotalPreorder(le) && AntiSymmetric(le) && Distinct(s) && Distinct(t)
    ensures Sort(le, s) == Sort(le, t) <==> forall x :: x in s <==> x in t
  {
    if forall x :: x in s <==> x in t {
      DistinctSameMembers(s, t);
      SortOfPermutation(le, s, t);
    } else {
      SortMembers(le, s);
      SortMembers(le, t);
    }
  }

  // The names whose NULL rule the digest holds but the comparison does not compare: captured,
  // not generated, with a NOT NULL that was added NOT VALID.
  function Uncompared(def: TableDef, skip: set<string>): set<string> {
    set c | c in def.columns && c.name !in skip && !c.generated && c.notNullNotValid :: c.name
  }

  // A payload column and a spec say the same, up to a rule that is not compared.
  predicate Agrees(x: DigestColumn, s: Spec, uncompared: bool) {
    s == Spec(x.norm, if uncompared then None else x.rule, false)
  }

  lemma {:induction false} InventorySpecs(columns: seq<Column>, skip: set<string>, source: SourceType)
    requires forall i, j | 0 <= i < j < |columns| :: columns[i].name != columns[j].name
    ensures var specs := Specs(InventoryBase(columns, skip), source);
            forall c | c in columns && c.name !in skip ::
              c.name in specs && Agrees(DigestColumnOf(c, source), specs[c.name], !c.generated && c.notNullNotValid)
  {
    hide NormalizedType;
    if columns != [] {
      var init, last := columns[..|columns| - 1], columns[|columns| - 1];
      assert columns == init + [last];
      InventorySpecs(init, skip, source);
      if last.name !in skip {
        var base := InventoryBase(init, skip);
        assert InventoryBase(columns, skip) == base + [BaseOf(last, |base|)];
        assert (base + [BaseOf(last, |base|)])[..|base|] == base;
      }
    }
  }

  lemma {:induction false} SpecsConcat(a: seq<Base>, b: seq<Base>, source: SourceType)
    ensures Specs(a + b, source) == Specs(a, source) + Specs(b, source)
  {
    hide *;
    if b == [] {
      assert a + b == a;
      NoSpecs(b, source);
    } else {
      var init, last := b[..|b| - 1], b[|b| - 1];
      assert (a + b)[..|a + b| - 1] == a + init && (a + b)[|a + b| - 1] == last;
      SpecsLast(a + b, source);
      SpecsLast(b, source);
      SpecsConcat(a, init, source);
    }
  }

  lemma {:induction false} NoSpecs(base: seq<Base>, source: SourceType)
    requires base == []
    ensures Specs(base, source) == map[]
  {
  }

  lemma {:induction false} SpecsLast(base: seq<Base>, source: SourceType)
    requires base != []
    ensures Specs(base, source) == Specs(base[..|base| - 1], source)[base[|base| - 1].name := SpecOf(base[|base| - 1], source)]
  {
    hide SpecOf;
  }

  lemma {:induction false} TargetSpecs(names: seq<string>, targetAdded: map<string, string>, inventory: set<string>, skip: set<string>, source: SourceType)
    requires Distinct(names) && forall n | n in names :: n in targetAdded
    ensures Specs(AddedBase(names, targetAdded, inventory, skip), source).Keys == (set n | n in names) - inventory - skip
    ensures forall n | n in Specs(AddedBase(names, targetAdded, inventory, skip), source) ::
              n in targetAdded && Specs(AddedBase(names, targetAdded, inventory, skip), source)[n] == Spec(NormalizedType(targetAdded[n], source), None, true)
  {
    hide NormalizedType, AddedBase, Specs;
    AddedBaseValid(names, targetAdded, inventory, skip);
    var base := AddedBase(names, targetAdded, inventory, skip);
    forall n | n in Specs(base, source)
      ensures n in targetAdded && Specs(base, source)[n] == Spec(NormalizedType(targetAdded[n], source), None, true)
    {
      var i :| 0 <= i < |base| && base[i].name == n;
      SpecsAt(base, source, i);
    }
  }

  // A baseline's facts are those of its own columns and those of the target-added ones.
  lemma {:induction false} FactsSplit(def: TableDef, skip: set<string>, targetAdded: map<string, string>, source: SourceType)
    requires ValidDef(def)
    ensures var own, added := InventoryBase(def.columns, skip), AddedBase(SortedSet(targetAdded.Keys), targetAdded, Names(def.columns), skip);
            && FactsOf(def, skip, targetAdded, source).specs == Specs(own, source) + Specs(added, source)
            && Specs(own, source).Keys == Names(def.columns) - skip
            && Specs(added, source).Keys == targetAdded.Keys - Names(def.columns) - skip
            && (forall n | n in Specs(added, source) ::
                  n in targetAdded && Specs(added, source)[n] == Spec(NormalizedType(targetAdded[n], source), None, true))
  {
    hide NormalizedType, InventoryBase, AddedBase, Specs, Sort, SortedSet;
    var names := SortedSet(targetAdded.Keys);
    assert (set n | n in names) == targetAdded.Keys;
    InventoryValid(def.columns, skip);
    TargetSpecs(names, targetAdded, Names(def.columns), skip, source);
    SpecsConcat(InventoryBase(def.columns, skip), AddedBase(names, targetAdded, Names(def.columns), skip), source);
  }

  // The rule of one of a baseline's own columns is left uncompared when it is NOT VALID.
  lemma UncomparedIs(def: TableDef, skip: set<string>, c: Column)
    requires ValidDef(def) && c in def.columns && c.name !in skip
    ensures c.name in Uncompared(def, skip) <==> (!c.generated && c.notNullNotValid)
  {
    assert forall d | d in def.columns && d.name == c.name :: d == c;
  }

  // The facts of a baseline's own columns.
  lemma {:induction false} OwnFacts(def: TableDef, skip: set<string>, source: SourceType)
    requires ValidDef(def)
    ensures var specs := Specs(InventoryBase(def.columns, skip), source);
            forall c | c in def.columns && c.name !in skip ::
              c.name in specs && Agrees(DigestColumnOf(c, source), specs[c.name], c.name in Uncompared(def, skip))
  {
    InventorySpecs(def.columns, skip, source);
    hide NormalizedType, InventoryBase, Specs, Agrees, Uncompared, DigestColumnOf;
    forall c | c in def.columns && c.name !in skip
      ensures c.name in Uncompared(def, skip) <==> (!c.generated && c.notNullNotValid)
    {
      UncomparedIs(def, skip, c);
    }
  }

  // The facts of a baseline, name by name.
  lemma FactsAre(def: TableDef, skip: set<string>, targetAdded: map<string, string>, source: SourceType)
    requires ValidDef(def)
    ensures var specs := FactsOf(def, skip, targetAdded, source).specs;
            && specs.Keys == Names(def.columns) + targetAdded.Keys - skip
            && (forall c | c in def.columns && c.name !in skip ::
                  c.name in specs && Agrees(DigestColumnOf(c, source), specs[c.name], c.name in Uncompared(def, skip)))
            && (forall n | n in specs && n !in Names(def.columns) ::
                  n in targetAdded && specs[n] == Spec(NormalizedType(targetAdded[n], source), None, true))
  {
    hide *;
    FactsSplit(def, skip, targetAdded, source);
    OwnFacts(def, skip, source);
    var own, added := InventoryBase(def.columns, skip), AddedBase(SortedSet(targetAdded.Keys), targetAdded, Names(def.columns), skip);
    MergedFacts(Specs(own, source), Specs(added, source), Names(def.columns), targetAdded.Keys, skip);
    forall c | c in def.columns && c.name !in skip ensures c.name in Names(def.columns) - skip {
      NameOf(def.columns, c);
    }
  }

  lemma NameOf(columns: seq<Column>, c: Column)
    requires c in columns
    ensures c.name in Names(columns)
  {
  }

  lemma MergedFacts(own: map<string, Spec>, added: map<string, Spec>, names: set<string>, targetNames: set<string>, skip: set<string>)
    requires own.Keys == names - skip && added.Keys == targetNames - names - skip
    ensures (own + added).Keys == names + targetNames - skip
    ensures forall n | n in names - skip :: n in own && (own + added)[n] == own[n]
    ensures forall n | n in own + added && n !in names :: n in added && (own + added)[n] == added[n]
  {
  }

  // With equal payloads, the facts are equal exactly when the same rules are left uncompared.
  lemma {:induction false} PayloadsToFacts(d1: TableDef, d2: TableDef, skip: set<string>, targetAdded: map<string, string>, source: SourceType)
    requires ValidDef(d1) && ValidDef(d2)
    requires forall x :: x in DigestColumns(d1.columns, skip, source) <==> x in DigestColumns(d2.columns, skip, source)
    ensures FactsOf(d1, skip, targetAdded, source).specs == FactsOf(d2, skip, targetAdded, source).specs
       <==> Uncompared(d1, skip) == Uncompared(d2, skip)
  {
    hide *;
    var s1, s2 := FactsOf(d1, skip, targetAdded, source).specs, FactsOf(d2, skip, targetAdded, source).specs;
    FactsAre(d1, skip, targetAdded, source);
    FactsAre(d2, skip, targetAdded, source);
    SharedNames(d1, d2, skip, source);
    UncomparedNames(d1, skip);
    UncomparedNames(d2, skip);
    assert s1.Keys == (Names(d1.columns) - skip) + (targetAdded.Keys - skip);
    assert s2.Keys == (Names(d2.columns) - skip) + (targetAdded.Keys - skip);
    forall n | n in s1
      ensures s1[n] == s2[n] <==> (n in Uncompared(d1, skip) <==> n in Uncompared(d2, skip))
    {
      SameFactUpToRule(d1, d2, skip, targetAdded, source, n);
    }
    if s1 == s2 {
      assert forall n :: n in Uncompared(d1, skip) <==> n in Uncompared(d2, skip);
    }
  }

  lemma {:induction false} SameFactUpToRule(d1: TableDef, d2: TableDef, skip: set<string>, targetAdded: map<string, string>, source: SourceType, n: string)
    requires ValidDef(d1) && ValidDef(d2)
    requires forall x :: x in DigestColumns(d1.columns, skip, source) <==> x in DigestColumns(d2.columns, skip, source)
    requires n in FactsOf(d1, skip, targetAdded, source).specs && n in FactsOf(d2, skip, targetAdded, source).specs
    ensures FactsOf(d1, skip, targetAdded, source).specs[n] == FactsOf(d2, skip, targetAdded, source).specs[n]
       <==> (n in Uncompared(d1, skip) <==> n in Uncompared(d2, skip))
  {
    hide DigestColumns, FactsOf, ValidDef, NormalizedType, Uncompared, DigestColumnOf, Agrees;
    var s, t := FactsOf(d1, skip, targetAdded, source).specs[n], FactsOf(d2, skip, targetAdded, source).specs[n];
    FactsAre(d1, skip, targetAdded, source);
    FactsAre(d2, skip, targetAdded, source);
    SharedNames(d1, d2, skip, source);
    UncomparedNames(d1, skip);
    UncomparedNames(d2, skip);
    assert n !in skip;
    if n !in Names(d1.columns) {
      assert n !in Names(d1.columns) - skip;
      assert n !in Names(d2.columns) - skip;
      assert n !in Names(d2.columns);
      assert n !in Uncompared(d1, skip);
      assert n !in Uncompared(d2, skip);
      TargetFact(d1, skip, targetAdded, source, n);
      TargetFact(d2, skip, targetAdded, source, n);
    } else {
      var c :| c in d1.columns && c.name == n;
      var d := SharedColumn(d1, d2, skip, source, c);
      SameUpToRule(c, d, source, s, t, d1, d2, skip);
    }
  }

  lemma TargetFact(def: TableDef, skip: set<string>, targetAdded: map<string, string>, source: SourceType, n: string)
    requires ValidDef(def) && n !in Names(def.columns)
    requires n in FactsOf(def, skip, targetAdded, source).specs
    ensures n in targetAdded
    ensures FactsOf(def, skip, targetAdded, source).specs[n] == Spec(NormalizedType(targetAdded[n], source), None, true)
  {
    hide *;
    FactsAre(def, skip, targetAdded, source);
  }

  lemma UncomparedNames(def: TableDef, skip: set<string>)
    ensures forall n | n in Uncompared(def, skip) :: n in Names(def.columns) - skip
  {
  }

  lemma SameUpToRule(c: Column, d: Column, source: SourceType, s: Spec, t: Spec, d1: TableDef, d2: TableDef, skip: set<string>)
    requires ValidDef(d1) && ValidDef(d2) && c in d1.columns && d in d2.columns && c.name == d.name && c.name !in skip
    requires DigestColumnOf(c, source) == DigestColumnOf(d, source)
    requires Agrees(DigestColumnOf(c, source), s, c.name in Uncompared(d1, skip))
    requires Agrees(DigestColumnOf(d, source), t, d.name in Uncompared(d2, skip))
    ensures s == t <==> (c.name in Uncompared(d1, skip) <==> c.name in Uncompared(d2, skip))
  {
    hide NormalizedType;
    assert forall x | x in d1.columns && x.name == c.name :: x == c;
    assert forall x | x in d2.columns && x.name == d.name :: x == d;
  }

  // The column of the other baseline that gives the same digest column.
  lemma SharedColumn(d1: TableDef, d2: TableDef, skip: set<string>, source: SourceType, c: Column) returns (d: Column)
    requires forall x :: x in DigestColumns(d1.columns, skip, source) <==> x in DigestColumns(d2.columns, skip, source)
    requires c in d1.columns && c.name !in skip
    ensures d in d2.columns && d.name !in skip && d.name == c.name && DigestColumnOf(c, source) == DigestColumnOf(d, source)
  {
    hide NormalizedType, DigestColumns;
    DigestColumnsAre(d1.columns, skip, source);
    DigestColumnsAre(d2.columns, skip, source);
    assert DigestColumnOf(c, source) in DigestColumns(d1.columns, skip, source);
    d :| d in d2.columns && d.name !in skip && DigestColumnOf(c, source) == DigestColumnOf(d, source);
  }

  lemma {:induction false} SharedNames(d1: TableDef, d2: TableDef, skip: set<string>, source: SourceType)
    requires forall x :: x in DigestColumns(d1.columns, skip, source) <==> x in DigestColumns(d2.columns, skip, source)
    ensures Names(d1.columns) - skip == Names(d2.columns) - skip
  {
    hide DigestColumns, DigestColumnOf;
    forall n ensures n in Names(d1.columns) - skip <==> n in Names(d2.columns) - skip {
      if n in Names(d1.columns) - skip {
        var c :| c in d1.columns && c.name == n;
        var d := SharedColumn(d1, d2, skip, source, c);
      } else if n in Names(d2.columns) - skip {
        var c :| c in d2.columns && c.name == n;
        var d := SharedColumn(d2, d1, skip, source, c);
      }
    }
  }

  // The digest holds the same rule for every shared column whose rule either side leaves
  // uncompared.
  ghost predicate SameUncomparedRules(d1: TableDef, d2: TableDef, skip: set<string>, source: SourceType) {
    forall c, d | c in d1.columns && d in d2.columns && c.name == d.name && c.name in Uncompared(d1, skip) + Uncompared(d2, skip) ::
      DigestColumnOf(c, source).rule == DigestColumnOf(d, source).rule
  }

  // Equal facts give equal payloads when the uncompared rules are the same too.
  lemma {:induction false} FactsToPayloads(d1: TableDef, d2: TableDef, skip: set<string>, targetAdded: map<string, string>, source: SourceType)
    requires ValidDef(d1) && ValidDef(d2)
    requires SameUncomparedRules(d1, d2, skip, source)
    requires FactsOf(d1, skip, targetAdded, source).specs == FactsOf(d2, skip, targetAdded, source).specs
    ensures forall x | x in DigestColumns(d1.columns, skip, source) :: x in DigestColumns(d2.columns, skip, source)
  {
    hide DigestColumns, FactsOf, ValidDef, NormalizedType, Uncompared;
    FactsAre(d1, skip, targetAdded, source);
    FactsAre(d2, skip, targetAdded, source);
    DigestColumnsAre(d1.columns, skip, source);
    DigestColumnsAre(d2.columns, skip, source);
    forall x | x in DigestColumns(d1.columns, skip, source) ensures x in DigestColumns(d2.columns, skip, source) {
      var c :| c in d1.columns && c.name !in skip && x == DigestColumnOf(c, source);
      assert c.name in FactsOf(d2, skip, targetAdded, source).specs;
      assert c.name in Names(d2.columns);
      var d :| d in d2.columns && d.name == c.name;
      assert DigestColumnOf(d, source) in DigestColumns(d2.columns, skip, source);
      assert DigestColumnOf(c, source).norm == DigestColumnOf(d, source).norm;
      assert DigestColumnOf(c, source).rule == DigestColumnOf(d, source).rule;
    }
  }

  lemma {:induction false} PayloadsToRules(d1: TableDef, d2: TableDef, skip: set<string>, source: SourceType)
    requires ValidDef(d1) && ValidDef(d2)
    requires forall x :: x in DigestColumns(d1.columns, skip, source) <==> x in DigestColumns(d2.columns, skip, source)
    ensures SameUncomparedRules(d1, d2, skip, source)
  {
    hide DigestColumns, NormalizedType, Uncompared;
    UncomparedNames(d1, skip);
    UncomparedNames(d2, skip);
    forall c, d | c in d1.columns && d in d2.columns && c.name == d.name && c.name in Uncompared(d1, skip) + Uncompared(d2, skip)
      ensures DigestColumnOf(c, source).rule == DigestColumnOf(d, source).rule
    {
      assert c.name !in skip;
      var e := SharedColumn(d1, d2, skip, source, c);
      assert e == d;
    }
  }

  lemma NothingUncompared(d1: TableDef, d2: TableDef, skip: set<string>, source: SourceType)
    requires Uncompared(d1, skip) == Uncompared(d2, skip) == {}
    ensures SameUncomparedRules(d1, d2, skip, source)
  {
  }

  // Full abstraction: with no NOT VALID rule, two baselines have the same digest exactly when
  // no live table tells them apart, for any skipped and any target-added columns.
  lemma DigestIsFullyAbstract(d1: TableDef, d2: TableDef, skip: set<string>, targetAdded: map<string, string>, source: SourceType)
    requires ValidDef(d1) && ValidDef(d2) && ValidKey(d1) && ValidKey(d2)
    requires Uncompared(d1, skip) == Uncompared(d2, skip) == {}
    ensures Digest(d1, skip, source) == Digest(d2, skip, source)
       <==> SameVerdicts(d1, d2, skip, targetAdded, source)
  {
    hide Digest, SameVerdicts, DigestColumns, Specs, Baseline, Uncompared, ValidDef, ValidKey;
    PayloadsAreMembers(d1, d2, skip, source);
    VerdictsAreFacts(d1, d2, skip, targetAdded, source);
    if Digest(d1, skip, source) == Digest(d2, skip, source) {
      PayloadsToFacts(d1, d2, skip, targetAdded, source);
    } else if FactsOf(d1, skip, targetAdded, source) == FactsOf(d2, skip, targetAdded, source) {
      NothingUncompared(d1, d2, skip, source);
      NothingUncompared(d2, d1, skip, source);
      FactsToPayloads(d1, d2, skip, targetAdded, source);
      FactsToPayloads(d2, d1, skip, targetAdded, source);
    }
  }

  // In general, baselines with the same digest are told apart by some live table exactly when
  // their NOT VALID columns differ.
  lemma DigestMissesExactlyNotValid(d1: TableDef, d2: TableDef, skip: set<string>, targetAdded: map<string, string>, source: SourceType)
    requires ValidDef(d1) && ValidDef(d2) && ValidKey(d1) && ValidKey(d2)
    requires Digest(d1, skip, source) == Digest(d2, skip, source)
    ensures SameVerdicts(d1, d2, skip, targetAdded, source) <==> Uncompared(d1, skip) == Uncompared(d2, skip)
  {
    hide Digest, SameVerdicts, DigestColumns, Specs, Baseline, Uncompared, ValidDef, ValidKey;
    PayloadsAreMembers(d1, d2, skip, source);
    VerdictsAreFacts(d1, d2, skip, targetAdded, source);
    PayloadsToFacts(d1, d2, skip, targetAdded, source);
  }

  // The other way: baselines that no live table tells apart have the same digest exactly when
  // the rules left uncompared are the same in it.
  lemma DigestSplitsExactlyNotValid(d1: TableDef, d2: TableDef, skip: set<string>, targetAdded: map<string, string>, source: SourceType)
    requires ValidDef(d1) && ValidDef(d2) && ValidKey(d1) && ValidKey(d2)
    requires SameVerdicts(d1, d2, skip, targetAdded, source)
    ensures Digest(d1, skip, source) == Digest(d2, skip, source) <==> SameUncomparedRules(d1, d2, skip, source)
  {
    hide *;
    PayloadsAreMembers(d1, d2, skip, source);
    VerdictsAreFacts(d1, d2, skip, targetAdded, source);
    FactsHold(d1, d2, skip, targetAdded, source);
    if Digest(d1, skip, source) == Digest(d2, skip, source) {
      PayloadsToRules(d1, d2, skip, source);
    }
    if SameUncomparedRules(d1, d2, skip, source) {
      RulesEitherWay(d1, d2, skip, source);
      FactsToPayloads(d1, d2, skip, targetAdded, source);
      FactsToPayloads(d2, d1, skip, targetAdded, source);
    }
  }

  lemma FactsHold(d1: TableDef, d2: TableDef, skip: set<string>, targetAdded: map<string, string>, source: SourceType)
    requires FactsOf(d1, skip, targetAdded, source) == FactsOf(d2, skip, targetAdded, source)
    ensures (set n | n in d1.primaryKey) == (set n | n in d2.primaryKey)
  {
    hide Specs, Baseline;
  }

  lemma RulesEitherWay(d1: TableDef, d2: TableDef, skip: set<string>, source: SourceType)
    requires SameUncomparedRules(d1, d2, skip, source)
    ensures SameUncomparedRules(d2, d1, skip, source)
  {
    hide NormalizedType, Uncompared;
  }

  lemma OneColumnFacts(def: TableDef, c: Column)
    requires def == TableDef([c], []) && (c.generated || c.notNullNotValid)
    ensures FactsOf(def, {}, map[], Postgres) == Facts(map[c.name := Spec(NormalizedType(c.typ, Postgres), None, false)], {})
  {
    hide NormalizedType;
    var none: map<string, string> := map[];
    assert |SortedSet(none.Keys)| == 0;
    var b := BaseOf(c, 0);
    assert [c][..0] == [] && InventoryBase([c], {}) == [b];
    assert Baseline(def, {}, map[]) == [b];
    hide Baseline, InventoryBase;
    NoSpecs([], Postgres);
    assert [b][..0] == [];
    SpecsLast([b], Postgres);
  }

  // Such a pair: a nullable generated column, and a plain one with a NOT VALID rule.
  lemma DigestSplitsNotValid()
    ensures var generated, notValid := Column("c", "int", true, true, false), Column("c", "int", true, false, true);
            var d1, d2 := TableDef([generated], []), TableDef([notValid], []);
            && Digest(d1, {}, Postgres) != Digest(d2, {}, Postgres)
            && SameVerdicts(d1, d2, {}, map[], Postgres)
  {
    var generated, notValid := Column("c", "int", true, true, false), Column("c", "int", true, false, true);
    var d1, d2 := TableDef([generated], []), TableDef([notValid], []);
    hide NormalizedType, SameVerdicts, Digest, FactsOf;
    assert generated in d1.columns && notValid in d2.columns;
    assert "c" in Uncompared(d2, {});
    OneColumnFacts(d1, generated);
    OneColumnFacts(d2, notValid);
    VerdictsAreFacts(d1, d2, {}, map[], Postgres);
    assert DigestColumnOf(generated, Postgres).rule != DigestColumnOf(notValid, Postgres).rule;
    DigestSplitsExactlyNotValid(d1, d2, {}, map[], Postgres);
  }

  // Such a pair as the digest misses: a nullable column, its NOT NULL added NOT VALID in one.
  lemma DigestMissesNotValid()
    ensures var plain, notValid := Column("c", "int", true, false, false), Column("c", "int", true, false, true);
            var d1, d2 := TableDef([plain], []), TableDef([notValid], []);
            && Digest(d1, {}, Postgres) == Digest(d2, {}, Postgres)
            && !SameVerdicts(d1, d2, {}, map[], Postgres)
  {
    var plain, notValid := Column("c", "int", true, false, false), Column("c", "int", true, false, true);
    var d1, d2 := TableDef([plain], []), TableDef([notValid], []);
    hide NormalizedType, SameVerdicts;
    assert [plain][..0] == [] && [notValid][..0] == [];
    assert DigestColumns([plain], {}, Postgres) == [] + [DigestColumnOf(plain, Postgres)];
    assert DigestColumns([notValid], {}, Postgres) == [] + [DigestColumnOf(notValid, Postgres)];
    assert notValid in d2.columns && "c" in Uncompared(d2, {});
    assert "c" !in Uncompared(d1, {});
    DigestMissesExactlyNotValid(d1, d2, {}, map[], Postgres);
  }
}
