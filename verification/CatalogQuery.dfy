/**
 The one MySQL catalog statement (src/dsql_migrator/core/cdc_catalog_drift.py,
 build_mysql_catalog_statement): its WHERE clause as a tree of bound parameters, and what
 it selects.
 */
module CatalogQuery {
  import opened Wrappers
  import opened Text
  import opened Sorting
  import opened CatalogTypes

  // (TABLE_SCHEMA = :schema AND TABLE_NAME IN (:tables, ...))
  datatype Clause = Clause(schema: string, tables: seq<string>)

  // The clauses, joined with OR (1 = 0 when there is none), and the bound values.
  datatype Statement = Statement(clauses: seq<Clause>, params: map<string, string>)

  ghost predicate Holds(c: Clause, params: map<string, string>, schema: string, table: string) {
    && c.schema in params && params[c.schema] == schema
    && exists t :: t in c.tables && t in params && params[t] == table
  }

  // Whether the WHERE clause holds of a catalog row.
  ghost predicate Selects(st: Statement, schema: string, table: string) {
    exists c :: c in st.clauses && Holds(c, st.params, schema, table)
  }

  ghost predicate Requested(names: seq<string>, schema: string, table: string) {
    exists n :: n in names && SplitQualified(n) == Some((schema, table))
  }

  function SchemaParam(i: nat): string {
    "s" + NatText(i)
  }

  function TableParam(i: nat, j: nat): string {
    "t" + NatText(i) + "_" + NatText(j)
  }

  lemma SchemaParamInjective(i: nat, k: nat)
    requires SchemaParam(i) == SchemaParam(k)
    ensures i == k
  {
    assert SchemaParam(i)[1..] == NatText(i) && SchemaParam(k)[1..] == NatText(k);
    NatTextInjective(i, k);
  }

  lemma TableParamInjective(i: nat, j: nat, k: nat, l: nat)
    requires TableParam(i, j) == TableParam(k, l)
    ensures i == k && j == l
  {
    hide NatText;
    assert TableParam(i, j)[1..] == NatText(i) + "_" + NatText(j);
    assert TableParam(k, l)[1..] == NatText(k) + "_" + NatText(l);
    assert '_' !in NatText(i) && '_' !in NatText(k);
    PartitionOfJoined(NatText(i), '_', NatText(j));
    PartitionOfJoined(NatText(k), '_', NatText(l));
    NatTextInjective(i, k);
    NatTextInjective(j, l);
  }

  // No two parameters share a name, so no binding overwrites another.
  lemma ParamsDistinct()
    ensures forall i: nat, k: nat :: SchemaParam(i) == SchemaParam(k) ==> i == k
    ensures forall i: nat, j: nat, k: nat, l: nat :: TableParam(i, j) == TableParam(k, l) ==> i == k && j == l
    ensures forall i: nat, k: nat, l: nat :: SchemaParam(i) != TableParam(k, l)
  {
    hide NatText;
    forall i: nat, k: nat | SchemaParam(i) == SchemaParam(k) ensures i == k { SchemaParamInjective(i, k); }
    forall i: nat, j: nat, k: nat, l: nat | TableParam(i, j) == TableParam(k, l) ensures i == k && j == l {
      TableParamInjective(i, j, k, l);
    }
    forall i: nat, k: nat, l: nat ensures SchemaParam(i) != TableParam(k, l) {
      assert SchemaParam(i)[0] != TableParam(k, l)[0];
    }
  }

  lemma RequestedStep(names: seq<string>, name: string, s: string, t: string)
    ensures Requested(names + [name], s, t) <==> Requested(names, s, t) || SplitQualified(name) == Some((s, t))
  {
    hide SplitQualified;
    if SplitQualified(name) == Some((s, t)) {
      assert name in names + [name];
    } else if Requested(names, s, t) {
      var n :| n in names && SplitQualified(n) == Some((s, t));
      assert n in names + [name];
    }
  }

  predicate InGroup(groups: map<string, seq<string>>, s: string, t: string) {
    s in groups && t in groups[s]
  }

  method GroupBySchema(names: seq<string>) returns (groups: map<string, seq<string>>)
    ensures forall s, t :: InGroup(groups, s, t) <==> Requested(names, s, t)
    ensures forall s | s in groups :: groups[s] != []
  {
    groups := map[];
    for i := 0 to |names|
      invariant forall s, t :: InGroup(groups, s, t) <==> Requested(names[..i], s, t)
      invariant forall s | s in groups :: groups[s] != []
    {
      assert names[..i + 1] == names[..i] + [names[i]];
      ghost var before := groups;
      var parts := SplitQualified(names[i]);
      if parts.Some? {
        var (schema, table) := parts.value;
        groups := groups[schema := (if schema in groups then groups[schema] else []) + [table]];
      }
      forall s, t ensures InGroup(groups, s, t) <==> Requested(names[..i + 1], s, t) {
        hide SplitQualified, Requested;
        RequestedStep(names[..i], names[i], s, t);
        assert InGroup(before, s, t) <==> Requested(names[..i], s, t);
      }
    }
    assert names[..|names|] == names;
  }

  // The first k schemas have a clause of their own, its parameters bound to the schema and
  // its tables.
  ghost predicate Bound(st: Statement, schemas: seq<string>, groups: map<string, seq<string>>, k: nat)
    requires k <= |schemas| && forall s | s in schemas :: s in groups
  {
    && |st.clauses| == k
    && forall i | 0 <= i < k :: BoundAt(st, schemas[i], groups[schemas[i]], i)
  }

  ghost predicate BoundAt(st: Statement, schema: string, tables: seq<string>, i: nat)
    requires i < |st.clauses|
  {
    && st.clauses[i].schema == SchemaParam(i) && SchemaParam(i) in st.params && st.params[SchemaParam(i)] == schema
    && TablesBound(st.clauses[i].tables, st.params, tables, i)
  }

  ghost predicate TablesBound(holders: seq<string>, params: map<string, string>, tables: seq<string>, i: nat) {
    && |holders| == |tables|
    && forall j | 0 <= j < |tables| :: holders[j] == TableParam(i, j) && TableParam(i, j) in params && params[TableParam(i, j)] == tables[j]
  }

  method BindClause(params: map<string, string>, i: nat, schema: string, tables: seq<string>)
    returns (r: map<string, string>, clause: Clause)
    ensures clause.schema == SchemaParam(i) && SchemaParam(i) in r && r[SchemaParam(i)] == schema
    ensures TablesBound(clause.tables, r, tables, i)
    ensures forall p | p in params && p != SchemaParam(i) && (forall j: nat :: p != TableParam(i, j)) :: p in r && r[p] == params[p]
  {
    ParamsDistinct();
    r := params[SchemaParam(i) := schema];
    var holders: seq<string> := [];
    for j := 0 to |tables|
      invariant TablesBound(holders, r, tables[..j], i)
      invariant SchemaParam(i) in r && r[SchemaParam(i)] == schema
      invariant forall p | p in params && p != SchemaParam(i) && (forall l: nat :: p != TableParam(i, l)) :: p in r && r[p] == params[p]
    {
      hide SchemaParam, TableParam;
      r := r[TableParam(i, j) := tables[j]];
      holders := holders + [TableParam(i, j)];
    }
    assert tables[..|tables|] == tables;
    clause := Clause(SchemaParam(i), holders);
  }

  method BuildMySqlCatalogStatement(names: seq<string>) returns (st: Statement)
    ensures forall schema, table :: Selects(st, schema, table) <==> Requested(names, schema, table)
    ensures forall c | c in st.clauses :: c.schema in st.params && c.tables != [] && forall t | t in c.tables :: t in st.params
  {
    var asked := SortedSet(set n | n in names && n != "");
    var groups := GroupBySchema(asked);
    var schemas := SortedSet(groups.Keys);
    var clauses: seq<Clause>, params: map<string, string> := [], map[];
    for i := 0 to |schemas|
      invariant Bound(Statement(clauses, params), schemas, groups, i)
    {
      assert schemas[i] in schemas;
      var more, clause := BindClause(params, i, schemas[i], groups[schemas[i]]);
      StillBound(Statement(clauses, params), more, clause, schemas, groups, i);
      clauses, params := clauses + [clause], more;
    }
    st := Statement(clauses, params);
    SelectsGroups(st, schemas, groups);
    SameRequests(names, asked);
    forall schema, table ensures Selects(st, schema, table) <==> Requested(names, schema, table) {
      assert Selects(st, schema, table) <==> Requested(asked, schema, table);
    }
    NoEmptyGroup(st, asked, schemas, groups);
  }

  lemma StillBound(st: Statement, more: map<string, string>, clause: Clause, schemas: seq<string>, groups: map<string, seq<string>>, i: nat)
    requires i < |schemas| && forall s | s in schemas :: s in groups
    requires Bound(st, schemas, groups, i)
    requires clause.schema == SchemaParam(i) && SchemaParam(i) in more && more[SchemaParam(i)] == schemas[i]
    requires schemas[i] in groups && TablesBound(clause.tables, more, groups[schemas[i]], i)
    requires forall p | p in st.params && p != SchemaParam(i) && (forall j: nat :: p != TableParam(i, j)) :: p in more && more[p] == st.params[p]
    ensures Bound(Statement(st.clauses + [clause], more), schemas, groups, i + 1)
  {
    ParamsDistinct();
    hide SchemaParam, TableParam;
    var next := Statement(st.clauses + [clause], more);
    forall k | 0 <= k < i ensures BoundAt(next, schemas[k], groups[schemas[k]], k) {
      assert BoundAt(st, schemas[k], groups[schemas[k]], k);
      assert next.clauses[k] == st.clauses[k];
    }
    assert BoundAt(next, schemas[i], groups[schemas[i]], i);
  }

  lemma SelectsGroups(st: Statement, schemas: seq<string>, groups: map<string, seq<string>>)
    requires forall s :: s in schemas <==> s in groups
    requires Bound(st, schemas, groups, |schemas|)
    ensures forall s, t :: Selects(st, s, t) <==> InGroup(groups, s, t)
  {
    hide SchemaParam, TableParam;
    forall s, t ensures Selects(st, s, t) <==> InGroup(groups, s, t) {
      if Selects(st, s, t) {
        var c :| c in st.clauses && Holds(c, st.params, s, t);
        var i :| 0 <= i < |st.clauses| && st.clauses[i] == c;
        assert BoundAt(st, schemas[i], groups[schemas[i]], i);
        var h :| h in c.tables && h in st.params && st.params[h] == t;
        var j :| 0 <= j < |c.tables| && c.tables[j] == h;
      }
      if InGroup(groups, s, t) {
        var i :| 0 <= i < |schemas| && schemas[i] == s;
        assert BoundAt(st, schemas[i], groups[schemas[i]], i);
        var j :| 0 <= j < |groups[s]| && groups[s][j] == t;
        assert st.clauses[i].tables[j] in st.clauses[i].tables;
        assert Holds(st.clauses[i], st.params, s, t);
      }
    }
  }

  lemma SameRequests(names: seq<string>, asked: seq<string>)
    requires forall n :: n in asked <==> n in names && n != ""
    ensures forall s, t :: Requested(asked, s, t) <==> Requested(names, s, t)
  {
    assert SplitQualified("").None?;
    hide SplitQualified;
  }

  lemma NoEmptyGroup(st: Statement, asked: seq<string>, schemas: seq<string>, groups: map<string, seq<string>>)
    requires forall s :: s in schemas <==> s in groups
    requires Bound(st, schemas, groups, |schemas|)
    requires forall s | s in groups :: groups[s] != []
    ensures forall c | c in st.clauses :: c.schema in st.params && c.tables != [] && forall t | t in c.tables :: t in st.params
  {
    hide SchemaParam, TableParam;
    forall c | c in st.clauses ensures c.schema in st.params && c.tables != [] && forall t | t in c.tables :: t in st.params {
      var i :| 0 <= i < |st.clauses| && st.clauses[i] == c;
      assert BoundAt(st, schemas[i], groups[schemas[i]], i);
      assert schemas[i] in schemas;
    }
  }
}
