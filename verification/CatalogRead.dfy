/**
 The catalog read (src/dsql_migrator/core/cdc_catalog_drift.py, _map_mysql_rows and
 _map_pg_rows): unordered rows folded into live tables with dense column ranks.
 */
module CatalogRead {
  import opened Wrappers
  import opened Text
  import opened Sorting
  import opened CatalogTypes
  import opened CatalogDrift
  import opened CatalogQuery

  // ---- mapping a sequence, each element to any number of results ----

  function FlatMap<A, B>(f: A -> seq<B>, s: seq<A>): seq<B> {
    if s == [] then [] else FlatMap(f, s[..|s| - 1]) + f(s[|s| - 1])
  }

  lemma FlatMapNext<A, B>(f: A -> seq<B>, s: seq<A>, i: nat)
    requires i < |s|
    ensures FlatMap(f, s[..i + 1]) == FlatMap(f, s[..i]) + f(s[i])
  {
    assert s[..i + 1][..i] == s[..i];
  }

  lemma {:induction false} FlatMapConcat<A, B>(f: A -> seq<B>, s: seq<A>, t: seq<A>)
    ensures FlatMap(f, s + t) == FlatMap(f, s) + FlatMap(f, t)
  {
    if t == [] {
      assert s + t == s;
    } else {
      assert (s + t)[..|s + t| - 1] == s + t[..|t| - 1];
      FlatMapConcat(f, s, t[..|t| - 1]);
    }
  }

  lemma {:induction false} FlatMapSplit<A, B>(f: A -> seq<B>, front: seq<A>, x: A, back: seq<A>)
    ensures FlatMap(f, front + [x] + back) == FlatMap(f, front) + f(x) + FlatMap(f, back)
  {
    FlatMapConcat(f, front + [x], back);
    assert (front + [x])[..|front|] == front;
  }

  lemma WithoutOne<A>(init: seq<A>, x: A, front: seq<A>, back: seq<A>)
    requires multiset(init + [x]) == multiset(front + [x] + back)
    ensures multiset(init) == multiset(front + back)
  {
    assert multiset(init) == multiset(init + [x]) - multiset{x};
    assert multiset(front + [x] + back) == multiset(front) + multiset{x} + multiset(back);
    assert multiset(front + back) == multiset(front) + multiset(back);
  }

  // A permutation of the input permutes the result.
  lemma {:induction false} FlatMapPermutes<A, B>(f: A -> seq<B>, s: seq<A>, t: seq<A>)
    requires multiset(s) == multiset(t)
    ensures multiset(FlatMap(f, s)) == multiset(FlatMap(f, t))
  {
    assert |s| == |multiset(s)| == |multiset(t)| == |t|;
    if s != [] {
      var init, x := s[..|s| - 1], s[|s| - 1];
      assert x in multiset(t);
      var j :| 0 <= j < |t| && t[j] == x;
      var front, back := t[..j], t[j + 1..];
      assert s == init + [x] && t == front + [x] + back;
      WithoutOne(init, x, front, back);
      FlatMapPermutes(f, init, front + back);
      FlatMapSplit(f, front, x, back);
      FlatMapConcat(f, front, back);
      assert FlatMap(f, s) == FlatMap(f, init) + f(x);
      hide *;
      SameParts(FlatMap(f, s), FlatMap(f, init), f(x), FlatMap(f, front), FlatMap(f, back), FlatMap(f, t));
    }
  }

  lemma SameParts<B>(all: seq<B>, init: seq<B>, x: seq<B>, front: seq<B>, back: seq<B>, split: seq<B>)
    requires all == init + x && split == front + x + back && multiset(init) == multiset(front + back)
    ensures multiset(all) == multiset(split)
  {
    assert multiset(front + x + back) == multiset(front) + multiset(x) + multiset(back);
    assert multiset(front + back) == multiset(front) + multiset(back);
  }

  lemma NothingMapped<A, B>(f: A -> seq<B>)
    ensures FlatMap(f, []) == []
  {
  }

  // ---- the fold ----

  // One column as read: the sort key of its table first.
  datatype Item = Item(ordinal: int, name: string, typ: string, nullable: bool, generated: bool, charset: string)

  // What a row says about a table.
  datatype Entry = ColumnEntry(table: string, item: Item) | KeyEntry(table: string, column: string)

  // Python's order of the tuples.
  predicate ItemLe(a: Item, b: Item) {
    if a.ordinal != b.ordinal then a.ordinal < b.ordinal
    else if a.name != b.name then StringLe(a.name, b.name)
    else if a.typ != b.typ then StringLe(a.typ, b.typ)
    else if a.nullable != b.nullable then b.nullable
    else if a.generated != b.generated then b.generated
    else StringLe(a.charset, b.charset)
  }

  lemma ItemLeIsOrder()
    ensures TotalPreorder(ItemLe) && AntiSymmetric(ItemLe)
  {
    hide StringLe;
    StringLeIsOrder();
    assert forall a: Item, b: Item | ItemLe(a, b) && ItemLe(b, a) :: a == b;
    assert forall a: Item, b: Item, c: Item | ItemLe(a, b) && ItemLe(b, c) :: ItemLe(a, c);
  }

  datatype Collected = Collected(columns: map<string, seq<Item>>, keys: map<string, set<string>>)

  function AddEntry(c: Collected, e: Entry): Collected {
    match e
    case ColumnEntry(table, item) =>
      c.(columns := c.columns[table := (if table in c.columns then c.columns[table] else []) + [item]])
    case KeyEntry(table, column) =>
      c.(keys := c.keys[table := (if table in c.keys then c.keys[table] else {}) + {column}])
  }

  function Collect(entries: seq<Entry>): Collected {
    if entries == [] then Collected(map[], map[]) else AddEntry(Collect(entries[..|entries| - 1]), entries[|entries| - 1])
  }

  function RankedColumns(items: seq<Item>): seq<LiveColumn> {
    seq(|items|, rank requires 0 <= rank < |items| =>
      LiveColumn(items[rank].name, items[rank].typ, items[rank].nullable, items[rank].generated, rank, items[rank].charset))
  }

  // The columns of a table, ranked densely in tuple order, and its key.
  function TableOf(items: seq<Item>, key: set<string>): LiveTable {
    LiveTable(RankedColumns(Sort(ItemLe, items)), key)
  }

  function Tables(c: Collected): map<string, LiveTable> {
    map n | n in c.columns :: TableOf(c.columns[n], if n in c.keys then c.keys[n] else {})
  }

  // ---- MySQL rows ----

  datatype Row = Row(
    part: string, schema: string, table: string, column: string, ordinal: int,
    typ: string, isNullable: string, extra: string, charset: string)

  function Exact(wanted: seq<string>): (m: map<(string, string), string>)
    ensures forall p :: p in m <==> Requested(wanted, p.0, p.1)
    ensures forall p | p in m :: m[p] in wanted && SplitQualified(m[p]) == Some(p)
  {
    if wanted == [] then map[] else
      var init, name := wanted[..|wanted| - 1], wanted[|wanted| - 1];
      assert wanted == init + [name];
      assert forall s, t :: Requested(wanted, s, t) <==> Requested(init, s, t) || SplitQualified(name) == Some((s, t)) by {
        forall s, t ensures Requested(wanted, s, t) <==> Requested(init, s, t) || SplitQualified(name) == Some((s, t)) {
          RequestedStep(init, name, s, t);
        }
      }
      var m := Exact(init);
      match SplitQualified(name)
      case None => m
      case Some(parts) => m[parts := name]
  }

  // Names whose spelling differs only in case, the last one winning; a repeated name keeps its
  // first place.
  function CaseFolded(wanted: seq<string>): map<(string, string), string> {
    if wanted == [] then map[] else
      var m, name := CaseFolded(wanted[..|wanted| - 1]), wanted[|wanted| - 1];
      if name in wanted[..|wanted| - 1] then m else
      match SplitQualified(name)
      case None => m
      case Some((schema, table)) => m[(Lower(schema), Lower(table)) := name]
  }

  // The requested name a row belongs to.
  function NameOf(row: Row, exact: map<(string, string), string>, folded: map<(string, string), string>): Option<string> {
    if (row.schema, row.table) in exact then Some(exact[(row.schema, row.table)])
    else if (Lower(row.schema), Lower(row.table)) in folded then Some(folded[(Lower(row.schema), Lower(row.table))])
    else None
  }

  // A schema and table, its case folded.
  function Folded(at: (string, string)): (string, string) {
    (Lower(at.0), Lower(at.1))
  }

  // The requested name of a place: the one that spells it, or else the last one that differs
  // from it only in case.
  function NameAt(wanted: seq<string>, at: (string, string)): Option<string> {
    if at in Exact(wanted) then Some(Exact(wanted)[at])
    else if Folded(at) in CaseFolded(wanted) then Some(CaseFolded(wanted)[Folded(at)])
    else None
  }

  function ItemOf(row: Row): Item {
    var extra := Lower(row.extra);
    Item(row.ordinal, row.column, row.typ, Lower(row.isNullable) == "yes",
         Contains(extra, "virtual generated") || Contains(extra, "stored generated"), row.charset)
  }

  function MySqlEntry(row: Row, exact: map<(string, string), string>, folded: map<(string, string), string>): seq<Entry> {
    match NameOf(row, exact, folded)
    case None => []
    case Some(name) =>
      if row.column == "" then [] else if row.part == "k" then [KeyEntry(name, row.column)] else [ColumnEntry(name, ItemOf(row))]
  }

  function MySqlReader(wanted: seq<string>): Row -> seq<Entry> {
    var exact, folded := Exact(wanted), CaseFolded(wanted);
    row => MySqlEntry(row, exact, folded)
  }

  function MySqlTables(rows: seq<Row>, wanted: seq<string>): map<string, LiveTable> {
    Tables(Collect(FlatMap(MySqlReader(wanted), rows)))
  }

  lemma {:induction false} CollectAppend(entries: seq<Entry>, more: seq<Entry>)
    requires |more| <= 1
    ensures Collect(entries + more) == if more == [] then Collect(entries) else AddEntry(Collect(entries), more[0])
  {
    if more == [] {
      assert entries + more == entries;
    } else {
      assert (entries + more)[..|entries + more| - 1] == entries;
    }
  }

  method MapMySqlRows(rows: seq<Row>, wanted: seq<string>) returns (tables: map<string, LiveTable>)
    ensures tables == MySqlTables(rows, wanted)
  {
    var exact, folded := Exact(wanted), CaseFolded(wanted);
    var columns: map<string, seq<Item>>, keys: map<string, set<string>> := map[], map[];
    for i := 0 to |rows|
      invariant Collected(columns, keys) == Collect(FlatMap(MySqlReader(wanted), rows[..i]))
    {
      var row := rows[i];
      assert rows[..i + 1][..i] == rows[..i];
      assert FlatMap(MySqlReader(wanted), rows[..i + 1]) == FlatMap(MySqlReader(wanted), rows[..i]) + MySqlEntry(row, exact, folded);
      CollectAppend(FlatMap(MySqlReader(wanted), rows[..i]), MySqlEntry(row, exact, folded));
      hide FlatMap, Collect, MySqlReader, ItemOf;
      var name := NameOf(row, exact, folded);
      if name.None? || row.column == "" {
        continue;
      }
      if row.part == "k" {
        keys := keys[name.value := (if name.value in keys then keys[name.value] else {}) + {row.column}];
        continue;
      }
      columns := columns[name.value := (if name.value in columns then columns[name.value] else []) + [ItemOf(row)]];
    }
    assert rows[..|rows|] == rows;
    tables := Tables(Collected(columns, keys));
  }

  // ---- PostgreSQL rows ----

  datatype PgRow = PgRow(name: string, column: string, attnum: int, typ: string, notNull: bool, generated: string, inKey: bool)

  function PgReader(row: PgRow): seq<Entry> {
    if row.name == "" || row.column == "" then [] else
      [ColumnEntry(row.name, Item(row.attnum, row.column, row.typ, !row.notNull, row.generated != "", ""))]
      + if row.inKey then [KeyEntry(row.name, row.column)] else []
  }

  function PgTables(rows: seq<PgRow>): map<string, LiveTable> {
    Tables(Collect(FlatMap(PgReader, rows)))
  }

  // One row's effect on the two dictionaries.
  lemma {:induction false} PgRowCollects(before: seq<Entry>, row: PgRow, columns: map<string, seq<Item>>, keys: map<string, set<string>>)
    requires Collected(columns, keys) == Collect(before)
    ensures row.name == "" || row.column == "" ==> Collect(before + PgReader(row)) == Collected(columns, keys)
    ensures row.name != "" && row.column != "" ==>
              Collect(before + PgReader(row)) == Collected(
                columns[row.name := (if row.name in columns then columns[row.name] else [])
                                    + [Item(row.attnum, row.column, row.typ, !row.notNull, row.generated != "", "")]],
                if row.inKey then keys[row.name := (if row.name in keys then keys[row.name] else {}) + {row.column}] else keys)
  {
    if row.name == "" || row.column == "" {
      assert before + PgReader(row) == before;
    } else {
      var column, key := ColumnEntry(row.name, Item(row.attnum, row.column, row.typ, !row.notNull, row.generated != "", "")), KeyEntry(row.name, row.column);
      CollectAppend(before, [column]);
      if row.inKey {
        assert before + PgReader(row) == before + [column] + [key];
        CollectAppend(before + [column], [key]);
      } else {
        assert before + PgReader(row) == before + [column];
      }
    }
  }

  method MapPgRows(rows: seq<PgRow>) returns (tables: map<string, LiveTable>)
    ensures tables == PgTables(rows)
  {
    var columns: map<string, seq<Item>>, keys: map<string, set<string>> := map[], map[];
    for i := 0 to |rows|
      invariant Collected(columns, keys) == Collect(FlatMap(PgReader, rows[..i]))
    {
      var row := rows[i];
      FlatMapNext(PgReader, rows, i);
      hide *;
      PgRowCollects(FlatMap(PgReader, rows[..i]), row, columns, keys);
      if row.name == "" || row.column == "" {
        continue;
      }
      var item := Item(row.attnum, row.column, row.typ, !row.notNull, row.generated != "", "");
      columns := columns[row.name := (if row.name in columns then columns[row.name] else []) + [item]];
      if row.inKey {
        keys := keys[row.name := (if row.name in keys then keys[row.name] else {}) + {row.column}];
      }
    }
    assert rows[..|rows|] == rows;
    tables := Tables(Collected(columns, keys));
  }

  // ---- what the fold returns, name by name ----

  function ItemsNamed(entries: seq<Entry>, name: string): seq<Item> {
    FlatMap(NamedItem(name), entries)
  }

  function NamedItem(name: string): Entry -> seq<Item> {
    (e: Entry) => if e.ColumnEntry? && e.table == name then [e.item] else []
  }

  function KeyNamed(entries: seq<Entry>, name: string): set<string> {
    set e | e in entries && e.KeyEntry? && e.table == name :: e.column
  }

  function KeyIn(keys: map<string, set<string>>, name: string): set<string> {
    if name in keys then keys[name] else {}
  }

  lemma {:induction false} CollectNamed(entries: seq<Entry>, name: string)
    ensures var c := Collect(entries);
            && (name in c.columns <==> ItemsNamed(entries, name) != [])
            && (name in c.columns ==> c.columns[name] == ItemsNamed(entries, name))
            && KeyIn(c.keys, name) == KeyNamed(entries, name)
  {
    if entries != [] {
      var init, e := entries[..|entries| - 1], entries[|entries| - 1];
      assert entries == init + [e];
      CollectNamed(init, name);
      assert KeyNamed(entries, name) == KeyNamed(init, name) + if e.KeyEntry? && e.table == name then {e.column} else {};
    }
  }

  // A table is in the result exactly when it has a column; it holds all of its columns,
  // ranked densely, and all of its key columns.
  lemma {:induction false} TablesNamed(entries: seq<Entry>, name: string)
    ensures var tables := Tables(Collect(entries));
            && (name in tables <==> ItemsNamed(entries, name) != [])
            && (name in tables ==> tables[name] == TableOf(ItemsNamed(entries, name), KeyNamed(entries, name)))
  {
    hide Collect, ItemsNamed, KeyNamed, TableOf;
    CollectNamed(entries, name);
  }

  // The order of the entries does not matter.
  lemma {:induction false} SameEntriesSameTables(a: seq<Entry>, b: seq<Entry>)
    requires multiset(a) == multiset(b)
    ensures Tables(Collect(a)) == Tables(Collect(b))
  {
    hide Collect, Tables, FlatMap, TableOf, KeyNamed, NamedItem, Sort;
    var x, y := Tables(Collect(a)), Tables(Collect(b));
    forall n ensures (n in x <==> n in y) && (n in x ==> x[n] == y[n]) {
      TablesNamed(a, n);
      TablesNamed(b, n);
      FlatMapPermutes(NamedItem(n), a, b);
      SameKeyNamed(a, b, n);
      SameTable(ItemsNamed(a, n), ItemsNamed(b, n), KeyNamed(a, n));
      assert ItemsNamed(a, n) == [] <==> |multiset(ItemsNamed(a, n))| == 0;
      assert ItemsNamed(b, n) == [] <==> |multiset(ItemsNamed(b, n))| == 0;
    }
  }

  lemma SameKeyNamed(a: seq<Entry>, b: seq<Entry>, n: string)
    requires multiset(a) == multiset(b)
    ensures KeyNamed(a, n) == KeyNamed(b, n)
  {
    assert forall e :: e in a <==> e in multiset(a);
    assert forall e :: e in b <==> e in multiset(b);
  }

  lemma SameTable(a: seq<Item>, b: seq<Item>, key: set<string>)
    requires multiset(a) == multiset(b)
    ensures TableOf(a, key) == TableOf(b, key)
  {
    ItemLeIsOrder();
    SortOfPermutation(ItemLe, a, b);
  }

  // The fold reads the rows in any order alike, on both engines.
  lemma RowOrderDoesNotMatter(rows: seq<Row>, shuffled: seq<Row>, wanted: seq<string>, pgRows: seq<PgRow>, pgShuffled: seq<PgRow>)
    ensures multiset(rows) == multiset(shuffled) ==> MySqlTables(rows, wanted) == MySqlTables(shuffled, wanted)
    ensures multiset(pgRows) == multiset(pgShuffled) ==> PgTables(pgRows) == PgTables(pgShuffled)
  {
    hide FlatMap, MySqlReader, PgReader, Tables, Collect;
    if multiset(rows) == multiset(shuffled) {
      FlatMapPermutes(MySqlReader(wanted), rows, shuffled);
      SameEntriesSameTables(FlatMap(MySqlReader(wanted), rows), FlatMap(MySqlReader(wanted), shuffled));
    }
    if multiset(pgRows) == multiset(pgShuffled) {
      FlatMapPermutes(PgReader, pgRows, pgShuffled);
      SameEntriesSameTables(FlatMap(PgReader, pgRows), FlatMap(PgReader, pgShuffled));
    }
  }

  // A row without a column, or of no requested table, adds nothing.
  lemma RowsWithoutColumnAreSkipped(front: seq<Row>, row: Row, back: seq<Row>, wanted: seq<string>,
                                    pgFront: seq<PgRow>, pgRow: PgRow, pgBack: seq<PgRow>)
    ensures row.column == "" || NameAt(wanted, (row.schema, row.table)).None? ==>
              MySqlTables(front + [row] + back, wanted) == MySqlTables(front + back, wanted)
    ensures pgRow.name == "" || pgRow.column == "" ==> PgTables(pgFront + [pgRow] + pgBack) == PgTables(pgFront + pgBack)
  {
    FlatMapSplit(MySqlReader(wanted), front, row, back);
    FlatMapConcat(MySqlReader(wanted), front, back);
    FlatMapSplit(PgReader, pgFront, pgRow, pgBack);
    FlatMapConcat(PgReader, pgFront, pgBack);
    NothingFrom(row, wanted, pgRow);
    hide FlatMap, Tables, Collect, MySqlReader, PgReader, NameAt;
    assert FlatMap(MySqlReader(wanted), front) + [] == FlatMap(MySqlReader(wanted), front);
    assert FlatMap(PgReader, pgFront) + [] == FlatMap(PgReader, pgFront);
  }

  lemma NothingFrom(row: Row, wanted: seq<string>, pgRow: PgRow)
    ensures row.column == "" || NameAt(wanted, (row.schema, row.table)).None? ==> MySqlReader(wanted)(row) == []
    ensures pgRow.name == "" || pgRow.column == "" ==> PgReader(pgRow) == []
  {
    hide Exact, CaseFolded, ItemOf;
  }

  // ---- reading back a catalog ----

  // A catalog column with its ordinal position, which may leave gaps.
  datatype CatalogColumn = CatalogColumn(name: string, ordinal: int, typ: string, isNullable: string, extra: string, charset: string)

  datatype CatalogTable = CatalogTable(columns: seq<CatalogColumn>, key: seq<string>)

  type Catalog = map<(string, string), CatalogTable>

  predicate ValidTable(t: CatalogTable) {
    && (forall i, j | 0 <= i < j < |t.columns| :: t.columns[i].ordinal < t.columns[j].ordinal)
    && (forall c | c in t.columns :: c.name != "")
    && (forall n | n in t.key :: n != "")
  }

  function ColumnRow(at: (string, string), c: CatalogColumn): Row {
    Row("c", at.0, at.1, c.name, c.ordinal, c.typ, c.isNullable, c.extra, c.charset)
  }

  function KeyRow(at: (string, string), n: string, seqInIndex: nat): Row {
    Row("k", at.0, at.1, n, seqInIndex, "", "", "", "")
  }

  function ColumnRows(at: (string, string), columns: seq<CatalogColumn>): seq<Row> {
    if columns == [] then [] else ColumnRows(at, columns[..|columns| - 1]) + [ColumnRow(at, columns[|columns| - 1])]
  }

  function KeyRows(at: (string, string), key: seq<string>): seq<Row> {
    if key == [] then [] else KeyRows(at, key[..|key| - 1]) + [KeyRow(at, key[|key| - 1], |key|)]
  }

  function TableRows(at: (string, string), t: CatalogTable): seq<Row> {
    ColumnRows(at, t.columns) + KeyRows(at, t.key)
  }

  function At(at: (string, string)): Row -> seq<Row> {
    (row: Row) => if (row.schema, row.table) == at then [row] else []
  }

  // Whether the server takes a place as selected: as the statement spells it, or, where names
  // are compared without case (`folding`), in any spelling.
  ghost predicate Reached(st: Statement, at: (string, string), folding: bool) {
    Selects(st, at.0, at.1) || (folding && exists p: (string, string) :: Selects(st, p.0, p.1) && Folded(p) == Folded(at))
  }

  // Such a server has no two tables that differ only in case.
  ghost predicate ValidCatalog(catalog: Catalog, folding: bool) {
    && (forall at | at in catalog :: ValidTable(catalog[at]))
    && (folding ==> forall a, b | a in catalog && b in catalog && Folded(a) == Folded(b) :: a == b)
  }

  // The server's answer: of every table the statement reaches, each row once, in any order
  // and interleaved; nothing else.
  ghost predicate Answers(rows: seq<Row>, catalog: Catalog, st: Statement, folding: bool) {
    forall at :: multiset(FlatMap(At(at), rows))
      == if at in catalog && Reached(st, at, folding) then multiset(TableRows(at, catalog[at])) else multiset{}
  }

  // A column as the live table has it.
  function Described(c: CatalogColumn): Item {
    ItemOf(ColumnRow(("", ""), c))
  }

  function Items(columns: seq<CatalogColumn>): seq<Item> {
    if columns == [] then [] else Items(columns[..|columns| - 1]) + [Described(columns[|columns| - 1])]
  }

  // What a live column must say of a catalog column, field by field: it is nullable exactly for
  // YES and generated exactly for an EXTRA with VIRTUAL GENERATED or STORED GENERATED in it,
  // whatever their case.
  ghost predicate Shows(live: LiveColumn, c: CatalogColumn, i: int) {
    && live.name == c.name && live.typ == c.typ && live.charset == c.charset && live.position == i
    && (live.nullable <==> SameLetters(c.isNullable, "YES"))
    && (live.generated <==> Mentions(c.extra, "VIRTUAL GENERATED") || Mentions(c.extra, "STORED GENERATED"))
  }

  ghost predicate Mentions(text: string, words: string) {
    exists i :: MentionedAt(text, words, i)
  }

  predicate MentionedAt(text: string, words: string, i: int) {
    0 <= i <= |text| - |words| && SameLetters(text[i..i + |words|], words)
  }

  // The columns in ordinal order, each shown in its place 0, 1, 2, ..., and the key set.
  ghost predicate Depicts(live: LiveTable, t: CatalogTable) {
    && |live.columns| == |t.columns|
    && (forall i | 0 <= i < |t.columns| :: Shows(live.columns[i], t.columns[i], i))
    && live.primaryKey == set n | n in t.key
  }

  lemma MentionsIs(text: string, words: string)
    ensures Mentions(text, words) <==> Contains(Lower(text), Lower(words))
  {
    ContainsExactly(Lower(text), Lower(words));
    if i :| MentionedAt(text, words, i) {
      LowerExactly(text[i..i + |words|], words);
      assert Lower(text)[i..][..|words|] == Lower(text[i..i + |words|]);
      assert Lower(words) <= Lower(text)[i..];
    }
    if i :| 0 <= i <= |Lower(text)| && Lower(words) <= Lower(text)[i..] {
      assert Lower(text[i..i + |words|]) == Lower(text)[i..][..|words|] == Lower(words);
      LowerExactly(text[i..i + |words|], words);
      assert MentionedAt(text, words, i);
    }
  }

  // The values the server gives.
  lemma ShownValues(live: LiveColumn, c: CatalogColumn, i: int)
    requires Shows(live, c, i)
    ensures c.isNullable == "YES" ==> live.nullable
    ensures c.isNullable == "NO" ==> !live.nullable
    ensures c.extra == "VIRTUAL GENERATED" || c.extra == "STORED GENERATED" ==> live.generated
    ensures c.extra == "" || c.extra == "auto_increment" || c.extra == "DEFAULT_GENERATED" ==> !live.generated
  {
    if c.extra == "VIRTUAL GENERATED" || c.extra == "STORED GENERATED" {
      assert c.extra[0..0 + |c.extra|] == c.extra;
      assert MentionedAt(c.extra, c.extra, 0);
    } else if c.extra == "DEFAULT_GENERATED" {
      forall j ensures !MentionedAt(c.extra, "STORED GENERATED", j) && !MentionedAt(c.extra, "VIRTUAL GENERATED", j) {
        NotDefault(c.extra, j);
      }
    }
  }

  // The underscore stands where the words have another character.
  lemma NotDefault(extra: string, j: int)
    requires extra == "DEFAULT_GENERATED"
    ensures !MentionedAt(extra, "STORED GENERATED", j) && !MentionedAt(extra, "VIRTUAL GENERATED", j)
  {
    if 0 <= j <= 1 { assert extra[j..j + 16][0] == extra[j]; }
    if j == 0 { assert extra[0..0 + 17][0] == 'D'; }
  }

  lemma DescribedShows(c: CatalogColumn, i: int)
    ensures var x := Described(c); Shows(LiveColumn(x.name, x.typ, x.nullable, x.generated, i, x.charset), c, i)
  {
    hide Lower, Contains, Mentions, SameLetters;
    LoweredWords();
    LowerExactly(c.isNullable, "YES");
    MentionsIs(c.extra, "VIRTUAL GENERATED");
    MentionsIs(c.extra, "STORED GENERATED");
  }

  lemma LoweredWords()
    ensures Lower("YES") == "yes"
    ensures Lower("VIRTUAL GENERATED") == "virtual generated" && Lower("STORED GENERATED") == "stored generated"
  {
  }

  lemma {:induction false} DescribeDepicts(t: CatalogTable)
    ensures Depicts(Describe(t), t)
  {
    ItemsAre(t.columns);
    hide Described, Shows, Items;
    forall i | 0 <= i < |t.columns| ensures Shows(Describe(t).columns[i], t.columns[i], i) {
      DescribedShows(t.columns[i], i);
    }
  }

  lemma {:induction false} ItemsAre(columns: seq<CatalogColumn>)
    ensures |Items(columns)| == |columns|
    ensures forall i | 0 <= i < |columns| :: Items(columns)[i] == Described(columns[i])
  {
    hide Described;
    if columns != [] { ItemsAre(columns[..|columns| - 1]); }
  }

  // The columns in ordinal order with ranks 0, 1, 2, ..., and the key set.
  function Describe(t: CatalogTable): LiveTable {
    LiveTable(RankedColumns(Items(t.columns)), set n | n in t.key)
  }

  lemma {:induction false} ItemsAscend(columns: seq<CatalogColumn>)
    requires forall i, j | 0 <= i < j < |columns| :: columns[i].ordinal < columns[j].ordinal
    ensures |Items(columns)| == |columns|
    ensures forall i | 0 <= i < |columns| :: Items(columns)[i] == Described(columns[i]) && Items(columns)[i].ordinal == columns[i].ordinal
    ensures Sorted(ItemLe, Items(columns))
  {
    hide Contains, StringLe;
    if columns != [] { ItemsAscend(columns[..|columns| - 1]); }
  }

  lemma NothingRead(read: Row -> seq<Entry>, name: string)
    ensures ItemsNamed(FlatMap(read, []), name) == [] && KeyNamed(FlatMap(read, []), name) == {}
  {
  }

  lemma {:induction false} ReadsRow(row: Row, name: string, wanted: seq<string>)
    requires NameAt(wanted, (row.schema, row.table)) == Some(name) && row.column != ""
    ensures MySqlReader(wanted)(row) == [if row.part == "k" then KeyEntry(name, row.column) else ColumnEntry(name, ItemOf(row))]
  {
    hide Exact, CaseFolded, ItemOf;
  }

  lemma {:induction false} ReadColumns(at: (string, string), columns: seq<CatalogColumn>, name: string, wanted: seq<string>)
    requires NameAt(wanted, at) == Some(name)
    requires forall c | c in columns :: c.name != ""
    ensures var entries := FlatMap(MySqlReader(wanted), ColumnRows(at, columns));
            ItemsNamed(entries, name) == Items(columns) && KeyNamed(entries, name) == {}
  {
    hide FlatMap, MySqlReader, ItemsNamed, KeyNamed, Exact, ItemOf;
    if columns == [] {
      NothingRead(MySqlReader(wanted), name);
    } else {
      var init, c := columns[..|columns| - 1], columns[|columns| - 1];
      assert c in columns;
      assert forall d | d in init :: d in columns;
      ReadColumns(at, init, name, wanted);
      var row := ColumnRow(at, c);
      SameItem(at, c);
      ReadsRow(row, name, wanted);
      AppendRow(MySqlReader(wanted), ColumnRows(at, init), row, ColumnEntry(name, ItemOf(row)), name);
    }
  }

  lemma SameItem(at: (string, string), c: CatalogColumn)
    ensures ItemOf(ColumnRow(at, c)) == Described(c)
  {
    hide Lower, Contains;
  }

  lemma {:induction false} ReadKey(at: (string, string), key: seq<string>, name: string, wanted: seq<string>)
    requires NameAt(wanted, at) == Some(name)
    requires forall n | n in key :: n != ""
    ensures var entries := FlatMap(MySqlReader(wanted), KeyRows(at, key));
            ItemsNamed(entries, name) == [] && KeyNamed(entries, name) == set n | n in key
  {
    hide FlatMap, MySqlReader, ItemsNamed, KeyNamed, Exact, ItemOf;
    if key == [] {
      NothingRead(MySqlReader(wanted), name);
    } else {
      var init, n := key[..|key| - 1], key[|key| - 1];
      assert key == init + [n];
      assert n in key && forall m | m in init :: m in key;
      ReadKey(at, init, name, wanted);
      var row := KeyRow(at, n, |key|);
      ReadsRow(row, name, wanted);
      AppendRow(MySqlReader(wanted), KeyRows(at, init), row, KeyEntry(name, n), name);
      assert (set m | m in key) == (set m | m in init) + {n};
    }
  }

  lemma {:induction false} AppendRow(read: Row -> seq<Entry>, rows: seq<Row>, row: Row, e: Entry, name: string)
    requires read(row) == [e] && e.table == name
    ensures var before, after := FlatMap(read, rows), FlatMap(read, rows + [row]);
            && ItemsNamed(after, name) == ItemsNamed(before, name) + (if e.ColumnEntry? then [e.item] else [])
            && KeyNamed(after, name) == KeyNamed(before, name) + (if e.KeyEntry? then {e.column} else {})
  {
    assert (rows + [row])[..|rows|] == rows;
    var before := FlatMap(read, rows);
    assert FlatMap(read, rows + [row]) == before + [e];
    assert (before + [e])[..|before|] == before;
    assert NamedItem(name)(e) == if e.ColumnEntry? then [e.item] else [];
    KeyAppend(before, e, name);
  }

  lemma KeyAppend(before: seq<Entry>, e: Entry, name: string)
    ensures KeyNamed(before + [e], name) == KeyNamed(before, name) + (if e.KeyEntry? && e.table == name then {e.column} else {})
  {
  }

  lemma NamedConcat(a: seq<Entry>, b: seq<Entry>, name: string)
    ensures ItemsNamed(a + b, name) == ItemsNamed(a, name) + ItemsNamed(b, name)
    ensures KeyNamed(a + b, name) == KeyNamed(a, name) + KeyNamed(b, name)
  {
    FlatMapConcat(NamedItem(name), a, b);
    forall x | x in KeyNamed(a, name) + KeyNamed(b, name) ensures x in KeyNamed(a + b, name) {
      var e :| (e in a || e in b) && e.KeyEntry? && e.table == name && e.column == x;
      assert e in a + b;
    }
  }

  predicate NotEntered(entries: seq<Entry>, name: string) {
    ItemsNamed(entries, name) == [] && KeyNamed(entries, name) == {}
  }

  // What the rows say of a name is said by those picked, when the others say nothing of it.
  lemma {:induction false} NamedFromPicked<R>(read: R -> seq<Entry>, pick: R -> seq<R>, rows: seq<R>, name: string)
    requires forall row | row in rows :: pick(row) == [row] || (pick(row) == [] && NotEntered(read(row), name))
    ensures var all, here := FlatMap(read, rows), FlatMap(read, FlatMap(pick, rows));
            ItemsNamed(all, name) == ItemsNamed(here, name) && KeyNamed(all, name) == KeyNamed(here, name)
  {
    hide *;
    if rows == [] {
      NothingMapped(pick);
    } else {
      var init, row := rows[..|rows| - 1], rows[|rows| - 1];
      assert row in rows;
      assert forall r | r in init :: r in rows;
      NamedFromPicked(read, pick, init, name);
      assert rows == init + [row];
      PickedStep(read, pick, init, row, name);
    }
  }

  lemma {:induction false} PickedStep<R>(read: R -> seq<Entry>, pick: R -> seq<R>, init: seq<R>, row: R, name: string)
    requires pick(row) == [row] || (pick(row) == [] && NotEntered(read(row), name))
    requires ItemsNamed(FlatMap(read, init), name) == ItemsNamed(FlatMap(read, FlatMap(pick, init)), name)
    requires KeyNamed(FlatMap(read, init), name) == KeyNamed(FlatMap(read, FlatMap(pick, init)), name)
    ensures var all, here := FlatMap(read, init + [row]), FlatMap(read, FlatMap(pick, init + [row]));
            ItemsNamed(all, name) == ItemsNamed(here, name) && KeyNamed(all, name) == KeyNamed(here, name)
  {
    assert NotEntered(read(row), name) ==> ItemsNamed(read(row), name) == [] && KeyNamed(read(row), name) == {};
    hide *;
    var there := FlatMap(pick, init);
    FlatMapConcat(read, init, [row]);
    FlatMapConcat(pick, init, [row]);
    FlatMapConcat(read, there, [row]);
    OneMapped(read, row);
    OneMapped(pick, row);
    NamedConcat(FlatMap(read, init), read(row), name);
    NamedConcat(FlatMap(read, there), read(row), name);
    if pick(row) == [] {
      assert FlatMap(pick, init + [row]) == there;
    }
  }

  // When one place only has a name, the rows of the name are the rows at that place.
  lemma {:induction false} RowsOfName(rows: seq<Row>, at: (string, string), name: string, wanted: seq<string>)
    requires forall row | row in rows :: NameAt(wanted, (row.schema, row.table)) == Some(name) <==> (row.schema, row.table) == at
    ensures var all, here := FlatMap(MySqlReader(wanted), rows), FlatMap(MySqlReader(wanted), FlatMap(At(at), rows));
            ItemsNamed(all, name) == ItemsNamed(here, name) && KeyNamed(all, name) == KeyNamed(here, name)
  {
    hide FlatMap, MySqlReader, ItemsNamed, KeyNamed, NameAt, At;
    forall row | row in rows
      ensures At(at)(row) == [row] || (At(at)(row) == [] && NotEntered(MySqlReader(wanted)(row), name))
    {
      AtIs(at, row);
      if (row.schema, row.table) != at { OtherName(row, name, wanted); }
    }
    NamedFromPicked(MySqlReader(wanted), At(at), rows, name);
  }

  lemma AtIs(at: (string, string), row: Row)
    ensures At(at)(row) == if (row.schema, row.table) == at then [row] else []
  {
  }

  lemma OneMapped<A, B>(f: A -> seq<B>, x: A)
    ensures FlatMap(f, [x]) == f(x)
  {
    assert [x][..0] == [];
  }

  lemma {:induction false} OtherName(row: Row, name: string, wanted: seq<string>)
    requires NameAt(wanted, (row.schema, row.table)) != Some(name)
    ensures ItemsNamed(MySqlReader(wanted)(row), name) == [] && KeyNamed(MySqlReader(wanted)(row), name) == {}
  {
    hide Exact, CaseFolded, ItemOf;
    var entries := MySqlReader(wanted)(row);
    if entries != [] {
      OneMapped(NamedItem(name), entries[0]);
      assert entries == [entries[0]];
    }
  }

  lemma {:induction false} RowIsAt(rows: seq<Row>, row: Row)
    requires row in rows
    ensures row in FlatMap(At((row.schema, row.table)), rows)
  {
    if row in rows[..|rows| - 1] {
      RowIsAt(rows[..|rows| - 1], row);
    }
  }

  // The table of a name, from the rows at its place in any order.
  lemma {:induction false} ReadTable(rows: seq<Row>, at: (string, string), t: CatalogTable, name: string, wanted: seq<string>)
    requires ValidTable(t) && NameAt(wanted, at) == Some(name)
    requires multiset(rows) == multiset(TableRows(at, t))
    ensures var entries := FlatMap(MySqlReader(wanted), rows);
            && (ItemsNamed(entries, name) == [] <==> t.columns == [])
            && TableOf(ItemsNamed(entries, name), KeyNamed(entries, name)) == Describe(t)
  {
    hide *;
    var read := MySqlReader(wanted);
    var entries, direct := FlatMap(read, rows), FlatMap(read, TableRows(at, t));
    var items, key := Items(t.columns), set n | n in t.key;
    ReadDirect(at, t, name, wanted);
    FlatMapPermutes(read, rows, TableRows(at, t));
    ItemsPermuted(entries, direct, name);
    SameKeyNamed(entries, direct, name);
    SameTable(ItemsNamed(entries, name), items, key);
    DescribeIs(t);
    assert multiset(ItemsNamed(entries, name)) == multiset(items);
    assert |ItemsNamed(entries, name)| == |multiset(items)| == |items|;
  }

  lemma {:induction false} ReadDirect(at: (string, string), t: CatalogTable, name: string, wanted: seq<string>)
    requires ValidTable(t) && NameAt(wanted, at) == Some(name)
    ensures var direct := FlatMap(MySqlReader(wanted), TableRows(at, t));
            ItemsNamed(direct, name) == Items(t.columns) && KeyNamed(direct, name) == set n | n in t.key
  {
    hide Exact, MySqlReader, FlatMap, ItemsNamed, KeyNamed, Items, ColumnRows, KeyRows;
    var read := MySqlReader(wanted);
    ReadColumns(at, t.columns, name, wanted);
    ReadKey(at, t.key, name, wanted);
    FlatMapConcat(read, ColumnRows(at, t.columns), KeyRows(at, t.key));
    NamedConcat(FlatMap(read, ColumnRows(at, t.columns)), FlatMap(read, KeyRows(at, t.key)), name);
  }

  lemma ItemsPermuted(a: seq<Entry>, b: seq<Entry>, name: string)
    requires multiset(a) == multiset(b)
    ensures multiset(ItemsNamed(a, name)) == multiset(ItemsNamed(b, name))
  {
    hide FlatMap, NamedItem;
    FlatMapPermutes(NamedItem(name), a, b);
  }

  lemma DescribeIs(t: CatalogTable)
    requires ValidTable(t)
    ensures TableOf(Items(t.columns), set n | n in t.key) == Describe(t)
    ensures |Items(t.columns)| == |t.columns|
  {
    hide Items, Sort;
    ItemsAscend(t.columns);
    SortOfSorted(ItemLe, Items(t.columns));
  }

  // ---- which name a row reaches ----

  // The name at i, where it is first requested, folds to p.
  predicate SpellsAt(wanted: seq<string>, i: nat, p: (string, string)) {
    i < |wanted| && wanted[i] !in wanted[..i] && SplitQualified(wanted[i]).Some? && Folded(SplitQualified(wanted[i]).value) == p
  }

  // The last of the requested names that fold to p.
  predicate LastSpelling(wanted: seq<string>, i: nat, p: (string, string)) {
    SpellsAt(wanted, i, p) && forall j: nat | i < j < |wanted| :: !SpellsAt(wanted, j, p)
  }

  lemma {:induction false} CaseFoldedIsLast(wanted: seq<string>, p: (string, string))
    ensures p in CaseFolded(wanted) ==> exists i: nat :: LastSpelling(wanted, i, p)
    ensures p !in CaseFolded(wanted) ==> forall i: nat :: !SpellsAt(wanted, i, p)
    ensures forall i: nat | LastSpelling(wanted, i, p) :: p in CaseFolded(wanted) && CaseFolded(wanted)[p] == wanted[i]
  {
    hide SpellsAt, CaseFolded;
    if wanted == [] {
      NoneFolded(wanted, p);
    } else {
      var init, n := wanted[..|wanted| - 1], |wanted| - 1;
      CaseFoldedIsLast(init, p);
      CaseFoldedNext(wanted, p);
      forall i: nat ensures SpellsAt(wanted, i, p) <==> if i < n then SpellsAt(init, i, p) else i == n && SpellsAt(wanted, n, p) {
        SpellsBefore(wanted, i, p);
      }
      if SpellsAt(wanted, n, p) {
        assert LastSpelling(wanted, n, p);
      } else {
        forall i: nat ensures LastSpelling(wanted, i, p) <==> LastSpelling(init, i, p) { SameLast(wanted, i, p); }
      }
      hide LastSpelling;
    }
  }

  lemma {:induction false} NoneFolded(wanted: seq<string>, p: (string, string))
    requires wanted == []
    ensures p !in CaseFolded(wanted) && forall i: nat :: !SpellsAt(wanted, i, p)
  {
  }

  lemma SpellsBefore(wanted: seq<string>, i: nat, p: (string, string))
    requires wanted != []
    ensures var init, n := wanted[..|wanted| - 1], |wanted| - 1;
            SpellsAt(wanted, i, p) <==> if i < n then SpellsAt(init, i, p) else i == n && SpellsAt(wanted, n, p)
  {
    hide SplitQualified, Folded;
    if i < |wanted| - 1 { assert wanted[..|wanted| - 1][..i] == wanted[..i]; }
  }

  lemma CaseFoldedNext(wanted: seq<string>, p: (string, string))
    requires wanted != []
    ensures var init, n := wanted[..|wanted| - 1], |wanted| - 1;
            if SpellsAt(wanted, n, p) then p in CaseFolded(wanted) && CaseFolded(wanted)[p] == wanted[n]
            else (p in CaseFolded(wanted) <==> p in CaseFolded(init)) && (p in CaseFolded(wanted) ==> CaseFolded(wanted)[p] == CaseFolded(init)[p])
  {
    hide SplitQualified, Lower;
  }

  lemma SameLast(wanted: seq<string>, i: nat, p: (string, string))
    requires wanted != [] && !SpellsAt(wanted, |wanted| - 1, p)
    ensures LastSpelling(wanted, i, p) <==> LastSpelling(wanted[..|wanted| - 1], i, p)
  {
    hide SpellsAt;
    forall j: nat ensures SpellsAt(wanted, j, p) <==> j < |wanted| - 1 && SpellsAt(wanted[..|wanted| - 1], j, p) {
      SpellsBefore(wanted, j, p);
    }
    var init := wanted[..|wanted| - 1];
    if LastSpelling(init, i, p) {
      SpellsWithin(init, i, p);
      forall j: nat | i < j < |wanted| ensures !SpellsAt(wanted, j, p) {
        assert j < |init| ==> !SpellsAt(init, j, p);
      }
    }
    if LastSpelling(wanted, i, p) {
      forall j: nat | i < j < |init| ensures !SpellsAt(init, j, p) {
        assert !SpellsAt(wanted, j, p);
      }
      assert SpellsAt(init, i, p);
    }
  }

  lemma SpellsWithin(wanted: seq<string>, i: nat, p: (string, string))
    requires SpellsAt(wanted, i, p)
    ensures i < |wanted|
  {
  }

  // Of the requested names a row may stand for, it reaches exactly one: the one that spells
  // its table, or, when none does, the last one. So a row reaches the only name that differs
  // from it in case at most, and of two names that differ only in case one is always missed.
  lemma RowReachesExactly(wanted: seq<string>, at: (string, string), n: string)
    requires n in wanted && SplitQualified(n).Some? && Folded(SplitQualified(n).value) == Folded(at)
    ensures NameAt(wanted, at).Some?
    ensures NameAt(wanted, at) == Some(n) <==>
            || SplitQualified(n) == Some(at)
            || (!Requested(wanted, at.0, at.1) && exists j: nat :: LastSpelling(wanted, j, Folded(at)) && wanted[j] == n)
  {
    hide SplitQualified, Folded;
    CaseFoldedIsLast(wanted, Folded(at));
    var i := FirstAt(wanted, n);
    assert SpellsAt(wanted, i, Folded(at));
    hide SpellsAt, CaseFolded;
    if at in Exact(wanted) {
      assert SplitQualified(n) == Some(at) ==> n == Exact(wanted)[at] by {
        if SplitQualified(n) == Some(at) { SameSplit(n, Exact(wanted)[at]); }
      }
    } else {
      assert !Requested(wanted, at.0, at.1);
      assert SplitQualified(n) != Some(at);
    }
  }

  lemma {:induction false} FirstAt(wanted: seq<string>, n: string) returns (i: nat)
    requires n in wanted
    ensures i < |wanted| && wanted[i] == n && n !in wanted[..i]
  {
    var init := wanted[..|wanted| - 1];
    if n in init {
      i := FirstAt(init, n);
      assert wanted[..i] == init[..i];
    } else {
      i := |wanted| - 1;
    }
  }

  // What a place's name folds to, and that it is a requested one.
  lemma NameAtFolds(wanted: seq<string>, at: (string, string))
    requires NameAt(wanted, at).Some?
    ensures var n := NameAt(wanted, at).value;
            n in wanted && SplitQualified(n).Some? && Folded(SplitQualified(n).value) == Folded(at)
  {
    hide SplitQualified, Folded;
    if at !in Exact(wanted) {
      CaseFoldedIsLast(wanted, Folded(at));
      var i: nat :| LastSpelling(wanted, i, Folded(at));
    }
  }

  lemma NameAtRequested(wanted: seq<string>, at: (string, string))
    requires Requested(wanted, at.0, at.1)
    ensures NameAt(wanted, at).Some? && SplitQualified(NameAt(wanted, at).value) == Some(at)
  {
    hide SplitQualified;
  }

  // ---- the whole read ----

  // A catalog table whose rows come back under a name.
  ghost predicate Supplies(catalog: Catalog, st: Statement, folding: bool, wanted: seq<string>, at: (string, string), n: string) {
    at in catalog && Reached(st, at, folding) && NameAt(wanted, at) == Some(n)
  }

  // No name is supplied by two tables.
  lemma SuppliedOnce(names: seq<string>, wanted: seq<string>, st: Statement, catalog: Catalog, folding: bool,
                     a: (string, string), b: (string, string), n: string)
    requires forall s, t :: Selects(st, s, t) <==> Requested(names, s, t)
    requires forall m :: m in wanted <==> m in names && SplitQualified(m).Some?
    requires ValidCatalog(catalog, folding)
    requires Supplies(catalog, st, folding, wanted, a, n) && Supplies(catalog, st, folding, wanted, b, n)
    ensures a == b
  {
    WantedAreRequested(names, wanted);
    hide SplitQualified, Folded, Exact, CaseFolded, ValidTable, NameAt, Selects;
    NameAtFolds(wanted, a);
    NameAtFolds(wanted, b);
    if !folding {
      NameAtRequested(wanted, a);
      NameAtRequested(wanted, b);
    }
  }

  // Reading back a catalog: run against any catalog, whether the server compares names with
  // or without case, the statement built for the requested names and the fold of its answer,
  // whatever the row order and the ordinal gaps, return exactly the names that a table with a
  // column supplies, each as the catalog describes its table.
  lemma CatalogReadBack(names: seq<string>, wanted: seq<string>, st: Statement, catalog: Catalog, rows: seq<Row>, folding: bool)
    requires forall s, t :: Selects(st, s, t) <==> Requested(names, s, t)
    requires forall n :: n in wanted <==> n in names && SplitQualified(n).Some?
    requires ValidCatalog(catalog, folding)
    requires Answers(rows, catalog, st, folding)
    ensures forall n :: n in MySqlTables(rows, wanted) <==>
              exists at :: Supplies(catalog, st, folding, wanted, at, n) && catalog[at].columns != []
    ensures forall n, at | Supplies(catalog, st, folding, wanted, at, n) && catalog[at].columns != [] ::
              Depicts(MySqlTables(rows, wanted)[n], catalog[at])
  {
    hide MySqlTables, NameAt, Answers, Depicts, ValidCatalog, Selects, Reached, SplitQualified;
    forall n ensures n in MySqlTables(rows, wanted) <==> exists at :: Supplies(catalog, st, folding, wanted, at, n) && catalog[at].columns != [] {
      ReadsName(names, wanted, st, catalog, rows, folding, n);
    }
    forall n, at | Supplies(catalog, st, folding, wanted, at, n) && catalog[at].columns != []
      ensures n in MySqlTables(rows, wanted) && Depicts(MySqlTables(rows, wanted)[n], catalog[at])
    {
      ReadsSupplied(names, wanted, st, catalog, rows, folding, at, n);
    }
  }

  lemma ReadsName(names: seq<string>, wanted: seq<string>, st: Statement, catalog: Catalog, rows: seq<Row>, folding: bool, n: string)
    requires forall s, t :: Selects(st, s, t) <==> Requested(names, s, t)
    requires forall m :: m in wanted <==> m in names && SplitQualified(m).Some?
    requires ValidCatalog(catalog, folding) && Answers(rows, catalog, st, folding)
    ensures n in MySqlTables(rows, wanted) <==> exists at :: Supplies(catalog, st, folding, wanted, at, n) && catalog[at].columns != []
  {
    hide *;
    if at :| Supplies(catalog, st, folding, wanted, at, n) {
      ReadsSupplied(names, wanted, st, catalog, rows, folding, at, n);
      forall b | Supplies(catalog, st, folding, wanted, b, n) ensures b == at {
        SuppliedOnce(names, wanted, st, catalog, folding, b, at, n);
      }
    } else {
      forall row | row in rows ensures NameAt(wanted, (row.schema, row.table)) != Some(n) {
        RowsAreReached(rows, catalog, st, folding, row);
        assert !Supplies(catalog, st, folding, wanted, (row.schema, row.table), n);
        NotSupplied(catalog, st, folding, wanted, (row.schema, row.table), n);
      }
      NotNamed(rows, n, wanted);
      MySqlTablesNamed(rows, wanted, n);
    }
  }

  lemma NotSupplied(catalog: Catalog, st: Statement, folding: bool, wanted: seq<string>, at: (string, string), n: string)
    requires at in catalog && Reached(st, at, folding) && !Supplies(catalog, st, folding, wanted, at, n)
    ensures NameAt(wanted, at) != Some(n)
  {
    hide NameAt, Reached;
  }

  lemma RowsAreReached(rows: seq<Row>, catalog: Catalog, st: Statement, folding: bool, row: Row)
    requires Answers(rows, catalog, st, folding) && row in rows
    ensures (row.schema, row.table) in catalog && Reached(st, (row.schema, row.table), folding)
  {
    hide Reached, TableRows, FlatMap;
    RowIsAt(rows, row);
    assert row in multiset(FlatMap(At((row.schema, row.table)), rows));
  }

  lemma {:induction false} MySqlTablesNamed(rows: seq<Row>, wanted: seq<string>, n: string)
    ensures var entries := FlatMap(MySqlReader(wanted), rows);
            && (n in MySqlTables(rows, wanted) <==> ItemsNamed(entries, n) != [])
            && (n in MySqlTables(rows, wanted) ==>
                  MySqlTables(rows, wanted)[n] == TableOf(ItemsNamed(entries, n), KeyNamed(entries, n)))
  {
    TablesNamed(FlatMap(MySqlReader(wanted), rows), n);
    hide TableOf, ItemsNamed, KeyNamed, Collect, Tables, FlatMap, MySqlReader;
  }

  lemma ReadsSupplied(names: seq<string>, wanted: seq<string>, st: Statement, catalog: Catalog, rows: seq<Row>, folding: bool,
                      at: (string, string), n: string)
    requires forall s, t :: Selects(st, s, t) <==> Requested(names, s, t)
    requires forall m :: m in wanted <==> m in names && SplitQualified(m).Some?
    requires ValidCatalog(catalog, folding) && Answers(rows, catalog, st, folding)
    requires Supplies(catalog, st, folding, wanted, at, n)
    ensures n in MySqlTables(rows, wanted) <==> catalog[at].columns != []
    ensures n in MySqlTables(rows, wanted) ==> Depicts(MySqlTables(rows, wanted)[n], catalog[at])
  {
    assert multiset(FlatMap(At(at), rows)) == multiset(TableRows(at, catalog[at])) && ValidTable(catalog[at]) && NameAt(wanted, at) == Some(n);
    hide *;
    forall row | row in rows ensures NameAt(wanted, (row.schema, row.table)) == Some(n) <==> (row.schema, row.table) == at {
      var there := (row.schema, row.table);
      RowsAreReached(rows, catalog, st, folding, row);
      if NameAt(wanted, there) == Some(n) {
        IsSupplied(catalog, st, folding, wanted, there, n);
        SuppliedOnce(names, wanted, st, catalog, folding, there, at, n);
      }
    }
    RowsOfName(rows, at, n, wanted);
    ReadTable(FlatMap(At(at), rows), at, catalog[at], n, wanted);
    MySqlTablesNamed(rows, wanted, n);
    DescribeDepicts(catalog[at]);
  }

  lemma IsSupplied(catalog: Catalog, st: Statement, folding: bool, wanted: seq<string>, at: (string, string), n: string)
    requires at in catalog && Reached(st, at, folding) && NameAt(wanted, at) == Some(n)
    ensures Supplies(catalog, st, folding, wanted, at, n)
  {
  }

  // On a server that compares with case: exactly the requested tables that have a column.
  lemma ReadBackWithCase(names: seq<string>, wanted: seq<string>, st: Statement, catalog: Catalog, rows: seq<Row>)
    requires forall s, t :: Selects(st, s, t) <==> Requested(names, s, t)
    requires forall n :: n in wanted <==> n in names && SplitQualified(n).Some?
    requires ValidCatalog(catalog, false) && Answers(rows, catalog, st, false)
    ensures forall n :: n in MySqlTables(rows, wanted) <==>
              n in names && SplitQualified(n).Some? && SplitQualified(n).value in catalog && catalog[SplitQualified(n).value].columns != []
    ensures forall n | n in MySqlTables(rows, wanted) && SplitQualified(n).Some? && SplitQualified(n).value in catalog ::
              Depicts(MySqlTables(rows, wanted)[n], catalog[SplitQualified(n).value])
  {
    CatalogReadBack(names, wanted, st, catalog, rows, false);
    WantedAreRequested(names, wanted);
    hide SplitQualified, Exact, MySqlTables, Selects, Depicts, ValidCatalog, Answers, NameAt;
    forall n, at ensures Supplies(catalog, st, false, wanted, at, n) <==>
                         n in names && SplitQualified(n) == Some(at) && at in catalog
    {
      if Requested(wanted, at.0, at.1) {
        NameAtRequested(wanted, at);
        if SplitQualified(n) == Some(at) { SameSplit(n, NameAt(wanted, at).value); }
        if NameAt(wanted, at) == Some(n) { NameAtFolds(wanted, at); }
      }
    }
    forall n ensures (exists at :: Supplies(catalog, st, false, wanted, at, n) && catalog[at].columns != [])
                <==> n in names && SplitQualified(n).Some? && SplitQualified(n).value in catalog && catalog[SplitQualified(n).value].columns != []
    {
      if n in names && SplitQualified(n).Some? && SplitQualified(n).value in catalog && catalog[SplitQualified(n).value].columns != [] {
        assert Supplies(catalog, st, false, wanted, SplitQualified(n).value, n);
      }
    }
    forall n | n in MySqlTables(rows, wanted) && SplitQualified(n).Some? && SplitQualified(n).value in catalog
      ensures Depicts(MySqlTables(rows, wanted)[n], catalog[SplitQualified(n).value])
    {
      assert Supplies(catalog, st, false, wanted, SplitQualified(n).value, n);
    }
  }

  // On a server that compares without case, for requested names that do not differ only in
  // case: a name is never falsely missing, however its table is spelled.
  lemma ReadBackWithoutCase(names: seq<string>, wanted: seq<string>, st: Statement, catalog: Catalog, rows: seq<Row>, n: string, at: (string, string))
    requires forall s, t :: Selects(st, s, t) <==> Requested(names, s, t)
    requires forall m :: m in wanted <==> m in names && SplitQualified(m).Some?
    requires ValidCatalog(catalog, true) && Answers(rows, catalog, st, true)
    requires n in names && SplitQualified(n).Some? && at in catalog && Folded(SplitQualified(n).value) == Folded(at)
    requires forall m | m in names && SplitQualified(m).Some? && Folded(SplitQualified(m).value) == Folded(at) :: m == n
    ensures n in MySqlTables(rows, wanted) <==> catalog[at].columns != []
    ensures n in MySqlTables(rows, wanted) ==> Depicts(MySqlTables(rows, wanted)[n], catalog[at])
  {
    SpelledIsReached(names, wanted, st, n, at);
    hide *;
    NameAtFolds(wanted, at);
    IsSupplied(catalog, st, true, wanted, at, n);
    ReadsSupplied(names, wanted, st, catalog, rows, true, at, n);
  }

  lemma SpelledIsReached(names: seq<string>, wanted: seq<string>, st: Statement, n: string, at: (string, string))
    requires forall s, t :: Selects(st, s, t) <==> Requested(names, s, t)
    requires forall m :: m in wanted <==> m in names && SplitQualified(m).Some?
    requires n in names && SplitQualified(n).Some? && Folded(SplitQualified(n).value) == Folded(at)
    ensures Reached(st, at, true) && NameAt(wanted, at).Some?
  {
    hide SplitQualified, Folded, Selects, NameAt, Exact;
    var p := SplitQualified(n).value;
    assert Selects(st, p.0, p.1);
    RowReachesExactly(wanted, at, n);
  }

  // On such a server, of two requested names that differ only in case only the one that the
  // table's spelling reaches is returned: the other is falsely missing.
  lemma OneOfTwoIsMissed(names: seq<string>, wanted: seq<string>, st: Statement, catalog: Catalog, rows: seq<Row>,
                         m: string, n: string, at: (string, string))
    requires forall s, t :: Selects(st, s, t) <==> Requested(names, s, t)
    requires forall x :: x in wanted <==> x in names && SplitQualified(x).Some?
    requires ValidCatalog(catalog, true) && Answers(rows, catalog, st, true)
    requires at in catalog && catalog[at].columns != [] && m != n
    requires m in names && SplitQualified(m).Some? && Folded(SplitQualified(m).value) == Folded(at)
    requires n in names && SplitQualified(n).Some? && Folded(SplitQualified(n).value) == Folded(at)
    ensures n in MySqlTables(rows, wanted) <==> NameAt(wanted, at) == Some(n)
    ensures m !in MySqlTables(rows, wanted) || n !in MySqlTables(rows, wanted)
  {
    SpelledIsReached(names, wanted, st, n, at);
    OnlyReached(names, wanted, st, catalog, rows, n, at);
    OnlyReached(names, wanted, st, catalog, rows, m, at);
  }

  lemma OnlyReached(names: seq<string>, wanted: seq<string>, st: Statement, catalog: Catalog, rows: seq<Row>, n: string, at: (string, string))
    requires forall s, t :: Selects(st, s, t) <==> Requested(names, s, t)
    requires forall x :: x in wanted <==> x in names && SplitQualified(x).Some?
    requires ValidCatalog(catalog, true) && Answers(rows, catalog, st, true)
    requires at in catalog && catalog[at].columns != [] && Reached(st, at, true)
    requires n in names && SplitQualified(n).Some? && Folded(SplitQualified(n).value) == Folded(at)
    ensures n in MySqlTables(rows, wanted) <==> NameAt(wanted, at) == Some(n)
  {
    ReadsName(names, wanted, st, catalog, rows, true, n);
    hide SplitQualified, Folded, Selects, NameAt, Answers, MySqlTables, Reached;
    if b :| Supplies(catalog, st, true, wanted, b, n) && catalog[b].columns != [] {
      NameAtFolds(wanted, b);
      assert b == at;
    }
    if NameAt(wanted, at) == Some(n) { assert Supplies(catalog, st, true, wanted, at, n); }
  }

  lemma WantedAreRequested(names: seq<string>, wanted: seq<string>)
    requires forall n :: n in wanted <==> n in names && SplitQualified(n).Some?
    ensures forall s, t :: Requested(wanted, s, t) <==> Requested(names, s, t)
  {
    hide SplitQualified;
  }

  lemma SameSplit(a: string, b: string)
    requires SplitQualified(a).Some? && SplitQualified(a) == SplitQualified(b)
    ensures a == b
  {
  }

  // A name that no row reaches has no entries.
  lemma {:induction false} NotNamed(rows: seq<Row>, name: string, wanted: seq<string>)
    requires forall row | row in rows :: NameAt(wanted, (row.schema, row.table)) != Some(name)
    ensures ItemsNamed(FlatMap(MySqlReader(wanted), rows), name) == []
  {
    if rows != [] {
      var init, row := rows[..|rows| - 1], rows[|rows| - 1];
      assert row in rows;
      assert forall r | r in init :: r in rows;
      NotNamed(init, name, wanted);
      hide Exact, CaseFolded, ItemOf, MySqlReader, ItemsNamed, NameAt;
      NamedConcat(FlatMap(MySqlReader(wanted), init), MySqlReader(wanted)(row), name);
      OtherName(row, name, wanted);
    }
  }

  // ---- reading back a PostgreSQL catalog ----

  // A column that was not dropped, with its attribute number.
  datatype PgColumn = PgColumn(name: string, attnum: int, typ: string, notNull: bool, generated: string, inKey: bool)

  // The tables by qualified name.
  type PgCatalog = map<string, seq<PgColumn>>

  predicate ValidPgTable(columns: seq<PgColumn>) {
    && (forall i, j | 0 <= i < j < |columns| :: columns[i].attnum < columns[j].attnum)
    && (forall c | c in columns :: c.name != "")
  }

  function PgRowOf(n: string, c: PgColumn): PgRow {
    PgRow(n, c.name, c.attnum, c.typ, c.notNull, c.generated, c.inKey)
  }

  function PgRowsOf(n: string, columns: seq<PgColumn>): seq<PgRow> {
    if columns == [] then [] else PgRowsOf(n, columns[..|columns| - 1]) + [PgRowOf(n, columns[|columns| - 1])]
  }

  function PgAt(n: string): PgRow -> seq<PgRow> {
    (row: PgRow) => if row.name == n then [row] else []
  }

  // The server's answer: each row of each requested table once, in any order.
  ghost predicate PgAnswers(rows: seq<PgRow>, catalog: PgCatalog, names: seq<string>) {
    forall n :: multiset(FlatMap(PgAt(n), rows))
      == if n in names && n in catalog then multiset(PgRowsOf(n, catalog[n])) else multiset{}
  }

  function PgItem(c: PgColumn): Item {
    Item(c.attnum, c.name, c.typ, !c.notNull, c.generated != "", "")
  }

  function PgItems(columns: seq<PgColumn>): seq<Item> {
    if columns == [] then [] else PgItems(columns[..|columns| - 1]) + [PgItem(columns[|columns| - 1])]
  }

  function PgKey(columns: seq<PgColumn>): set<string> {
    set c | c in columns && c.inKey :: c.name
  }

  // The columns in attribute order with ranks 0, 1, 2, ..., and the key set.
  function PgDescribe(columns: seq<PgColumn>): LiveTable {
    LiveTable(RankedColumns(PgItems(columns)), PgKey(columns))
  }

  // What a live column must say of a PostgreSQL column, field by field.
  predicate PgShows(live: LiveColumn, c: PgColumn, i: int) {
    live == LiveColumn(c.name, c.typ, !c.notNull, c.generated != "", i, "")
  }

  ghost predicate PgDepicts(live: LiveTable, columns: seq<PgColumn>) {
    && |live.columns| == |columns|
    && (forall i | 0 <= i < |columns| :: PgShows(live.columns[i], columns[i], i))
    && (forall n :: n in live.primaryKey <==> exists c :: c in columns && c.inKey && c.name == n)
  }

  lemma {:induction false} PgItemsAre(columns: seq<PgColumn>)
    ensures |PgItems(columns)| == |columns|
    ensures forall i | 0 <= i < |columns| :: PgItems(columns)[i] == PgItem(columns[i])
  {
    if columns != [] { PgItemsAre(columns[..|columns| - 1]); }
  }

  lemma {:induction false} PgDescribeDepicts(columns: seq<PgColumn>)
    ensures PgDepicts(PgDescribe(columns), columns)
  {
    PgItemsAre(columns);
    hide PgItems;
  }

  lemma {:induction false} PgItemsAscend(columns: seq<PgColumn>)
    requires forall i, j | 0 <= i < j < |columns| :: columns[i].attnum < columns[j].attnum
    ensures |PgItems(columns)| == |columns|
    ensures forall i | 0 <= i < |columns| :: PgItems(columns)[i].ordinal == columns[i].attnum
    ensures Sorted(ItemLe, PgItems(columns))
  {
    hide StringLe;
    if columns != [] { PgItemsAscend(columns[..|columns| - 1]); }
  }

  lemma {:induction false} PgRowEntries(n: string, c: PgColumn)
    requires n != "" && c.name != ""
    ensures var entries := PgReader(PgRowOf(n, c));
            ItemsNamed(entries, n) == [PgItem(c)] && KeyNamed(entries, n) == if c.inKey then {c.name} else {}
  {
    var column, key := ColumnEntry(n, PgItem(c)), KeyEntry(n, c.name);
    OneMapped(NamedItem(n), column);
    OneMapped(NamedItem(n), key);
    if c.inKey {
      assert PgReader(PgRowOf(n, c)) == [column] + [key];
      FlatMapConcat(NamedItem(n), [column], [key]);
    } else {
      assert PgReader(PgRowOf(n, c)) == [column];
    }
  }

  lemma {:induction false} PgReadDirect(n: string, columns: seq<PgColumn>)
    requires n != "" && forall c | c in columns :: c.name != ""
    ensures var entries := FlatMap(PgReader, PgRowsOf(n, columns));
            ItemsNamed(entries, n) == PgItems(columns) && KeyNamed(entries, n) == PgKey(columns)
  {
    hide FlatMap, PgReader, ItemsNamed, KeyNamed, PgRowOf, PgItem;
    if columns == [] {
      NothingMapped(PgReader);
      NothingNamed(n);
    } else {
      var init, c := columns[..|columns| - 1], columns[|columns| - 1];
      assert columns == init + [c] && c in columns;
      assert forall x | x in init :: x in columns;
      PgReadDirect(n, init);
      PgRowEntries(n, c);
      FlatMapConcat(PgReader, PgRowsOf(n, init), [PgRowOf(n, c)]);
      OneMapped(PgReader, PgRowOf(n, c));
      NamedConcat(FlatMap(PgReader, PgRowsOf(n, init)), PgReader(PgRowOf(n, c)), n);
      assert PgKey(columns) == PgKey(init) + if c.inKey then {c.name} else {};
    }
  }

  lemma NothingNamed(n: string)
    ensures ItemsNamed([], n) == [] && KeyNamed([], n) == {}
  {
  }

  lemma PgOtherName(row: PgRow, n: string)
    requires row.name != n
    ensures NotEntered(PgReader(row), n)
  {
    var column, key := ColumnEntry(row.name, Item(row.attnum, row.column, row.typ, !row.notNull, row.generated != "", "")), KeyEntry(row.name, row.column);
    OneMapped(NamedItem(n), column);
    OneMapped(NamedItem(n), key);
    FlatMapConcat(NamedItem(n), [column], [key]);
    assert [column] + [] == [column];
    NothingNamed(n);
  }

  lemma {:induction false} PgRowsNamed(rows: seq<PgRow>, n: string)
    ensures var all, here := FlatMap(PgReader, rows), FlatMap(PgReader, FlatMap(PgAt(n), rows));
            ItemsNamed(all, n) == ItemsNamed(here, n) && KeyNamed(all, n) == KeyNamed(here, n)
  {
    hide FlatMap, PgReader, ItemsNamed, KeyNamed;
    forall row | row in rows ensures PgAt(n)(row) == [row] || (PgAt(n)(row) == [] && NotEntered(PgReader(row), n)) {
      if row.name != n { PgOtherName(row, n); }
    }
    NamedFromPicked(PgReader, PgAt(n), rows, n);
  }

  lemma {:induction false} PgDescribeIs(columns: seq<PgColumn>)
    requires ValidPgTable(columns)
    ensures TableOf(PgItems(columns), PgKey(columns)) == PgDescribe(columns) && |PgItems(columns)| == |columns|
  {
    hide PgItems, Sort, PgKey;
    PgItemsAscend(columns);
    SortOfSorted(ItemLe, PgItems(columns));
  }

  // The table of a name, from its rows in any order.
  lemma {:induction false} PgReadTable(rows: seq<PgRow>, n: string, columns: seq<PgColumn>)
    requires n != "" && ValidPgTable(columns) && multiset(FlatMap(PgAt(n), rows)) == multiset(PgRowsOf(n, columns))
    ensures var entries := FlatMap(PgReader, rows);
            && (ItemsNamed(entries, n) == [] <==> columns == [])
            && TableOf(ItemsNamed(entries, n), KeyNamed(entries, n)) == PgDescribe(columns)
  {
    assert forall c | c in columns :: c.name != "";
    hide *;
    var here := FlatMap(PgReader, FlatMap(PgAt(n), rows));
    var direct := FlatMap(PgReader, PgRowsOf(n, columns));
    PgRowsNamed(rows, n);
    PgReadDirect(n, columns);
    FlatMapPermutes(PgReader, FlatMap(PgAt(n), rows), PgRowsOf(n, columns));
    ItemsPermuted(here, direct, n);
    SameKeyNamed(here, direct, n);
    SameTable(ItemsNamed(here, n), PgItems(columns), PgKey(columns));
    PgDescribeIs(columns);
    assert |ItemsNamed(here, n)| == |multiset(ItemsNamed(here, n))| == |multiset(PgItems(columns))| == |PgItems(columns)|;
  }

  // Reading back a PostgreSQL catalog: whatever the row order and the gaps that dropped
  // columns left in the attribute numbers, exactly the requested tables that have a column
  // come back, their columns ranked 0, 1, 2, ..., with their key sets.
  lemma PgCatalogReadBack(names: seq<string>, catalog: PgCatalog, rows: seq<PgRow>)
    requires "" !in catalog && forall n | n in catalog :: ValidPgTable(catalog[n])
    requires PgAnswers(rows, catalog, names)
    ensures forall n :: n in PgTables(rows) <==> n in names && n in catalog && catalog[n] != []
    ensures forall n | n in PgTables(rows) && n in catalog :: PgDepicts(PgTables(rows)[n], catalog[n])
  {
    forall n ensures (n in PgTables(rows) <==> n in names && n in catalog && catalog[n] != [])
                     && (n in PgTables(rows) && n in catalog ==> PgDepicts(PgTables(rows)[n], catalog[n]))
    {
      assert multiset(FlatMap(PgAt(n), rows)) == if n in names && n in catalog then multiset(PgRowsOf(n, catalog[n])) else multiset{};
      TablesNamed(FlatMap(PgReader, rows), n);
      hide Tables, Collect, FlatMap, ItemsNamed, KeyNamed, TableOf, PgDescribe, PgDepicts, PgRowsOf, PgAnswers, ValidPgTable;
      if n in names && n in catalog {
        PgReadTable(rows, n, catalog[n]);
        PgDescribeDepicts(catalog[n]);
      } else {
        assert |multiset(FlatMap(PgAt(n), rows))| == 0;
        assert FlatMap(PgAt(n), rows) == [];
        PgRowsNamed(rows, n);
        NothingMapped(PgReader);
        NothingNamed(n);
      }
    }
  }
}
