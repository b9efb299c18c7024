/**
 Set reconciliation of source and target keys, and the op-log cross-check
 (scripts/cdc_consistency_check.py).
 */
module Reconcile {
  import opened Wrappers

  // ---- the op-log fold ----

  // One log line; `pk` is None when the line has none.
  datatype Record = Record(table: string, op: string, pk: Option<int>)

  predicate Counts(r: Record, t: string) {
    r.table == t && r.pk.Some?
  }

  // The op of the last INSERT or DELETE record of a key.
  function LastOp(log: seq<Record>, t: string, k: int): Option<string> {
    if log == [] then None else
      var r := log[|log| - 1];
      if Counts(r, t) && r.pk.value == k && (r.op == "INSERT" || r.op == "DELETE") then Some(r.op)
      else LastOp(log[..|log| - 1], t, k)
  }

  function Ops(log: seq<Record>, tables: seq<string>): nat {
    if log == [] then 0 else
      Ops(log[..|log| - 1], tables) + if log[|log| - 1].table in tables && log[|log| - 1].pk.Some? then 1 else 0
  }

  // Per table, the keys whose last record is an INSERT, and those whose last is a DELETE.
  ghost predicate Folded(log: seq<Record>, tables: seq<string>, inserts: map<string, set<int>>, deletes: map<string, set<int>>) {
    && (forall t :: t in inserts <==> t in tables) && (forall t :: t in deletes <==> t in tables)
    && forall t | t in tables :: FoldedTable(log, t, inserts[t], deletes[t])
  }

  ghost predicate FoldedTable(log: seq<Record>, t: string, inserts: set<int>, deletes: set<int>) {
    && (forall k :: k in inserts <==> LastOp(log, t, k) == Some("INSERT"))
    && (forall k :: k in deletes <==> LastOp(log, t, k) == Some("DELETE"))
  }

  lemma FoldStep(log: seq<Record>, r: Record, t: string, inserts: set<int>, deletes: set<int>)
    requires FoldedTable(log, t, inserts, deletes)
    ensures Counts(r, t) && r.op == "INSERT" ==> FoldedTable(log + [r], t, inserts + {r.pk.value}, deletes - {r.pk.value})
    ensures Counts(r, t) && r.op == "DELETE" ==> FoldedTable(log + [r], t, inserts - {r.pk.value}, deletes + {r.pk.value})
    ensures !Counts(r, t) || (r.op != "INSERT" && r.op != "DELETE") ==> FoldedTable(log + [r], t, inserts, deletes)
  {
    assert (log + [r])[..|log|] == log;
    forall k ensures LastOp(log + [r], t, k)
        == if Counts(r, t) && r.pk.value == k && (r.op == "INSERT" || r.op == "DELETE") then Some(r.op) else LastOp(log, t, k) {
    }
    hide LastOp;
  }

  // A record moves its key between its table's two sets, or leaves both alone.
  lemma FoldedStep(log: seq<Record>, r: Record, tables: seq<string>, inserts: map<string, set<int>>, deletes: map<string, set<int>>)
    requires Folded(log, tables, inserts, deletes)
    ensures r.table !in tables || r.pk.None? || (r.op != "INSERT" && r.op != "DELETE") ==>
              Folded(log + [r], tables, inserts, deletes)
    ensures r.table in tables && r.pk.Some? && r.op == "INSERT" ==>
              Folded(log + [r], tables, inserts[r.table := inserts[r.table] + {r.pk.value}], deletes[r.table := deletes[r.table] - {r.pk.value}])
    ensures r.table in tables && r.pk.Some? && r.op == "DELETE" ==>
              Folded(log + [r], tables, inserts[r.table := inserts[r.table] - {r.pk.value}], deletes[r.table := deletes[r.table] + {r.pk.value}])
  {
    hide FoldedTable;
    forall t | t in tables
      ensures !Counts(r, t) || (r.op != "INSERT" && r.op != "DELETE") ==> FoldedTable(log + [r], t, inserts[t], deletes[t])
      ensures Counts(r, t) && r.op == "INSERT" ==> FoldedTable(log + [r], t, inserts[t] + {r.pk.value}, deletes[t] - {r.pk.value})
      ensures Counts(r, t) && r.op == "DELETE" ==> FoldedTable(log + [r], t, inserts[t] - {r.pk.value}, deletes[t] + {r.pk.value})
    {
      FoldStep(log, r, t, inserts[t], deletes[t]);
    }
  }

  lemma {:induction false} FoldedNext(log: seq<Record>, i: nat, tables: seq<string>, inserts: map<string, set<int>>, deletes: map<string, set<int>>)
    requires i < |log| && Folded(log[..i], tables, inserts, deletes)
    ensures var r := log[i];
            if r.table !in tables || r.pk.None? || (r.op != "INSERT" && r.op != "DELETE") then
              Folded(log[..i + 1], tables, inserts, deletes)
            else if r.op == "INSERT" then
              Folded(log[..i + 1], tables, inserts[r.table := inserts[r.table] + {r.pk.value}], deletes[r.table := deletes[r.table] - {r.pk.value}])
            else
              Folded(log[..i + 1], tables, inserts[r.table := inserts[r.table] - {r.pk.value}], deletes[r.table := deletes[r.table] + {r.pk.value}])
    ensures Ops(log[..i + 1], tables) == Ops(log[..i], tables) + if log[i].table in tables && log[i].pk.Some? then 1 else 0
  {
    assert log[..i + 1] == log[..i] + [log[i]] && log[..i + 1][..i] == log[..i];
    hide FoldedTable;
    FoldedStep(log[..i], log[i], tables, inserts, deletes);
    assert "INSERT" != "DELETE";
  }

  method FoldOpLog(log: seq<Record>, tables: seq<string>)
    returns (inserts: map<string, set<int>>, deletes: map<string, set<int>>, n: nat)
    ensures Folded(log, tables, inserts, deletes)
    ensures n == Ops(log, tables)
    ensures forall t | t in tables :: inserts[t] !! deletes[t]
  {
    hide *;
    inserts := map t | t in tables :: {};
    deletes := map t | t in tables :: {};
    n := 0;
    NothingFolded(log[..0], tables, inserts, deletes);
    for i := 0 to |log|
      invariant forall t :: t in inserts <==> t in tables
      invariant forall t :: t in deletes <==> t in tables
      invariant Folded(log[..i], tables, inserts, deletes)
      invariant n == Ops(log[..i], tables)
    {
      var r := log[i];
      FoldedNext(log, i, tables, inserts, deletes);
      if r.table !in inserts || r.pk.None? {
        continue;
      }
      n := n + 1;
      var t, pk := r.table, r.pk.value;
      if r.op == "INSERT" {
        inserts := inserts[t := inserts[t] + {pk}];
        deletes := deletes[t := deletes[t] - {pk}];
      } else if r.op == "DELETE" {
        deletes := deletes[t := deletes[t] + {pk}];
        inserts := inserts[t := inserts[t] - {pk}];
      }
    }
    assert log[..|log|] == log;
    FoldedDisjoint(log, tables, inserts, deletes);
  }

  lemma {:induction false} NothingFolded(log: seq<Record>, tables: seq<string>, inserts: map<string, set<int>>, deletes: map<string, set<int>>)
    requires log == []
    requires inserts == (map t | t in tables :: {}) && deletes == (map t | t in tables :: {})
    ensures Folded(log, tables, inserts, deletes) && Ops(log, tables) == 0
  {
  }

  lemma FoldedDisjoint(log: seq<Record>, tables: seq<string>, inserts: map<string, set<int>>, deletes: map<string, set<int>>)
    requires Folded(log, tables, inserts, deletes)
    ensures forall t | t in tables :: inserts[t] !! deletes[t]
  {
    hide FoldedTable;
    forall t | t in tables ensures inserts[t] !! deletes[t] { TableDisjoint(log, t, inserts[t], deletes[t]); }
  }

  lemma TableDisjoint(log: seq<Record>, t: string, inserts: set<int>, deletes: set<int>)
    requires FoldedTable(log, t, inserts, deletes)
    ensures inserts !! deletes
  {
    hide LastOp;
    forall k | k in inserts ensures k !in deletes {
      assert LastOp(log, t, k) == Some("INSERT");
      assert "INSERT" != "DELETE";
    }
  }

  // ---- the verdicts ----

  datatype CrossCheck = CrossCheck(loggedInserts: nat, loggedDeletes: nat, lostInserts: set<int>, staleDeletes: set<int>)

  ghost predicate Logged(log: seq<Record>, t: string) {
    exists k :: LastOp(log, t, k).Some?
  }

  // The target's side of a table: the number of columns of a constraint named PRIMARY, which
  // is how the cross-check looks for a key, and its key values. A PostgreSQL key has another
  // name, so that the number is 0 there.
  datatype TargetTable = TargetTable(keyColumns: nat, keys: set<int>)

  // How many keys have this op in their last record.
  ghost predicate LoggedCount(log: seq<Record>, t: string, op: string, n: nat) {
    exists keys: set<int> :: |keys| == n && forall k :: k in keys <==> LastOp(log, t, k) == Some(op)
  }

  lemma FoldCounts(log: seq<Record>, t: string, inserts: set<int>, deletes: set<int>)
    requires FoldedTable(log, t, inserts, deletes)
    ensures LoggedCount(log, t, "INSERT", |inserts|) && LoggedCount(log, t, "DELETE", |deletes|)
  {
    hide LastOp;
  }

  // A table is reported when it was logged and has one key column, else passed over; a
  // reported one passes when nothing is lost or stale.
  method CrosscheckOpLog(log: seq<Record>, tables: seq<string>, target: map<string, TargetTable>)
    returns (report: map<string, CrossCheck>, allApplied: bool)
    requires forall t | t in tables :: t in target
    ensures forall t :: t in report <==> t in tables && Logged(log, t) && target[t].keyColumns == 1
    ensures forall t, k | t in report :: k in report[t].lostInserts <==> LastOp(log, t, k) == Some("INSERT") && k !in target[t].keys
    ensures forall t, k | t in report :: k in report[t].staleDeletes <==> LastOp(log, t, k) == Some("DELETE") && k in target[t].keys
    ensures forall t | t in report :: LoggedCount(log, t, "INSERT", report[t].loggedInserts) && LoggedCount(log, t, "DELETE", report[t].loggedDeletes)
    ensures allApplied <==> forall t | t in tables && target[t].keyColumns == 1 :: Applied(log, t, target[t].keys)
    // Where no table has a constraint named PRIMARY it passes whatever the log says.
    ensures (forall t | t in tables :: target[t].keyColumns == 0) ==> report == map[] && allApplied
  {
    var inserts, deletes, _ := FoldOpLog(log, tables);
    report, allApplied := map[], true;
    for i := 0 to |tables|
      invariant forall t :: t in report <==> t in tables[..i] && target[t].keyColumns == 1 && (inserts[t] != {} || deletes[t] != {})
      invariant forall t | t in report ::
                  report[t] == CrossCheck(|inserts[t]|, |deletes[t]|, inserts[t] - target[t].keys, deletes[t] * target[t].keys)
      invariant allApplied <==>
                  forall t | t in tables[..i] && target[t].keyColumns == 1 :: inserts[t] <= target[t].keys && deletes[t] !! target[t].keys
    {
      hide Folded;
      var t := tables[i];
      assert t in tables && tables[..i + 1] == tables[..i] + [t];
      var keys := target[t].keys;
      if inserts[t] == {} && deletes[t] == {} {
        assert inserts[t] <= keys && deletes[t] !! keys;
        continue;
      }
      if target[t].keyColumns != 1 {
        continue;
      }
      var lost, stale := inserts[t] - keys, deletes[t] * keys;
      assert lost == {} && stale == {} <==> inserts[t] <= keys && deletes[t] !! keys by { Differences(inserts[t], deletes[t], keys); }
      if lost != {} || stale != {} {
        allApplied := false;
      }
      report := report[t := CrossCheck(|inserts[t]|, |deletes[t]|, lost, stale)];
    }
    assert tables[..|tables|] == tables;
    forall t | t in tables
      ensures (inserts[t] != {} || deletes[t] != {}) <==> Logged(log, t)
      ensures (inserts[t] <= target[t].keys && deletes[t] !! target[t].keys) <==> Applied(log, t, target[t].keys)
    {
      FoldMeans(log, t, inserts[t], deletes[t], target[t].keys);
    }
    forall t | t in report ensures LoggedCount(log, t, "INSERT", report[t].loggedInserts) && LoggedCount(log, t, "DELETE", report[t].loggedDeletes) {
      FoldCounts(log, t, inserts[t], deletes[t]);
    }
    assert forall t | t in tables :: FoldedTable(log, t, inserts[t], deletes[t]);
    hide Logged, LastOp, Applied, LoggedCount;
  }

  lemma Differences(inserts: set<int>, deletes: set<int>, target: set<int>)
    ensures inserts - target == {} && deletes * target == {} <==> inserts <= target && deletes !! target
  {
    if inserts - target == {} {
      forall k | k in inserts ensures k in target { assert k !in inserts - target; }
    }
  }

  // Every logged key is on the target exactly when its last record is an INSERT.
  ghost predicate Applied(log: seq<Record>, t: string, target: set<int>) {
    forall k :: LastOp(log, t, k).Some? ==> (k in target <==> LastOp(log, t, k) == Some("INSERT"))
  }

  lemma {:induction false} LastOpIs(log: seq<Record>, t: string, k: int)
    ensures LastOp(log, t, k).Some? ==> LastOp(log, t, k).value == "INSERT" || LastOp(log, t, k).value == "DELETE"
  {
    if log != [] { LastOpIs(log[..|log| - 1], t, k); }
  }

  lemma FoldMeans(log: seq<Record>, t: string, inserts: set<int>, deletes: set<int>, target: set<int>)
    requires FoldedTable(log, t, inserts, deletes)
    ensures (inserts != {} || deletes != {}) <==> Logged(log, t)
    ensures (inserts <= target && deletes !! target) <==> Applied(log, t, target)
  {
    assert "INSERT" != "DELETE";
    forall k ensures LastOp(log, t, k).Some? <==> k in inserts || k in deletes { LastOpIs(log, t, k); }
    hide LastOp;
    assert forall k :: k in inserts <==> LastOp(log, t, k) == Some("INSERT");
    assert forall k :: k in deletes <==> LastOp(log, t, k) == Some("DELETE");
    if !Logged(log, t) {
      forall k ensures k !in inserts && k !in deletes { assert LastOp(log, t, k).None?; }
      assert inserts == {} && deletes == {};
    }
    if Logged(log, t) { var k :| LastOp(log, t, k).Some?; assert k in inserts || k in deletes; }
    if Applied(log, t, target) {
      forall k | k in inserts ensures k in target { assert LastOp(log, t, k).Some?; }
      forall k | k in deletes ensures k !in target { assert LastOp(log, t, k).Some?; }
    } else {
      var k :| LastOp(log, t, k).Some? && !(k in target <==> LastOp(log, t, k) == Some("INSERT"));
      assert k in inserts || k in deletes;
    }
  }

  // ---- reconciliation ----

  // What the engines say of a table: whether it is on the source, how many key columns it has,
  // whether it is on the target, and the key values on both sides.
  datatype TableState = TableState(onSource: bool, keyColumns: nat, onTarget: bool, source: set<int>, target: set<int>)

  datatype Status =
    | SourceMissing | NoSingleKey | TargetMissing
    | Compared(consistent: bool, missing: set<int>, extra: set<int>)

  function StatusOf(s: TableState): Status {
    if !s.onSource then SourceMissing
    else if s.keyColumns != 1 then NoSingleKey
    else if !s.onTarget then TargetMissing
    else Compared(s.source == s.target, s.source - s.target, s.target - s.source)
  }

  method ReconcileTables(tables: seq<string>, states: map<string, TableState>)
    returns (result: map<string, Status>, allConsistent: bool)
    requires forall t | t in tables :: t in states
    ensures forall t :: t in result <==> t in tables
    ensures forall t | t in tables :: result[t] == StatusOf(states[t])
    ensures forall t | t in tables ::
              && (result[t].SourceMissing? <==> !states[t].onSource)
              && (result[t].NoSingleKey? <==> states[t].onSource && states[t].keyColumns != 1)
              && (result[t].TargetMissing? <==> states[t].onSource && states[t].keyColumns == 1 && !states[t].onTarget)
    // Missing: lost inserts. Extra: deletes that were not applied.
    ensures forall t, k | t in tables && result[t].Compared? ::
              && (k in result[t].missing <==> k in states[t].source && k !in states[t].target)
              && (k in result[t].extra <==> k in states[t].target && k !in states[t].source)
    ensures forall t | t in tables && result[t].Compared? :: result[t].consistent <==> states[t].source == states[t].target
    ensures allConsistent <==> forall t | t in tables && !(states[t].onSource && states[t].keyColumns != 1) ::
              states[t].onSource && states[t].onTarget && states[t].source == states[t].target
  {
    result, allConsistent := map[], true;
    for i := 0 to |tables|
      invariant forall t :: t in result <==> t in tables[..i]
      invariant forall t | t in tables[..i] :: result[t] == StatusOf(states[t])
      invariant allConsistent <==> forall t | t in tables[..i] && !(states[t].onSource && states[t].keyColumns != 1) ::
                  states[t].onSource && states[t].onTarget && states[t].source == states[t].target
    {
      var t := tables[i];
      assert t in tables && tables[..i + 1] == tables[..i] + [t];
      var s := states[t];
      if !s.onSource {
        result := result[t := SourceMissing];
        allConsistent := false;
        continue;
      }
      if s.keyColumns != 1 {
        result := result[t := NoSingleKey];
        continue;
      }
      if !s.onTarget {
        result := result[t := TargetMissing];
        allConsistent := false;
        continue;
      }
      var missing, extra := s.source - s.target, s.target - s.source;
      var ok := missing == {} && extra == {};
      assert ok <==> s.source == s.target;
      if !ok {
        allConsistent := false;
      }
      result := result[t := Compared(ok, missing, extra)];
    }
    assert tables[..|tables|] == tables;
  }

  // ---- the two checks together ----

  // The source keys of a table after the logged changes.
  function ReplayLog(keys: set<int>, log: seq<Record>, t: string): set<int> {
    if log == [] then keys else
      var before, r := ReplayLog(keys, log[..|log| - 1], t), log[|log| - 1];
      if Counts(r, t) && r.op == "INSERT" then before + {r.pk.value}
      else if Counts(r, t) && r.op == "DELETE" then before - {r.pk.value}
      else before
  }

  lemma {:induction false} ReplayIsLastOp(keys: set<int>, log: seq<Record>, t: string, k: int)
    ensures k in ReplayLog(keys, log, t) <==>
            match LastOp(log, t, k) case None => k in keys case Some(op) => op == "INSERT"
  {
    if log != [] {
      ReplayIsLastOp(keys, log[..|log| - 1], t, k);
      assert "INSERT" != "DELETE";
    }
  }

  // Given a complete log of the source's changes, the cross-check passes a table exactly when
  // the target agrees with the source on every logged key; in particular when reconciliation
  // found their keys equal, no insert is lost and no delete is stale.
  lemma {:induction false} CrosscheckAgreesWithReconcile(before: set<int>, log: seq<Record>, t: string, source: set<int>, target: set<int>)
    requires source == ReplayLog(before, log, t)
    ensures Applied(log, t, target) <==> forall k :: LastOp(log, t, k).Some? ==> (k in target <==> k in source)
    ensures source == target ==> Applied(log, t, target)
  {
    forall k ensures LastOp(log, t, k).Some? ==> (k in source <==> LastOp(log, t, k) == Some("INSERT")) {
      ReplayIsLastOp(before, log, t, k);
    }
  }

  // The two checks together: when the target held the source's keys before the logged changes
  // and only logged keys may differ, a table passing the cross-check is reconciled.
  lemma {:induction false} AppliedLogReconciles(before: set<int>, log: seq<Record>, t: string, target: set<int>)
    requires forall k :: LastOp(log, t, k).None? ==> (k in target <==> k in before)
    ensures Applied(log, t, target) <==> target == ReplayLog(before, log, t)
  {
    forall k ensures k in ReplayLog(before, log, t) <==> match LastOp(log, t, k) case None => k in before case Some(op) => op == "INSERT" {
      ReplayIsLastOp(before, log, t, k);
    }
    hide ReplayLog, LastOp;
    if Applied(log, t, target) {
      forall k ensures k in target <==> k in ReplayLog(before, log, t) {
        assert LastOp(log, t, k).Some? ==> (k in target <==> LastOp(log, t, k) == Some("INSERT"));
      }
    } else {
      var k :| LastOp(log, t, k).Some? && !(k in target <==> LastOp(log, t, k) == Some("INSERT"));
      assert k in target <==> k !in ReplayLog(before, log, t);
    }
  }

  // The number of operations counts the records of the tables asked about that have a key.
  lemma {:induction false} OpsAre(log: seq<Record>, tables: seq<string>)
    ensures Ops(log, tables) == |set i: nat | i < |log| && log[i].table in tables && log[i].pk.Some?|
  {
    var all := set i: nat | i < |log| && log[i].table in tables && log[i].pk.Some?;
    if log != [] {
      var init, n := log[..|log| - 1], |log| - 1;
      OpsAre(init, tables);
      var before := set i: nat | i < |init| && init[i].table in tables && init[i].pk.Some?;
      assert all == if log[n].table in tables && log[n].pk.Some? then before + {n} else before;
    }
  }
}
