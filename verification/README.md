# Verified model of the DSQL migrator's change-capture core

This project models, in Dafny, four parts of the migrator that decide whether replication may
continue and where it resumes, and proves what those parts promise.

**Catalog drift and fingerprints** (`CatalogTypes`, `CatalogDrift`, `DriftScript`,
`DriftTheorems`, `DriftReports`, `BaselineDigest`, `StartPoint`, `CatalogQuery`, `CatalogRead`). One catalog
query is built for a set of tables, its unordered rows are folded into live tables, a live
table is compared with a recorded baseline, the baseline is digested, and a live table is
fingerprinted for a later start. These are three notions of "the same table"; their exact
relations are proved. `DiffTable` is the comparison as it runs; `Diff` is its specification.
The change list is shown to be an edit script: replaying it, in any order, on the baseline
gives the live table.

**Seeding a connector's offset** (`Binlog`, `OffsetTopic`, `SeedProtocol`, `TopicPrep`). The
binlog guard, the offset read loop, the seeded offset, the topic preparation against a
throttling broker, and a state machine over Write, FullLoad, Seed, Start, Consume, Idle,
Acknowledge, Commit, Crash and Stop. A redeploy is Stop, Seed, Start. An offset never moves
backward except in the one case that is named exactly, and no change below a stored offset is
lost unless a start had no stored offset. A change is safe when a Full Load covered it or the
connector acknowledged it, not when the connector has only read it.

**The bounded tool-use turn** (`ToolChat`). The endpoint and the tools are arbitrary
functions. The turn ends within its round budget, every request it sends is a well-formed
conversation, and it delivers the latest text it received, or nothing when it received none.
The callback that takes the text may raise.

**Measurement and reconciliation** (`Progress`, `Percentile`, `Reconcile`). Progress windows
and rows, poll boundaries, interpolated percentiles, and the op-log cross-check against set
reconciliation.

`Text`, `Sorting`, `Reals` and `Wrappers` hold shared definitions: Python's string operations on
ASCII text, a stable sort with its properties, products of reals, and `Option`.

The baseline digest is represented by the value that is hashed, so equality of digests is
equality of payloads. The fingerprint is the printed text, its two digests being functions to
fixed-length hexadecimal text; results that need it assume that they tell the two payloads
compared apart. Dictionaries are maps, and a Python `None` is `None` of `Option`.

## What the code does where its documentation says otherwise

- `baseline_digest` is documented as covering exactly the facts compared. A NOT VALID column's
  NULL rule is not compared but its nullability is digested without the NOT VALID mark, so two
  baselines with one digest can differ in verdict. `DigestMissesNotValid` gives the pair and
  `DigestMissesExactlyNotValid` the exact condition. The other way, two baselines that no live
  table tells apart can have different digests (`DigestSplitsExactlyNotValid`).
- The seeder promises never to rewind an advanced connector. Its read loop stops at the first
  empty poll, so a stored record it did not reach can be overwritten by an earlier one.
  `RewindsExactly` gives the condition, `EmptyReadRewinds` the failing family and
  `RewindIsReached` a run.
- A start without a stored offset reads from the source's current end.
  `UnseededStartIsGaplessExactly` says when that loses nothing, and `UnseededHandoffLoses`
  what it loses after a Full Load.
- A row that differs from a requested name only in case is never a false "missing". On a server
  that compares names without case, of two requested names that differ only in case one always
  is (`OneOfTwoIsMissed`).
- The cross-check reads a target's key from a constraint named PRIMARY. A PostgreSQL key has
  another name, as `scripts/compare_rows.py:143-146` notes. On such a target it passes over every
  table and its verdict is true (`CrosscheckOpLog`).
- `tool_chat` is documented as never raising. It raises when the callback does in the handler of
  a failed round, or a second time; and a callback that raised once may be called again with a
  held answer (`AvailableIsLastCalled`).
- The windows report every table running at a poll, plus its last, partial window. Rows counted
  after its first stop are missed (`TableConservedExactly`, `LateRowsAreMissed`).
- The topic plan lists the offset topic first and the seeder creates it last. The two agree
  except when a new offset topic shares its name with a data or dead-letter topic
  (`OrderMattersExactly`).
- Two offsets in different files with one sequence number are "not past" each other both ways
  (`GuardIsTotalExactly`).

## Model

| member | source | states |
|---|---|---|
| `CatalogTypes.SplitQualified` | src/dsql_migrator/core/cdc_catalog_drift.py:124-133 | a qualified name splits at its first dot into two non-empty parts that spell it again |
| `CatalogTypes.QualifiedNameSplits` | src/dsql_migrator/core/cdc_catalog_drift.py:130-133 | every schema without a dot and every table, both non-empty, are read back from their qualified name |
| `CatalogTypes.SameTypeIsKernel` | src/dsql_migrator/core/cdc_catalog_drift.py:342-349 | the type comparison is exactly equality of normalized texts, hence an equivalence |
| `CatalogTypes.SameTypePostgresExactly` | src/dsql_migrator/core/cdc_catalog_drift.py:327-349 | on PostgreSQL two types are one exactly when their trimmed texts, each without its one leading qualifier, are one text |
| `CatalogTypes.PlainPostgresTypes` | src/dsql_migrator/core/cdc_catalog_drift.py:327-349 | unqualified PostgreSQL types are compared as they are written |
| `CatalogTypes.QualifierIsCosmetic` | src/dsql_migrator/core/cdc_catalog_drift.py:324-332 | a schema qualifier, plain or quoted, plays no part |
| `CatalogTypes.QualifiersAre` | src/dsql_migrator/core/cdc_catalog_drift.py:324 | what is a qualifier and what is not |
| `CatalogTypes.SameTypeMySqlExactly` | src/dsql_migrator/core/cdc_catalog_drift.py:323-349 | on MySQL two types are one exactly when their trimmed texts, each without its cosmetic width, are one text |
| `CatalogTypes.VerbatimTypes` | src/dsql_migrator/core/cdc_catalog_drift.py:323-349 | MySQL types without a size, or whose word is no integer, string or decimal word, are compared, and decode, as they are written |
| `CatalogTypes.PlainIsVerbatim` | src/dsql_migrator/core/cdc_catalog_drift.py:323-349 | a trimmed type without a parenthesis is such a type |
| `CatalogTypes.SizedIsVerbatim` | src/dsql_migrator/core/cdc_catalog_drift.py:323-349 | so is one whose word before the parenthesis is none of the integer, string and decimal words: an ENUM, a SET, a BINARY |
| `CatalogTypes.WidthIsCosmetic` | src/dsql_migrator/core/cdc_catalog_drift.py:323-339 | an integer display width never matters, except whether a tinyint is tinyint(1) |
| `CatalogTypes.SameTypeRefinesDecode` | src/dsql_migrator/core/cdc_catalog_drift.py:627-643 | MySQL types compared equal decode the same |
| `CatalogTypes.LengthDecodesTheSame` | src/dsql_migrator/core/cdc_catalog_drift.py:618-639 | a string length changes the compared type but never the decoded one, so the refinement is strict |
| `CatalogTypes.DecimalKeepsScale` | src/dsql_migrator/core/cdc_catalog_drift.py:619-642 | a decimal decodes by its scale and not by its precision |
| `CatalogTypes.DecimalAlone` | src/dsql_migrator/core/cdc_catalog_drift.py:619-642 | a decimal without a scale decodes as one with scale 0 |
| `CatalogTypes.DecodeTypeExactly` | src/dsql_migrator/core/cdc_catalog_drift.py:618-643 | two types decode the same exactly when their trimmed texts, without cosmetic width and then without string length or decimal precision, are one text |
| `CatalogDrift.DiffTable` | src/dsql_migrator/core/cdc_catalog_drift.py:383-555 | the comparison as it runs computes the specified finding for every baseline, live table, skip set and target-added map |
| `CatalogDrift.ReadInventory` | src/dsql_migrator/core/cdc_catalog_drift.py:419-435 | captured columns get dense positions; a NOT VALID rule is left uncompared |
| `CatalogDrift.ReadTargetAdded` | src/dsql_migrator/core/cdc_catalog_drift.py:436-439 | target-added columns not on the source's inventory and not skipped join the baseline, without position or rule |
| `CatalogDrift.FindPair` | src/dsql_migrator/core/cdc_catalog_drift.py:449-458 | the first added column at the missing one's position with the same type and not yet paired |
| `CatalogDrift.CompareMissing` | src/dsql_migrator/core/cdc_catalog_drift.py:447-470 | each missing column is a rename to its pair or a drop |
| `CatalogDrift.CompareAdded` | src/dsql_migrator/core/cdc_catalog_drift.py:471-478 | each new column that was not paired is an addition |
| `CatalogDrift.CompareKept` | src/dsql_migrator/core/cdc_catalog_drift.py:479-511 | type and NULL-rule changes of the columns both sides have, and the generated column that replaces a target-added one |
| `DriftScript.PairingIsByPosition` | src/dsql_migrator/core/cdc_catalog_drift.py:440-463 | the already-paired guard never rejects a candidate: a column is paired by its position and type alone |
| `DriftScript.FoundExactly` | src/dsql_migrator/core/cdc_catalog_drift.py:443-522 | a change is reported exactly when the two sides explain it: none is missing and none is superfluous |
| `DriftScript.ChangesAreAnEditScript` | src/dsql_migrator/core/cdc_catalog_drift.py:419-525 | replaying the uncut changes, in any order, on the baseline gives the live column names, their types up to type comparison, every compared NULL rule and the key set |
| `DriftScript.FoundCompatible` | src/dsql_migrator/core/cdc_catalog_drift.py:447-522 | any two changes found for one table commute |
| `DriftScript.ReplayPermuted` | src/dsql_migrator/core/cdc_catalog_drift.py:523-525 | the severity order chosen for display does not change what the replayed changes give |
| `DriftTheorems.InPlaceRenamesFoundExactly` | src/dsql_migrator/core/cdc_catalog_drift.py:440-522 | captured columns renamed in place to fresh names, target-added columns following in any order, are reported as exactly those renames, with a key change if and only if a renamed column is in the key; the NULL rule of a renamed column plays no part |
| `DriftTheorems.AllChangesSplit` | src/dsql_migrator/core/cdc_catalog_drift.py:512-527 | a key change comes first and the other changes are independent of it |
| `DriftTheorems.SkippedColumnsDoNotMatter` | src/dsql_migrator/core/cdc_catalog_drift.py:419-443 | two live tables that agree on their captured columns in order, and on the key set, give the same column changes, kinds and count, wherever skipped columns stand |
| `DriftTheorems.MostSevereKept` | src/dsql_migrator/core/cdc_catalog_drift.py:524-555 | kept changes plus the count of the rest are all of them, none left out is more severe than one kept, and the kinds are exactly those found |
| `DriftReports.TypeChangeIsReported` | src/dsql_migrator/core/cdc_catalog_drift.py:479-511 | for a captured column recorded and live with types compared as written, a type change with both texts is reported exactly when they differ, and the finding says so |
| `DriftReports.NullRuleIsReportedExactly` | src/dsql_migrator/core/cdc_catalog_drift.py:426-511 | a NULL rule change is reported exactly when the rule differs on a column that neither side generates and whose NOT NULL was not added NOT VALID, with both rules |
| `DriftReports.RenameIsReported` | src/dsql_migrator/core/cdc_catalog_drift.py:447-463 | a captured column that is gone and a new one in its place among the captured ones, of the same type, are reported as a rename |
| `DriftReports.DropIsReported` | src/dsql_migrator/core/cdc_catalog_drift.py:447-470 | with no new column, a captured column that is gone is reported as dropped |
| `DriftReports.AddIsReported` | src/dsql_migrator/core/cdc_catalog_drift.py:471-478 | with no column missing, a new captured column is reported as added, with its type and whether it is generated |
| `DriftReports.TargetAddedIsReported` | src/dsql_migrator/core/cdc_catalog_drift.py:436-500 | a target-added column is compared by its type there, and reported as added when the source generates it |
| `DriftReports.KeyIsReportedExactly` | src/dsql_migrator/core/cdc_catalog_drift.py:512-522 | a key change stands first, with the recorded and the live key, exactly when the key sets differ |
| `DriftReports.ReportedExactly` | src/dsql_migrator/core/cdc_catalog_drift.py:443-525 | other than a key change, the sorted list holds exactly the changes the two sides explain |
| `DriftTheorems.ChangesAreInOrder` | src/dsql_migrator/core/cdc_catalog_drift.py:523-525 | key, type, drop, rename, NULL rule, addition, and by column name within a kind |
| `DriftTheorems.KeyIsInColumnOrder` | src/dsql_migrator/core/cdc_catalog_drift.py:512-522 | a reported live key lists each key column once, in column order |
| `BaselineDigest.NoDriftIff` | src/dsql_migrator/core/cdc_catalog_drift.py:443-525 | no drift is reported exactly when names, normalized types, compared rules and the key set all match |
| `BaselineDigest.VerdictsAreFacts` | src/dsql_migrator/core/cdc_catalog_drift.py:383-525 | two baselines give the same drift-or-none verdict on every live table exactly when their compared facts are equal |
| `BaselineDigest.DigestIsFullyAbstract` | src/dsql_migrator/core/cdc_catalog_drift.py:558-580 | without NOT VALID columns, equal digests are the same as equal verdicts on every live table |
| `BaselineDigest.DigestMissesExactlyNotValid` | src/dsql_migrator/core/cdc_catalog_drift.py:568-576 | with equal digests, verdicts are equal exactly when the same rules are left uncompared |
| `BaselineDigest.DigestMissesNotValid` | src/dsql_migrator/core/cdc_catalog_drift.py:426-433 | two one-column baselines with one digest and different verdicts |
| `BaselineDigest.DigestSplitsExactlyNotValid` | src/dsql_migrator/core/cdc_catalog_drift.py:558-580 | with equal verdicts on every live table, digests are equal exactly when every shared column whose rule either side leaves uncompared has the same rule in them |
| `BaselineDigest.DigestSplitsNotValid` | src/dsql_migrator/core/cdc_catalog_drift.py:568-576 | two one-column baselines with different digests that no live table tells apart |
| `StartPoint.CheckStartPoint` | src/dsql_migrator/core/cdc_catalog_drift.py:700-735 | every requested name is compared once and reported changed, unverified or not at all |
| `StartPoint.EachNameReportedOnce` | src/dsql_migrator/core/cdc_catalog_drift.py:713-735 | the reported names are exactly those with that verdict, each once, in name order |
| `StartPoint.StartPointCheckIsExact` | src/dsql_migrator/core/cdc_catalog_drift.py:653-735 | against the fingerprint of an earlier definition, while the digests tell the two definitions apart, a table is changed if and only if it is gone or its ordinal sequence of decodings or its key set differs; the reason is count, then names, then definition; it is never unverified |
| `StartPoint.DecodeChangeIsReported` | src/dsql_migrator/core/cdc_catalog_drift.py:611-735 | where two types that decode as written differ at one column, the check reports the table's definition as changed |
| `StartPoint.UnverifiedExactly` | src/dsql_migrator/core/cdc_catalog_drift.py:716-728 | a name is unverified exactly when it is unqualified or has no recorded value of this version; the branch for an unreadable live value is never taken |
| `StartPoint.PrintedIsRead` | src/dsql_migrator/core/cdc_catalog_drift.py:611-679 | every printed fingerprint matches the format, group by group, and is comparable |
| `StartPoint.ComparableExactly` | src/dsql_migrator/core/cdc_catalog_drift.py:614-653 | a value is comparable exactly when it is digits for this version, digits, and eight and sixteen hexadecimal digits with colons between |
| `StartPoint.SameValueExactly` | src/dsql_migrator/core/cdc_catalog_drift.py:653-679 | two fingerprints are one text exactly when the columns decode the same in order and the key sets are equal |
| `StartPoint.InOrderIs` | src/dsql_migrator/core/cdc_catalog_drift.py:656-668 | the columns are taken in the order of their positions |
| `StartPoint.UnchangedStartPointDriftsInTypesOnly` | src/dsql_migrator/core/cdc_catalog_drift.py:627-679 | a MySQL table with an unchanged fingerprint drifts from its own earlier definition in types only |
| `StartPoint.NoDriftLeavesExactly` | src/dsql_migrator/core/cdc_catalog_drift.py:479-679 | where no drift is found against the own earlier definition, the fingerprint is unchanged exactly when column order, charsets, generated flags, the NULL rules of generated columns and everything of the skipped ones are |
| `CatalogQuery.BuildMySqlCatalogStatement` | src/dsql_migrator/core/cdc_catalog_drift.py:149-187 | the WHERE clause with its bound parameters selects exactly the requested schema and table pairs, and every parameter it mentions is bound |
| `CatalogQuery.ParamsDistinct` | src/dsql_migrator/core/cdc_catalog_drift.py:167-175 | no two generated parameter names are the same |
| `CatalogRead.MapMySqlRows` | src/dsql_migrator/core/cdc_catalog_drift.py:219-264 | the row loop computes the specified tables |
| `CatalogRead.MapPgRows` | src/dsql_migrator/core/cdc_catalog_drift.py:267-289 | the row loop computes the specified tables |
| `CatalogRead.RowOrderDoesNotMatter` | src/dsql_migrator/core/cdc_catalog_drift.py:219-289 | rows in any order give the same tables |
| `CatalogRead.TablesNamed` | src/dsql_migrator/core/cdc_catalog_drift.py:253-264 | a table is returned exactly when a column row named it, with its own columns and key rows only |
| `CatalogRead.RowsWithoutColumnAreSkipped` | src/dsql_migrator/core/cdc_catalog_drift.py:234-277 | a row without a column, of no requested table, or without a name adds nothing |
| `CatalogRead.CatalogReadBack` | src/dsql_migrator/core/cdc_catalog_drift.py:149-264 | running the generated statement on a catalog, compared with or without case, and folding its rows returns exactly the names a table with a column supplies, each showing its columns field by field in ordinal order, ranked 0..n-1, and its key set |
| `CatalogRead.ShownValues` | src/dsql_migrator/core/cdc_catalog_drift.py:240-250 | a column that reads YES is nullable and NO is not; VIRTUAL GENERATED and STORED GENERATED are generated, and nothing, auto_increment and DEFAULT_GENERATED are not |
| `CatalogRead.ReadBackWithCase` | src/dsql_migrator/core/cdc_catalog_drift.py:149-264 | compared with case, these are exactly the requested names present in the catalog |
| `CatalogRead.RowReachesExactly` | src/dsql_migrator/core/cdc_catalog_drift.py:226-233 | a row of a requested table in any spelling reaches one requested name: the one that spells it, or else the last first-requested one that differs only in case |
| `CatalogRead.ReadBackWithoutCase` | src/dsql_migrator/core/cdc_catalog_drift.py:226-233 | compared without case, a requested name that no other differs from only in case is never falsely missing, however its table is spelled |
| `CatalogRead.OneOfTwoIsMissed` | src/dsql_migrator/core/cdc_catalog_drift.py:226-233 | of two requested names that differ only in case, only the one that the table's spelling reaches is returned |
| `CatalogRead.PgCatalogReadBack` | src/dsql_migrator/core/cdc_catalog_drift.py:267-289 | the rows of a PostgreSQL catalog, in any order and with the attribute gaps of dropped columns, fold to exactly the requested tables with a column, each showing its columns field by field, ranked 0..n-1, and its key set |
| `Binlog.BinlogSeqOfName` | src/dsql_migrator/core/cdc_kafka_prep.py:86-100 | the sequence number of a file name is read back, whatever its width |
| `Binlog.BinlogSeqExactly` | src/dsql_migrator/core/cdc_kafka_prep.py:86-100 | the number of a file is that of the digits after its last dot, and there is none for any other name |
| `Binlog.GuardIsCoordinateOrder` | deploy/cdc-stack/lambda/seeder.py:369-392 | on one source's files the guard is the order of (sequence, position) |
| `Binlog.TextOrderInvertsAtRollover` | deploy/cdc-stack/lambda/seeder.py:352-366 | text order puts .1000000 before .999999, and the guard does not |
| `Binlog.GuardIsTotalExactly` | deploy/cdc-stack/lambda/seeder.py:382-392 | of two numbered offsets one is at or past the other exactly when they share the file or differ in number |
| `Binlog.GuardWithoutNumbers` | deploy/cdc-stack/lambda/seeder.py:369-392 | without a coordinate an offset is never at or past; in one file the position decides; against a name without a number the text order of the names does |
| `Binlog.CoordinateParsesBack` | src/dsql_migrator/core/cdc_coords.py:136-154 | a printed file:position parses back, for every valid file and position |
| `Binlog.CoordinateParsesExactly` | src/dsql_migrator/core/cdc_coords.py:136-154 | a trimmed text parses exactly when a valid file stands before its last colon and digits after it |
| `Binlog.ValidBinlogFileExactly` | src/dsql_migrator/core/cdc_coords.py:122-133 | a file name is a name without white space, a dot and a number |
| `Binlog.ParsedCoordinateIsValid` | src/dsql_migrator/core/cdc_coords.py:122-154 | a parsed coordinate has a valid, numbered file and prints and parses to itself |
| `OffsetTopic.BuildSourceOffset` | deploy/cdc-stack/lambda/seeder.py:92-111 | the dictionary edits give the specified offset |
| `OffsetTopic.SeedResumesAtWatermark` | deploy/cdc-stack/lambda/seeder.py:92-111 | a seeded offset stands at the watermark with its time, at the start of an event, out of any snapshot, with the watermark's GTIDs or none; every other field of a previous offset is kept with its value, and without one there is only a zero server id |
| `OffsetTopic.LatestExactly` | deploy/cdc-stack/lambda/seeder.py:335-343 | an offset is read exactly when the last record of the key that is no tombstone holds it |
| `OffsetTopic.ReadExistingOffset` | deploy/cdc-stack/lambda/seeder.py:310-349 | the poll loop ends, and returns the last readable offset of the key among what was delivered; without an empty poll it reached the end, and after an empty first poll it delivered nothing |
| `OffsetTopic.ReadIsLatestReached` | deploy/cdc-stack/lambda/seeder.py:333-349 | however polls interleave partitions, what was read is the key's last value in the part of its partition that was reached |
| `OffsetTopic.SeedingTwiceAppendsOnce` | deploy/cdc-stack/lambda/seeder.py:498-514 | a second seed at one watermark, after a complete read, appends nothing |
| `OffsetTopic.Seed` | deploy/cdc-stack/lambda/seeder.py:483-514 | the topic gains at most one record, on the key's own partition, exactly when what was read is not at or past the watermark; an empty answer to the first poll reads nothing |
| `SeedProtocol.StepKeepsInv` | deploy/cdc-stack/lambda/seeder.py:483-514 | every step keeps the invariant: every record of the key is a coordinate of the source with no unaccounted change below it |
| `SeedProtocol.RewindsExactly` | deploy/cdc-stack/lambda/seeder.py:369-392 | a step moves the stored offset backward exactly when it is a seed that did not reach a stored offset past its watermark |
| `SeedProtocol.CompleteReadIsSafe` | deploy/cdc-stack/lambda/seeder.py:498-514 | a seed that read to the end never rewinds |
| `SeedProtocol.EmptyReadRewinds` | deploy/cdc-stack/lambda/seeder.py:333-346 | a seed that reads nothing, as after an empty first poll, rewinds every connector past its watermark |
| `SeedProtocol.RewindIsReached` | deploy/cdc-stack/lambda/seeder.py:333-346 | from nothing, a run in which a connector commits past its watermark and a second seed, its first poll empty, puts it back |
| `SeedProtocol.RunIsSafe` | deploy/cdc-stack/lambda/seeder.py:352-514 | over every run the invariant holds; with complete reads the stored offset never moves backward; with seeded starts nothing is skipped |
| `SeedProtocol.NoGapBelowStoredOffset` | deploy/cdc-stack/lambda/seeder.py:483-514 | from any initial state, when every start found a stored offset, every change below the stored offset was covered by a Full Load watermark or acknowledged, and a running connector has every other change behind it still in its hands |
| `SeedProtocol.UnseededStartIsGaplessExactly` | deploy/cdc-stack/lambda/seeder.py:8-13 | a start that finds no offset leaves every change kept or ahead exactly when all changes were acknowledged, or all since one of the Full Loads were |
| `SeedProtocol.FirstStartIsGaplessExactly` | deploy/cdc-stack/lambda/seeder.py:8-13 | for a connector that never ran: exactly when the source has no change, or none since one of the Full Loads |
| `SeedProtocol.CrashLosesUnacknowledged` | deploy/cdc-stack/lambda/seeder.py:8-13 | from nothing, a run in which a change is read, not acknowledged before a crash, and lost by the next start |
| `SeedProtocol.SeedThenStart` | deploy/cdc-stack/lambda/seeder.py:369-514 | however far the source has moved on, a seed that read to the end and a start resume at the later of the stored offset and the watermark, store it, and lose no change below |
| `SeedProtocol.HandoffIsGapless` | deploy/cdc-stack/lambda/seeder.py:6-13 | Full Load, any number of writes, a seed at the load's watermark and a start resume exactly at the watermark: every change written since is still ahead, and none is lost |
| `SeedProtocol.UnseededHandoffLoses` | deploy/cdc-stack/lambda/seeder.py:8-13 | the same run without the seed loses every change written between the load and the start |
| `SeedProtocol.OneWriteIsLost` | deploy/cdc-stack/lambda/seeder.py:8-13 | the smallest loss: one load, one write, one start from nothing; with the seed the change is still ahead |
| `SeedProtocol.RedeployResumesWhereStored` | deploy/cdc-stack/lambda/seeder.py:369-376 | stop, seed at an earlier watermark and start resume at the stored offset and write nothing |
| `SeedProtocol.SeedAnywhereIsGaplessExactly` | deploy/cdc-stack/lambda/seeder.py:483-514 | a seed that writes any coordinate up to the source's end is followed by a start that loses nothing exactly when all changes below it were acknowledged, or all of them since one of the Full Loads |
| `TopicPrep.ParsePartitionsMap` | src/dsql_migrator/core/cdc_kafka_prep.py:62-83 | the loop computes the map of the readable pairs |
| `TopicPrep.PartitionsMapParsesBack` | src/dsql_migrator/core/cdc_kafka_prep.py:62-83 | printed topic:count entries parse back, colons in names included, the last duplicate winning |
| `TopicPrep.OtherPartsAreSkipped` | src/dsql_migrator/core/cdc_kafka_prep.py:72-82 | a part without a colon, or whose count is no integer, is passed over |
| `TopicPrep.ParseIntExactly` | src/dsql_migrator/core/cdc_kafka_prep.py:79-82 | a count may have a sign and white space around it; with any other character it is none |
| `TopicPrep.GroupedExactly` | src/dsql_migrator/core/cdc_kafka_prep.py:79-82 | single underscores may stand between the digits of a count |
| `TopicPrep.UngroupAt` | src/dsql_migrator/core/cdc_kafka_prep.py:79-82 | an underscore between digits is left out |
| `TopicPrep.PlanTopics` | src/dsql_migrator/core/cdc_kafka_prep.py:150-208 | the plan is the compacted offset topic, the data topics with their partitions, and the dead-letter topic if named |
| `TopicPrep.DataSpecsAre` | src/dsql_migrator/core/cdc_kafka_prep.py:186-203 | each data topic has its count from the map or the default, and the size limit if one is given |
| `TopicPrep.CreatedTopicsAre` | deploy/cdc-stack/lambda/seeder.py:241-271 | so has each topic that was created |
| `TopicPrep.OtherSpecsAre` | src/dsql_migrator/core/cdc_kafka_prep.py:180-207 | the dead-letter topic has one partition and the same limit, and the offset topic is compacted |
| `TopicPrep.TrimmedNamesAre` | src/dsql_migrator/core/cdc_kafka_prep.py:192-196 | sink topic names are read without the white space around them, empty ones left out, in order |
| `Text.SpacesAre` | src/dsql_migrator/core/cdc_kafka_prep.py:72-78 | trimming takes blanks, tabs and line ends for white space, and no visible ASCII character |
| `TopicPrep.ThrottleTolerant` | deploy/cdc-stack/lambda/seeder.py:58-78 | a request sleeps at most 31.5 s and fails exactly when eight attempts are throttled; a create has its effect once even if a throttled attempt had already taken effect |
| `TopicPrep.EnsureOne` | deploy/cdc-stack/lambda/seeder.py:167-192 | one topic is added if absent and nothing else changes |
| `TopicPrep.EnsureDataTopics` | deploy/cdc-stack/lambda/seeder.py:241-266 | missing data topics are added one by one, created plus skipped is the number asked for, and no create is sent when all exist |
| `TopicPrep.EnsureDlqTopic` | deploy/cdc-stack/lambda/seeder.py:274-307 | the dead-letter topic is added if named and absent |
| `TopicPrep.PrepareTopics` | deploy/cdc-stack/lambda/seeder.py:465-481 | with at most seven throttled attempts in a row the result is the same whichever are throttled; even on failure existing topics are unaltered and only planned names appear |
| `TopicPrep.EnsureAllIs` | deploy/cdc-stack/lambda/seeder.py:212-271 | existing topics are never altered, and a new one has the shape of the first spec of its name |
| `TopicPrep.PlannedTopicsAreAdded` | deploy/cdc-stack/lambda/seeder.py:241-271 | with distinct names the result is the old map plus every planned topic |
| `TopicPrep.SecondRunCreatesNothing` | deploy/cdc-stack/lambda/seeder.py:234-239 | a second run changes nothing |
| `TopicPrep.OrderMattersExactly` | src/dsql_migrator/core/cdc_kafka_prep.py:186-207 | offset topic first and offset topic last agree exactly when its name exists already or is no other planned name |
| `TopicPrep.PreparationRefinesPlan` | deploy/cdc-stack/lambda/seeder.py:468-481 | the seeder's order and the plan's give one broker map, under exactly that condition |
| `ToolChat.TrimChatMessages` | src/dsql_migrator/core/assessment_strategist.py:1464-1484 | the kept turns are the shortest suffix that reaches the budget, without leading assistant turns, and never empty |
| `ToolChat.RunTools` | src/dsql_migrator/core/assessment_strategist.py:2129-2151 | one result per call, in order, an exception included |
| `ToolChat.LookUpIsCarried` | src/dsql_migrator/core/assessment_strategist.py:2129-2151 | the next request carries, for each call, a look-up's own text whole or up to the cap, the failure text when it raised, and for an answer that it was not shown |
| `ToolChat.FollowUpAnswersEachCall` | src/dsql_migrator/core/assessment_strategist.py:2122-2216 | every reply that the rounds go on from has its tool calls answered once each, in order, whichever branch follows |
| `ToolChat.ShorterAnswersEachCallExactly` | src/dsql_migrator/core/assessment_strategist.py:2181-2216 | answering the answer calls alone answers every call of the turn exactly when it made no look-up, which is what the branch checks |
| `ToolChat.ConversationWellFormed` | src/dsql_migrator/core/assessment_strategist.py:2052-2218 | the conversation stays alternating, ends in a user turn and answers every tool call through every round that went on, for any endpoint |
| `ToolChat.RunRounds` | src/dsql_migrator/core/assessment_strategist.py:2083-2249 | the rounds end within the budget, each request is the conversation so far, and the outcome is the specified delivery |
| `ToolChat.ChatTurn` | src/dsql_migrator/core/assessment_strategist.py:2019-2249 | the transcript is trimmed to the turn that crosses the budget; at most max(1, max_rounds) calls; every request well formed for an alternating transcript; delivered once when available and never otherwise, if the callback returns; what happens if it raises |
| `ToolChat.ShorterAskedOnce` | src/dsql_migrator/core/assessment_strategist.py:2181-2218 | over a whole turn at most one round goes on without look-ups, and it is the request for a shorter reply |
| `ToolChat.ShorterAskedExactly` | src/dsql_migrator/core/assessment_strategist.py:2181-2218 | a shorter reply is asked for exactly when the answers of a reply without look-ups are all empty, it was cut at the output limit, a round is left and none was asked for before; each answer call is then told so |
| `ToolChat.NothingDeliveredNothingReceived` | src/dsql_migrator/core/assessment_strategist.py:2078-2249 | an unavailable outcome means that no reply held a non-empty answer beside its look-ups, nor ended in one |
| `ToolChat.DeliversLatestReceived` | src/dsql_migrator/core/assessment_strategist.py:2059-2249 | a turn delivers something exactly when some round received a non-empty text, and then it shows the latest one received, from its start, whole or up to the cap |
| `ToolChat.ReceivedIs` | src/dsql_migrator/core/assessment_strategist.py:2152-2179 | what a round with answers received is their Markdown, trimmed, the non-empty ones with a blank line between |
| `ToolChat.AnswersAreDelivered` | src/dsql_migrator/core/assessment_strategist.py:2063-2228 | a turn that ends in answers delivers exactly that, within the cap and marked exactly when it is not whole |
| `ToolChat.TextIsDelivered` | src/dsql_migrator/core/assessment_strategist.py:2169-2228 | a turn that ends in text blocks alone delivers their texts one after the other, trimmed |
| `ToolChat.HeldIsDelivered` | src/dsql_migrator/core/assessment_strategist.py:2078-2163 | answers beside look-ups are delivered, with the note, when the round after them fails |
| `ToolChat.AvailableIsLastCalled` | src/dsql_migrator/core/assessment_strategist.py:2063-2249 | the callback is called at most twice, again only after its first call raised; an available outcome is what its last call was given and returned from, and the turn raises exactly when that call raised with no handler left |
| `ToolChat.Conclude` | src/dsql_migrator/core/assessment_strategist.py:2063-2076 | a conclusion gives the callback exactly what it returns |
| `ToolChat.Ended` | src/dsql_migrator/core/assessment_strategist.py:2078-2081 | a held answer is delivered instead of a failure |
| `ToolChat.Caught` | src/dsql_migrator/core/assessment_strategist.py:2233-2249 | a callback that raised is called again with a held answer, or the turn is unavailable |
| `Progress.BoundaryIsFirstMultiple` | scripts/measure_performance.py:255-265 | the next boundary is the first multiple of the interval at least min(1, interval/2) away, and less than the interval more |
| `Progress.MonitorFullLoad` | scripts/measure_performance.py:458-641 | polling stops at the first terminal or lost poll and the windows are the specified ones |
| `Progress.WindowHolds` | scripts/measure_performance.py:517-612 | a window holds the rise of the total since the poll before, the numbers of done, failed and running chunks, and the status of each table in it |
| `Progress.TotalIs` | scripts/measure_performance.py:517-519 | the total is the sum of the chunks' rows |
| `Progress.EnterChunks` | scripts/measure_performance.py:585-612 | the chunk loop computes the specified per-table counts |
| `Progress.WindowsTile` | scripts/measure_performance.py:548-638 | windows tile the run, from its start to the last poll |
| `Progress.RowsConservedExactly` | scripts/measure_performance.py:517-637 | the windows' rows sum to the final total exactly when counts never fall, and to at least that otherwise |
| `Progress.TableRowsAre` | scripts/measure_performance.py:585-612 | a table's rows over all windows are the counts at which its runs were found ended, plus the count of the run going on, by the polls alone |
| `Progress.TableConservedExactly` | scripts/measure_performance.py:585-612 | a table that never ran is credited nothing; one that ran and was not restarted is credited its last observed count exactly when that is still the count at which it was first found stopped |
| `Progress.LateRowsAreMissed` | scripts/measure_performance.py:585-612 | rows counted after a table's first stop, and a table only ever seen done, are in no window |
| `Percentile.PctIgnoresOrder` | scripts/measure_performance.py:214-225 | the percentile does not depend on the order of its values |
| `Percentile.PctAscends` | scripts/measure_performance.py:214-225 | it is monotone over all of 0..100 |
| `Percentile.PctWithinValues` | scripts/measure_performance.py:214-225 | it lies between its values at 0 and 100, which are the least and the greatest value |
| `Percentile.InterpolateBetween` | scripts/measure_performance.py:214-225 | at a whole rank it is that value, and otherwise lies between its two neighbours |
| `Percentile.PctIsLinear` | scripts/measure_performance.py:214-225 | between two neighbouring ranks of the values in order the percentile grows in proportion |
| `Percentile.HalfWay` | scripts/measure_performance.py:214-225 | the median of two values is half way between them |
| `Reconcile.FoldOpLog` | scripts/cdc_consistency_check.py:157-178 | the two sets are disjoint, and hold exactly the keys whose last INSERT or DELETE record is the one or the other |
| `Reconcile.OpsAre` | scripts/cdc_consistency_check.py:171-173 | the operations counted are the records of the tables asked about that have a key |
| `Reconcile.CrosscheckOpLog` | scripts/cdc_consistency_check.py:180-212 | over the logged tables with a one-column constraint named PRIMARY, lost inserts and stale deletes are exactly the keys that contradict their last record, the logged numbers are those of the keys by their last record, and the verdict is that there are none; without such a constraint it always passes |
| `Reconcile.ReconcileTables` | scripts/cdc_consistency_check.py:101-142 | per-table status, missing and extra keys exactly, and consistency overall exactly when every table with one key column has equal keys on both sides |
| `Reconcile.CrosscheckAgreesWithReconcile` | scripts/cdc_consistency_check.py:199-203 | for a complete log, the cross-check passes exactly when the target agrees with the source on every logged key, so equal keys imply nothing lost or stale |
| `Reconcile.AppliedLogReconciles` | scripts/cdc_consistency_check.py:124-128 | when only logged keys may differ, passing the cross-check is the same as equal keys |

## Left out

- DiffTable: the 60-character cut of the texts shown for a change, and whether a change can be fixed on the target.
- CatalogReadBack: the server compares names exactly or without case; other collations and the layout of the SQL text are not modelled, and the WHERE clause is a tree.
- ChangesAreAnEditScript: a rename records no NULL rule and an addition records its type only, so the rule of a renamed or added column is not claimed.
- NoGapBelowStoredOffset: monotone offsets need complete reads, and gaplessness needs seeded starts; `RewindsExactly` and `UnseededStartIsGaplessExactly` say exactly what happens without them.
- ReadExistingOffset: positions of a partition are dense; gaps left by compaction and records written during the read are not modelled.
- PctIgnoresOrder: percentiles, poll boundaries and sleeps are exact reals, without floating-point rounding.
- StartPointCheckIsExact: a definition change whose digests collide is missed; the hash functions and the JSON they hash are not modelled.
- Unicode case mapping and digits: text is ASCII where case or digits matter; bytes and missing values in catalog rows are taken as decoded.
- Offsets whose file is not text or whose position is not a number.
- Kafka, SASL tokens, boto3 and CloudFormation calls, which appear only as arbitrary responses or steps.
- The connector's own snapshot and its row-level restart inside an event; a committed offset is a whole coordinate.
- RunIsSafe: its seeds are at Full Load watermarks; `SeedAnywhereIsGaplessExactly` says when a seed at another coordinate loses nothing.
- GTID normalisation and PostgreSQL LSN text.
- The wording of prompts and notes, tool inputs, thousands separators in the truncation marker, and the classification of endpoint errors.
- Rates, time estimates, CPU, memory and load statistics of the measurement script, and its log lines.
- Cross-check samples and the lookup of the target's schema and key column; key values are integers.
- Other modules of the repository: assessment, configuration, routing and logging would only add easy members.
