# Macrostrat: ingestion, matching and configuration

This project models the algorithms of Macrostrat that carry its hardest guarantees, and proves those
guarantees for every input. Where the code changes state step by step, the model does too: rows of a table,
queues per key, a token list popped in place, nested dicts reached through a moving node, the section that is
still open, the records of a payload. Each such method is proved against a function of its inputs or of the old
state, and the properties are proved about that function.

| files | what they model |
|---|---|
| `Occurrences`, `Reconciliation`, `PlanningLaws` | matching desired rows to stored ones, first in, first out per key |
| `Table`, `TableLaws`, `Applying` | the statements of an apply, and groups written at once |
| `ReconciliationLaws`, `ReconciledRows`, `GroupConvergence`, `Quantizing` | what every row then holds, and convergence |
| `UniqueKeys`, `ColumnReferences`, `CitationLaws` | a unique key that holds between statements, and the citations of columns |
| `Words`, `Lithologies`, `ScanLaws` | the scanner of lithology descriptions, and what it does to every word |
| `WktTokens`, `TokenLaws`, `WktParser`, `WktCheck`, `WktLaws` | the geometry checker: tokenizer, recursive-descent parser, checks, and which texts pass |
| `ConfigMerge`, `SettingsLaws` | layered settings, and where each comes from |
| `ConfigOverrides`, `EnvironmentOverrides`, `EnvironmentLaws` | environment variables as settings |
| `Sections`, `SectionsRoute` | units merged into gap-bound sections, by column |
| `Slugs`, `MigrationLaws` | slugs, and the migration of rows and tables to them |
| `TileCache`, `Renumbering`, `Durations`, `DurationLaws` | tile expiry, provisional ids, durations |

## What was found

- Writing all groups of a reconciliation at once equals reconciling them in turn even when groups overlap. What
  it needs is that every stored id is below the sequence.
- A second reconciliation is a no-op exactly when the rows inserted by the first survive the database's
  rounding. A third one always is, as updates store quantized values.
- The scanner of lithologies does not stop on every table of synonyms, contrary to the comment at
  `py-modules/column-utils/macrostrat/column_utils/lithologies.py:192-201`. It stops on every text when the
  largest word growth of an attribute synonym and that of a lithology synonym add up to at most one, which the
  default tables meet; and for every larger pair of growths some tables keep it going for ever.
- The docstring of `process_domain` says that the same attributes are applied to every lithology. The code resets
  them after each one; three words show it, when the claim does hold is stated, and the model follows the code.
  An attribute that directly follows a lithology is skipped, as any word after a lone lithology is, so a lithology
  after it is left without it.
- `float` reads the word `nan` as a number, and no comparison refuses it, so a geometry can pass the range check
  with `nan` for a coordinate; without one, all its points are in range. Numbers are modelled as real, infinite
  or `nan`.
- `deep_merge` is associative except where a non-table in the middle hides a table; the condition is exact, and
  three tables show it fail.
- The slug migration needs no assumption that prefixes are injective: the prefix of a slug slugifies back to it.
  A row that names another slug's staging table is left naming a table that is gone; the condition is exact, and
  two rows show it. The unique constraint on `primary_table` can stop the updates; two rows show that, and exactly
  when is stated.
- Three kinds of setting are accepted as durations without being positive: a `timedelta`, which is returned as it
  is; zeros alone, such as `"0"`, since minutes written as bare digits are not checked; and a number of minutes of
  at most half a microsecond, which is checked before it is rounded. All others are positive.

## Assumptions

- A sequence hands out consecutive ids and starts past every stored id.
- Convergence assumes what callers of a reconciliation see to: rows are read in id order, the key and the scope
  ignore owned columns, and desired rows carry every owned column and do not carry an id of their own. Groups
  converge when no row is of two groups' scopes.
- `quantize` is idempotent and the database keeps a quantized value as it is, in owned columns. Its ties round half up.
- `float`, the two patterns that turn away look-alikes, the rewrites of a dataset, lower-casing in `slugify` and the
  parsing of a variable's value are parameters. Of lower-casing only that it leaves small ASCII letters, digits,
  hyphens and underscores alone is used.
- Values of override variables are not tables and their paths are distinct. `[default]`, if present, is a table.
- Units have both ages, the base no younger than the top, and arrive by ascending top age.
- Ages, tile coordinates and durations are real numbers. Digits, letters and cases in tokens and durations are
  those of ASCII.

## Model

| member | source | states |
|---|---|---|
| Planning.PlanReconciliation | py-modules/column-ingestion/macrostrat/column_ingestion/reconciliation.py:89-135 | The queue-popping loops compute the functional plan: pairs first in, first out per key, updates where quantized owned columns differ, surplus queue tails as deletes in the order a dict holds its keys. |
| Planning.QueuesByKey | py-modules/column-ingestion/macrostrat/column_ingestion/reconciliation.py:107-109 | The dict of queues holds, under every key, all stored rows of that key in the order read, and its keys in order of first appearance. |
| Planning.PairRows | py-modules/column-ingestion/macrostrat/column_ingestion/reconciliation.py:113-117 | Popping the front of a queue for each desired row pairs the i-th desired row of a key with the i-th stored row of it, or with none. |
| Planning.DecidePairs | py-modules/column-ingestion/macrostrat/column_ingestion/reconciliation.py:119-129 | Each pair becomes an insert, an update of all owned columns, or an unchanged id; the three lists stay in the order of the desired rows. |
| Planning.DrainQueues | py-modules/column-ingestion/macrostrat/column_ingestion/reconciliation.py:131-133 | What is left in the queues is exactly the stored rows beyond as many as are desired of their key. |
| PlanningLaws.MatchedBySlot | py-modules/column-ingestion/macrostrat/column_ingestion/reconciliation.py:107-120 | A desired row is matched exactly to the stored row of equal key and equal rank among the rows of that key. |
| PlanningLaws.InsertedExactly | py-modules/column-ingestion/macrostrat/column_ingestion/reconciliation.py:113-123 | A desired row is left without a match if and only if its rank reaches the number of stored rows of its key; a match is a stored id. |
| PlanningLaws.MatchedPerKey | py-modules/column-ingestion/macrostrat/column_ingestion/reconciliation.py:107-123 | Under each key exactly min(stored, desired) of the desired rows are matched. |
| PlanningLaws.DecideMatches | py-modules/column-ingestion/macrostrat/column_ingestion/reconciliation.py:119-129 | The id of every pair is recorded at its place, and updates, unchanged and inserts together have one entry per desired row. |
| PlanningLaws.DecideInserts | py-modules/column-ingestion/macrostrat/column_ingestion/reconciliation.py:121-123 | The inserts are exactly the desired rows at the unmatched places, in the order desired. |
| PlanningLaws.DeletedExactly | py-modules/column-ingestion/macrostrat/column_ingestion/reconciliation.py:131-133 | A stored row is deleted if and only if its rank reaches the number of desired rows of its key: deletes are the surplus tail. |
| PlanningLaws.PlanSplitsExisting | py-modules/column-ingestion/macrostrat/column_ingestion/reconciliation.py:89-135 | The ids updated, unchanged and deleted are together exactly the stored ids, each exactly once. |
| PlanningLaws.DecideExact | py-modules/column-ingestion/macrostrat/column_ingestion/reconciliation.py:119-129 | The plan calls for an update, an unchanged id or an insert if and only if some pair is decided so: no partner inserts, a quantized difference updates with exactly the owned columns, agreement keeps. |
| PlanningLaws.SlotTakenExactly | py-modules/column-ingestion/macrostrat/column_ingestion/reconciliation.py:107-117 | A stored row is some desired row's partner if and only if its rank is below the number of desired rows of its key. |
| ReconciledRows.SameKeyExactly | py-modules/column-ingestion/macrostrat/column_ingestion/reconciliation.py:70-74 | Two rows have the same key if and only if they read the same in every column of the key, a column that is absent reading as null. |
| ReconciledRows.KeptExactly | py-modules/column-ingestion/macrostrat/column_ingestion/reconciliation.py:119-129 | A matched stored row is left unchanged if and only if all its owned columns agree with the desired row after quantizing; otherwise its update holds exactly the owned columns, each with the quantized desired value. |
| Tables.SqlTable.Update | py-modules/column-ingestion/macrostrat/column_ingestion/reconciliation.py:203-221 | The batched UPDATE writes the owned columns of each named row, as the database rounds them, over what the row held; ids not stored write nothing; every state passed through is recorded. |
| Tables.SqlTable.Allocate | py-modules/column-ingestion/macrostrat/column_ingestion/reconciliation.py:169-175 | n ids are drawn from the sequence, consecutive and past every id drawn before. |
| Tables.SqlTable.Insert | py-modules/column-ingestion/macrostrat/column_ingestion/reconciliation.py:235-238 | One batched INSERT, whose columns are those of its first row, stores every row of the batch under its own id. |
| Tables.SqlTable.Delete | py-modules/column-ingestion/macrostrat/column_ingestion/reconciliation.py:240-241 | DELETE removes exactly the named ids. |
| TableLaws.UpdateAllFrame | py-modules/column-ingestion/macrostrat/column_ingestion/reconciliation.py:203-221 | Updates add no row, remove none, and leave rows they do not name as they were. |
| TableLaws.UpdateAllWrites | py-modules/column-ingestion/macrostrat/column_ingestion/reconciliation.py:203-221 | A row named once ends as its old columns overlaid by its own update, whatever else the batch holds. |
| TableLaws.InsertAllFrame | py-modules/column-ingestion/macrostrat/column_ingestion/reconciliation.py:235-238 | Inserts add exactly the ids of the batch and leave every other row as it was. |
| TableLaws.InsertOrderIsIrrelevant | py-modules/column-ingestion/macrostrat/column_ingestion/reconciliation.py:230-238 | Two batches with the same rows under distinct ids, in any order, leave the same table. |
| TableLaws.BatchOrderExact | py-modules/column-ingestion/macrostrat/column_ingestion/reconciliation.py:230-238 | Grouping new rows by column set loses and repeats no row. |
| TableLaws.BatchingEqualsOneByOne | py-modules/column-ingestion/macrostrat/column_ingestion/reconciliation.py:230-238 | Inserting batch by batch, per column set, leaves the table that inserting row by row in the desired order leaves. |
| TableLaws.NewIdsAscend | py-modules/column-ingestion/macrostrat/column_ingestion/reconciliation.py:169-175 | New rows get pairwise distinct ids of the sequence, ascending in the order desired. |
| TableLaws.MissingGetsDrawnId | py-modules/column-ingestion/macrostrat/column_ingestion/reconciliation.py:223-238 | The j-th row without a match is inserted under the j-th id drawn. |
| Applying.FillIds | py-modules/column-ingestion/macrostrat/column_ingestion/reconciliation.py:223-228 | Writing drawn ids into the missing places in place yields one id per desired row: the matched one or the next of the sequence. |
| Applying.GroupByColumns | py-modules/column-ingestion/macrostrat/column_ingestion/reconciliation.py:230-234 | The dict of batches holds, per set of columns, exactly the new rows carrying those columns, in order. |
| Applying.ApplyReconciliation | py-modules/column-ingestion/macrostrat/column_ingestion/reconciliation.py:178-243 | Statement by statement, the table ends as the plan says, the ids returned are aligned with the desired rows, and the states recorded are those of one update pass, one insert pass and one delete, whatever the batching. |
| Reconciling.Reconcile | py-modules/column-ingestion/macrostrat/column_ingestion/reconciliation.py:246-261 | Planning and applying as one call: final table, returned ids and plan. |
| Reconciling.ReconcileGroups | py-modules/column-ingestion/macrostrat/column_ingestion/reconciliation.py:264-302 | The merged plan is applied once and the ids are cut back into groups; table, history and results are those of the merged plan. |
| Reconciling.MergedPlanExactly | py-modules/column-ingestion/macrostrat/column_ingestion/reconciliation.py:285-293 | The merged plan calls for an update, an unchanged id, an insert or a delete if and only if the plan of some group does. |
| Reconciling.MergingIsSequencing | py-modules/column-ingestion/macrostrat/column_ingestion/reconciliation.py:285-296 | Applying two plans one after the other leaves the table that applying their concatenation at once leaves, when both touch only ids the sequence has passed. |
| Reconciling.GroupsRefineInTurn | py-modules/column-ingestion/macrostrat/column_ingestion/reconciliation.py:264-302 | Writing all groups at once equals reconciling each group in turn: the same plans, the same ids sliced back to the same groups, the same final table and sequence. Disjointness of the groups is not needed; that stored ids are below the sequence is. |
| ReconciliationLaws.DesiredRowIsStored | py-modules/column-ingestion/macrostrat/column_ingestion/reconciliation.py:178-243 | Under the id returned for a desired row the table holds that row: all of it when new, its owned columns over the kept rest when matched. |
| ReconciledRows.MatchedRowBecomes | py-modules/column-ingestion/macrostrat/column_ingestion/reconciliation.py:119-221 | Under an id that was stored the table ends with the stored row, or, where an owned column disagreed, with all owned columns overwritten by the desired values, quantized and then rounded by storage; no other column changes. |
| ReconciledRows.MatchedRowAgrees | py-modules/column-ingestion/macrostrat/column_ingestion/reconciliation.py:119-221 | Under an id that was stored the table then agrees with the desired row in every owned column after quantizing. |
| ReconciledRows.NewRowSays | py-modules/column-ingestion/macrostrat/column_ingestion/reconciliation.py:223-238 | Under a new id, past every stored one, each column sent is stored as the database rounds it, each column not sent has its default, and there are no others. |
| ReconciledRows.SequenceMovesOn | py-modules/column-ingestion/macrostrat/column_ingestion/reconciliation.py:169-175 | The sequence moves on by exactly the number of rows inserted. |
| ReconciliationLaws.ReturnedIdsDistinct | py-modules/column-ingestion/macrostrat/column_ingestion/reconciliation.py:178-243 | The returned ids are pairwise distinct. |
| ReconciliationLaws.RestIsUntouched | py-modules/column-ingestion/macrostrat/column_ingestion/reconciliation.py:178-243 | The returned ids replace exactly the ids read, every other row is untouched, and the sequence stays ahead of all stored ids. |
| ReconciliationLaws.ScopeIsReturnedIds | py-modules/column-ingestion/macrostrat/column_ingestion/reconciliation.py:178-261 | Afterwards the scope the rows were read from holds exactly the returned ids. |
| ReconciliationLaws.SamePairing | py-modules/column-ingestion/macrostrat/column_ingestion/reconciliation.py:89-135 | Read back in id order, every desired row is paired with the very row it was given before. |
| ReconciliationLaws.PlanningAgainKeepsIds | py-modules/column-ingestion/macrostrat/column_ingestion/reconciliation.py:89-135 | Planning again matches every desired row to the id it was given, with no inserts and no deletes. |
| ReconciliationLaws.SecondRunIsNoop | py-modules/column-ingestion/macrostrat/column_ingestion/reconciliation.py:77-135 | The second run is a no-op if and only if every row the first one inserted survives storage, that is, quantizes the same after the database's rounding. |
| ReconciliationLaws.ThirdRunIsNoop | py-modules/column-ingestion/macrostrat/column_ingestion/reconciliation.py:77-135 | The third run is a no-op whatever storage does to values that are not quantized. |
| GroupConvergence.OtherScopeIsUntouched | py-modules/column-ingestion/macrostrat/column_ingestion/reconciliation.py:264-302 | Reconciling a group leaves the rows of every disjoint scope as they were. |
| GroupConvergence.GroupFindsItself | py-modules/column-ingestion/macrostrat/column_ingestion/reconciliation.py:264-302 | For groups of disjoint scopes, what a group reads of itself after all groups were written is what its own reconciliation left, from a table in which it still was as first read. |
| GroupConvergence.OutsideIsUntouched | py-modules/column-ingestion/macrostrat/column_ingestion/reconciliation.py:264-302 | Writing all groups leaves the rows of no group's scope as they were, and adds none there. |
| GroupConvergence.SecondRunOfGroup | py-modules/column-ingestion/macrostrat/column_ingestion/reconciliation.py:264-302 | After all groups were written, planning any of them again neither inserts nor deletes, and is a no-op if and only if the rows inserted for it survived storage. |
| GroupConvergence.ThirdRunOfGroup | py-modules/column-ingestion/macrostrat/column_ingestion/reconciliation.py:264-302 | After a second run of all groups, planning any of them a third time is a no-op. |
| Quantizing.RoundToNearest | py-modules/column-ingestion/macrostrat/column_ingestion/reconciliation.py:77-86 | Rounding to a scale lands on the scale, within half a unit of its last place, and does not move a value already on it. |
| Quantizing.QuantizerExact | py-modules/column-ingestion/macrostrat/column_ingestion/reconciliation.py:77-86 | A number in a column with a scale becomes a whole number of units of that many decimals, at most half a unit away; nulls, text and columns without a scale are left alone. |
| Quantizing.SameScalesSettle | py-modules/column-ingestion/macrostrat/column_ingestion/reconciliation.py:77-135 | With a database that rounds each column to the scale it is compared at, the second run is a no-op, whatever the first one found and wrote. |
| Quantizing.FinerStorageNeedsThirdRun | py-modules/column-ingestion/macrostrat/column_ingestion/reconciliation.py:77-135 | A concrete run that is written twice: 0.46 inserted where storage keeps a tenth and whole numbers are compared, so that the second plan has an update. |
| UniqueKeys.TraceIsUnique | py-modules/column-ingestion/macrostrat/column_ingestion/reconciliation.py:178-243 | Any trace of updates that keep keys, inserts of fresh distinct keys and deletes keeps a unique key in every state passed through. |
| UniqueKeys.UnmatchedCountsZero | py-modules/column-ingestion/macrostrat/column_ingestion/reconciliation.py:113-123 | With distinct desired keys, a row is inserted only when its group stores no row of its key. |
| UniqueKeys.UniqueThroughout | py-modules/column-ingestion/macrostrat/column_ingestion/reconciliation.py:264-302 | Reconciling groups whose desired keys are all distinct breaks a unique key at no row written, although inserts run before deletes. |
| ColumnReferences.Deduplicate | py-modules/column-ingestion/macrostrat/column_ingestion/refs.py:293-297 | The setdefault loop keeps the first citation of each link key. |
| ColumnReferences.FirstPerKeyExact | py-modules/column-ingestion/macrostrat/column_ingestion/refs.py:292-298 | Every cited key is linked exactly once, and every link is a citation of its column. |
| CitationLaws.LinkSays | py-modules/column-ingestion/macrostrat/column_ingestion/refs.py:251-261 | Column by column: a link carries its column, the reference cited, the verb given or `unspecified`, and the locator and its address as given, or null. |
| CitationLaws.SameLinkExactly | py-modules/column-ingestion/macrostrat/column_ingestion/refs.py:247-248 | Two links are one under the unique key if and only if column, reference, verb and locator read the same. |
| CitationLaws.FirstCitationIsLinked | py-modules/column-ingestion/macrostrat/column_ingestion/refs.py:293-298 | Of the citations of one key the first is linked as it stands. |
| ColumnReferences.AllKeysDistinct | py-modules/column-ingestion/macrostrat/column_ingestion/refs.py:291-298 | Over all columns, no two desired links share the unique key. |
| ColumnReferences.CitationsStayUnique | schema/core/0002-macrostrat/01-main.sql:897-897 | The unique key (col_id, ref_id, ref_type, locator), nulls not distinct, holds after every row that an update, insert batch or delete writes. |
| ColumnReferences.ReconcileColumnsReferences | py-modules/column-ingestion/macrostrat/column_ingestion/refs.py:271-306 | The whole call: one result per column with its own plan, the table that reconciling column by column would leave, and the unique key kept in every recorded state. |
| ColumnReferences.CitationsConverge | py-modules/column-ingestion/macrostrat/column_ingestion/refs.py:271-306 | Citing the same once more, from a fresh read of the cited columns, writes nothing in any column, when locator addresses are stored as sent. |
| CitationLaws.CitationsAreStored | py-modules/column-ingestion/macrostrat/column_ingestion/refs.py:271-306 | Whatever was linked before, in the end the rows of each cited column are, one for one, the links of the keys it cites, each with the address of the first citation of its key. |
| CitationLaws.OtherLinksAreUntouched | py-modules/column-ingestion/macrostrat/column_ingestion/refs.py:281-306 | The links of columns that are not cited stay as they were, and none is added. |
| Words.SplitJoin | py-modules/column-utils/macrostrat/column_utils/lithologies.py:336-350 | Joining words with single spaces and splitting again gives the words back. |
| Words.SplitConcat | py-modules/column-utils/macrostrat/column_utils/lithologies.py:187-237 | Concatenating two texts adds their word counts, less one exactly when both touch without a space. |
| Lithologies.SortByLengthSorts | py-modules/column-utils/macrostrat/column_utils/lithologies.py:303-318 | Ordering synonyms keeps the table as a multiset, puts longer synonyms first, and keeps the pairs of one synonym in table order. |
| Lithologies.LongestSynonymReplaced | py-modules/column-utils/macrostrat/column_utils/lithologies.py:321-326 | What is replaced is a longest synonym the text starts with, by characters, and the text is unchanged when it starts with none. |
| ScanLaws.PairsOfTable | py-modules/column-utils/macrostrat/column_utils/lithologies.py:303-318 | The pairs to replace by are exactly the source terms of the table, each with the canonical name it is listed under. |
| ScanLaws.GrowthIsMost | py-modules/column-utils/macrostrat/column_utils/lithologies.py:321-326 | The word growth of a synonym is the most words that replacing it adds to any text: none gains more, and some text gains as many. |
| Lithologies.FindTarget | py-modules/column-utils/macrostrat/column_utils/lithologies.py:336-350 | The word-consuming loop returns the target named by the shortest matching run of leading words with the rest of the words, or nothing with the text as it was. |
| Lithologies.FindTakesShortestPrefix | py-modules/column-utils/macrostrat/column_utils/lithologies.py:336-350 | A match is named by n leading words, no fewer leading words name a target, and matched words followed by the remainder are the words of the text. |
| ScanLaws.FindExact | py-modules/column-utils/macrostrat/column_utils/lithologies.py:329-350 | A search finds a target if and only if leading words name one: the fewest words that do, the first target listed under that name, and the words after them left; otherwise the text is left as it is. |
| ScanLaws.SynonymsOfEachSearch | py-modules/column-utils/macrostrat/column_utils/lithologies.py:261-289 | Lithologies are looked for after the synonyms of lithologies and attributes after those of attributes, and a leading lithology goes before a leading attribute. |
| Lithologies.ReplaceAddsAtMost | py-modules/column-utils/macrostrat/column_utils/lithologies.py:321-326 | Replacing a synonym adds at most the largest word growth of its table. |
| Lithologies.PassShrinks | py-modules/column-utils/macrostrat/column_utils/lithologies.py:187-237 | When attribute and lithology growth add up to at most one, each pass strictly lowers the word count, or ends a text without words. |
| ScanLaws.PassReads | py-modules/column-utils/macrostrat/column_utils/lithologies.py:201-237 | Without synonyms, what a pass does to the words: it reads a leading name, a lithology rather than an attribute, then a lithology if one follows, and skips one word exactly when it read neither an attribute nor a second lithology. |
| ScanLaws.PassKeepsWords | py-modules/column-utils/macrostrat/column_utils/lithologies.py:201-237 | The words of the names read, the words skipped and the words left are the words of the text, in order; at most one is skipped, and exactly when nothing or a lone lithology was read and a word is there to skip. |
| ScanLaws.WordScan | py-modules/column-utils/macrostrat/column_utils/lithologies.py:187-237 | With names of one word and no synonyms, every scan ends, and recognises exactly what reading the text word by word does. |
| Lithologies.RunPass | py-modules/column-utils/macrostrat/column_utils/lithologies.py:187-237 | One pass of the mutable scanner, including the word it skips after a lithology not followed by another, does exactly the pass's events to the waiting attributes and the lithologies found. |
| Lithologies.BoundedEnds | py-modules/column-utils/macrostrat/column_utils/lithologies.py:187-237 | Within the bound, some number of passes uses up every text. |
| Lithologies.GrowthsGuaranteeEnds | py-modules/column-utils/macrostrat/column_utils/lithologies.py:187-237 | Whatever vocabulary has these two growths, the scan of every text ends, if and only if the growths add up to at most one. |
| Lithologies.ProcessDomain | py-modules/column-utils/macrostrat/column_utils/lithologies.py:173-241 | Whenever the scans of its entities end, for any tables, the nested loops terminate and return the lithologies of the domain's events, attributes waiting across commas. |
| Lithologies.AttributesGoToNextLithology | py-modules/column-utils/macrostrat/column_utils/lithologies.py:173-241 | Each lithology gets exactly the attributes recognised since the lithology before it; none goes back, none goes to two. |
| ScanLaws.AttributesReachLithology | py-modules/column-utils/macrostrat/column_utils/lithologies.py:173-241 | Any number of one-word attributes and then a one-word lithology, with any spaces and commas between them, are as a domain that one lithology with all of the attributes. |
| ScanLaws.AttributeAfterLithologyIsSkipped | py-modules/column-utils/macrostrat/column_utils/lithologies.py:225-227 | A one-word attribute between two one-word lithologies is skipped, so that neither carries it. |
| ScanLaws.EntitiesExactly | py-modules/column-utils/macrostrat/column_utils/lithologies.py:185-189 | The entities are the parts between commas, stripped of spaces at both ends and then rewritten. |
| Lithologies.SameAttributesExactly | py-modules/column-utils/macrostrat/column_utils/lithologies.py:174-178 | All lithologies of a domain carry the same attributes, as the docstring says, if and only if the same attributes are waiting wherever a lithology is found. |
| Lithologies.SecondLithologyHasNoAttributes | py-modules/column-utils/macrostrat/column_utils/lithologies.py:173-241 | For any attribute and two lithologies of one word and no comma, the three words as a domain, split at commas, give the first lithology with the attribute and the second with none: the docstring's claim fails. |
| Lithologies.DefaultSynonymsAreBounded | py-modules/column-utils/macrostrat/column_utils/lithologies.py:59-87 | The default tables are within the bound, so the shipped scanner always terminates. |
| ScanLaws.DefaultAttributePairs | py-modules/column-utils/macrostrat/column_utils/lithologies.py:80-87 | Flattened and sorted, the default table of attribute synonyms replaces exactly these terms, each by its canonical name. |
| ScanLaws.DefaultLithPairs | py-modules/column-utils/macrostrat/column_utils/lithologies.py:59-64 | Flattened and sorted, the default table of lithology synonyms replaces exactly these terms, each by its canonical name. |
| Lithologies.LargerGrowthNeverEnds | py-modules/column-utils/macrostrat/column_utils/lithologies.py:187-237 | For any two growths adding up to two or more there are tables with exactly these growths and a text on which no number of passes ends the scan: the bound is tight. |
| WktTokens.Tokenize | py-modules/column-ingestion/macrostrat/column_ingestion/wkt.py:138-147 | The position-advancing loop returns the tokens of the text, or nothing where no token matches. |
| WktTokens.TokensLoseOnlySpaces | py-modules/column-ingestion/macrostrat/column_ingestion/wkt.py:138-147 | Accepted tokens, concatenated, are the text less its spaces: nothing is dropped, repeated or reordered. |
| WktTokens.TokensOfSpaced | py-modules/column-ingestion/macrostrat/column_ingestion/wkt.py:34-34 | Tokens written one space apart are read back as the same tokens. |
| TokenLaws.NumberExactly | py-modules/column-ingestion/macrostrat/column_ingestion/wkt.py:33-33 | The number read is the longest start of the text that matches the expression: optional sign, digits with an optional point or a point with digits, optional exponent. |
| TokenLaws.TokensExactly | py-modules/column-ingestion/macrostrat/column_ingestion/wkt.py:34-34 | A text is read as some tokens if and only if it is spaces and tokens in turn, each token the longest number that starts there, else the longest word of letters, else a bracket or comma. |
| WktParser.TokenList.List | py-modules/column-ingestion/macrostrat/column_ingestion/wkt.py:150-172 | The mutually recursive parser, popping the list in place and never an empty one, returns what the functional parser does, leaves its remainder, and always consumes. |
| WktParser.TokenList.Coordinate | py-modules/column-ingestion/macrostrat/column_ingestion/wkt.py:175-190 | Numbers up to the next bracket or comma are read in place; other counts than 2 to 4 and unreadable numbers are refused. |
| WktParser.ParsedWasPrinted | py-modules/column-ingestion/macrostrat/column_ingestion/wkt.py:150-190 | Whatever is accepted was printed: the tokens are the printed form of the result, uniformly nested to the depth reported, followed by the remainder. |
| WktParser.PrintedIsParsed | py-modules/column-ingestion/macrostrat/column_ingestion/wkt.py:150-190 | Every uniformly nested tree of points of 2 to 4 numbers, printed before any remainder, is parsed to that tree and depth with that remainder. |
| WktCheck.Parse | py-modules/column-ingestion/macrostrat/column_ingestion/wkt.py:116-135 | Kind, optional dimension tag, nesting of that kind, and nothing left over: each refusal in the order of the code. |
| WktCheck.ParsedNests | py-modules/column-ingestion/macrostrat/column_ingestion/wkt.py:116-135 | A parsed geometry nests exactly as its kind demands, so no coordinate is ever ill-typed in the checks that follow. |
| WktLaws.ParsesExactly | py-modules/column-ingestion/macrostrat/column_ingestion/wkt.py:116-190 | A text parses to a kind and coordinates if and only if its tokens are the kind in any case, perhaps a dimension, and the printed coordinates, nested as that kind nests them. |
| WktLaws.ParsesEmptyExactly | py-modules/column-ingestion/macrostrat/column_ingestion/wkt.py:118-127 | It parses to a kind without coordinates if and only if `EMPTY` is all that follows the kind and dimension. |
| WktLaws.FailureExactly | py-modules/column-ingestion/macrostrat/column_ingestion/wkt.py:118-135 | Why tokens do not parse, apart from a fault inside the list: no word comes first, the word is no kind, something follows the list, the list does not nest as the kind's do, or a point has other than one coordinate, each exactly then. |
| WktCheck.LinesAreValid | py-modules/column-ingestion/macrostrat/column_ingestion/wkt.py:71-77 | The nesting makes every line the check looks at a list of points. |
| WktCheck.CheckLines | py-modules/column-ingestion/macrostrat/column_ingestion/wkt.py:71-90 | The first complaint over all lines, in the order of the code. |
| WktCheck.CheckWkt | py-modules/column-ingestion/macrostrat/column_ingestion/wkt.py:44-91 | The whole check, branch by branch, equals the verdict function. |
| WktCheck.PassesExactly | py-modules/column-ingestion/macrostrat/column_ingestion/wkt.py:44-91 | A text passes if and only if it is neither a bare pair nor degrees, tokenizes, and spells an accepted geometry whose lines have two points, whose rings have four and are closed, and whose points are in range. |
| WktLaws.GoodRingExactly | py-modules/column-ingestion/macrostrat/column_ingestion/wkt.py:77-90 | A ring is good if and only if it has four points, all in range, and the first two numbers of its last point equal those of its first, none of them nan. |
| WktLaws.PassesByKind | py-modules/column-ingestion/macrostrat/column_ingestion/wkt.py:71-91 | A text passes if and only if its tokens write, by kind, a line of two points, some such lines, some such rings, or some polygons of such rings, with all numbers in range or nan. |
| WktLaws.TurnedAwayExactly | py-modules/column-ingestion/macrostrat/column_ingestion/wkt.py:61-69 | Points are turned away as points, multipoints for their kind, and empty geometries of the accepted kinds as empty, each exactly then. |
| WktLaws.NoGeometryExactly | py-modules/column-ingestion/macrostrat/column_ingestion/wkt.py:46-59 | A text is taken for a pair if and only if it looks like one, for degrees if it looks like those and not like a pair, and for no geometry if and only if it looks like neither and its tokens write none of the six kinds. |
| WktLaws.ComplaintExactly | py-modules/column-ingestion/macrostrat/column_ingestion/wkt.py:78-90 | Which of the four complaints is made about a line, and when, in terms of its length, its first and last numbers and their range. |
| WktLaws.FirstFaultyLine | py-modules/column-ingestion/macrostrat/column_ingestion/wkt.py:78-91 | The complaint made is that about the first line to which there is one, and there is none if and only if there is none about any line. |
| WktCheck.GoodLineOnGlobeExactly | py-modules/column-ingestion/macrostrat/column_ingestion/wkt.py:85-90 | All points of a good line have a longitude and a latitude in range if and only if no longitude or latitude of it is nan. |
| WktCheck.PassesOnGlobeExactly | py-modules/column-ingestion/macrostrat/column_ingestion/wkt.py:44-91 | A text that passes is read as a geometry all of whose points are in range if and only if none of them has a nan. |
| WktCheck.WrittenPasses | py-modules/column-ingestion/macrostrat/column_ingestion/wkt.py:44-91 | Every well-written geometry, written with spaces between its tokens, passes as text and is read as its kind and its coordinates. |
| WktCheck.WrittenLinePasses | py-modules/column-ingestion/macrostrat/column_ingestion/wkt.py:44-91 | For one, a line through any two points that comparisons do not turn away. |
| WktCheck.NanPasses | py-modules/column-ingestion/macrostrat/column_ingestion/wkt.py:85-90 | The text `LINESTRING ( nan 0 , 1 1 )` passes, given a float that reads nan and patterns that do not match it, although its first point has no longitude. |
| ConfigMerge.DeepMerge | py-modules/core/macrostrat/core/config_loader.py:123-131 | The copy-and-overwrite loop with its recursion computes the merge of two tables, where no table reads as an empty one. |
| ConfigMerge.EmptyIsIdentity | py-modules/core/macrostrat/core/config_loader.py:123-131 | The empty table is an identity on both sides. |
| ConfigMerge.MergeIdempotent | py-modules/core/macrostrat/core/config_loader.py:123-131 | Merging a table with itself changes nothing. |
| ConfigMerge.CoveredIsAbsorbed | py-modules/core/macrostrat/core/config_loader.py:123-131 | A merge is its override exactly when the override covers the base. |
| ConfigMerge.AssociativeExactly | py-modules/core/macrostrat/core/config_loader.py:123-131 | The merge of three values is associative if and only if nowhere a non-table in the middle hides a table below that the one above does not cover. |
| ConfigMerge.HiddenTableBreaksAssociativity | py-modules/core/macrostrat/core/config_loader.py:123-131 | Three concrete tables, the middle one hiding a table of the first, whose two ways of merging differ. |
| ConfigMerge.LeafOfMerge | py-modules/core/macrostrat/core/config_loader.py:123-131 | A leaf of a merge is a leaf of the override, or one of the base where the override decides nothing on its path. |
| SettingsLaws.MergeHoldsExactly | py-modules/core/macrostrat/core/config_loader.py:123-131 | A merge holds something at a path, table or value, if and only if the override does, or the base does and the override decides nothing there. |
| ConfigMerge.HighestLayerWins | py-modules/core/macrostrat/core/config_loader.py:134-144 | Over any number of layers, a value is the final one at a path if and only if a layer sets it there and no higher layer decides the path. |
| ConfigMerge.SettingsTable | py-modules/core/macrostrat/core/config_loader.py:556-562 | An undefined environment is refused; otherwise the table is top level, default, environment and overrides, in that order of precedence. |
| SettingsLaws.SettingComesFrom | py-modules/core/macrostrat/core/config_loader.py:134-144 | A final setting is the overrides' own; else, where they decide nothing, that of the selected section; else that of `[default]`; else one outside all tables whose key is not `config_version`: if and only if. |
| SettingsLaws.DecidesExactly | py-modules/core/macrostrat/core/config_loader.py:123-131 | A layer decides a path if and only if it holds something there or a value stands on the way. |
| ConfigOverrides.LeafOfSet | py-modules/core/macrostrat/core/config_loader.py:176-183 | What one variable's write does to every leaf of the tree, including the write that a leaf on the way stops. |
| ConfigOverrides.LeavesAreEffective | py-modules/core/macrostrat/core/config_loader.py:164-183 | The leaves are exactly the variables whose path has no other variable's path as a proper prefix. |
| ConfigOverrides.NoStraysFromVariables | py-modules/core/macrostrat/core/config_loader.py:176-183 | No empty table is left behind by a write that was stopped. |
| ConfigOverrides.LeavesDetermine | py-modules/core/macrostrat/core/config_loader.py:164-183 | Two tables without stray empty tables and with the same leaves are equal. |
| ConfigOverrides.OrderIsIrrelevant | py-modules/core/macrostrat/core/config_loader.py:164-183 | Any order of the same variables, with distinct paths, gives the same tree. |
| EnvironmentOverrides.EnvironmentOrderIsIrrelevant | py-modules/core/macrostrat/core/config_loader.py:164-183 | Two orders of one environment in which no two settings have the same path leave the same tree. |
| EnvironmentLaws.SplitNestingExactly | py-modules/core/macrostrat/core/config_loader.py:173-173 | A name is split into some parts if and only if they joined by double underscores are the name, none has one, and only the last ends in an underscore. |
| EnvironmentLaws.PathOfParts | py-modules/core/macrostrat/core/config_loader.py:168-173 | The path of a setting has one key for each part of its name that is not empty, in the order of the parts and in small letters. |
| EnvironmentLaws.NamedSetting | py-modules/core/macrostrat/core/config_loader.py:168-173 | With parts that are not empty and have no underscores, the i-th key is the i-th part in small letters. |
| EnvironmentLaws.NoSettingExactly | py-modules/core/macrostrat/core/config_loader.py:168-175 | A variable is no setting if and only if its name lacks the prefix, or what follows is one of the eleven control names, ends in `_SRC`, or is an even number of underscores. |
| EnvironmentOverrides.OverridesExactly | py-modules/core/macrostrat/core/config_loader.py:164-183 | With distinct paths, a value is in the table at a path if and only if a variable spells that path and holds that value, and no variable spells a path above it. |
| EnvironmentOverrides.DictHeap.SetDefault | py-modules/core/macrostrat/core/config_loader.py:176-179 | Moving to a child dict, made when missing, changes the tree as the write in progress will, and nothing beside the path. |
| EnvironmentOverrides.DictHeap.WriteVariable | py-modules/core/macrostrat/core/config_loader.py:175-183 | The walk of a moving node through mutable dicts, with its break, has the effect of one functional write. |
| EnvironmentOverrides.ReadOverrides | py-modules/core/macrostrat/core/config_loader.py:164-183 | The whole loop over the environment leaves, in the heap, the tree of the settings among the variables. |
| Sections.Section.Push | services/api-v2/v2/sections.ts:79-83 | Taking in a unit deepens the base age when needed and appends the unit. |
| Sections.ColumnSections | services/api-v2/v2/sections.ts:66-93 | The loop with its one mutable current section yields the packages of the column's units. |
| Sections.PackagesAreTight | services/api-v2/v2/sections.ts:58-98 | Every unit is kept once and in order, each package's ages are the least top and greatest base of its units, and consecutive packages are strictly separated. |
| Sections.PackagesAreComponents | services/api-v2/v2/sections.ts:58-98 | Two units share a package if and only if a chain of overlapping closed age intervals joins them. |
| Sections.PackageHoldsItsUnits | services/api-v2/v2/sections.ts:66-93 | A unit's package holds the units of its number, and no others. |
| SectionsRoute.GroupByColumn | services/api-v2/v2/sections.ts:58-62 | The dict of columns holds, per column id met, that column's units in order, and every column is listed once. |
| SectionsRoute.SectionsKeepEach | services/api-v2/v2/sections.ts:58-98 | Every unit read is in exactly one section, of its own column, as often as it was read. |
| SectionsRoute.UnitsOfOrdered | services/api-v2/v2/units.ts:648-648 | The ascending order of all units by top age is the order within each column, which the merge relies on. |
| SectionsRoute.AgeRange | services/api-v2/v2/sections.ts:129-134 | The minimum and maximum loops find the least top and greatest base age. |
| SectionsRoute.FixedIsNearest | services/api-v2/v2/sections.ts:112-127 | The text of a thickness total reads back as the nearest whole number of hundredths, the greater of two that are as near. |
| SectionsRoute.SummarizeSection | services/api-v2/v2/sections.ts:104-143 | Adding up thicknesses, as text of two decimals, and collections, and taking the extreme ages, over a section's units gives its summary, whose ages are those the merge kept running. |
| SectionsRoute.SummarySays | services/api-v2/v2/sections.ts:106-142 | A summary has the column, area, section and project of its first unit, the least top and greatest base age of its units, and the sums of their greatest and least thicknesses, to two decimals, and of their collections. |
| SectionsRoute.SummarizeUnits | services/api-v2/v2/sections.ts:58-143 | Group, merge and summarize, as for the short response: for every column met, the summaries of its sections, one for one and in order. |
| SectionsRoute.SectionsConserve | services/api-v2/v2/sections.ts:112-142 | What is added up section by section, for any figure of a unit, adds up to the total over the column's units. |
| Slugs.SlugifyGivesSlug | py-modules/map-utils/macrostrat/map_utils/slugs.py:22-24 | Every text slugifies to text of the slug pattern, or to nothing. |
| MigrationLaws.SlugifyExactly | py-modules/map-utils/macrostrat/map_utils/slugs.py:22-24 | A slug is the maximal runs of small ASCII letters and digits of the lower-cased name, in order, joined by single hyphens. |
| MigrationLaws.IsSlugExactly | py-modules/map-utils/macrostrat/map_utils/slugs.py:11-11 | The slug pattern is some runs of small letters and digits, at least one, with a hyphen between any two. |
| Slugs.SlugIsFixed | py-modules/map-utils/macrostrat/map_utils/slugs.py:22-24 | A slug is its own slug. |
| Slugs.SlugifyIdempotent | py-modules/map-utils/macrostrat/map_utils/slugs.py:22-24 | Slugifying is idempotent on every text. |
| Slugs.PrefixSlugifiesBack | py-modules/map-utils/macrostrat/map_utils/slugs.py:52-54 | The table prefix of a slug slugifies back to it, so prefixes are injective. |
| KebabMigration.RefuseCollisions | schema/_migrations/map_source_kebab_slugs/__init__.py:116-135 | Refusal happens exactly when two old slugs get one name or one gets none. |
| KebabMigration.NewNameIsNoOtherOldName | schema/_migrations/map_source_kebab_slugs/__init__.py:48-50 | Without collisions, what a slug becomes, or its table prefix, is no other stored slug. |
| KebabMigration.MovesAreApart | schema/_migrations/map_source_kebab_slugs/__init__.py:70-86 | No two staging-table renames share a source or a target, and none moves to where another moves from. |
| KebabMigration.Database.RenameTables | schema/_migrations/map_source_kebab_slugs/__init__.py:70-86 | The nested loops with their growing set of names refuse exactly when a table was in the way from the start, and otherwise move all tables as one simultaneous rename, each with its contents. |
| KebabMigration.UpdateIsApart | schema/_migrations/map_source_kebab_slugs/__init__.py:88-106 | No UPDATE catches a row that an earlier one renamed: each turns one more slug's rows to what the simultaneous substitution gives. |
| KebabMigration.PartlyIsUnique | schema/_migrations/map_source_kebab_slugs/__init__.py:88-106 | Slugs are unique however many of the updates have run. |
| KebabMigration.Database.UpdateSlugs | schema/_migrations/map_source_kebab_slugs/__init__.py:88-106 | The sequential updates, skipping renames that change nothing, are stopped by a unique constraint exactly when some row would follow its slug to a table that another row names; otherwise they equal one simultaneous substitution of slug and both table columns, with both unique columns unique after every statement. |
| MigrationLaws.MigratedRow | schema/_migrations/map_source_kebab_slugs/__init__.py:96-104 | Every row ends under its kebab slug; its primary table follows exactly if it was the old slug with `_polygons`, its primary line table exactly if it was the old slug with `_lines`, and both otherwise stay. |
| MigrationLaws.MigratedTables | schema/_migrations/map_source_kebab_slugs/__init__.py:70-86 | Exactly the polygon, line and point tables named after old slugs take their new names, all at once and with what they hold; every other table stays. |
| MigrationLaws.CollisionsExactly | schema/_migrations/map_source_kebab_slugs/__init__.py:116-135 | Slugs collide if and only if the kebab slug of some row is empty or that of another row. |
| MigrationLaws.ObstructedExactly | schema/_migrations/map_source_kebab_slugs/__init__.py:75-79 | A table is in the way if and only if one that moves would take the name of one that is there. |
| MigrationLaws.ClashesExactly | schema/_migrations/map_source_kebab_slugs/__init__.py:99-103 | The unique primary table is in the way if and only if one row names the polygon table of its old slug and another the polygon table of the first one's new slug. |
| MigrationLaws.TableIsFollowedExactly | schema/_migrations/map_source_kebab_slugs/__init__.py:70-106 | In both columns of the migrated row: it goes on naming the table it named, contents and all, if and only if that was its own polygon table, or line table, or did not move. |
| KebabMigration.SecondSourceLosesItsTable | schema/_migrations/map_source_kebab_slugs/__init__.py:70-106 | For any two slugs of which the first is not its own prefix, a migration that is not refused leaves a row naming a table that is gone. |
| KebabMigration.SecondSourceIsInTheWay | schema/_migrations/map_source_kebab_slugs/__init__.py:88-106 | For any such slugs there are rows that meet the constraints and that nothing stops from migrating but the unique primary table. |
| KebabMigration.DoubledHyphenIsMixed | schema/_migrations/map_source_kebab_slugs/__init__.py:70-106 | Such slugs exist: `a--b` and `c`. |
| KebabMigration.PrimaryUniqueExactly | schema/_definitions/maps/01-maps.sql:619-620 | Primary tables stay unique after any set of the updates if and only if none of them leads a row to a table that another row names. |
| KebabMigration.Database.Migrate | schema/_migrations/map_source_kebab_slugs/__init__.py:47-113 | The whole migration: stopped exactly for collisions, a table in the way, or a primary table another row names; otherwise tables moved at once, rows substituted at once, and the check constraint on slugs holding. |
| Tiling.RangeIsCoverage | py-modules/cli/macrostrat/cli/cache.py:192-209 | A tile lies in the integer rectangle between the corner tiles if and only if some point of the extent is on it, clamping included. |
| Tiling.TileHalves | py-modules/cli/macrostrat/cli/cache.py:203-209 | A point's tile at one zoom is its tile at the next with both coordinates halved, at the clamped edges too. |
| Tiling.TileSpans | py-modules/cli/macrostrat/cli/cache.py:203-209 | A point's column counts equal shares of the width from the west and its row equal shares of the height from the north, two to the zoom of each; beyond an edge it is on the tile at that edge. |
| Tiling.CoverageIsPyramid | py-modules/cli/macrostrat/cli/cache.py:203-209 | A tile is covered by an extent if and only if one of its quarters at the next zoom is. |
| TileCaching.TileCache.Expire | py-modules/cli/macrostrat/cli/cache.py:179-200 | Over all extents and zooms, exactly the tiles of the given profiles that hold a point of an extent at one of its zooms are deleted, and the total is the number deleted, each counted once. |
| TileCaching.StaleExactly | py-modules/cli/macrostrat/cli/cache.py:192-200 | A tile is one to expire if and only if its profile is asked for and some point of some extent is on it at a zoom from the extent's least to its greatest, both included. |
| Renumbering.Mapping | py-modules/column-ingestion/macrostrat/column_ingestion/payload.py:323-325 | Sorting the ids and numbering them in turn gives each the number after those of all smaller ids. |
| Renumbering.NumberingIsOnto | py-modules/column-ingestion/macrostrat/column_ingestion/payload.py:323-325 | The ids of a kind become exactly -1 to -n, in reverse order of the ids. |
| Renumbering.RenumberedByField | py-modules/column-ingestion/macrostrat/column_ingestion/payload.py:327-350 | Field by field, which ids each field is renumbered by: columns, units and boundaries by their own, sections by those of units and boundaries, and the units below and above a boundary by those of units. |
| Renumbering.KeepsReferencesExactly | py-modules/column-ingestion/macrostrat/column_ingestion/payload.py:335-350 | Fields of one kind, across all three tables, are equal after renumbering if and only if they were before, exactly when no reference from outside is one of the numbers handed out. |
| Renumbering.DatabaseIdsKeepReferences | py-modules/column-ingestion/macrostrat/column_ingestion/payload.py:335-350 | Non-negative ids always meet that condition; 0 and a missing id stay as they are. |
| Renumbering.Record.Remap | py-modules/column-ingestion/macrostrat/column_ingestion/payload.py:335-337 | One field is replaced when the record has it and the table has its value; otherwise nothing in the record changes. |
| Renumbering.Renumber | py-modules/column-ingestion/macrostrat/column_ingestion/payload.py:320-350 | Remapping every record in place, field by field, renumbers all three tables as one substitution. |
| Words.IntOfDecimal | py-modules/core/macrostrat/core/environment.py:271-300 | A printed number is read back as itself. |
| Durations.ScanDecides | py-modules/core/macrostrat/core/environment.py:233-237 | One pass over the text finds an assignment of digits to units if and only if the regular expression, with all its ways of going back, allows it; so the match is unique. |
| DurationLaws.TextExactly | py-modules/core/macrostrat/core/environment.py:266-280 | Other text is a duration if and only if it fits the expression with days, hours, minutes and seconds that do not amount to zero, and then it is their sum. |
| DurationLaws.BareNumberIsMinutes | py-modules/core/macrostrat/core/environment.py:264-265 | A bare number is that many minutes. |
| DurationLaws.NumbersAndDeltas | py-modules/core/macrostrat/core/environment.py:251-260 | A number is accepted if and only if it is above zero, as that many minutes to half a microsecond; a timedelta is returned as it is, and true is refused. |
| DurationLaws.NoExpiryExactly | py-modules/core/macrostrat/core/environment.py:250-263 | No expiry is given exactly by leaving the setting out, by false, and by six words in any case. |
| Durations.PartsFit | py-modules/core/macrostrat/core/environment.py:283-300 | Printed parts, for any units and amounts, fit the regular expression with those amounts. |
| DurationLaws.FormatSays | py-modules/core/macrostrat/core/environment.py:283-300 | From a minute on, a duration is printed as the days, hours below 24 and minutes below 60 it has, in this order and without those that are none. |
| Durations.RoundTrip | py-modules/core/macrostrat/core/environment.py:244-300 | Parsing what is printed gives the whole seconds below a minute, the duration rounded down to the minute from there on, and the right refusal for zero and for negative durations. |
| Durations.NeverIsNever | py-modules/core/macrostrat/core/environment.py:244-300 | Parsing what is printed gives no expiry if and only if there was none. |
| Durations.FormatIsStable | py-modules/core/macrostrat/core/environment.py:283-300 | Printing what was parsed from a print gives the same text. |
| Durations.WholeMicrosIsNearest | py-modules/core/macrostrat/core/environment.py:257-260 | A number of minutes is kept to the nearest microsecond, and whole microseconds are kept as they are. |
| Durations.PositiveExactly | py-modules/core/macrostrat/core/environment.py:244-280 | Whatever setting is parsed to a duration, the duration is positive if and only if the setting was neither a timedelta that is not, nor a number of minutes of at most half a microsecond, nor zeros alone. |
| Durations.TinyNumberIsAccepted | py-modules/core/macrostrat/core/environment.py:257-260 | A billionth of a minute is accepted and is a duration of zero. |
| Durations.ZeroIsAccepted | py-modules/core/macrostrat/core/environment.py:264-279 | The text `0` is parsed to a duration of zero seconds, while `0 s` is refused as not positive. |

## Left out

- Lithologies.ProcessDomain: is stated for domains whose scans end, as the code returns nothing for others; which tables guarantee that for every text is stated exactly.
- ConfigOverrides.OrderIsIrrelevant: does not cover variables whose value is an inline table or whose paths coincide after lower-casing, for which the order does matter.
- Durations.ScanDecides: does not cover the non-ASCII digits, and the long s matched without regard to case, that Python's regular expressions also accept.
- KebabMigration.Database.RenameTables: says nothing of the tables after a refusal halfway, nor of the rows after an update is stopped: whether a transaction undoes them is outside the model.
- Renumbering.Renumber: records are three lists of distinct objects, as the payload builder makes them, and only their id fields are modelled.
- Tables.SqlTable.Insert: the defaults of columns that are not sent are the same for every row, so that one computed per row, such as a time stamp, is not modelled.
- Splitting a lithology description into domains with proportions, and the loading of names from the database (`process_text`, `split_domains`, `split_proportion`).
- The hint texts of the geometry checker's complaints and `parse_geometry`, which reads the text with a geometry library.
- Foreign keys and the check constraint on `locator_url` of `col_refs`, and `reconcile_references`, which applies a plan without its deletes.
- Validation of the merged settings, file reading, and the legacy configuration layout.
- The lithologies, environments and economic uses of a section's long response, the query string and the response format.
- The order in which a dict of columns or the rows of `maps.sources` are read: the model allows every order.
- The profile lookup, the null extents of maps without geometry, and the per-map commits of tile expiry.
- A `timedelta` beyond Python's range is not refused, and a number of minutes is an exact real, not a float.
- SQL text, PostGIS, the web routes, background jobs and credentials, which are input and output or library behaviour.
- Proportions of attributes per section (`summarizeAttribute`), which is short algebra.
