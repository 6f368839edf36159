# Battery-cycle loader, modelled in Dafny

This project models `load_data` from `src/common/data.py`. The function flattens a battery-cycle
recording, a tree of cycles → operations → measurement blocks, into one table.

It keeps only the operations whose type is the requested one (`charge` or `discharge`). Each kept
operation gets an `operation_id` from a per-cycle counter. Its measurement block becomes a table of
equal-length columns:
- a charge block keeps every field;
- a discharge block keeps every field but `Capacity`, then writes the block's first `Capacity` value
  on every row.

Four provenance columns are set on every row of the operation: `operation_id`, `temperature`, `type`
and `start_time`. The per-operation tables are concatenated in traversal order into one table with a
fresh 0-based index. When nothing matches, that concatenation fails.

The recording is given already decoded:
- a `Document` is a sequence of cycles;
- a cycle is a sequence of `Operation`s;
- a block is a sequence of named `Field`s.

A row is a map from column name to `Cell`, and a table (`Frame`) is a sequence of rows. A row's index
is its position.

Files:
- `datamodel.dfy` (`DataModel`): the entities, the error kinds and the column names.
- `extractor.dfy` (`Extractor`): one block → one table (`Extract`), and the provenance columns
  (`Enrich`).
- `loader.dfy` (`Loader`): the specification of the traversal, written in the shape of the loops, and
  the imperative methods that mirror lines 18-48. These are `LoadData` (loop over cycles), `LoadCycle`
  (loop over operations with the counter), `ParseOperation` and `ExtractEntries` (loop over an
  operation's data entries). Each method is proved equal to its specification function: `Load`,
  `CycleFrames`, `OperationFrame`, `LastExtract`.
- `traversal.dfy` (`Traversal`): which operation each collected table comes from, what its
  `operation_id` is, and the order of the tables.
- `rows.dfy` (`Rows`): the rows of the output. It covers where each operation's rows land, that every
  row comes from a matching operation, the row count and the order. It also gives what one row holds
  (provenance, verbatim samples, the capacity) and when the load fails.

How the traversal is written:
- `CycleCollect` and `DocCollect` take the per-operation parser as a parameter. The traversal lemmas
  are proved once for any parser.
- The loader's own collection (`CycleFrames`, `DocFrames`, `Load`) is this traversal with
  `OperationFrame` as the parser. The `Load…` lemmas instantiate the general ones with it.

On these edge cases the model does what the code does:
- A charge block with no fields becomes an empty table, so the operation contributes no rows. A
  discharge block with no fields fails with `MissingCapacity` (`ExtractNoFields`).
- An operation with several data entries is handled entry by entry. Each entry is extracted in turn,
  and the last one's table is kept; the first entry that fails to extract aborts the load
  (`LastExtract`).
- A successful load can have zero rows, when every matching operation's block has no samples. The
  load fails for want of tables only when the recording has no matching operation at all
  (`LoadEmpty`).
- The requested kind is a closed two-case type (`Target`), so the model has no error for any other
  kind. In the code, a string that no operation carries matches nothing and the concatenation on
  line 48 fails; a string that some operation carries, other than `charge` and `discharge`, passes the
  filter, no branch of lines 27-38 builds a table, and line 40 raises `UnboundLocalError`.
- A discharge block without a `Capacity` field fails with `MissingCapacity` (a `ValueError` from the
  field lookup on line 38). A `Capacity` field with no value fails with `EmptyCapacity` (an
  `IndexError`). Kept columns of different lengths fail with `RaggedBlock`, which pandas raises.
- Setting a provenance column replaces a measurement column of the same name, as a pandas column
  assignment does.

## Model

| member | source | states |
|---|---|---|
| Extractor.FieldsRow | src/common/data.py:28-31 | a row built from a block's columns has exactly the fields' names as keys |
| Extractor.FieldsRowAt | src/common/data.py:28-31 | with distinct names, each field's column in row `m` holds that field's sample `m` |
| Extractor.Table | src/common/data.py:28-31 | the table built from equal-length columns has one row per sample |
| Extractor.TableAt | src/common/data.py:28-31 | every column of that table holds its field's samples, in order |
| Extractor.WithoutField | src/common/data.py:33-37 | dropping a field never adds fields |
| Extractor.WithoutFieldMembers | src/common/data.py:33-37 | exactly the fields of another name are kept, so the kept names are the block's names less the dropped one, still distinct |
| Extractor.FindField | src/common/data.py:38 | a field found by name is in the block and has that name |
| Extractor.FindFieldMissing | src/common/data.py:38 | the lookup of `Capacity` fails exactly when no field has that name |
| Extractor.FindFieldUnique | src/common/data.py:38 | with distinct names, the field found is the one of that name |
| Extractor.Kept | src/common/data.py:27-37 | a block keeps no more fields than it has |
| Extractor.KeptMembers | src/common/data.py:27-37 | a charge keeps every field; a discharge keeps every field but `Capacity`; the kept names stay distinct |
| Extractor.Extract | src/common/data.py:27-38 | a block's table has one row per sample of its kept columns; its failures are never the empty-result failure |
| Extractor.ExtractNoFields | src/common/data.py:27-38 | a charge block with no fields gives an empty table; a discharge block with no fields fails for want of `Capacity` |
| Extractor.ExtractFailures | src/common/data.py:27-38 | extraction fails with a ragged block exactly when the kept columns differ in length. A discharge fails with a missing capacity exactly when no field is `Capacity`, and with an empty capacity exactly when that field has no value. It succeeds exactly when none of these holds |
| Extractor.ExtractColumns | src/common/data.py:27-38 | every row of an extracted table has exactly the block's field names as columns (for a discharge, `Capacity` is dropped and set again) |
| Extractor.ExtractVerbatim | src/common/data.py:28-37 | every kept field's column holds that field's samples unchanged and in order |
| Extractor.ExtractCapacity | src/common/data.py:38 | every row of a discharge table holds the block's first `Capacity` value |
| Extractor.Broadcast | src/common/data.py:38-43 | assigning a scalar column leaves the number of rows unchanged |
| Extractor.Trunc | src/common/data.py:43 | `int()` on a recorded number drops the fraction toward zero: for a non-negative input the result is the largest integer not above it, for a negative one the smallest not below it |
| Extractor.StartTime | src/common/data.py:43 | each of the six recorded time components is truncated toward zero |
| Extractor.Enrich | src/common/data.py:40-43 | setting the provenance columns leaves the number of rows unchanged |
| Extractor.EnrichRow | src/common/data.py:40-43 | every enriched row gains the four provenance columns: the counter, the ambient temperature, the operation's type and the truncated start time. Every other column is unchanged |
| Extractor.EnrichKeeps | src/common/data.py:40-43 | a column that is not a provenance column survives the enrichment unchanged |
| Loader.LastOf | src/common/data.py:26-38 | for any extraction of one entry: after `k` entries a table kept is the `k`-th entry's table |
| Loader.LastOfFailEarly | src/common/data.py:26-38 | for any extraction: once an entry fails, the failure stands |
| Loader.LastOfWins | src/common/data.py:26-38 | for any extraction: the loop succeeds exactly when every entry extracts; otherwise it reports the first entry that fails |
| Loader.LastExtract | src/common/data.py:26-38 | after `k` data entries the table kept is the `k`-th entry's table; a failure is never the empty-result failure |
| Loader.LastExtractFailEarly | src/common/data.py:26-38 | once an entry fails, later entries are never looked at |
| Loader.LastExtractWins | src/common/data.py:26-38 | last wins: the entries' tables all exist exactly when every entry extracts; otherwise the failure is that of the first entry that fails |
| Loader.OperationFrame | src/common/data.py:26-43 | an operation's table has one row per sample of its last data entry; its failures are never the empty-result failure |
| Loader.Concat | src/common/data.py:48 | row-wise concatenation, each row's position being its fresh index: no table is longer than the result (where each row lands: `ConcatAt`, `ConcatCover`) |
| Loader.Assemble | src/common/data.py:48 | the concatenation fails exactly when no table was collected, and then with the empty-result failure |
| Loader.Load | src/common/data.py:18-48 | definition: the concatenation of every cycle's tables, or the first failure (its properties are the `Rows` and `Traversal` lemmas) |
| DataModel.Matches | src/common/data.py:22-23 | definition: an operation passes the filter exactly when its type string is the requested one |
| Loader.MatchCount | src/common/data.py:20-24 | the counter never exceeds the number of operations seen |
| Loader.WellFormedParses | src/common/data.py:21-26 | in a recording whose matching operations all have data entries, every matching operation can be parsed |
| Loader.CycleFailEarly | src/common/data.py:21-46 | once a cycle's traversal fails, the failure stands |
| Loader.DocFailEarly | src/common/data.py:19-48 | once the traversal fails, the failure stands and no later cycle is looked at |
| Loader.ExtractEntries | src/common/data.py:26-38 | the loop over the data entries computes `LastExtract` of all of them |
| Loader.ParseOperation | src/common/data.py:26-43 | one matching operation's table, with its provenance columns, is `OperationFrame` with the counter as its id |
| Loader.LoadCycle | src/common/data.py:19-46 | the loop over a cycle appends to the collected tables exactly that cycle's tables (`CycleFrames`), numbered by the per-cycle counter, or reports the first failure |
| Loader.LoadData | src/common/data.py:18-48 | the loops over the recording compute `Load`: the concatenation of every cycle's tables, or the first failure, or the empty-result failure when no table was collected |
| Traversal.MatchCountGrows | src/common/data.py:20-46 | the counter never goes back and a matching operation moves it on, so ids within a cycle follow the operations' order and are distinct |
| Traversal.MatchCountHits | src/common/data.py:20-46 | every counter value below a cycle's total is the id of a matching operation, so the ids of a cycle are 0, 1, 2, … with no gap |
| Traversal.MatchCountZero | src/common/data.py:20-24 | the counter stays at 0 exactly when no operation matches |
| Traversal.CountBeforeZero | src/common/data.py:19-24 | the cycles before `i` count no matching operation exactly when none of their operations matches |
| Traversal.CountBeforeGrows | src/common/data.py:19-21 | the tables of a cycle come before those of every later cycle |
| Traversal.CycleTableCount | src/common/data.py:21-45 | a cycle whose traversal succeeds collects one table per matching operation |
| Traversal.CycleTableAt | src/common/data.py:21-46 | the table a cycle collects for matching operation `p` is that operation's table, numbered with its id and placed at that id |
| Traversal.DocTableCount | src/common/data.py:19-45 | a recording whose traversal succeeds collects one table per matching operation |
| Traversal.DocCycleTable | src/common/data.py:19-45 | a cycle's tables are collected one after the other, after those of the cycles before it |
| Traversal.DocTableAt | src/common/data.py:19-46 | the table of every matching operation is collected, numbered with its operation_id, at its table index |
| Traversal.LoadTableAt | src/common/data.py:19-46 | the loader collects, at its table index, every matching operation's enriched table, numbered with its id |
| Traversal.DocTableFrom | src/common/data.py:22-45 | every collected table is the table of a matching operation |
| Traversal.LoadTableFrom | src/common/data.py:22-45 | every table the loader collects is that of a matching operation |
| Traversal.TableIndexOrder | src/common/data.py:19-45 | a matching operation earlier in the recording has its table collected before that of a later one |
| Traversal.CycleCollectNone | src/common/data.py:22-24 | a cycle with no matching operation collects nothing and cannot fail |
| Traversal.DocCollectNone | src/common/data.py:18-24 | cycles with no matching operation collect nothing |
| Traversal.CycleCollectFails | src/common/data.py:21-45 | a cycle's failing traversal reports the failure of its first failing matching operation: every earlier matching operation parses |
| Traversal.DocCollectParsed | src/common/data.py:19-45 | when the traversal of the first cycles succeeds, every matching operation in them parses |
| Traversal.DocCollectFails | src/common/data.py:19-45 | a failing traversal reports the failure of the first failing matching operation in traversal order: every matching operation before it, in an earlier cycle or earlier in its cycle, parses |
| Loader.CycleCollect | src/common/data.py:21-46 | definition: the tables of a cycle's matching operations in order, each parsed with the counter value as its id, the first failure aborting (its properties are the `Traversal` lemmas) |
| Loader.DocCollect | src/common/data.py:19-46 | definition: the cycles' tables one cycle after the other, the first failure aborting (its properties are the `Traversal` lemmas) |
| Rows.ConcatJoin | src/common/data.py:48 | concatenating two collections one after the other is joining their concatenations |
| Rows.OffsetNext | src/common/data.py:48 | each table starts right where the one before it ends |
| Rows.OffsetGrows | src/common/data.py:48 | a table ends no later than any later table starts |
| Rows.ConcatAt | src/common/data.py:48 | row `m` of table `k` is at the table's offset plus `m` in the concatenation |
| Rows.ConcatCover | src/common/data.py:48 | every row of the concatenation is a row of one of the tables, at that table's offset plus its index |
| Rows.CycleRowCount | src/common/data.py:21-45 | a cycle's tables hold as many rows as its matching operations' tables |
| Rows.DocRowCount | src/common/data.py:19-45 | the recording's tables hold as many rows as all its matching operations' tables |
| Rows.OperationFrameSized | src/common/data.py:26-43 | each table the loader builds has one row per sample of the operation's last data entry |
| Rows.LoadConcat | src/common/data.py:48 | a successful load concatenates at least one collected table |
| Rows.LoadRowCount | src/common/data.py:19-48 | the output has one row per sample of the last data entry of every matching operation |
| Rows.CollectRowAt | src/common/data.py:19-48 | every row of every matching operation's table is in the concatenation at its row index |
| Rows.CollectRowFrom | src/common/data.py:19-48 | every row of the concatenation is a row of a matching operation's table, at that row's index |
| Rows.CollectRowOrder | src/common/data.py:19-48 | rows are in traversal order: cycle order, then operation order, then sample order |
| Rows.LoadRowAt | src/common/data.py:19-48 | completeness: every sample of every matching operation gives an output row, at its row index, equal to the operation's enriched row |
| Rows.LoadRowFrom | src/common/data.py:19-48 | soundness: every output row is an enriched row of a matching operation, at that row's index |
| Rows.LoadRowType | src/common/data.py:22-42 | every output row's `type` column holds the requested type |
| Rows.RowIndexOrder | src/common/data.py:19-48 | the output keeps cycle order, then operation order, then sample order |
| Rows.OperationFrameEnriched | src/common/data.py:26-43 | an operation's table is its last data entry's table with the provenance columns set |
| Rows.OperationRowProvenance | src/common/data.py:27-43 | every row of a matching operation has the block's field names plus the four provenance columns. These hold the counter, the ambient temperature, the requested type and the truncated start time, the same on every row |
| Rows.OperationRowVerbatim | src/common/data.py:27-37 | every kept field's column holds that field's samples verbatim |
| Rows.OperationRowCapacity | src/common/data.py:38 | every row of a discharge operation holds the block's one `Capacity` value |
| Rows.LoadEmpty | src/common/data.py:18-48 | the load fails for want of tables exactly when no operation of the recording has the requested type |
| Rows.LoadFailure | src/common/data.py:19-48 | any other failure is that of the first matching operation, in traversal order, whose table cannot be built; every matching operation before it has a table |

## Left out

- Reading the file (lines 14-16) is I/O, so it is not modelled. This covers `Path`, `loadmat` and
  selecting the recording by the file's stem. The model starts from the decoded recording.
- The array wrappers of the decoded file (`[0]`, `[0][0]`, `[0, 0]`) are not modelled. Fields are
  plain sequences of samples, and a scalar is the first sample of its field.
- Floating point is left out. Samples and temperatures are an opaque `Scalar` compared by equality,
  and the time components are reals truncated toward zero.
- `start_time` is the six truncated components (`DateTime`). The calendar validation of
  `datetime.datetime` is not modelled, so a timestamp the calendar rejects is not an error here.
- pandas column order and index objects are not modelled. A row is a map from column name to cell,
  and the fresh 0-based index of the output is a row's position.
- LoadData: requires every matching operation to have at least one data entry (`WellFormed`). With
  none, the code reuses the table of the previous matching operation, and mutates it through
  aliasing, or raises `UnboundLocalError`; that behaviour is accidental and not modelled.
- OperationRowVerbatim: assumes that a block's field names are distinct (`DistinctNames`), as struct
  fields of the recording format are. The same holds for OperationRowCapacity, ExtractVerbatim,
  ExtractCapacity and ExtractFailures.
- Load: the requested kind is a closed type. A target string other than `charge` or `discharge` is
  not representable, so neither the `UnboundLocalError` nor the failure of line 48 that such a
  string causes is modelled.
- Concat: `pd.concat` takes the union of the tables' columns and fills a cell with NaN where a table
  lacks that column. In the model a row simply lacks the key, so an absent key stands for the NaN
  fill. The columns of a table with no rows are not represented, since a table is only its rows.
