# Versioned dataset store on a key-value server, in Dafny

This project models the three modules of a small Python program that keeps
versioned datasets in Redis:

- `src/writer.py` writes a version of a dataset, deletes one, and moves the
  dataset's current-version pointer.
- `src/reader.py` reads a version back and reads the pointer.
- `src/meta.py` counts keys, flushes the store, and builds an inventory of all
  datasets.

The store is an immutable `map<string, string>`. Every operation is a pure
function from a store to a new store or to a `Result`, and every scan loop is
also written as a method whose loop invariants tie it to that function.

Keys follow one scheme. Row `i` of version `v` of dataset `d` is stored as
JSON under `serving_data:<d>:<v>:<i>`. The current version of `d` is stored
under `current_version:<d>`. The code only sends two kinds of SCAN pattern:
`serving_data:<d>:<v>:*` and `serving_data:*`. Both are modelled as literal
prefixes (`Keys.Pattern`).

SCAN is a parameter. A `Scanner` maps a store and a pattern to the replies of
one full iteration: a cursor and a batch of keys per reply. The client loop
stops at the first reply whose cursor is 0 (`Store.LastRound`). The lemmas
about what a call returns assume a faithful iteration (`Store.FaithfulAt`): it
ends and reports every key that matches in the store it started from, each
exactly once. This is stronger than what Redis promises, and "Left out" says
where. The operations themselves work with any scanner whose iteration ends.

Modules:

| file | module | content |
|---|---|---|
| results.dfy | `Results` | the exceptions the code raises, `Option`, `Result` |
| numerals.dfy | `Numerals` | `str(i)` for a row index, and Python's `int()` on a version segment |
| keys.dfy | `Keys` | key layout, SCAN patterns, `split(":")` / `join` |
| seqs.dfy | `Seqs` | duplicate-free sequences, multisets, permutations |
| store.dfy | `Store` | the store, rows as JSON text, SCAN replies, pipelined SETs |
| reader.dfy | `Reader` | `get_data`, `get_current_version` |
| writer.dfy | `Writer` | `save_data`, `delete_data`, `set_master_key` |
| meta.dfy | `Meta` | `get_db_size`, `delete_all_keys`, `get_dataset_info` |

Notes on how the model maps onto the code:

- `writer.py` has its own `get_data` and `get_master_key`. These are
  line-for-line the same as `reader.get_data` and `reader.get_current_version`,
  so each is modelled once, as `Reader.GetData` and `Reader.GetCurrentVersion`.
- The version in an inventory entry is `int(version)` of a key's version
  segment (`src/meta.py:35`). The model follows the code. `int()` is called
  only while the dataset's recorded version is still 0. So a text label such as
  `v2` makes the inventory raise `ValueError` when the loop reaches it before
  any non-zero version of that dataset, and is skipped after one. A dataset
  whose labels are all text always raises. The writer driver uses the labels
  `version_1` (`src/writer.py:99`) and `version_2` (`src/writer.py:112`) for
  `iris`. Both are text, so `int()` raises on them.
  - `Meta.ParseRejectsLabel` shows that any segment starting with a lower-case
    letter is rejected.
  - `Meta.SavedLabelBreaksInventory` and `Meta.WriterDriverLabelRejected`
    carry that rejection through a save.
- The inventory's version depends on the scan order, which Redis leaves
  undefined. It is the first non-zero `int()` among the version segments of
  the dataset's keys, in scan order, so a leading 0 is replaced by a later key.
  - `Meta.FirstNonZero` is the reference definition.
  - `Meta.AggregateMeaning` ties the loop's result to it.
- The total in an inventory entry counts the keys of every version of the
  dataset together. `Meta.GetDatasetInfoFaithful` states this as the code
  does it; it does not split the count by version.
- The inventory fold takes its integer reader as a parameter (`Meta.Parser`).
  `GetDatasetInfo` and `DatasetInfoLoop` fix it to `Numerals.ParseInt`, which
  models `int()`. The loop and counting lemmas hold for every reader.

## Model

| member | source | states |
|---|---|---|
| Numerals.Decimal | src/writer.py:44 | the index text written into a record key is a non-empty run of digits, with a leading `0` only for index 0 |
| Numerals.DecimalRoundTrip | src/writer.py:44 | the digits of `str(i)` read back as `i` |
| Numerals.DecimalInjective | src/writer.py:44 | distinct row indices give distinct index texts |
| Numerals.Strip | src/meta.py:35 | the whitespace `int()` skips is gone from both ends, and text without it is unchanged |
| Numerals.StripSurrounded | src/meta.py:35 | stripping whitespace from around text with non-space ends gives exactly that text |
| Numerals.GroupDigits | src/meta.py:35 | an accepted numeral body yields a non-empty run of digits |
| Numerals.GroupedStep | src/meta.py:35 | after a leading digit, a body is accepted exactly when what follows that digit and its optional underscore is accepted |
| Numerals.GroupDigitsMeaning | src/meta.py:35 | a body is accepted exactly when it is digits with each underscore between two digits, and the result is the body with its underscores removed |
| Numerals.GroupDigitsPlain | src/meta.py:35 | a plain run of digits is accepted as it is |
| Numerals.ParseInt | src/meta.py:35 | `int(text)`; the lemmas below state what it accepts and the value it gives |
| Numerals.ParseStripped | src/meta.py:35 | `int()` after the whitespace is gone: an optional sign, then digit groups; `ParseSigned`, `ParseDigits` and `ParseTooLong` state its results |
| Numerals.ParseDigits | src/meta.py:35 | `int()` of a run of at most 4300 digits is its decimal value |
| Numerals.ParseTooLong | src/meta.py:35 | `int()` of a run of more than 4300 digits raises, as CPython's default digit limit makes it |
| Numerals.ParseSigned | src/meta.py:35 | a leading `-` negates the value of the digits, and a leading `+` keeps it |
| Numerals.ParseIgnoresSpace | src/meta.py:35 | whitespace around a numeral does not change what `int()` returns |
| Numerals.ParseNoDigits | src/meta.py:35 | `int()` rejects text that contains no digit |
| Numerals.ParseDecimal | src/meta.py:35 | `int(str(i)) == i` for every row index whose text is within the digit limit |
| Keys.Matches | src/meta.py:23 | SCAN's `match=` filter for a `<prefix>*` pattern; `RecordKey`, `PointerKey` and `VersionPatternsDisjoint` state what the code's patterns match |
| Keys.VersionPattern | src/writer.py:53 | the pattern `get_data` and `delete_data` scan with (also src/reader.py:15 and src/writer.py:67); `RecordKey`, `VersionPatternsDisjoint` and `Writer.SaveDataMatching` state what it matches |
| Keys.VersionPatternWithinAll | src/meta.py:18 | every key a version's pattern matches is also matched by `serving_data:*` (`Keys.AllRecords`), the pattern `get_dataset_info` scans with |
| Keys.RecordKey | src/writer.py:44 | a record key is matched by its own version's pattern and by `serving_data:*` |
| Keys.PointerKey | src/writer.py:85 | a pointer key is never matched by `serving_data:*` |
| Keys.Split | src/meta.py:27 | `split(":")` yields at least one part, and no part contains `:` |
| Keys.SplitJoin | src/meta.py:27 | splitting the join of `:`-free parts gives the parts back |
| Keys.JoinSplit | src/meta.py:27 | joining the parts of a split gives the text back |
| Keys.DecodeRecordKey | src/meta.py:27 | unpacking into four parts fails with `MalformedKey` of that key; a decoded name and version contain no `:` |
| Keys.DecodeRecordKeyInverse | src/meta.py:27 | a key the writer builds from `:`-free name and version decodes to that name, version and index text |
| Keys.DecodeRecordKeyComplete | src/meta.py:27 | a key that decodes is the join of its tag and the three decoded fields |
| Keys.RecordKeyInjective | src/writer.py:44 | for `:`-free names and versions, equal record keys mean equal dataset, version and index |
| Keys.VersionPatternsDisjoint | src/writer.py:53 | no key matches the version patterns of two different `:`-free (dataset, version) pairs |
| Keys.PointerKeyInjective | src/writer.py:85 | each dataset has its own pointer key |
| Store.Encode | src/writer.py:47 | `json.loads(json.dumps(row))` gives the row back |
| Store.LastRound | src/reader.py:19-27 | the loop ends on the first reply whose cursor is 0, and no earlier reply has cursor 0 |
| Store.Execute | src/writer.py:41-49 | after `execute()` the keys are the old keys plus the queued ones, and every key not queued keeps its value |
| Store.ExecuteLastWriteWins | src/writer.py:47-49 | a queued key holds the value of the last SET queued for it |
| Reader.GetData | src/reader.py:14-29 | `get_data`, also at src/writer.py:66-81; a success has one row per scanned key, and a failure names a scanned key with no value; `GetDataFaithful` and `GetDataValues` give the rows |
| Reader.Fetch | src/reader.py:22-24 | a successful fetch gives one row per key; a failure names one of the fetched keys that has no value |
| Reader.FetchMeaning | src/reader.py:22-24 | the fetch succeeds exactly when every key has a value, and then gives the decoded values in key order |
| Reader.FetchExtend | src/reader.py:22-24 | fetching one more present key appends its decoded value |
| Reader.FetchStops | src/reader.py:23 | fetching one more absent key fails on that key |
| Reader.FetchFailurePersists | src/reader.py:23 | after the first missing value, later keys do not change the error |
| Reader.FetchBatchStep | src/reader.py:22-24 | one key of a batch either extends the rows read so far by its decoded value or, when it has no value, makes the whole call fail on it |
| Reader.FetchBatch | src/reader.py:22-24 | the `for key in keys` loop over one batch continues the fetch of the earlier batches |
| Reader.FetchScanStep | src/reader.py:19-27 | one more reply extends the keys fetched by its batch, and an error or a zero cursor fixes the outcome of the whole call |
| Reader.GetDataValues | src/reader.py:14-29 | under a faithful scan, the `i`-th row returned is the decoded value of the `i`-th reported record key, which is stored |
| Reader.GetDataLoop | src/reader.py:14-29 | the batch-by-batch, key-by-key loop returns what `GetData` specifies, error included |
| Reader.GetDataFaithful | src/reader.py:14-29 | under a faithful scan, `get_data` succeeds with one row per record of the version, and a row is returned exactly when some record of the version stores it |
| Reader.GetDataAbsentVersion | src/reader.py:14-29 | a version with no records reads as an empty list |
| Reader.GetDataDependsOnRecords | src/reader.py:14-29 | two stores that agree on a version's records read the same rows for it, up to order |
| Reader.DecodedPermutation | src/reader.py:22-24 | decoding the values of two orderings of the same keys gives the same rows, up to order |
| Reader.GetCurrentVersion | src/reader.py:32-34 | the pointer reads successfully exactly when it is set, and gives the stored version; otherwise the error is `NoCurrentVersion` |
| Writer.Stage | src/writer.py:43-47 | the SETs the loop queues, one per row in index order; `StagedKeys` and `SaveDataWritesRows` state which keys and values they write |
| Writer.RecordIndexInjective | src/writer.py:44 | within one version, different row indices give different keys |
| Writer.RecordKeysCount | src/writer.py:43-44 | a version of `n` rows has exactly `n` distinct record keys |
| Writer.StagedKeys | src/writer.py:43-47 | the queued SETs write exactly the record keys of rows `0 .. n-1` |
| Writer.SaveData | src/writer.py:35-49 | on success the new keys are exactly the version's record keys and every other key keeps its value; the guard's error is `VersionExists` of this name and version |
| Writer.SaveDataLoop | src/writer.py:35-49 | the guard, the queueing loop and the single execute compute `SaveData`, error included |
| Writer.SaveDataWritesRows | src/writer.py:43-49 | row `i` is stored, JSON-encoded, under its record key |
| Writer.SaveDataGuard | src/writer.py:36-39 | under a faithful scan, `save_data` fails exactly when some record of the version already exists, and then with `VersionExists` |
| Writer.SaveDataAddsRows | src/writer.py:35-49 | a successful save touches no existing key and grows the store by exactly the number of rows |
| Writer.RecordKeySeqElements | src/writer.py:43-44 | the record keys in index order are duplicate-free and are exactly the version's record keys |
| Writer.SaveDataMatching | src/writer.py:35-49 | after a successful save, the keys the version's pattern matches are exactly the rows just written |
| Writer.SaveDataScanPermutes | src/writer.py:35-49 | after a save, the record keys a faithful scan reports are the version's record keys in some order |
| Writer.SaveDataRowsInOrder | src/writer.py:43-49 | after a save, the `i`-th record key in index order holds row `i` |
| Writer.SaveThenGet | src/writer.py:35-49 | saving a fresh version and reading it back gives the rows written, each once, in some order |
| Writer.SaveTwiceFails | src/writer.py:36-39 | saving a non-empty version a second time fails with `VersionExists` |
| Writer.SaveDataKeepsOtherVersions | src/writer.py:43-49 | a save leaves the record set and the values of every other `:`-free version unchanged |
| Writer.SaveDataKeepsPointers | src/writer.py:43-49 | a save moves no current-version pointer |
| Writer.DeleteData | src/writer.py:52-63 | a delete only removes keys and changes no remaining value |
| Writer.DeleteDataLoop | src/writer.py:52-63 | the batch-by-batch delete loop computes `DeleteData` |
| Writer.DeleteDataRemovesVersion | src/writer.py:52-63 | under a faithful scan, a key survives a delete exactly when it was stored and is not a record of the version |
| Writer.DeleteThenGet | src/writer.py:52-63 | reading a version after deleting it gives an empty list |
| Writer.DeleteDataIdempotent | src/writer.py:52-63 | deleting the same version twice is the same as deleting it once |
| Writer.DeleteDataKeepsOthers | src/writer.py:52-63 | a delete keeps every other `:`-free version's records and every pointer |
| Writer.SetMasterKey | src/writer.py:84-85 | setting the pointer adds at most the pointer key |
| Writer.PointerRoundTrip | src/writer.py:84-90 | reading the pointer after setting it gives the version just set |
| Writer.SetMasterKeyFrame | src/writer.py:84-85 | setting one dataset's pointer changes no record and no other dataset's pointer |
| Writer.UnsetPointerFails | src/writer.py:88-90 | in a store holding only records, reading a pointer raises `NoCurrentVersion` |
| Meta.GetDbSize | src/meta.py:13-14 | the key count is zero exactly when the store is empty |
| Meta.DeleteAllKeys | src/meta.py:43-44 | no key survives a flush |
| Meta.FlushEmpties | src/meta.py:43-44 | after a flush the key count is 0 and no pointer can be read |
| Meta.SaveDataGrowsDbSize | src/meta.py:13-14 | a successful save grows the key count by the number of rows |
| Meta.DeleteDataShrinksDbSize | src/meta.py:13-14 | a delete shrinks the key count by the number of the version's records |
| Meta.FirstNonZero | src/meta.py:34-35 | the reference for a dataset's version: the first non-zero `int()` of its version segments in scan order; `FirstNonZeroAppend` and `AggregateMeaning` tie it to the loop |
| Meta.Settle | src/meta.py:34-35 | a non-zero version stays; a zero one becomes the parsed segment, or the call raises `NotAnInteger` of that segment |
| Meta.FirstNonZeroAppend | src/meta.py:34-35 | one more key's version segment moves the reference "first non-zero version" on exactly as the loop's update does |
| Meta.Step | src/meta.py:26-35 | one key either raises (`MalformedKey` of the key, or `NotAnInteger`) or adds its dataset's name to the inventory |
| Meta.Aggregate | src/meta.py:22-40 | the inventory fold over the scanned keys; `AggregateMeaning` and `AggregateTotal` state what it computes |
| Meta.GetDatasetInfo | src/meta.py:17-40 | `get_dataset_info` with `int()` as the reader; it raises only `MalformedKey` or `NotAnInteger` |
| Meta.AggregateErrors | src/meta.py:27-35 | the inventory raises only the unpacking error and the `int()` error |
| Meta.AggregateFailurePersists | src/meta.py:25-35 | once a key has raised, later keys do not change the outcome |
| Meta.AggregateBatchStep | src/meta.py:25-35 | one key of a batch is one step of the inventory, and its error is the error of the whole batch |
| Meta.InventoryBatch | src/meta.py:25-35 | the `for key in keys` loop over one batch continues the inventory of the earlier batches |
| Meta.AggregateScanStep | src/meta.py:22-40 | one more reply extends the inventory by its batch, and an error or a zero cursor fixes the outcome of the whole call |
| Meta.AggregateScanStops | src/meta.py:22-40 | an error after some reply is the error of the whole call |
| Meta.InventoryLoop | src/meta.py:22-40 | the scan loop over all batches computes the inventory of every key the scan reports |
| Meta.DatasetInfoLoop | src/meta.py:17-40 | the loop with `int()` as reader computes `GetDatasetInfo` |
| Meta.AggregateDecodes | src/meta.py:27 | a successful inventory implies every scanned key split into four parts |
| Meta.StepDescribes | src/meta.py:29-35 | one step keeps the inventory's names, counts and versions right for the keys seen so far, and raises exactly when the new key's dataset cannot settle its version |
| Meta.AggregateMeaning | src/meta.py:25-35 | with well-formed keys, the inventory succeeds exactly when every dataset's versions settle; it then lists the datasets that have keys, counts each one's keys, and reports the first non-zero version |
| Meta.AggregateTotal | src/meta.py:32 | the totals of a successful inventory add up to the number of keys scanned |
| Meta.LabelsLength | src/meta.py:29-32 | a dataset's count is the number of scanned keys belonging to it |
| Meta.LabelsCount | src/meta.py:29-32 | in a duplicate-free scan, a dataset's count is the number of distinct keys belonging to it |
| Meta.GetDatasetInfoFaithful | src/meta.py:17-40 | under a faithful scan, the inventory names exactly the datasets that have records, counts each one's records across all versions, and the counts add up to the number of record keys |
| Meta.ParseRejectsLabel | src/meta.py:35 | a version segment that starts with a lower-case letter is not an integer, whatever follows it |
| Meta.FirstKeyRejected | src/meta.py:34-35 | if the first scanned key's version segment is not an integer, the inventory raises on it |
| Meta.FirstScannedAfterSave | src/meta.py:22-23 | after saving a non-empty version into an empty store, the scan reports a key, and its first key is a record of that version |
| Meta.SavedLabelBreaksInventory | src/meta.py:34-35 | once a non-empty version with a non-integer label is saved into an empty store, the inventory raises `NotAnInteger` of that label |
| Meta.WriterDriverLabelRejected | src/writer.py:96-112 | the driver's dataset name and both its version labels are valid segments, and `int()` raises on `version_1` and on `version_2` |

## Left out

- `load_date` (`src/writer.py:19-32`): trains a classifier with scikit-learn and pandas. Rows are an input sequence of `Row` values.
- `get_redis_client` in all three files, and every `__main__` block: connection setup and driver scripts. The driver's dataset name and version labels appear only in `Meta.WriterDriverLabelRejected`.
- Store.Encode: `json.dumps` / `json.loads` and `df.iloc[i].to_dict()` are foreign library calls. A row is its JSON text, and encoding and decoding are the identity.
- Reader.Fetch: `json.loads` of a value that is not valid JSON is not modelled, because every value the writer stores is `json.dumps` output. Only the missing-key failure, `json.loads(None)`, is modelled.
- Reader.GetCurrentVersion: the `.decode("utf-8")` of the stored bytes, and the UTF-8 decode of scanned keys in `src/meta.py:26`, are left out. Strings are sequences of characters.
- Concurrency: the check-then-write race in `save_data` and SCAN's weak guarantees under concurrent writes are left out. One sequential caller is modelled. The queued SETs are sent as one MULTI/EXEC transaction, because `pipeline()` defaults to `transaction=True`. `Store.Execute` applies them as one step.
- Store errors: any Redis call can raise a connection or timeout error, which reaches the caller unchanged. The modelled store never fails, so no operation models those errors.
- Store.FaithfulAt: is an assumption, stronger than Redis's promise, in two ways. First, Redis may report a key more than once (for example while the table shrinks); with such a repeat `get_data` would return a row twice and `get_dataset_info` would count a key twice. Second, `delete_data` sends DEL between SCAN calls (`src/writer.py:59-60`), but `Writer.DeleteDataLoop` takes every reply from a scan of the store before the first DEL. The result is the same, because each DEL removes only keys already reported, and a matching key not yet reported stays in the store until it is reported.
- Keys.Pattern: only the literal-prefix patterns the code sends are modelled. A dataset name or version containing `*`, `?`, `[` or `\` would act as a glob metacharacter in Redis; the model treats it literally.
- Keys.IsSegment: the code does not check that names and versions contain no `:`. The operations accept any text, and only the lemmas that need separator-free segments require them.
- Numerals.ParseInt: only ASCII digits and ASCII whitespace are recognised. Python's `int()` also accepts other Unicode decimal digits and Unicode whitespace. The 4300-digit limit is CPython's default (`sys.int_info.default_max_str_digits`). A limit changed with `sys.set_int_max_str_digits` or `PYTHONINTMAXSTRDIGITS` is not modelled.
- Numerals.Decimal: `str(i)` of an integer above 4300 digits also raises in CPython. The model writes any index. A row index is below the number of rows, so it never gets near the limit.
- Store.Scanner: the cursor values and the `COUNT 1000` hint are not modelled, because they only affect how keys are batched. Each reply is one SCAN call, and the model keeps only whether its cursor is 0.
- Meta.GetDatasetInfo: the result is a `dict`, whose insertion order the model does not keep; the inventory is a `map`.
- Meta.Total: the sum of the totals is a ghost function. It is used only to state `AggregateTotal` and `GetDatasetInfoFaithful`.
