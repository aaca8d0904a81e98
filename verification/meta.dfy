/** Store-wide views: `get_db_size` counts the keys, `delete_all_keys` empties
    the store, and `get_dataset_info` walks every record key once, grouping the
    keys by dataset name into a count and the first non-zero version read with
    `int()`. */
module Meta {
  import opened Results
  import opened Keys
  import opened Numerals
  import opened Seqs
  import opened Store
  import opened Reader
  import opened Writer

  /** `{"total": ..., "version": ...}` for one dataset. */
  datatype Entry = Entry(total: nat, version: int)

  /** The inventory: one entry per dataset name. */
  type Info = map<string, Entry>

  /** How a version segment is read as an integer. `get_dataset_info` uses
      Python's `int()`, that is `ParseInt`; the fold below is stated for any
      reader so that its loop and counting facts do not depend on how `int()`
      treats text. */
  type Parser = string -> Option<int>

  /** `get_db_size(redis_client)`: DBSIZE, the number of keys in the store. */
  function GetDbSize(store: Store): (n: nat)
    ensures n == 0 <==> store == map[]
  {
    |store|
  }

  /** `delete_all_keys(redis_client)`: FLUSHDB. */
  function DeleteAllKeys(store: Store): (r: Store)
    ensures forall k :: k !in r
  {
    map[]
  }

  /** After `delete_all_keys` the store is empty, counts zero keys, and no
      pointer can be read. */
  lemma FlushEmpties(store: Store, name: string)
    ensures GetDbSize(DeleteAllKeys(store)) == 0
    ensures GetCurrentVersion(DeleteAllKeys(store), name) == Err(NoCurrentVersion(name))
  {
  }

  /** A successful `save_data` grows the key count by the number of rows. */
  lemma SaveDataGrowsDbSize(store: Store, scan: Scanner, name: string, version: string, rows: seq<Row>)
    requires FaithfulAt(scan, store, VersionPattern(name, version))
    requires SaveData(store, scan, name, version, rows).Ok?
    ensures GetDbSize(SaveData(store, scan, name, version, rows).value) == GetDbSize(store) + |rows|
  {
    SaveDataAddsRows(store, scan, name, version, rows);
  }

  /** `delete_data` shrinks the key count by the number of the version's records. */
  lemma DeleteDataShrinksDbSize(store: Store, scan: Scanner, name: string, version: string)
    requires FaithfulAt(scan, store, VersionPattern(name, version))
    ensures GetDbSize(DeleteData(store, scan, name, version)) ==
      GetDbSize(store) - |MatchingKeys(store, VersionPattern(name, version))|
  {
    var p := VersionPattern(name, version);
    var gone := MatchingKeys(store, p);
    var after := DeleteData(store, scan, name, version);
    DeleteDataRemovesVersion(store, scan, name, version);
    assert store.Keys == after.Keys + gone;
    assert after.Keys !! gone;
  }

  /** The key belongs to dataset `name`: it splits into four parts whose second
      is `name`. */
  predicate InDataset(key: string, name: string) {
    DecodeRecordKey(key).Ok? && DecodeRecordKey(key).value.name == name
  }

  /** The version segments of the keys of dataset `name`, in scan order. */
  function Labels(keys: seq<string>, name: string): seq<string>
    decreases |keys|
  {
    if |keys| == 0 then []
    else
      var last := keys[|keys| - 1];
      Labels(keys[..|keys| - 1], name) + (if InDataset(last, name) then [DecodeRecordKey(last).value.version] else [])
  }

  lemma LabelsAppend(keys: seq<string>, key: string, name: string)
    ensures Labels(keys + [key], name) ==
      Labels(keys, name) + (if InDataset(key, name) then [DecodeRecordKey(key).value.version] else [])
  {
    assert (keys + [key])[..|keys|] == keys;
  }

  /** The version a dataset ends up with, read independently of the scan loop:
      the first version segment whose `int()` is non-zero, 0 if there is none,
      and the `ValueError` of the first segment `int()` rejects before that. */
  function FirstNonZero(parse: Parser, labels: seq<string>): Result<int>
    decreases |labels|
  {
    if |labels| == 0 then Ok(0)
    else
      match parse(labels[0])
      case None => Err(NotAnInteger(labels[0]))
      case Some(v) => if v != 0 then Ok(v) else FirstNonZero(parse, labels[1..])
  }

  /** `if not info[name]["version"]: info[name]["version"] = int(version)`: a
      non-zero version stays, a zero one is replaced by the parsed segment. */
  function Settle(parse: Parser, version: int, segment: string): (r: Result<int>)
    ensures version != 0 ==> r == Ok(version)
    ensures version == 0 ==> (r.Ok? <==> parse(segment).Some?)
    ensures version == 0 && r.Ok? ==> r.value == parse(segment).value
    ensures r.Err? ==> r.error == NotAnInteger(segment)
  {
    if version != 0 then Ok(version)
    else
      match parse(segment)
      case None => Err(NotAnInteger(segment))
      case Some(v) => Ok(v)
  }

  /** Reading one more version segment moves the first non-zero version on the
      way the scan loop does. */
  lemma {:induction false} FirstNonZeroAppend(parse: Parser, labels: seq<string>, segment: string)
    ensures FirstNonZero(parse, labels + [segment]) ==
      (match FirstNonZero(parse, labels)
       case Err(e) => Err(e)
       case Ok(v) => Settle(parse, v, segment))
    decreases |labels|
  {
    if |labels| > 0 {
      assert (labels + [segment])[0] == labels[0];
      assert (labels + [segment])[1..] == labels[1..] + [segment];
      FirstNonZeroAppend(parse, labels[1..], segment);
    }
  }

  /** The body of the inner loop of `get_dataset_info` for one key. */
  function Step(parse: Parser, info: Info, key: string): (r: Result<Info>)
    ensures r.Err? ==> r.error == MalformedKey(key) || r.error.NotAnInteger?
    ensures r.Ok? ==> DecodeRecordKey(key).Ok?
    ensures r.Ok? ==> r.value.Keys == info.Keys + {DecodeRecordKey(key).value.name}
  {
    var id :- DecodeRecordKey(key);
    var entry := if id.name in info then info[id.name] else Entry(0, 0);
    var version :- Settle(parse, entry.version, id.version);
    Ok(info[id.name := Entry(entry.total + 1, version)])
  }

  /** The inventory of the keys of one iteration, processed in order; the first
      key that raises aborts the whole call. */
  function Aggregate(parse: Parser, keys: seq<string>): Result<Info>
    decreases |keys|
  {
    if |keys| == 0 then Ok(map[])
    else
      var info :- Aggregate(parse, keys[..|keys| - 1]);
      Step(parse, info, keys[|keys| - 1])
  }

  /** `get_dataset_info(redis_client)`: the inventory of the `serving_data:*` scan. */
  function GetDatasetInfo(store: Store, scan: Scanner): (r: Result<Info>)
    requires Completes(scan(store, AllRecords))
    ensures r.Err? ==> r.error.MalformedKey? || r.error.NotAnInteger?
  {
    AggregateErrors(ParseInt, Scanned(scan(store, AllRecords)));
    Aggregate(ParseInt, Scanned(scan(store, AllRecords)))
  }

  /** The inventory raises only the two errors a single key can raise. */
  lemma {:induction false} AggregateErrors(parse: Parser, keys: seq<string>)
    ensures Aggregate(parse, keys).Err? ==>
      Aggregate(parse, keys).error.MalformedKey? || Aggregate(parse, keys).error.NotAnInteger?
    decreases |keys|
  {
    if |keys| > 0 {
      AggregateErrors(parse, keys[..|keys| - 1]);
    }
  }

  lemma AggregateAppend(parse: Parser, keys: seq<string>, key: string)
    ensures Aggregate(parse, keys + [key]) ==
      (match Aggregate(parse, keys)
       case Err(e) => Err(e)
       case Ok(info) => Step(parse, info, key))
  {
    assert (keys + [key])[..|keys|] == keys;
  }

  /** Once some keys have raised, more keys do not change the outcome. */
  lemma {:induction false} AggregateFailurePersists(parse: Parser, keys: seq<string>, more: seq<string>)
    requires Aggregate(parse, keys).Err?
    ensures Aggregate(parse, keys + more) == Aggregate(parse, keys)
    decreases |more|
  {
    if |more| == 0 {
      assert keys + more == keys;
    } else {
      var init := more[..|more| - 1];
      AggregateFailurePersists(parse, keys, init);
      assert (keys + more)[..|keys + more| - 1] == keys + init;
    }
  }

  /** A failing prefix decides the inventory of the whole iteration. */
  lemma AggregateFailsOnPrefix(parse: Parser, done: seq<string>, all: seq<string>)
    requires done <= all
    requires Aggregate(parse, done).Err?
    ensures Aggregate(parse, all) == Aggregate(parse, done)
  {
    assert all == done + all[|done|..];
    AggregateFailurePersists(parse, done, all[|done|..]);
  }

  /** One key of a batch: it extends the inventory by one step, and if that
      step raises, so does the whole batch. */
  lemma AggregateBatchStep(parse: Parser, done: seq<string>, keys: seq<string>, j: nat)
    requires j < |keys| && Aggregate(parse, done + keys[..j]).Ok?
    ensures Aggregate(parse, done + keys[..j + 1]) == Step(parse, Aggregate(parse, done + keys[..j]).value, keys[j])
    ensures Aggregate(parse, done + keys[..j + 1]).Err? ==> Aggregate(parse, done + keys) == Aggregate(parse, done + keys[..j + 1])
  {
    assert done + keys[..j + 1] == (done + keys[..j]) + [keys[j]] by {
      assert keys[..j + 1] == keys[..j] + [keys[j]];
    }
    AggregateAppend(parse, done + keys[..j], keys[j]);
    if Aggregate(parse, done + keys[..j + 1]).Err? {
      assert done + keys[..j + 1] <= done + keys by {
        assert keys[..j + 1] <= keys;
      }
      AggregateFailsOnPrefix(parse, done + keys[..j + 1], done + keys);
    }
  }

  /** The `for key in keys` loop over one SCAN batch, continuing the inventory
      of the keys `done` seen in earlier batches; the first key that raises
      ends it. */
  method InventoryBatch(parse: Parser, done: seq<string>, info: Info, keys: seq<string>) returns (r: Result<Info>)
    requires Aggregate(parse, done) == Ok(info)
    ensures r == Aggregate(parse, done + keys)
  {
    var current := info;
    var j := 0;
    assert done + keys[..0] == done;
    while j < |keys|
      invariant j <= |keys|
      invariant Aggregate(parse, done + keys[..j]) == Ok(current)
    {
      var next := Step(parse, current, keys[j]);
      AggregateBatchStep(parse, done, keys, j);
      if next.Err? {
        return next;
      }
      current := next.value;
      j := j + 1;
    }
    assert keys[..j] == keys;
    r := Ok(current);
  }

  /** One reply of the scan: its batch extends the keys seen so far; an error
      there, or the reply whose cursor is 0, decides the whole call. */
  lemma AggregateScanStep(parse: Parser, replies: seq<Reply>, i: nat)
    requires Completes(replies) && i <= LastRound(replies)
    ensures Aggregate(parse, Yielded(replies, i + 1)) == Aggregate(parse, Yielded(replies, i) + replies[i].keys)
    ensures Aggregate(parse, Yielded(replies, i + 1)).Err? || replies[i].cursor == 0 ==>
      Aggregate(parse, Scanned(replies)) == Aggregate(parse, Yielded(replies, i + 1))
  {
    assert Yielded(replies, i + 1) == Yielded(replies, i) + replies[i].keys;
    if Aggregate(parse, Yielded(replies, i + 1)).Err? {
      AggregateScanStops(parse, replies, i);
    }
  }

  /** An error after reply `i` is the error of the whole iteration. */
  lemma AggregateScanStops(parse: Parser, replies: seq<Reply>, i: nat)
    requires Completes(replies) && i <= LastRound(replies)
    requires Aggregate(parse, Yielded(replies, i + 1)).Err?
    ensures Aggregate(parse, Scanned(replies)) == Aggregate(parse, Yielded(replies, i + 1))
  {
    YieldedGrows(replies, i + 1, LastRound(replies) + 1);
    AggregateFailsOnPrefix(parse, Yielded(replies, i + 1), Scanned(replies));
  }

  /** The scan loop of `get_dataset_info` over the replies of one iteration: one
      batch per reply, stopping on the first reply whose cursor is 0. */
  method InventoryLoop(parse: Parser, replies: seq<Reply>) returns (r: Result<Info>)
    requires Completes(replies)
    ensures r == Aggregate(parse, Scanned(replies))
  {
    var info: Info := map[];
    var i := 0;
    while true
      invariant i <= LastRound(replies)
      invariant Aggregate(parse, Yielded(replies, i)) == Ok(info)
      decreases LastRound(replies) - i
    {
      var cursor := replies[i].cursor;
      var batch := InventoryBatch(parse, Yielded(replies, i), info, replies[i].keys);
      AggregateScanStep(parse, replies, i);
      if batch.Err? {
        return batch;
      }
      info := batch.value;
      if cursor == 0 {
        return Ok(info);
      }
      i := i + 1;
    }
  }

  /** `get_dataset_info` as the loop runs it, with `int()` as the reader. */
  method DatasetInfoLoop(store: Store, scan: Scanner) returns (r: Result<Info>)
    requires Completes(scan(store, AllRecords))
    ensures r == GetDatasetInfo(store, scan)
  {
    r := InventoryLoop(ParseInt, scan(store, AllRecords));
  }

  /** The inventory accepts only keys that split into four parts. */
  lemma {:induction false} AggregateDecodes(parse: Parser, keys: seq<string>)
    requires Aggregate(parse, keys).Ok?
    ensures forall i :: 0 <= i < |keys| ==> DecodeRecordKey(keys[i]).Ok?
    decreases |keys|
  {
    if |keys| > 0 {
      var init := keys[..|keys| - 1];
      AggregateDecodes(parse, init);
      assert forall i :: 0 <= i < |init| ==> init[i] == keys[i];
    }
  }

  /** `info` is the inventory `keys` call for: a dataset appears exactly when
      some key belongs to it, its total counts those keys and its version is the
      first non-zero one. */
  ghost predicate Describes(parse: Parser, info: Info, keys: seq<string>) {
    && (forall name :: name in info <==> |Labels(keys, name)| > 0)
    && (forall name :: name in info ==>
          info[name].total == |Labels(keys, name)| && FirstNonZero(parse, Labels(keys, name)) == Ok(info[name].version))
  }

  /** Every dataset's versions are readable up to its first non-zero one. */
  ghost predicate AllSettle(parse: Parser, keys: seq<string>) {
    forall name :: FirstNonZero(parse, Labels(keys, name)).Ok?
  }

  /** One step of the loop keeps the inventory faithful to the keys read so far. */
  lemma StepDescribes(parse: Parser, info: Info, keys: seq<string>, key: string)
    requires Describes(parse, info, keys) && AllSettle(parse, keys)
    requires DecodeRecordKey(key).Ok?
    ensures Step(parse, info, key).Ok? <==> AllSettle(parse, keys + [key])
    ensures Step(parse, info, key).Ok? ==> Describes(parse, Step(parse, info, key).value, keys + [key])
  {
    var id := DecodeRecordKey(key).value;
    var n := id.name;
    var entry := if n in info then info[n] else Entry(0, 0);
    assert FirstNonZero(parse, Labels(keys, n)) == Ok(entry.version);
    forall name
      ensures Labels(keys + [key], name) ==
        Labels(keys, name) + (if name == n then [id.version] else [])
    {
      LabelsAppend(keys, key, name);
    }
    FirstNonZeroAppend(parse, Labels(keys, n), id.version);
    var settled := Settle(parse, entry.version, id.version);
    assert FirstNonZero(parse, Labels(keys + [key], n)) == settled;
    if settled.Ok? {
      var after := info[n := Entry(entry.total + 1, settled.value)];
      assert Step(parse, info, key) == Ok(after);
      assert entry.total == |Labels(keys, n)|;
      forall name
        ensures FirstNonZero(parse, Labels(keys + [key], name)).Ok?
        ensures name in after <==> |Labels(keys + [key], name)| > 0
        ensures name in after ==> after[name].total == |Labels(keys + [key], name)|
        ensures name in after ==> FirstNonZero(parse, Labels(keys + [key], name)) == Ok(after[name].version)
      {
        if name != n {
          assert Labels(keys + [key], name) == Labels(keys, name);
        }
      }
    } else {
      assert !FirstNonZero(parse, Labels(keys + [key], n)).Ok?;
    }
  }

  /** With every key well formed, the inventory succeeds exactly when every
      dataset's versions settle, and then describes the keys. */
  lemma {:induction false} AggregateMeaning(parse: Parser, keys: seq<string>)
    requires forall i :: 0 <= i < |keys| ==> DecodeRecordKey(keys[i]).Ok?
    ensures Aggregate(parse, keys).Ok? <==> AllSettle(parse, keys)
    ensures Aggregate(parse, keys).Ok? ==> Describes(parse, Aggregate(parse, keys).value, keys)
    decreases |keys|
  {
    if |keys| > 0 {
      var init := keys[..|keys| - 1];
      var key := keys[|keys| - 1];
      assert keys == init + [key];
      AggregateMeaning(parse, init);
      AggregateAppend(parse, init, key);
      if Aggregate(parse, init).Ok? {
        StepDescribes(parse, Aggregate(parse, init).value, init, key);
      } else {
        var name :| !FirstNonZero(parse, Labels(init, name)).Ok?;
        LabelsAppend(init, key, name);
        if InDataset(key, name) {
          FirstNonZeroAppend(parse, Labels(init, name), DecodeRecordKey(key).value.version);
        } else {
          assert Labels(keys, name) == Labels(init, name);
        }
        assert !FirstNonZero(parse, Labels(keys, name)).Ok?;
      }
    }
  }

  /** The sum of the totals of an inventory. */
  ghost function Total(info: Info): nat
    decreases |info|
  {
    if info == map[] then 0
    else
      var n :| n in info;
      info[n].total + Total(info - {n})
  }

  /** The sum does not depend on which dataset is counted first. */
  lemma {:induction false} TotalRemove(info: Info, n: string)
    requires n in info
    ensures Total(info) == info[n].total + Total(info - {n})
    decreases |info|
  {
    var m :| m in info && Total(info) == info[m].total + Total(info - {m});
    if m != n {
      TotalRemove(info - {m}, n);
      TotalRemove(info - {n}, m);
      assert info - {m} - {n} == info - {n} - {m};
    }
  }

  /** Replacing one entry changes the sum by the difference of the totals. */
  lemma TotalUpdate(info: Info, n: string, e: Entry)
    ensures Total(info[n := e]) + (if n in info then info[n].total else 0) == Total(info) + e.total
  {
    TotalRemove(info[n := e], n);
    assert info[n := e] - {n} == info - {n};
    if n in info {
      TotalRemove(info, n);
    } else {
      assert info - {n} == info;
    }
  }

  /** Every accepted key is counted once: the totals add up to the number of keys. */
  lemma {:induction false} AggregateTotal(parse: Parser, keys: seq<string>)
    requires Aggregate(parse, keys).Ok?
    ensures Total(Aggregate(parse, keys).value) == |keys|
    decreases |keys|
  {
    if |keys| > 0 {
      var init := keys[..|keys| - 1];
      var key := keys[|keys| - 1];
      AggregateTotal(parse, init);
      var info := Aggregate(parse, init).value;
      var id := DecodeRecordKey(key).value;
      var entry := if id.name in info then info[id.name] else Entry(0, 0);
      var version := Settle(parse, entry.version, id.version).value;
      assert Aggregate(parse, keys).value == info[id.name := Entry(entry.total + 1, version)];
      TotalUpdate(info, id.name, Entry(entry.total + 1, version));
    }
  }

  /** `InDataset` as a filter. */
  function BelongsTo(name: string): string -> bool {
    k => InDataset(k, name)
  }

  /** A dataset has one version segment per key that belongs to it. */
  lemma {:induction false} LabelsLength(keys: seq<string>, name: string)
    ensures |Labels(keys, name)| == |Filter(keys, BelongsTo(name))|
    decreases |keys|
  {
    if |keys| > 0 {
      LabelsLength(keys[..|keys| - 1], name);
    }
  }

  /** In a duplicate-free key list, a dataset has as many version segments as
      distinct keys. */
  lemma LabelsCount(keys: seq<string>, name: string)
    requires NoDuplicates(keys)
    ensures |Labels(keys, name)| == |set k | k in Elements(keys) && InDataset(k, name)|
  {
    var belongs := BelongsTo(name);
    LabelsLength(keys, name);
    FilterCount(keys, belongs);
    assert Selected(keys, belongs) == set k | k in Elements(keys) && InDataset(k, name);
  }

  /** Under a faithful scan of a store whose record keys all split into four
      parts, `get_dataset_info` succeeds exactly when every dataset's versions
      settle; then it lists exactly the datasets with a record, counts each
      dataset's records, and its totals add up to the number of records. */
  lemma GetDatasetInfoFaithful(store: Store, scan: Scanner)
    requires FaithfulAt(scan, store, AllRecords)
    requires forall k :: k in MatchingKeys(store, AllRecords) ==> DecodeRecordKey(k).Ok?
    ensures GetDatasetInfo(store, scan).Ok? <==> AllSettle(ParseInt, Scanned(scan(store, AllRecords)))
    ensures GetDatasetInfo(store, scan).Ok? ==>
      forall name :: name in GetDatasetInfo(store, scan).value <==>
        exists k :: k in MatchingKeys(store, AllRecords) && InDataset(k, name)
    ensures GetDatasetInfo(store, scan).Ok? ==>
      forall name :: name in GetDatasetInfo(store, scan).value ==>
        GetDatasetInfo(store, scan).value[name].total == |set k | k in MatchingKeys(store, AllRecords) && InDataset(k, name)|
    ensures GetDatasetInfo(store, scan).Ok? ==>
      Total(GetDatasetInfo(store, scan).value) == |MatchingKeys(store, AllRecords)|
  {
    var keys := Scanned(scan(store, AllRecords));
    assert forall i :: 0 <= i < |keys| ==> keys[i] in Elements(keys);
    AggregateMeaning(ParseInt, keys);
    if Aggregate(ParseInt, keys).Ok? {
      var info := Aggregate(ParseInt, keys).value;
      AggregateTotal(ParseInt, keys);
      NoDuplicatesCardinality(keys);
      forall name
        ensures |Labels(keys, name)| == |set k | k in MatchingKeys(store, AllRecords) && InDataset(k, name)|
      {
        LabelsCount(keys, name);
      }
      forall name
        ensures name in info <==> exists k :: k in MatchingKeys(store, AllRecords) && InDataset(k, name)
      {
        var s := set k | k in MatchingKeys(store, AllRecords) && InDataset(k, name);
        if exists k :: k in MatchingKeys(store, AllRecords) && InDataset(k, name) {
          var k :| k in MatchingKeys(store, AllRecords) && InDataset(k, name);
          assert k in s;
        } else {
          assert s == {};
        }
      }
    }
  }

  /** A version segment that starts with a letter, like the writer's
      `version_1`, is not an integer. */
  lemma ParseRejectsLabel(segment: string)
    requires |segment| > 0 && 'a' <= segment[0] <= 'z'
    ensures ParseInt(segment) == None
  {
  }

  /** If the first key of the scan belongs to a version whose segment `int()`
      rejects, `get_dataset_info` raises on it. */
  lemma FirstKeyRejected(parse: Parser, keys: seq<string>)
    requires |keys| > 0 && DecodeRecordKey(keys[0]).Ok?
    requires parse(DecodeRecordKey(keys[0]).value.version) == None
    ensures Aggregate(parse, keys) == Err(NotAnInteger(DecodeRecordKey(keys[0]).value.version))
  {
  }

  /** After saving a non-empty version into an empty store, a faithful scan of
      all records reports at least one key, and its first key is one of the
      version's record keys. */
  lemma FirstScannedAfterSave(scan: Scanner, name: string, version: string, rows: seq<Row>)
    requires |rows| > 0
    requires Completes(scan(map[], VersionPattern(name, version)))
    requires SaveData(map[], scan, name, version, rows).Ok?
    requires FaithfulAt(scan, SaveData(map[], scan, name, version, rows).value, AllRecords)
    ensures |Scanned(scan(SaveData(map[], scan, name, version, rows).value, AllRecords))| > 0
    ensures Scanned(scan(SaveData(map[], scan, name, version, rows).value, AllRecords))[0] in RecordKeys(name, version, |rows|)
  {
    var store := SaveData(map[], scan, name, version, rows).value;
    var keys := Scanned(scan(store, AllRecords));
    assert RecordKey(name, version, 0) in MatchingKeys(store, AllRecords) by {
      assert RecordKey(name, version, 0) in RecordKeys(name, version, |rows|);
    }
    assert RecordKey(name, version, 0) in Elements(keys);
    assert keys[0] in Elements(keys);
  }

  /** Saving a non-empty version whose label `int()` rejects into an empty
      store makes `get_dataset_info` raise on that label instead of reporting
      the dataset. */
  lemma SavedLabelBreaksInventory(scan: Scanner, name: string, version: string, rows: seq<Row>)
    requires IsSegment(name) && IsSegment(version) && ParseInt(version) == None
    requires |rows| > 0
    requires Completes(scan(map[], VersionPattern(name, version)))
    requires SaveData(map[], scan, name, version, rows).Ok?
    requires FaithfulAt(scan, SaveData(map[], scan, name, version, rows).value, AllRecords)
    ensures GetDatasetInfo(SaveData(map[], scan, name, version, rows).value, scan) == Err(NotAnInteger(version))
  {
    var store := SaveData(map[], scan, name, version, rows).value;
    var keys := Scanned(scan(store, AllRecords));
    FirstScannedAfterSave(scan, name, version, rows);
    var i :| 0 <= i < |rows| && RecordKey(name, version, i) == keys[0];
    DecodeRecordKeyInverse(name, version, i);
    FirstKeyRejected(ParseInt, keys);
  }

  /** The writer's driver works on dataset `iris` with the labels `version_1`
      and `version_2`: all are valid segments, and `int()` raises on both
      labels, so the lemma above applies to either once it is saved. */
  lemma WriterDriverLabelRejected()
    ensures IsSegment("iris") && IsSegment("version_1") && IsSegment("version_2")
    ensures ParseInt("version_1") == None && ParseInt("version_2") == None
  {
    ParseRejectsLabel("version_1");
    ParseRejectsLabel("version_2");
  }
}
