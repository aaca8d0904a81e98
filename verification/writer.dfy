/** Writing a dataset: `save_data` guards against an existing version and then
    pipelines one SET per row, `delete_data` removes what a version's SCAN
    reports, and `set_master_key` moves the current-version pointer. Each is a
    transition from one store to the next. */
module Writer {
  import opened Results
  import opened Keys
  import opened Numerals
  import opened Seqs
  import opened Store
  import opened Reader

  /** The SETs `save_data` queues: row `i` under `serving_data:<name>:<version>:<i>`. */
  function Stage(name: string, version: string, rows: seq<Row>): seq<Command> {
    seq(|rows|, i requires 0 <= i < |rows| => Set(RecordKey(name, version, i), Encode(rows[i])))
  }

  /** The keys of rows `0 .. count - 1` of a version. */
  function RecordKeys(name: string, version: string, count: nat): set<string> {
    set i | 0 <= i < count :: RecordKey(name, version, i)
  }

  /** Different indices give different keys within one version. */
  lemma RecordIndexInjective(name: string, version: string, i: nat, j: nat)
    requires RecordKey(name, version, i) == RecordKey(name, version, j)
    ensures i == j
  {
    var prefix := VersionPattern(name, version).prefix;
    assert RecordKey(name, version, i) == prefix + Decimal(i);
    assert RecordKey(name, version, j) == prefix + Decimal(j);
    assert Decimal(i) == RecordKey(name, version, i)[|prefix|..];
    assert Decimal(j) == RecordKey(name, version, j)[|prefix|..];
    DecimalInjective(i, j);
  }

  /** A version of `count` rows has exactly `count` record keys. */
  lemma {:induction false} RecordKeysCount(name: string, version: string, count: nat)
    ensures |RecordKeys(name, version, count)| == count
    decreases count
  {
    if count > 0 {
      var last := RecordKey(name, version, count - 1);
      RecordKeysCount(name, version, count - 1);
      assert RecordKeys(name, version, count) == RecordKeys(name, version, count - 1) + {last};
      if last in RecordKeys(name, version, count - 1) {
        var i :| 0 <= i < count - 1 && RecordKey(name, version, i) == last;
        RecordIndexInjective(name, version, i, count - 1);
      }
    }
  }

  lemma StagedKeys(name: string, version: string, rows: seq<Row>)
    ensures KeysOf(Stage(name, version, rows)) == RecordKeys(name, version, |rows|)
  {
    var cmds := Stage(name, version, rows);
    forall k | k in RecordKeys(name, version, |rows|)
      ensures k in KeysOf(cmds)
    {
      var i :| 0 <= i < |rows| && RecordKey(name, version, i) == k;
      assert cmds[i].key == k;
    }
  }

  /** `save_data(redis_client, dataset_name, version, df)`: fails if `get_data`
      finds any record of the version, otherwise adds the version's records and
      changes nothing else. */
  function SaveData(store: Store, scan: Scanner, name: string, version: string, rows: seq<Row>): (r: Result<Store>)
    requires Completes(scan(store, VersionPattern(name, version)))
    ensures r.Ok? ==> r.value.Keys == store.Keys + RecordKeys(name, version, |rows|)
    ensures r.Ok? ==> forall k :: k in store && k !in RecordKeys(name, version, |rows|) ==> r.value[k] == store[k]
    ensures r.Err? && r.error.VersionExists? ==> r.error == VersionExists(name, version)
  {
    var data :- GetData(store, scan, name, version);
    if |data| > 0 then Err(VersionExists(name, version))
    else
      StagedKeys(name, version, rows);
      Ok(Execute(store, Stage(name, version, rows)))
  }

  /** The pipelined write of `save_data`: the existence check through the
      `get_data` loop, then one queued SET per row, then one execute. */
  method SaveDataLoop(store: Store, scan: Scanner, name: string, version: string, rows: seq<Row>) returns (r: Result<Store>)
    requires Completes(scan(store, VersionPattern(name, version)))
    ensures r == SaveData(store, scan, name, version, rows)
  {
    var data := GetDataLoop(store, scan, name, version);
    if data.Err? {
      return Err(data.error);
    }
    if |data.value| > 0 {
      return Err(VersionExists(name, version));
    }
    var pipeline: seq<Command> := [];
    for i := 0 to |rows|
      invariant |pipeline| == i
      invariant forall j :: 0 <= j < i ==> pipeline[j] == Set(RecordKey(name, version, j), Encode(rows[j]))
    {
      pipeline := pipeline + [Set(RecordKey(name, version, i), Encode(rows[i]))];
    }
    assert pipeline == Stage(name, version, rows);
    r := Ok(Execute(store, pipeline));
  }

  /** Row `i` is stored, JSON-encoded, under its record key. */
  lemma SaveDataWritesRows(store: Store, scan: Scanner, name: string, version: string, rows: seq<Row>)
    requires Completes(scan(store, VersionPattern(name, version)))
    requires SaveData(store, scan, name, version, rows).Ok?
    ensures forall i :: 0 <= i < |rows| ==>
      SaveData(store, scan, name, version, rows).value[RecordKey(name, version, i)] == Encode(rows[i])
  {
    var cmds := Stage(name, version, rows);
    forall i | 0 <= i < |rows|
      ensures SaveData(store, scan, name, version, rows).value[RecordKey(name, version, i)] == Encode(rows[i])
    {
      forall j | i < j < |cmds|
        ensures cmds[j].key != cmds[i].key
      {
        if cmds[j].key == cmds[i].key {
          RecordIndexInjective(name, version, i, j);
        }
      }
      ExecuteLastWriteWins(store, cmds, i);
    }
  }

  /** Under a faithful scan, `save_data` fails exactly when some record of the
      version already exists, and then with `VersionExists`. */
  lemma SaveDataGuard(store: Store, scan: Scanner, name: string, version: string, rows: seq<Row>)
    requires FaithfulAt(scan, store, VersionPattern(name, version))
    ensures SaveData(store, scan, name, version, rows).Err? <==>
      exists k :: k in store && Matches(VersionPattern(name, version), k)
    ensures SaveData(store, scan, name, version, rows).Err? ==>
      SaveData(store, scan, name, version, rows).error == VersionExists(name, version)
  {
    GetDataFaithful(store, scan, name, version);
    var p := VersionPattern(name, version);
    if exists k :: k in store && Matches(p, k) {
      var k :| k in store && Matches(p, k);
      assert k in MatchingKeys(store, p);
    } else {
      assert MatchingKeys(store, p) == {};
    }
  }

  /** On success under a faithful guard the version was absent, so exactly
      `|rows|` keys are added. */
  lemma SaveDataAddsRows(store: Store, scan: Scanner, name: string, version: string, rows: seq<Row>)
    requires FaithfulAt(scan, store, VersionPattern(name, version))
    requires SaveData(store, scan, name, version, rows).Ok?
    ensures store.Keys !! RecordKeys(name, version, |rows|)
    ensures |SaveData(store, scan, name, version, rows).value| == |store| + |rows|
  {
    SaveDataGuard(store, scan, name, version, rows);
    var written := RecordKeys(name, version, |rows|);
    forall k | k in written
      ensures k !in store
    {
      var i :| 0 <= i < |rows| && RecordKey(name, version, i) == k;
    }
    RecordKeysCount(name, version, |rows|);
    var r := SaveData(store, scan, name, version, rows).value;
    assert |r.Keys| == |store.Keys| + |written|;
  }

  /** The record keys of a version in index order. */
  function RecordKeySeq(name: string, version: string, count: nat): seq<string> {
    seq(count, i requires 0 <= i < count => RecordKey(name, version, i))
  }

  lemma RecordKeySeqElements(name: string, version: string, count: nat)
    ensures NoDuplicates(RecordKeySeq(name, version, count))
    ensures Elements(RecordKeySeq(name, version, count)) == RecordKeys(name, version, count)
  {
    var keys := RecordKeySeq(name, version, count);
    forall i, j | 0 <= i < j < count
      ensures keys[i] != keys[j]
    {
      if keys[i] == keys[j] {
        RecordIndexInjective(name, version, i, j);
      }
    }
    forall k | k in RecordKeys(name, version, count)
      ensures k in Elements(keys)
    {
      var i :| 0 <= i < count && RecordKey(name, version, i) == k;
      assert keys[i] == k;
    }
  }

  /** After a successful write of a fresh version, the version's records are
      exactly the rows written. */
  lemma SaveDataMatching(store: Store, scan: Scanner, name: string, version: string, rows: seq<Row>)
    requires FaithfulAt(scan, store, VersionPattern(name, version))
    requires SaveData(store, scan, name, version, rows).Ok?
    ensures MatchingKeys(SaveData(store, scan, name, version, rows).value, VersionPattern(name, version)) ==
      RecordKeys(name, version, |rows|)
  {
    var p := VersionPattern(name, version);
    var after := SaveData(store, scan, name, version, rows).value;
    SaveDataGuard(store, scan, name, version, rows);
    assert forall k :: k in store ==> !Matches(p, k);
  }

  /** After a successful write of a fresh version, the scan of the version
      reports the written record keys, in some order. */
  lemma SaveDataScanPermutes(store: Store, scan: Scanner, name: string, version: string, rows: seq<Row>)
    requires FaithfulAt(scan, store, VersionPattern(name, version))
    requires SaveData(store, scan, name, version, rows).Ok?
    requires FaithfulAt(scan, SaveData(store, scan, name, version, rows).value, VersionPattern(name, version))
    ensures multiset(Scanned(scan(SaveData(store, scan, name, version, rows).value, VersionPattern(name, version)))) ==
      multiset(RecordKeySeq(name, version, |rows|))
  {
    SaveDataMatching(store, scan, name, version, rows);
    RecordKeySeqElements(name, version, |rows|);
    SameElementsArePermutations(Scanned(scan(SaveData(store, scan, name, version, rows).value, VersionPattern(name, version))),
      RecordKeySeq(name, version, |rows|));
  }

  /** Row `i` decodes from the value under the `i`-th record key. */
  lemma SaveDataRowsInOrder(store: Store, scan: Scanner, name: string, version: string, rows: seq<Row>)
    requires Completes(scan(store, VersionPattern(name, version)))
    requires SaveData(store, scan, name, version, rows).Ok?
    ensures forall i :: 0 <= i < |rows| ==>
      RecordKeySeq(name, version, |rows|)[i] in SaveData(store, scan, name, version, rows).value &&
      rows[i] == Decode(SaveData(store, scan, name, version, rows).value[RecordKeySeq(name, version, |rows|)[i]])
  {
    SaveDataWritesRows(store, scan, name, version, rows);
    assert forall i :: 0 <= i < |rows| ==> RecordKey(name, version, i) in RecordKeys(name, version, |rows|);
  }

  /** Writing a fresh version and reading it back returns the rows written, each
      once, in some order. */
  lemma SaveThenGet(store: Store, scan: Scanner, name: string, version: string, rows: seq<Row>)
    requires FaithfulAt(scan, store, VersionPattern(name, version))
    requires SaveData(store, scan, name, version, rows).Ok?
    requires FaithfulAt(scan, SaveData(store, scan, name, version, rows).value, VersionPattern(name, version))
    ensures GetData(SaveData(store, scan, name, version, rows).value, scan, name, version).Ok?
    ensures |GetData(SaveData(store, scan, name, version, rows).value, scan, name, version).value| == |rows|
    ensures multiset(GetData(SaveData(store, scan, name, version, rows).value, scan, name, version).value) == multiset(rows)
  {
    var after := SaveData(store, scan, name, version, rows).value;
    SaveDataScanPermutes(store, scan, name, version, rows);
    SaveDataRowsInOrder(store, scan, name, version, rows);
    GetDataValues(after, scan, name, version);
    var read := GetData(after, scan, name, version).value;
    DecodedPermutation(after, Scanned(scan(after, VersionPattern(name, version))), RecordKeySeq(name, version, |rows|), read, rows);
    assert |read| == |multiset(read)|;
  }

  /** A second `save_data` of a version that now has records fails and writes
      nothing. */
  lemma SaveTwiceFails(store: Store, scan: Scanner, name: string, version: string, rows: seq<Row>, rows': seq<Row>)
    requires |rows| > 0
    requires Completes(scan(store, VersionPattern(name, version)))
    requires SaveData(store, scan, name, version, rows).Ok?
    requires FaithfulAt(scan, SaveData(store, scan, name, version, rows).value, VersionPattern(name, version))
    ensures SaveData(SaveData(store, scan, name, version, rows).value, scan, name, version, rows') ==
      Err(VersionExists(name, version))
  {
    var after := SaveData(store, scan, name, version, rows).value;
    var k := RecordKey(name, version, 0);
    assert k in RecordKeys(name, version, |rows|);
    SaveDataGuard(after, scan, name, version, rows');
  }

  /** `save_data` leaves every other version's records alone: its keys match
      only its own version's pattern. */
  lemma SaveDataKeepsOtherVersions(store: Store, scan: Scanner, name: string, version: string, rows: seq<Row>,
                                   name': string, version': string)
    requires IsSegment(name) && IsSegment(version) && IsSegment(name') && IsSegment(version')
    requires name != name' || version != version'
    requires Completes(scan(store, VersionPattern(name, version)))
    requires SaveData(store, scan, name, version, rows).Ok?
    ensures MatchingKeys(SaveData(store, scan, name, version, rows).value, VersionPattern(name', version')) ==
      MatchingKeys(store, VersionPattern(name', version'))
    ensures forall k :: k in MatchingKeys(store, VersionPattern(name', version')) ==>
      SaveData(store, scan, name, version, rows).value[k] == store[k]
  {
    var written := RecordKeys(name, version, |rows|);
    forall k | k in written
      ensures !Matches(VersionPattern(name', version'), k)
    {
      var i :| 0 <= i < |rows| && RecordKey(name, version, i) == k;
      if Matches(VersionPattern(name', version'), k) {
        VersionPatternsDisjoint(name, version, name', version', k);
      }
    }
  }

  /** `save_data` never moves a current-version pointer. */
  lemma SaveDataKeepsPointers(store: Store, scan: Scanner, name: string, version: string, rows: seq<Row>, dataset: string)
    requires Completes(scan(store, VersionPattern(name, version)))
    requires SaveData(store, scan, name, version, rows).Ok?
    ensures GetCurrentVersion(SaveData(store, scan, name, version, rows).value, dataset) == GetCurrentVersion(store, dataset)
  {
  }

  /** `delete_data(redis_client, dataset_name, version)`: removes every key the
      version's scan reports and nothing else. */
  function DeleteData(store: Store, scan: Scanner, name: string, version: string): (r: Store)
    requires Completes(scan(store, VersionPattern(name, version)))
    ensures r.Keys <= store.Keys
    ensures forall k :: k in r ==> r[k] == store[k]
  {
    store - Elements(Scanned(scan(store, VersionPattern(name, version))))
  }

  /** The scan loop of `delete_data`: each non-empty batch is deleted as it
      arrives, and the loop stops on the first reply whose cursor is 0. */
  method DeleteDataLoop(store: Store, scan: Scanner, name: string, version: string) returns (r: Store)
    requires Completes(scan(store, VersionPattern(name, version)))
    ensures r == DeleteData(store, scan, name, version)
  {
    var replies := scan(store, VersionPattern(name, version));
    r := store;
    var i := 0;
    while true
      invariant i <= LastRound(replies)
      invariant r == store - Elements(Yielded(replies, i))
      decreases LastRound(replies) - i
    {
      var cursor := replies[i].cursor;
      var keys := replies[i].keys;
      assert Elements(Yielded(replies, i + 1)) == Elements(Yielded(replies, i)) + Elements(keys);
      if |keys| > 0 {
        r := r - Elements(keys);
      }
      assert r == store - Elements(Yielded(replies, i + 1));
      if cursor == 0 {
        return;
      }
      i := i + 1;
    }
  }

  /** Under a faithful scan, `delete_data` removes exactly the version's records. */
  lemma DeleteDataRemovesVersion(store: Store, scan: Scanner, name: string, version: string)
    requires FaithfulAt(scan, store, VersionPattern(name, version))
    ensures forall k :: k in DeleteData(store, scan, name, version) <==>
      k in store && !Matches(VersionPattern(name, version), k)
  {
  }

  /** After `delete_data`, `get_data` on the version returns nothing. */
  lemma DeleteThenGet(store: Store, scan: Scanner, name: string, version: string)
    requires FaithfulAt(scan, store, VersionPattern(name, version))
    requires FaithfulAt(scan, DeleteData(store, scan, name, version), VersionPattern(name, version))
    ensures GetData(DeleteData(store, scan, name, version), scan, name, version) == Ok([])
  {
    DeleteDataRemovesVersion(store, scan, name, version);
    GetDataAbsentVersion(DeleteData(store, scan, name, version), scan, name, version);
  }

  /** A second `delete_data` of the same version changes nothing. */
  lemma DeleteDataIdempotent(store: Store, scan: Scanner, name: string, version: string)
    requires FaithfulAt(scan, store, VersionPattern(name, version))
    requires FaithfulAt(scan, DeleteData(store, scan, name, version), VersionPattern(name, version))
    ensures DeleteData(DeleteData(store, scan, name, version), scan, name, version) == DeleteData(store, scan, name, version)
  {
    var once := DeleteData(store, scan, name, version);
    DeleteDataRemovesVersion(store, scan, name, version);
    DeleteDataRemovesVersion(once, scan, name, version);
  }

  /** `delete_data` leaves other versions' records and every pointer alone. */
  lemma DeleteDataKeepsOthers(store: Store, scan: Scanner, name: string, version: string, name': string, version': string)
    requires IsSegment(name) && IsSegment(version) && IsSegment(name') && IsSegment(version')
    requires name != name' || version != version'
    requires FaithfulAt(scan, store, VersionPattern(name, version))
    ensures MatchingKeys(DeleteData(store, scan, name, version), VersionPattern(name', version')) ==
      MatchingKeys(store, VersionPattern(name', version'))
    ensures forall dataset :: GetCurrentVersion(DeleteData(store, scan, name, version), dataset) == GetCurrentVersion(store, dataset)
  {
    DeleteDataRemovesVersion(store, scan, name, version);
    forall k | k in MatchingKeys(store, VersionPattern(name', version'))
      ensures !Matches(VersionPattern(name, version), k)
    {
      if Matches(VersionPattern(name, version), k) {
        VersionPatternsDisjoint(name, version, name', version', k);
      }
    }
    forall dataset
      ensures GetCurrentVersion(DeleteData(store, scan, name, version), dataset) == GetCurrentVersion(store, dataset)
    {
      var k := PointerKey(dataset);
      assert !Matches(VersionPattern(name, version), k) by {
        assert VersionPattern(name, version).prefix[0] == 's';
      }
    }
  }

  /** `set_master_key(redis_client, dataset_name, version)`: point the dataset
      at `version`, whether or not that version has records. */
  function SetMasterKey(store: Store, name: string, version: string): (r: Store)
    ensures r.Keys == store.Keys + {PointerKey(name)}
  {
    store[PointerKey(name) := version]
  }

  /** Setting the pointer and reading it back gives the version set. */
  lemma PointerRoundTrip(store: Store, name: string, version: string)
    ensures GetCurrentVersion(SetMasterKey(store, name, version), name) == Ok(version)
  {
  }

  /** Setting one dataset's pointer changes no record and no other pointer. */
  lemma SetMasterKeyFrame(store: Store, name: string, version: string)
    ensures forall k :: Matches(AllRecords, k) ==>
      (k in SetMasterKey(store, name, version) <==> k in store)
    ensures forall k :: Matches(AllRecords, k) && k in store ==> SetMasterKey(store, name, version)[k] == store[k]
    ensures forall dataset :: dataset != name ==>
      GetCurrentVersion(SetMasterKey(store, name, version), dataset) == GetCurrentVersion(store, dataset)
  {
    forall dataset | dataset != name
      ensures GetCurrentVersion(SetMasterKey(store, name, version), dataset) == GetCurrentVersion(store, dataset)
    {
      if PointerKey(dataset) == PointerKey(name) {
        PointerKeyInjective(dataset, name);
      }
    }
  }

  /** Without a prior `set_master_key`, reading the pointer raises. */
  lemma UnsetPointerFails(store: Store, name: string)
    requires forall k :: k in store ==> Matches(AllRecords, k)
    ensures GetCurrentVersion(store, name) == Err(NoCurrentVersion(name))
  {
  }
}
