/** Reading a dataset: `get_data` fetches every record of one (dataset, version)
    through a SCAN and one GET per key; `get_current_version` reads the pointer.
    Both take the store as an argument and return no new store: they are
    read-only. */
module Reader {
  import opened Results
  import opened Keys
  import opened Seqs
  import opened Store

  /** `json.loads(redis_client.get(key))` for each key in turn; the first key
      with no value raises, because `json.loads(None)` does. */
  function Fetch(store: Store, keys: seq<string>): (r: Result<seq<Row>>)
    ensures r.Ok? ==> |r.value| == |keys|
    ensures r.Err? ==> r.error.MissingValue? && r.error.key !in store && r.error.key in keys
    decreases |keys|
  {
    if |keys| == 0 then Ok([])
    else
      var init :- Fetch(store, keys[..|keys| - 1]);
      var key := keys[|keys| - 1];
      if key in store then Ok(init + [Decode(store[key])]) else Err(MissingValue(key))
  }

  /** Fetching succeeds exactly when every key has a value, and then yields the
      decoded values in key order. */
  lemma {:induction false} FetchMeaning(store: Store, keys: seq<string>)
    ensures Fetch(store, keys).Ok? <==> forall i :: 0 <= i < |keys| ==> keys[i] in store
    ensures Fetch(store, keys).Ok? ==>
      forall i :: 0 <= i < |keys| ==> Fetch(store, keys).value[i] == Decode(store[keys[i]])
    decreases |keys|
  {
    if |keys| > 0 {
      var init := keys[..|keys| - 1];
      FetchMeaning(store, init);
      assert forall i :: 0 <= i < |init| ==> init[i] == keys[i];
    }
  }

  /** Fetching one more key that has a value appends its decoded value. */
  lemma FetchExtend(store: Store, keys: seq<string>, key: string, rows: seq<Row>)
    requires Fetch(store, keys) == Ok(rows)
    requires key in store
    ensures Fetch(store, keys + [key]) == Ok(rows + [Decode(store[key])])
  {
    assert (keys + [key])[..|keys|] == keys;
  }

  /** Fetching one more key that has no value fails on that key. */
  lemma FetchStops(store: Store, keys: seq<string>, key: string)
    requires Fetch(store, keys).Ok?
    requires key !in store
    ensures Fetch(store, keys + [key]) == Err(MissingValue(key))
  {
    assert (keys + [key])[..|keys|] == keys;
  }

  /** Once a prefix of the keys fails, fetching more keys fails the same way. */
  lemma {:induction false} FetchFailurePersists(store: Store, keys: seq<string>, more: seq<string>)
    requires Fetch(store, keys).Err?
    ensures Fetch(store, keys + more) == Fetch(store, keys)
    decreases |more|
  {
    if |more| == 0 {
      assert keys + more == keys;
    } else {
      var init := more[..|more| - 1];
      FetchFailurePersists(store, keys, init);
      assert (keys + more)[..|keys + more| - 1] == keys + init;
    }
  }

  /** `get_data(redis_client, dataset_name, version)`: the decoded values of the
      keys the version's scan reports, in the order it reports them. */
  function GetData(store: Store, scan: Scanner, name: string, version: string): (r: Result<seq<Row>>)
    requires Completes(scan(store, VersionPattern(name, version)))
    ensures r.Ok? ==> |r.value| == |Scanned(scan(store, VersionPattern(name, version)))|
    ensures r.Err? ==> r.error.MissingValue? && r.error.key !in store
    ensures r.Err? ==> r.error.key in Scanned(scan(store, VersionPattern(name, version)))
  {
    Fetch(store, Scanned(scan(store, VersionPattern(name, version))))
  }

  /** The keys of the first `i` replies start the keys of the first `m`. */
  lemma {:induction false} YieldedGrows(replies: seq<Reply>, i: nat, m: nat)
    requires i <= m <= |replies|
    ensures Yielded(replies, i) <= Yielded(replies, m)
    decreases m - i
  {
    if i < m {
      YieldedGrows(replies, i, m - 1);
    }
  }

  /** A failing prefix decides the fetch of the whole sequence. */
  lemma FetchFailsOnPrefix(store: Store, done: seq<string>, all: seq<string>)
    requires done <= all
    requires Fetch(store, done).Err?
    ensures Fetch(store, all) == Fetch(store, done)
  {
    assert all == done + all[|done|..];
    FetchFailurePersists(store, done, all[|done|..]);
  }

  /** One key of a batch: a present key extends the fetched rows, and a missing
      one is the error of the whole batch. */
  lemma FetchBatchStep(store: Store, done: seq<string>, keys: seq<string>, j: nat)
    requires j < |keys| && Fetch(store, done + keys[..j]).Ok?
    ensures keys[j] in store ==>
      Fetch(store, done + keys[..j + 1]) == Ok(Fetch(store, done + keys[..j]).value + [Decode(store[keys[j]])])
    ensures keys[j] !in store ==> Fetch(store, done + keys) == Err(MissingValue(keys[j]))
  {
    assert done + keys[..j + 1] == (done + keys[..j]) + [keys[j]] by {
      assert keys[..j + 1] == keys[..j] + [keys[j]];
    }
    if keys[j] in store {
      FetchExtend(store, done + keys[..j], keys[j], Fetch(store, done + keys[..j]).value);
    } else {
      FetchStops(store, done + keys[..j], keys[j]);
      assert done + keys[..j + 1] <= done + keys by {
        assert keys[..j + 1] <= keys;
      }
      FetchFailsOnPrefix(store, done + keys[..j + 1], done + keys);
    }
  }

  /** The `for key in keys` loop of `get_data` over one SCAN batch, continuing
      the rows fetched for the keys `done` of earlier batches. */
  method FetchBatch(store: Store, done: seq<string>, data: seq<Row>, keys: seq<string>) returns (r: Result<seq<Row>>)
    requires Fetch(store, done) == Ok(data)
    ensures r == Fetch(store, done + keys)
  {
    var rows := data;
    var j := 0;
    assert done + keys[..0] == done;
    while j < |keys|
      invariant j <= |keys|
      invariant Fetch(store, done + keys[..j]) == Ok(rows)
    {
      var key := keys[j];
      FetchBatchStep(store, done, keys, j);
      if key !in store {
        return Err(MissingValue(key));
      }
      rows := rows + [Decode(store[key])];
      j := j + 1;
    }
    assert keys[..j] == keys;
    r := Ok(rows);
  }

  /** One reply of the scan: its batch extends the keys fetched so far; an
      error there, or the reply whose cursor is 0, decides the whole call. */
  lemma FetchScanStep(store: Store, replies: seq<Reply>, i: nat)
    requires Completes(replies) && i <= LastRound(replies)
    ensures Fetch(store, Yielded(replies, i + 1)) == Fetch(store, Yielded(replies, i) + replies[i].keys)
    ensures Fetch(store, Yielded(replies, i + 1)).Err? || replies[i].cursor == 0 ==>
      Fetch(store, Scanned(replies)) == Fetch(store, Yielded(replies, i + 1))
  {
    if Fetch(store, Yielded(replies, i + 1)).Err? {
      YieldedGrows(replies, i + 1, LastRound(replies) + 1);
      FetchFailsOnPrefix(store, Yielded(replies, i + 1), Scanned(replies));
    }
  }

  /** The scan loop of `get_data`: one batch per reply, stopping on the first
      reply whose cursor is 0. */
  method GetDataLoop(store: Store, scan: Scanner, name: string, version: string) returns (r: Result<seq<Row>>)
    requires Completes(scan(store, VersionPattern(name, version)))
    ensures r == GetData(store, scan, name, version)
  {
    var replies := scan(store, VersionPattern(name, version));
    var data: seq<Row> := [];
    var i := 0;
    while true
      invariant i <= LastRound(replies)
      invariant Fetch(store, Yielded(replies, i)) == Ok(data)
      decreases LastRound(replies) - i
    {
      var cursor := replies[i].cursor;
      var batch := FetchBatch(store, Yielded(replies, i), data, replies[i].keys);
      FetchScanStep(store, replies, i);
      if batch.Err? {
        return batch;
      }
      data := batch.value;
      if cursor == 0 {
        return Ok(data);
      }
      i := i + 1;
    }
  }

  /** Under a faithful scan, `get_data` cannot fail and returns one decoded value
      per record of the version, and only those. */
  lemma GetDataFaithful(store: Store, scan: Scanner, name: string, version: string)
    requires FaithfulAt(scan, store, VersionPattern(name, version))
    ensures GetData(store, scan, name, version).Ok?
    ensures |GetData(store, scan, name, version).value| == |MatchingKeys(store, VersionPattern(name, version))|
    ensures forall row :: row in GetData(store, scan, name, version).value <==>
      exists k :: k in MatchingKeys(store, VersionPattern(name, version)) && store[k] == Encode(row)
  {
    var p := VersionPattern(name, version);
    var keys := Scanned(scan(store, p));
    assert forall i :: 0 <= i < |keys| ==> keys[i] in Elements(keys);
    FetchMeaning(store, keys);
    NoDuplicatesCardinality(keys);
    var rows := GetData(store, scan, name, version).value;
    forall row
      ensures row in rows <==> exists k :: k in MatchingKeys(store, p) && store[k] == Encode(row)
    {
      if row in rows {
        var i :| 0 <= i < |rows| && rows[i] == row;
        assert keys[i] in Elements(keys);
      }
      if exists k :: k in MatchingKeys(store, p) && store[k] == Encode(row) {
        var k :| k in MatchingKeys(store, p) && store[k] == Encode(row);
        assert k in Elements(keys);
        var i :| 0 <= i < |keys| && keys[i] == k;
        assert rows[i] == row;
      }
    }
  }

  /** Under a faithful scan, `get_data` returns the decoded value of each
      scanned key, in scan order. */
  lemma GetDataValues(store: Store, scan: Scanner, name: string, version: string)
    requires FaithfulAt(scan, store, VersionPattern(name, version))
    ensures GetData(store, scan, name, version).Ok?
    ensures var keys := Scanned(scan(store, VersionPattern(name, version)));
      |GetData(store, scan, name, version).value| == |keys| &&
      forall i :: 0 <= i < |keys| ==> keys[i] in store && GetData(store, scan, name, version).value[i] == Decode(store[keys[i]])
  {
    var keys := Scanned(scan(store, VersionPattern(name, version)));
    assert forall i :: 0 <= i < |keys| ==> keys[i] in Elements(keys);
    FetchMeaning(store, keys);
  }

  /** A version with no records reads as an empty list, not an error. */
  lemma GetDataAbsentVersion(store: Store, scan: Scanner, name: string, version: string)
    requires FaithfulAt(scan, store, VersionPattern(name, version))
    requires forall k :: k in store ==> !Matches(VersionPattern(name, version), k)
    ensures GetData(store, scan, name, version) == Ok([])
  {
    GetDataFaithful(store, scan, name, version);
    assert MatchingKeys(store, VersionPattern(name, version)) == {};
  }

  /** What `get_data` returns is fixed, up to order, by the version's records:
      two stores that agree on them read the same values. */
  lemma GetDataDependsOnRecords(store: Store, store': Store, scan: Scanner, name: string, version: string)
    requires FaithfulAt(scan, store, VersionPattern(name, version))
    requires FaithfulAt(scan, store', VersionPattern(name, version))
    requires MatchingKeys(store, VersionPattern(name, version)) == MatchingKeys(store', VersionPattern(name, version))
    requires forall k :: k in MatchingKeys(store, VersionPattern(name, version)) ==> store[k] == store'[k]
    ensures GetData(store, scan, name, version).Ok? && GetData(store', scan, name, version).Ok?
    ensures multiset(GetData(store, scan, name, version).value) == multiset(GetData(store', scan, name, version).value)
  {
    var p := VersionPattern(name, version);
    var keys := Scanned(scan(store, p));
    var keys' := Scanned(scan(store', p));
    GetDataValues(store, scan, name, version);
    GetDataValues(store', scan, name, version);
    SameElementsArePermutations(keys, keys');
    var rows := GetData(store, scan, name, version).value;
    var rows' := GetData(store', scan, name, version).value;
    forall i | 0 <= i < |keys'|
      ensures keys'[i] in store && rows'[i] == Decode(store[keys'[i]])
    {
      assert keys'[i] in Elements(keys');
    }
    DecodedPermutation(store, keys, keys', rows, rows');
  }

  /** Decoding the values of two permutations of the same keys gives two
      permutations of the same rows. */
  lemma DecodedPermutation(store: Store, keys: seq<string>, keys': seq<string>, rows: seq<Row>, rows': seq<Row>)
    requires multiset(keys) == multiset(keys')
    requires |rows| == |keys| && forall i :: 0 <= i < |keys| ==> keys[i] in store && rows[i] == Decode(store[keys[i]])
    requires |rows'| == |keys'| && forall i :: 0 <= i < |keys'| ==> keys'[i] in store && rows'[i] == Decode(store[keys'[i]])
    ensures multiset(rows) == multiset(rows')
  {
    var f := (k: string) => Decode(if k in store then store[k] else "");
    MapPermutation(f, keys, keys', rows, rows');
  }

  /** `get_current_version(redis_client, dataset_name)`: the value under
      `current_version:<name>`; an unset pointer raises. */
  function GetCurrentVersion(store: Store, name: string): (r: Result<string>)
    ensures r.Ok? <==> PointerKey(name) in store
    ensures r.Ok? ==> r.value == store[PointerKey(name)]
    ensures r.Err? ==> r.error == NoCurrentVersion(name)
  {
    var key := PointerKey(name);
    if key in store then Ok(store[key]) else Err(NoCurrentVersion(name))
  }
}
