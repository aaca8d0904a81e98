/** The key-value store the datasets live in, as an immutable map, together with
    the two store primitives whose behaviour the dataset code depends on: the
    cursor-based SCAN and the pipelined batch of SETs. */
module Store {
  import opened Keys
  import opened Seqs

  type Store = map<string, string>

  /** One row of a dataset, kept as its JSON document. `json.dumps` and
      `json.loads` are modelled as the identity on that document. */
  datatype Row = Row(json: string)

  /** `json.dumps(row)` */
  function Encode(row: Row): (text: string)
    ensures Decode(text) == row
  {
    row.json
  }

  /** `json.loads(text)` */
  function Decode(text: string): Row {
    Row(text)
  }

  /** One SCAN reply: the cursor to pass next (0 once the iteration is over) and
      a batch of matching keys, possibly empty. */
  datatype Reply = Reply(cursor: nat, keys: seq<string>)

  /** The store's replies to the successive SCAN calls of one iteration with a
      MATCH pattern, starting from cursor 0. */
  type Scanner = (Store, Pattern) -> seq<Reply>

  /** The replies contain one whose cursor is 0, where the client's loop stops. */
  predicate Completes(replies: seq<Reply>) {
    exists i :: 0 <= i < |replies| && replies[i].cursor == 0
  }

  /** The position of the reply on which the client's loop breaks. */
  function LastRound(replies: seq<Reply>): (e: nat)
    requires Completes(replies)
    ensures e < |replies| && replies[e].cursor == 0
    ensures forall j :: 0 <= j < e ==> replies[j].cursor != 0
    decreases |replies|
  {
    if replies[0].cursor == 0 then 0
    else
      assert Completes(replies[1..]) by {
        var i :| 0 <= i < |replies| && replies[i].cursor == 0;
        assert replies[1..][i - 1].cursor == 0;
      }
      1 + LastRound(replies[1..])
  }

  /** The keys of the first `n` replies, in the order they arrived. */
  function Yielded(replies: seq<Reply>, n: nat): seq<string>
    requires n <= |replies|
  {
    if n == 0 then [] else Yielded(replies, n - 1) + replies[n - 1].keys
  }

  /** Every key the client sees during one iteration. */
  function Scanned(replies: seq<Reply>): seq<string>
    requires Completes(replies)
  {
    Yielded(replies, LastRound(replies) + 1)
  }

  /** The keys of `store` that a SCAN with pattern `p` must report: the
      reference set `FaithfulAt` compares an iteration with. */
  function MatchingKeys(store: Store, p: Pattern): set<string> {
    set k | k in store && Matches(p, k)
  }

  /** The scanner's iteration over `store` with pattern `p` ends and reports
      every matching key exactly once. SCAN itself promises less: every key
      present for the whole iteration is reported at least once, and a key may
      be reported twice. Exactly-once reporting is an assumption of the lemmas
      that take this as a precondition. */
  predicate FaithfulAt(scan: Scanner, store: Store, p: Pattern) {
    var replies := scan(store, p);
    && Completes(replies)
    && NoDuplicates(Scanned(replies))
    && Elements(Scanned(replies)) == MatchingKeys(store, p)
  }

  /** One SET queued in a pipeline. */
  datatype Command = Set(key: string, value: string)

  function KeysOf(cmds: seq<Command>): set<string> {
    set i | 0 <= i < |cmds| :: cmds[i].key
  }

  /** `pipeline.execute()`: the queued SETs applied in order. */
  function Execute(store: Store, cmds: seq<Command>): (r: Store)
    ensures r.Keys == store.Keys + KeysOf(cmds)
    ensures forall k :: k in store && k !in KeysOf(cmds) ==> r[k] == store[k]
    decreases |cmds|
  {
    if |cmds| == 0 then store
    else
      var last := cmds[|cmds| - 1];
      var init := cmds[..|cmds| - 1];
      assert KeysOf(cmds) == KeysOf(init) + {last.key} by {
        assert forall i :: 0 <= i < |init| ==> init[i] == cmds[i];
      }
      Execute(store, init)[last.key := last.value]
  }

  /** A key holds the value of the last SET queued for it. */
  lemma {:induction false} ExecuteLastWriteWins(store: Store, cmds: seq<Command>, i: nat)
    requires i < |cmds|
    requires forall j :: i < j < |cmds| ==> cmds[j].key != cmds[i].key
    ensures Execute(store, cmds)[cmds[i].key] == cmds[i].value
    decreases |cmds|
  {
    if i < |cmds| - 1 {
      var init := cmds[..|cmds| - 1];
      ExecuteLastWriteWins(store, init, i);
    }
  }
}
