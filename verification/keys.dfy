/** The key scheme of the store: record keys `serving_data:<name>:<version>:<index>`,
    pointer keys `current_version:<name>`, the two SCAN pattern shapes, and the
    positional decoding of a record key by splitting on `:`. */
module Keys {
  import opened Results
  import opened Numerals

  const Separator: char := ':'
  const RecordTag: string := "serving_data"
  const PointerTag: string := "current_version"

  /** A dataset name or version label that keeps the key scheme unambiguous: keys
      are decoded by splitting on `:`, so neither may contain one. The code does
      not check this; the properties that depend on it require it. */
  predicate IsSegment(s: string) {
    Separator !in s
  }

  /** A SCAN `MATCH` pattern of the form `<prefix>*`, the only shape the code
      sends; `prefix` is taken literally. */
  datatype Pattern = Glob(prefix: string)

  /** True when `key` is returned by a SCAN with pattern `p`. */
  predicate Matches(p: Pattern, key: string) {
    p.prefix <= key
  }

  /** `serving_data:<name>:<version>:*`: every record of one version. */
  function VersionPattern(name: string, version: string): Pattern {
    Glob(RecordTag + ":" + name + ":" + version + ":")
  }

  /** `serving_data:*`: every record of every dataset. */
  const AllRecords: Pattern := Glob(RecordTag + ":")

  /** A version's pattern is narrower than `serving_data:*`: every key it
      matches is one the inventory scans. */
  lemma VersionPatternWithinAll(name: string, version: string, key: string)
    ensures Matches(VersionPattern(name, version), key) ==> Matches(AllRecords, key)
  {
    if Matches(VersionPattern(name, version), key) {
      assert VersionPattern(name, version).prefix == AllRecords.prefix + (name + ":" + version + ":");
    }
  }

  /** The key of row `index` of version `version` of dataset `name`. */
  function RecordKey(name: string, version: string, index: nat): (key: string)
    ensures Matches(VersionPattern(name, version), key)
    ensures Matches(AllRecords, key)
  {
    RecordTag + ":" + name + ":" + version + ":" + Decimal(index)
  }

  /** The key holding the current version of dataset `name`. */
  function PointerKey(name: string): (key: string)
    ensures !Matches(AllRecords, key)
  {
    assert (PointerTag + ":" + name)[0] == 'c';
    PointerTag + ":" + name
  }

  /** Position of the first `c` in `s`. */
  function IndexOf(s: string, c: char): (i: nat)
    requires c in s
    ensures i < |s| && s[i] == c && c !in s[..i]
    decreases |s|
  {
    if s[0] == c then 0 else 1 + IndexOf(s[1..], c)
  }

  /** Python's `s.split(sep)`: the pieces between separators, empty ones kept. */
  function Split(s: string, sep: char): (parts: seq<string>)
    ensures |parts| >= 1
    ensures forall i :: 0 <= i < |parts| ==> sep !in parts[i]
    decreases |s|
  {
    if sep !in s then [s]
    else
      var i := IndexOf(s, sep);
      [s[..i]] + Split(s[i + 1..], sep)
  }

  /** Python's `sep.join(parts)`. */
  function Join(parts: seq<string>, sep: char): string
    requires |parts| >= 1
    decreases |parts|
  {
    if |parts| == 1 then parts[0] else parts[0] + [sep] + Join(parts[1..], sep)
  }

  /** Splitting at the first separator peels off the piece before it. */
  lemma SplitFirst(a: string, b: string, sep: char)
    requires sep !in a
    ensures Split(a + [sep] + b, sep) == [a] + Split(b, sep)
  {
    var s := a + [sep] + b;
    var i := IndexOf(s, sep);
    assert s[|a|] == sep;
    assert forall j :: 0 <= j < i ==> s[j] != sep;
    assert forall j :: 0 <= j < |a| ==> s[j] != sep;
    assert i == |a|;
    assert s[..i] == a;
    assert s[i + 1..] == b;
  }

  /** Splitting a join of separator-free pieces gives the pieces back. */
  lemma {:induction false} SplitJoin(parts: seq<string>, sep: char)
    requires |parts| >= 1
    requires forall i :: 0 <= i < |parts| ==> sep !in parts[i]
    ensures Split(Join(parts, sep), sep) == parts
    decreases |parts|
  {
    if |parts| > 1 {
      SplitJoin(parts[1..], sep);
      SplitFirst(parts[0], Join(parts[1..], sep), sep);
    }
  }

  /** Joining the pieces of a split gives the original text back. */
  lemma {:induction false} JoinSplit(s: string, sep: char)
    ensures Join(Split(s, sep), sep) == s
    decreases |s|
  {
    if sep in s {
      var i := IndexOf(s, sep);
      JoinSplit(s[i + 1..], sep);
      var parts := Split(s, sep);
      assert parts[1..] == Split(s[i + 1..], sep);
      assert s == s[..i] + [sep] + s[i + 1..];
    }
  }

  /** The fields of a decoded record key; the index is kept as text, as the code
      never converts it. */
  datatype RecordId = RecordId(name: string, version: string, index: string)

  /** `_, name, version, _ = key.split(":")`: fails unless there are exactly four parts. */
  function DecodeRecordKey(key: string): (r: Result<RecordId>)
    ensures r.Err? ==> r.error == MalformedKey(key)
    ensures r.Ok? ==> IsSegment(r.value.name) && IsSegment(r.value.version)
  {
    var parts := Split(key, Separator);
    if |parts| != 4 then Err(MalformedKey(key))
    else Ok(RecordId(parts[1], parts[2], parts[3]))
  }

  /** Decoding inverts the record key layout for separator-free names and versions. */
  lemma DecodeRecordKeyInverse(name: string, version: string, index: nat)
    requires IsSegment(name) && IsSegment(version)
    ensures DecodeRecordKey(RecordKey(name, version, index)) == Ok(RecordId(name, version, Decimal(index)))
  {
    var digits := Decimal(index);
    assert Separator !in digits by {
      assert forall j | 0 <= j < |digits| :: digits[j] != Separator;
    }
    var p3 := [digits];
    var p2 := [version] + p3;
    var p1 := [name] + p2;
    var parts := [RecordTag] + p1;
    assert Join(p2, Separator) == version + ":" + digits by {
      assert p2[1..] == p3;
    }
    assert Join(p1, Separator) == name + ":" + (version + ":" + digits) by {
      assert p1[1..] == p2;
    }
    assert Join(parts, Separator) == RecordTag + ":" + (name + ":" + (version + ":" + digits)) by {
      assert parts[1..] == p1;
    }
    assert Join(parts, Separator) == RecordKey(name, version, index);
    SplitJoin(parts, Separator);
  }

  /** A key that decodes is the join of its four parts: decoding loses only the
      leading tag. */
  lemma DecodeRecordKeyComplete(key: string)
    requires DecodeRecordKey(key).Ok?
    ensures
      var id := DecodeRecordKey(key).value;
      key == Join([Split(key, Separator)[0], id.name, id.version, id.index], Separator)
  {
    var parts := Split(key, Separator);
    JoinSplit(key, Separator);
    assert |parts| == 4 && DecodeRecordKey(key).value == RecordId(parts[1], parts[2], parts[3]);
    assert parts == [parts[0], parts[1], parts[2], parts[3]];
  }

  /** Two record keys coincide only for the same dataset, version and index. */
  lemma RecordKeyInjective(name: string, version: string, i: nat, name': string, version': string, j: nat)
    requires IsSegment(name) && IsSegment(version) && IsSegment(name') && IsSegment(version')
    requires RecordKey(name, version, i) == RecordKey(name', version', j)
    ensures name == name' && version == version' && i == j
  {
    DecodeRecordKeyInverse(name, version, i);
    DecodeRecordKeyInverse(name', version', j);
    DecimalInjective(i, j);
  }

  /** Two separator-free segments that both end right before a separator at the
      start of `s` are the same. */
  lemma SegmentPrefix(x: string, y: string, s: string)
    requires IsSegment(x) && IsSegment(y)
    requires x + ":" <= s && y + ":" <= s
    ensures x == y
  {
    assert s[|x|] == Separator && s[|y|] == Separator;
    assert forall j :: 0 <= j < |x| ==> s[j] != Separator;
    assert forall j :: 0 <= j < |y| ==> s[j] != Separator;
    assert |x| == |y|;
    assert x == s[..|x|] && y == s[..|y|];
  }

  /** No key is matched by the version patterns of two different
      (dataset, version) pairs. */
  lemma VersionPatternsDisjoint(name: string, version: string, name': string, version': string, key: string)
    requires IsSegment(name) && IsSegment(version) && IsSegment(name') && IsSegment(version')
    requires Matches(VersionPattern(name, version), key)
    requires Matches(VersionPattern(name', version'), key)
    ensures name == name' && version == version'
  {
    var tag := RecordTag + ":";
    var rest := key[|tag|..];
    assert VersionPattern(name, version).prefix == tag + (name + ":" + version + ":");
    assert VersionPattern(name', version').prefix == tag + (name' + ":" + version' + ":");
    assert name + ":" + version + ":" <= rest;
    assert name' + ":" + version' + ":" <= rest;
    SegmentPrefix(name, name', rest);
    var tail := rest[|name| + 1..];
    assert name + ":" + version + ":" == (name + ":") + (version + ":");
    assert version + ":" <= tail;
    assert version' + ":" <= tail;
    SegmentPrefix(version, version', tail);
  }

  /** Each dataset has its own pointer key. */
  lemma PointerKeyInjective(name: string, name': string)
    requires PointerKey(name) == PointerKey(name')
    ensures name == name'
  {
    var tag := PointerTag + ":";
    assert name == PointerKey(name)[|tag|..];
    assert name' == PointerKey(name')[|tag|..];
  }
}
