/** The manifest construction of the feature-archive converter. For each
    partition, the archive's records are gathered into an insertion-ordered
    dictionary from manifest path to frame count, the dictionary's items are
    sorted stably by frame count, longest first, and each becomes a manifest
    row labelled "None". The archive reader is an input sequence of records;
    saving the arrays and writing the table as CSV are not modelled. */
module Ark2Libri {
  import opened Wrappers
  import opened Naming
  import opened OrderedDict
  import opened StableSort

  /** One (key, array) record of a partition's archive. Only the number of
      rows of the array (its frames) enters the manifest. */
  datatype Record = Record(key: string, frames: nat)

  /** One row of the manifest table. */
  datatype Row = Row(filePath: string, length: nat, labelText: string)

  /** A partition's manifest: the name of its CSV file and its rows. */
  datatype Manifest = Manifest(fileName: string, rows: seq<Row>)

  /** What a run over the partition list ends with: every manifest, or the
      manifests written before the first partition whose archive could not be
      opened. */
  datatype RunOutcome =
    | Completed(manifests: seq<Manifest>)
    | Aborted(written: seq<Manifest>, failed: string)

  /** The label column's constant value. */
  const Label: string := "None"

  /** The partitions the converter processes, in order. */
  const Partitions: seq<string> :=
    ["dev_clean", "test_clean", "train_clean_100", "train_clean_360", "train_other_500"]

  /** The records as (key, frames) pairs. */
  function Pairs(recs: seq<Record>): seq<(string, nat)> {
    seq(|recs|, i requires 0 <= i < |recs| => (recs[i].key, recs[i].frames))
  }

  /** The dictionary assignments the record loop performs, in order. */
  function Assignments(s: string, recs: seq<Record>): (r: seq<(string, nat)>)
    ensures |r| == |recs|
    ensures forall i :: 0 <= i < |r| ==>
              r[i].1 == recs[i].frames &&
              (!Absolute(recs[i].key) ==> KeyOf(s, r[i].0) == Some(recs[i].key))
  {
    KeysRecovered(s, recs);
    seq(|recs|, i requires 0 <= i < |recs| => (EntryPath(s, recs[i].key), recs[i].frames))
  }

  lemma KeysRecovered(s: string, recs: seq<Record>)
    ensures forall i :: 0 <= i < |recs| && !Absolute(recs[i].key) ==>
              KeyOf(s, EntryPath(s, recs[i].key)) == Some(recs[i].key)
  {
    forall i | 0 <= i < |recs| && !Absolute(recs[i].key) {
      KeyOfEntryPath(s, recs[i].key);
    }
  }

  /** Manifest paths of a sequence of keys. */
  function Paths(s: string, keys: seq<string>): seq<string> {
    seq(|keys|, i requires 0 <= i < |keys| => EntryPath(s, keys[i]))
  }

  /** The keys of an archive are fit to name files in its partition's
      directory: none of them is an absolute path. */
  predicate RelativeKeys(recs: seq<Record>) {
    forall i :: 0 <= i < |recs| ==> !Absolute(recs[i].key)
  }

  /** Distinct keys of the archive get distinct manifest paths: `s` is a
      partition name (as every listed partition is), or no key is absolute. */
  predicate PathsApart(s: string, recs: seq<Record>) {
    PartitionName(s) || RelativeKeys(recs)
  }

  /** The record loop: `output[path] = len(array)` for every record in
      archive order, starting from an empty dictionary. The dictionary holds
      each path once, at the position of its first assignment and with the
      value of its last. */
  method Accumulate(s: string, recs: seq<Record>) returns (output: seq<(string, nat)>)
    ensures output == Collapse(Assignments(s, recs))
    ensures DistinctKeys(output)
    ensures Keys(output) == Dedup(Keys(Assignments(s, recs)))
    ensures forall i :: 0 <= i < |output| ==>
              LastValue(Assignments(s, recs), output[i].0) == Some(output[i].1)
  {
    output := [];
    for i := 0 to |recs|
      invariant output == Collapse(Assignments(s, recs[..i]))
    {
      output := Assigned(output, EntryPath(s, recs[i].key), recs[i].frames);
      assert Assignments(s, recs[..i + 1])[..i] == Assignments(s, recs[..i]);
    }
    assert recs[..|recs|] == recs;
    CollapseFirstPositionLastValue(Assignments(s, recs));
  }

  /** `pd.DataFrame(data={'file_path': ..., 'length': ..., 'label': 'None'})`:
      one row per item, carrying its path and length, all labelled "None". */
  function Rows(items: seq<(string, nat)>): (rows: seq<Row>)
    ensures |rows| == |items|
    ensures forall i :: 0 <= i < |rows| ==> rows[i].labelText == Label
    ensures forall i :: 0 <= i < |rows| ==> (rows[i].filePath, rows[i].length) == items[i]
  {
    seq(|items|, i requires 0 <= i < |items| => Row(items[i].0, items[i].1, Label))
  }

  /** The (path, length) pairs of manifest rows. */
  function Entries(rows: seq<Row>): seq<(string, nat)> {
    seq(|rows|, i requires 0 <= i < |rows| => (rows[i].filePath, rows[i].length))
  }

  /** The manifest of partition `s` whose archive holds `recs`. */
  function ManifestOf(s: string, recs: seq<Record>): (m: Manifest)
    ensures m.fileName == Hyphenated(s) + ".csv"
    ensures |m.rows| <= |recs|
    ensures forall i, j :: 0 <= i < j < |m.rows| ==> m.rows[i].length >= m.rows[j].length
    ensures forall i :: 0 <= i < |m.rows| ==> m.rows[i].labelText == Label
  {
    Manifest(ManifestFileName(s), Rows(SortDesc(Collapse(Assignments(s, recs)))))
  }

  /** One partition's block: gather the records, sort the dictionary's items
      by length, longest first, and build the rows. */
  method ConvertPartition(s: string, recs: seq<Record>) returns (m: Manifest)
    ensures m == ManifestOf(s, recs)
    ensures m.fileName == Hyphenated(s) + ".csv"
    ensures forall i, j :: 0 <= i < j < |m.rows| ==> m.rows[i].length >= m.rows[j].length
    ensures forall i :: 0 <= i < |m.rows| ==> m.rows[i].labelText == Label
  {
    var output := Accumulate(s, recs);
    var sorted := SortDesc(output);
    m := Manifest(ManifestFileName(s), Rows(sorted));
  }

  /** The loop over the partition list. A partition whose archive cannot be
      opened (absent from `archives`) ends the run; what was written before it
      stays written. */
  method ConvertAll(partitions: seq<string>, archives: map<string, seq<Record>>) returns (outcome: RunOutcome)
    ensures outcome.Completed? <==> forall i :: 0 <= i < |partitions| ==> partitions[i] in archives
    ensures outcome.Completed? ==>
              |outcome.manifests| == |partitions| &&
              forall i :: 0 <= i < |partitions| ==>
                outcome.manifests[i] == ManifestOf(partitions[i], archives[partitions[i]])
    ensures outcome.Aborted? ==>
              var k := |outcome.written|;
              k < |partitions| && partitions[k] == outcome.failed && partitions[k] !in archives &&
              forall i :: 0 <= i < k ==>
                partitions[i] in archives &&
                outcome.written[i] == ManifestOf(partitions[i], archives[partitions[i]])
  {
    var written: seq<Manifest> := [];
    for k := 0 to |partitions|
      invariant |written| == k
      invariant forall i :: 0 <= i < k ==>
                  partitions[i] in archives &&
                  written[i] == ManifestOf(partitions[i], archives[partitions[i]])
    {
      var s := partitions[k];
      if s !in archives {
        return Aborted(written, s);
      }
      var m := ConvertPartition(s, archives[s]);
      written := written + [m];
    }
    outcome := Completed(written);
  }

  /** Within a partition, a record's manifest path is assigned a value exactly
      when its key occurs, and the value is the key's last frame count. */
  lemma {:induction false} LastValueOfPath(s: string, recs: seq<Record>, key: string)
    requires PartitionName(s) || (RelativeKeys(recs) && !Absolute(key))
    ensures LastValue(Assignments(s, recs), EntryPath(s, key)) == LastValue(Pairs(recs), key)
  {
    if recs != [] {
      var n := |recs| - 1;
      var init := recs[..n];
      assert Assignments(s, recs)[..n] == Assignments(s, init);
      assert Pairs(recs)[..n] == Pairs(init);
      EntryPathInjective(s, recs[n].key, key);
      LastValueOfPath(s, init, key);
    }
  }

  /** The dictionary's paths, in order, are those of the distinct keys in the
      order of their first occurrence in the archive. */
  lemma {:induction false} PathsInFirstOccurrenceOrder(s: string, recs: seq<Record>)
    requires PathsApart(s, recs)
    ensures Dedup(Keys(Assignments(s, recs))) == Paths(s, Dedup(Keys(Pairs(recs))))
  {
    if recs != [] {
      var n := |recs| - 1;
      PrefixKeys(s, recs, n);
      PathsInFirstOccurrenceOrder(s, recs[..n]);
      SeenPathIffSeenKey(s, recs, n);
      PathsSnoc(s, Dedup(Keys(Pairs(recs))[..n]), recs[n].key);
    }
  }

  /** The first `n` records are themselves apart, and their assignments and
      keys are the first `n` of all. */
  lemma PrefixKeys(s: string, recs: seq<Record>, n: nat)
    requires PathsApart(s, recs) && n < |recs|
    ensures PathsApart(s, recs[..n])
    ensures Keys(Assignments(s, recs))[..n] == Keys(Assignments(s, recs[..n]))
    ensures Keys(Pairs(recs))[..n] == Keys(Pairs(recs[..n]))
    ensures Keys(Assignments(s, recs))[n] == EntryPath(s, recs[n].key)
    ensures Keys(Pairs(recs))[n] == recs[n].key
  {
    assert forall j :: 0 <= j < n ==> recs[..n][j] == recs[j];
  }

  lemma PathsSnoc(s: string, d: seq<string>, k: string)
    ensures Paths(s, d + [k]) == Paths(s, d) + [EntryPath(s, k)]
  {
  }

  /** The path of record `n` was assigned before exactly when its key
      occurred before. */
  lemma SeenPathIffSeenKey(s: string, recs: seq<Record>, n: nat)
    requires PathsApart(s, recs) && n < |recs|
    ensures var pk, kk := Keys(Assignments(s, recs)), Keys(Pairs(recs));
            EntryPath(s, recs[n].key) in pk[..n] <==> recs[n].key in kk[..n]
  {
    var pk, kk := Keys(Assignments(s, recs)), Keys(Pairs(recs));
    forall j | 0 <= j < n ensures pk[j] == EntryPath(s, recs[n].key) <==> kk[j] == recs[n].key {
      EntryPathInjective(s, recs[j].key, recs[n].key);
    }
    assert forall j :: 0 <= j < n ==> pk[..n][j] == pk[j] && kk[..n][j] == kk[j];
  }

  /** The number of manifest rows is the number of distinct keys. */
  lemma ManifestRowCount(s: string, recs: seq<Record>)
    requires PathsApart(s, recs)
    ensures |ManifestOf(s, recs).rows| == |set r | r in recs :: r.key|
  {
    var items := Collapse(Assignments(s, recs));
    CollapseFirstPositionLastValue(Assignments(s, recs));
    PathsInFirstOccurrenceOrder(s, recs);
    assert |items| == |Keys(items)|;
    DedupSize(Keys(Pairs(recs)));
    KeySetOfRecords(recs);
  }

  lemma KeySetOfRecords(recs: seq<Record>)
    ensures (set r | r in recs :: r.key) == (set k | k in Keys(Pairs(recs)))
  {
    forall k | k in Keys(Pairs(recs)) ensures k in (set r | r in recs :: r.key) {
      var j :| 0 <= j < |recs| && Keys(Pairs(recs))[j] == k;
      assert recs[j] in recs;
    }
    forall r | r in recs ensures r.key in Keys(Pairs(recs)) {
      var j :| 0 <= j < |recs| && recs[j] == r;
      assert Keys(Pairs(recs))[j] == r.key;
    }
  }

  /** Every manifest row names the array file of a key of the archive, and its
      length is the frame count of that key's last record. */
  lemma ManifestRowsFromRecords(s: string, recs: seq<Record>)
    requires PartitionName(s) && RelativeKeys(recs)
    ensures forall row :: row in ManifestOf(s, recs).rows ==>
              row.labelText == Label &&
              exists r :: r in recs && row.filePath == Hyphenated(s) + "/" + r.key + ".npy" &&
                          LastValue(Pairs(recs), r.key) == Some(row.length)
  {
    forall row | row in ManifestOf(s, recs).rows
      ensures exists r :: r in recs && row.filePath == Hyphenated(s) + "/" + r.key + ".npy" &&
                          LastValue(Pairs(recs), r.key) == Some(row.length)
    {
      var i :| 0 <= i < |ManifestOf(s, recs).rows| && ManifestOf(s, recs).rows[i] == row;
      RowFromRecord(s, recs, i);
    }
  }

  /** ManifestRowsFromRecords for the row at position `i`. */
  lemma RowFromRecord(s: string, recs: seq<Record>, i: nat)
    requires PartitionName(s) && RelativeKeys(recs)
    requires i < |ManifestOf(s, recs).rows|
    ensures var row := ManifestOf(s, recs).rows[i];
            exists r :: r in recs && row.filePath == Hyphenated(s) + "/" + r.key + ".npy" &&
                        LastValue(Pairs(recs), r.key) == Some(row.length)
  {
    var items := Collapse(Assignments(s, recs));
    CollapseFirstPositionLastValue(Assignments(s, recs));
    SortDescPermutes(items);
    var e := SortDesc(items)[i];
    assert e in multiset(SortDesc(items));
    var p :| 0 <= p < |items| && items[p] == e;
    assert Keys(items)[p] == e.0;
    assert e.0 in Keys(Assignments(s, recs));
    var j :| 0 <= j < |recs| && Keys(Assignments(s, recs))[j] == e.0;
    var r := recs[j];
    EntryPathShape(s, r.key);
    LastValueOfPath(s, recs, r.key);
    assert r in recs;
  }

  /** Every key of the archive has a manifest row naming its array file. */
  lemma ManifestCoversRecords(s: string, recs: seq<Record>)
    requires PartitionName(s) && RelativeKeys(recs)
    ensures forall r :: r in recs ==>
              exists row :: row in ManifestOf(s, recs).rows &&
                            row.filePath == Hyphenated(s) + "/" + r.key + ".npy"
  {
    forall r | r in recs
      ensures exists row :: row in ManifestOf(s, recs).rows &&
                            row.filePath == Hyphenated(s) + "/" + r.key + ".npy"
    {
      var j :| 0 <= j < |recs| && recs[j] == r;
      RecordCovered(s, recs, j);
    }
  }

  /** ManifestCoversRecords for the record at position `j`. */
  lemma RecordCovered(s: string, recs: seq<Record>, j: nat)
    requires PartitionName(s) && RelativeKeys(recs) && j < |recs|
    ensures exists row :: row in ManifestOf(s, recs).rows &&
                          row.filePath == Hyphenated(s) + "/" + recs[j].key + ".npy"
  {
    var items := Collapse(Assignments(s, recs));
    var rows := ManifestOf(s, recs).rows;
    CollapseFirstPositionLastValue(Assignments(s, recs));
    SortDescPermutes(items);
    var path := EntryPath(s, recs[j].key);
    assert Keys(Assignments(s, recs))[j] == path;
    assert path in Keys(items);
    var p :| 0 <= p < |items| && Keys(items)[p] == path;
    assert items[p] in multiset(SortDesc(items));
    var i :| 0 <= i < |rows| && SortDesc(items)[i] == items[p];
    EntryPathShape(s, recs[j].key);
    assert rows[i] in rows;
  }

  /** No two manifest rows name the same file, whatever the archive holds. */
  lemma ManifestPathsDistinct(s: string, recs: seq<Record>)
    ensures forall i, j :: 0 <= i < j < |ManifestOf(s, recs).rows| ==>
              ManifestOf(s, recs).rows[i].filePath != ManifestOf(s, recs).rows[j].filePath
  {
    SortDescDistinctKeys(Collapse(Assignments(s, recs)));
  }

  /** Rows of equal length keep the order in which their paths entered the
      dictionary. */
  lemma ManifestStable(s: string, recs: seq<Record>, n: nat)
    ensures WithLength(Entries(ManifestOf(s, recs).rows), n) == WithLength(Collapse(Assignments(s, recs)), n)
  {
    var sorted := SortDesc(Collapse(Assignments(s, recs)));
    assert Entries(Rows(sorted)) == sorted;
    SortDescStable(Collapse(Assignments(s, recs)), n);
  }

  /** Three records of distinct keys where two share a length: the longest
      comes first and the two of length 5 keep their archive order. */
  lemma ExampleTiesKeepArchiveOrder(s: string, k1: string, k2: string, k3: string)
    requires !Absolute(k1) && !Absolute(k2) && !Absolute(k3)
    requires k1 != k2 && k1 != k3 && k2 != k3
    ensures ManifestOf(s, [Record(k1, 5), Record(k2, 10), Record(k3, 5)]).rows ==
            [Row(EntryPath(s, k2), 10, Label), Row(EntryPath(s, k1), 5, Label), Row(EntryPath(s, k3), 5, Label)]
  {
    var p1, p2, p3 := EntryPath(s, k1), EntryPath(s, k2), EntryPath(s, k3);
    EntryPathInjective(s, k1, k2);
    EntryPathInjective(s, k1, k3);
    EntryPathInjective(s, k2, k3);
    AssignmentsOfThree(s, Record(k1, 5), Record(k2, 10), Record(k3, 5));
    CollapseThreeDistinct(p1, p2, p3);
    SortThreeWithTie(p1, p2, p3);
    RowsOfThree((p2, 10), (p1, 5), (p3, 5));
  }

  lemma AssignmentsOfThree(s: string, r1: Record, r2: Record, r3: Record)
    ensures Assignments(s, [r1, r2, r3]) ==
            [(EntryPath(s, r1.key), r1.frames), (EntryPath(s, r2.key), r2.frames), (EntryPath(s, r3.key), r3.frames)]
  {
  }

  lemma RowsOfThree(a: (string, nat), b: (string, nat), c: (string, nat))
    ensures Rows([a, b, c]) == [Row(a.0, a.1, Label), Row(b.0, b.1, Label), Row(c.0, c.1, Label)]
  {
  }

  lemma RowsOfTwo(a: (string, nat), b: (string, nat))
    ensures Rows([a, b]) == [Row(a.0, a.1, Label), Row(b.0, b.1, Label)]
  {
  }

  lemma CollapseThreeDistinct<K>(p1: K, p2: K, p3: K)
    requires p1 != p2 && p1 != p3 && p2 != p3
    ensures Collapse<K, nat>([(p1, 5), (p2, 10), (p3, 5)]) == [(p1, 5), (p2, 10), (p3, 5)]
  {
    var a: seq<(K, nat)> := [(p1, 5), (p2, 10), (p3, 5)];
    assert a[..2][..1] == a[..1] == [(p1, 5)];
    assert Collapse(a[..1]) == [(p1, 5)];
    assert Collapse(a[..2]) == [(p1, 5), (p2, 10)];
  }

  lemma SortThreeWithTie<K>(p1: K, p2: K, p3: K)
    ensures SortDesc<K>([(p1, 5), (p2, 10), (p3, 5)]) == [(p2, 10), (p1, 5), (p3, 5)]
  {
    var a: seq<(K, nat)> := [(p1, 5), (p2, 10), (p3, 5)];
    assert a[..2] == [(p1, 5), (p2, 10)];
    SortTwoAscending(p1, p2);
    InsertAt([(p2, 10), (p1, 5)], 2, (p3, 5));
  }

  lemma SortTwoAscending<K>(p1: K, p2: K)
    ensures SortDesc<K>([(p1, 5), (p2, 10)]) == [(p2, 10), (p1, 5)]
  {
    var a: seq<(K, nat)> := [(p1, 5), (p2, 10)];
    assert a[..1] == [(p1, 5)];
    assert SortDesc(a[..1]) == [(p1, 5)];
    InsertAt([(p1, 5)], 0, (p2, 10));
  }

  /** A repeated key gives one row, with the length of its last record; the
      tie with the second key shows that the first kept the position of its
      first record. */
  lemma ExampleRepeatedKey(s: string, k1: string, k2: string)
    requires !Absolute(k1) && !Absolute(k2) && k1 != k2
    ensures ManifestOf(s, [Record(k1, 3), Record(k2, 5), Record(k1, 5)]).rows ==
            [Row(EntryPath(s, k1), 5, Label), Row(EntryPath(s, k2), 5, Label)]
  {
    var p1, p2 := EntryPath(s, k1), EntryPath(s, k2);
    EntryPathInjective(s, k1, k2);
    AssignmentsOfThree(s, Record(k1, 3), Record(k2, 5), Record(k1, 5));
    CollapseRepeatedFirst(p1, p2);
    SortTwoTied(p1, p2);
    RowsOfTwo((p1, 5), (p2, 5));
  }

  lemma CollapseRepeatedFirst<K>(p1: K, p2: K)
    requires p1 != p2
    ensures Collapse<K, nat>([(p1, 3), (p2, 5), (p1, 5)]) == [(p1, 5), (p2, 5)]
  {
    var a: seq<(K, nat)> := [(p1, 3), (p2, 5), (p1, 5)];
    assert a[..2][..1] == a[..1] == [(p1, 3)];
    assert Collapse(a[..1]) == [(p1, 3)];
    assert Collapse(a[..2]) == [(p1, 3), (p2, 5)];
    assert Keys<K, nat>([(p1, 3), (p2, 5)]) == [p1, p2];
  }

  lemma SortTwoTied<K>(p1: K, p2: K)
    ensures SortDesc<K>([(p1, 5), (p2, 5)]) == [(p1, 5), (p2, 5)]
  {
  }

  /** Every listed partition is a single, hyphen-free path component, and no
      two are the same. */
  lemma PartitionsWellFormed()
    ensures forall i :: 0 <= i < |Partitions| ==> PartitionName(Partitions[i]) && '-' !in Partitions[i]
    ensures forall i, j :: 0 <= i < j < |Partitions| ==> Partitions[i] != Partitions[j]
  {
  }

  /** Two listed partitions never share an array directory or a manifest. */
  lemma PartitionOutputsDistinct(i: nat, j: nat)
    requires i < j < |Partitions|
    ensures Hyphenated(Partitions[i]) != Hyphenated(Partitions[j])
    ensures ManifestFileName(Partitions[i]) != ManifestFileName(Partitions[j])
  {
    PartitionsWellFormed();
    var a, b := Partitions[i], Partitions[j];
    assert a != b && '-' !in a && '-' !in b;
    HyphenatedInjective(a, b);
    var fa, fb := ManifestFileName(a), ManifestFileName(b);
    assert fa[..|a|] == Hyphenated(a) && fb[..|b|] == Hyphenated(b);
    assert |fa| == |a| + 4 && |fb| == |b| + 4;
  }
}
