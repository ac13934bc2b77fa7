# ark2libri manifest construction, modelled in Dafny

`preprocess/ark2libri.py` converts the Kaldi feature archives of five LibriSpeech
partitions into one `.npy` array per utterance plus one CSV manifest per partition.
This project models how each manifest is built:

- One dictionary per partition, `output`, maps the manifest path
  `<partition with '_' replaced by '-'>/<key>.npy` to the utterance's frame count.
  The record loop fills it in archive order.
- The dictionary's items are sorted stably by frame count, longest first.
- Each item becomes a row `(file_path, length, label)` with the constant label `"None"`.
- The rows go to `<OUTPUT_DIR>/<hyphenated partition>.csv`.
- The outer loop goes over the fixed partition list, stopping at the first archive
  that cannot be opened.

Files:

- `wrappers.dfy`: `Option`.
- `naming.dfy`: the partition's hyphenated name. Also POSIX `os.path.join` on two
  components, the manifest path of a key and its inverse `KeyOf`, the array
  directory, and the manifest's file name and path.
- `ordered_dict.dfy`: a Python dictionary as an insertion-ordered association list.
  - `Assigned` is `d[k] = v`.
  - `Collapse` builds a dictionary from a sequence of assignments.
  - `Dedup` and `LastValue` are the reference definitions it is proved against:
    each key sits at its first position and holds its last value.
- `stable_sort.dfy`: `sorted(..., key=itemgetter(1), reverse=True)`, defined as a
  functional insertion sort (`SortDesc`). Lemmas prove four things about it:
  - it is non-increasing;
  - it is a permutation;
  - it is stable, stated per length class with `WithLength`;
  - it is the only stable descending order, so it agrees with Python's `sorted`.
- `ark2libri.dfy`: the records, rows, manifests and the outcome of a run.
  - `Accumulate` is the record loop, a method with a loop invariant.
  - `ConvertPartition` handles one partition.
  - `ConvertAll` is the loop over the partitions.
  - Lemmas relate the manifest to the archive's records.

A key that the archive yields twice gives one row. The row sits at the key's first
position and carries its last frame count (`ExampleRepeatedKey`,
`CollapseFirstPositionLastValue`).

## Model

| member | source | states |
|---|---|---|
| Naming.Hyphenated | preprocess/ark2libri.py:59 | `s.replace('_', '-')` keeps the length of `s` and contains no `_`; at each position it has `-` where `s` has `_` and `s`'s character elsewhere |
| Naming.HyphenatedIdempotent | preprocess/ark2libri.py:59 | replacing underscores a second time changes nothing |
| Naming.HyphenatedFixedPoint | preprocess/ark2libri.py:59 | a name is unchanged by the replacement exactly when it contains no underscore |
| Naming.HyphenatedInjective | preprocess/ark2libri.py:59 | two names without hyphens give the same output name exactly when they are equal |
| Naming.HyphenatedCollision | preprocess/ark2libri.py:59 | without that proviso injectivity fails: `a_b` and `a-b` both become `a-b` |
| Naming.PathJoin | preprocess/ark2libri.py:59 | `os.path.join(a, b)` on POSIX: an absolute `b` is the result, whatever `a` is |
| Naming.PathJoinParts | preprocess/ark2libri.py:59 | joining a relative `b` gives `a`, then `b`, with exactly one `/` between them when `a` is non-empty and does not end in `/`, and nothing between them otherwise |
| Naming.PathJoinRelative | preprocess/ark2libri.py:59 | joining a relative component appends it to the first component plus the separator this one lacks |
| Naming.PathJoinAssociative | preprocess/ark2libri.py:65-66 | `join(a, join(b, c)) == join(join(a, b), c)` for all components, absolute ones included |
| Naming.ArrayDir | preprocess/ark2libri.py:59 | for a partition name, `cur_dir` is the output root joined with the hyphenated partition |
| Naming.EntryPath | preprocess/ark2libri.py:66 | for a relative key the manifest path is the hyphenated partition with its separator, then the key, then `.npy` |
| Naming.EntryPathShape | preprocess/ark2libri.py:66 | for a partition name and a relative key the manifest path is exactly `hyphenated(s) + "/" + key + ".npy"` |
| Naming.KeyOf | preprocess/ark2libri.py:66 | a key recovered from a path is one whose manifest path is that path |
| Naming.KeyOfEntryPath | preprocess/ark2libri.py:66 | every relative key is recovered from its manifest path, so the two form a round trip |
| Naming.EntryPathInjective | preprocess/ark2libri.py:66 | within a partition, two keys have the same manifest path exactly when they are equal: for every key when `s` is a partition name, and for keys that are not absolute whatever `s` is |
| Naming.ManifestFileName | preprocess/ark2libri.py:70 | the manifest's name is four characters longer than the partition name; it starts with the hyphenated partition and ends in `.csv` |
| Naming.ManifestPath | preprocess/ark2libri.py:70 | for a partition name, the CSV is written at the output root with its separator, then the hyphenated partition, then `.csv` |
| Naming.ManifestBesideArrayDir | preprocess/ark2libri.py:70 | the manifest's path is the partition's array directory with `.csv` appended |
| Naming.EntryPathUnderArrayDir | preprocess/ark2libri.py:59-66 | a manifest path resolved against the output root names `key.npy` inside the partition's array directory |
| OrderedDict.Assigned | preprocess/ark2libri.py:66 | `d[k] = v` keeps the keys distinct; its key order is unchanged if `k` was present and has `k` appended otherwise; `k` maps to `v`; every other entry stays where and what it was |
| OrderedDict.Collapse | preprocess/ark2libri.py:56-66 | a dictionary built from assignments has distinct keys and no more entries than there were assignments |
| OrderedDict.Dedup | preprocess/ark2libri.py:56-66 | reference list of first occurrences: no repetition, and it holds an element exactly when the input does (its order is stated by DedupFirstOccurrenceOrder) |
| OrderedDict.DedupFirstOccurrenceOrder | preprocess/ark2libri.py:56-66 | Dedup lists its elements in the order of their first occurrences in the input: an earlier element first occurs earlier |
| OrderedDict.LastValue | preprocess/ark2libri.py:66 | reference value of the last assignment to a key: none exactly when the key is never assigned; otherwise, a pair with that key and value after which the key is not assigned again |
| OrderedDict.CollapseFirstPositionLastValue | preprocess/ark2libri.py:56-66 | the dictionary's keys are the assigned keys in order of first assignment, and each key holds the value of its last assignment |
| OrderedDict.CollapseSize | preprocess/ark2libri.py:56-66 | the dictionary has one entry per distinct assigned key |
| StableSort.WithLength | preprocess/ark2libri.py:68 | the pairs of one length, in input order: each has that length and comes from the input |
| StableSort.SortDesc | preprocess/ark2libri.py:68 | the sorted items are as many as the input's, and their lengths never increase |
| StableSort.SortDescPermutes | preprocess/ark2libri.py:68 | the sorted items are a permutation of the input (equal multisets) |
| StableSort.SortDescStable | preprocess/ark2libri.py:68 | for every length, the items of that length appear in the same order as in the input |
| StableSort.SortDescDistinctKeys | preprocess/ark2libri.py:68 | sorting a dictionary's items keeps their keys distinct |
| StableSort.StableSortIsUnique | preprocess/ark2libri.py:68 | any non-increasing sequence with the input's length classes in input order equals `SortDesc`, so any stable descending sort gives the same result |
| Ark2Libri.Assignments | preprocess/ark2libri.py:62-66 | the record loop performs one assignment per record, in archive order; the i-th one carries the i-th record's frame count, and its path gives back the record's key (via KeyOf) when that key is not absolute |
| Ark2Libri.Accumulate | preprocess/ark2libri.py:56-66 | the record loop yields the dictionary of the paths and frame counts: distinct paths, in order of first occurrence, each with its last frame count |
| Ark2Libri.Rows | preprocess/ark2libri.py:69 | one row per sorted item, carrying its path and length, every label `"None"` |
| Ark2Libri.ManifestOf | preprocess/ark2libri.py:56-70 | a partition's manifest is named `hyphenated(s).csv`; it has no more rows than the archive has records; its rows are non-increasing in length and all labelled `"None"` |
| Ark2Libri.ConvertPartition | preprocess/ark2libri.py:53-70 | a partition's manifest is named `hyphenated(s).csv`; its rows are non-increasing in length and all labelled `"None"` |
| Ark2Libri.ConvertAll | preprocess/ark2libri.py:53-54 | the run completes exactly when every partition's archive opens; then there is one manifest per partition, in order; otherwise it stops at the first partition whose archive does not open, with the manifests of the partitions before it written |
| Ark2Libri.LastValueOfPath | preprocess/ark2libri.py:62-66 | a key's manifest path is last assigned the frame count of the key's last record, and is never assigned when the key does not occur |
| Ark2Libri.PathsInFirstOccurrenceOrder | preprocess/ark2libri.py:62-66 | the dictionary's paths are those of the distinct keys in order of first occurrence in the archive |
| Ark2Libri.ManifestRowCount | preprocess/ark2libri.py:56-69 | a manifest has as many rows as the archive has distinct keys |
| Ark2Libri.ManifestRowsFromRecords | preprocess/ark2libri.py:62-69 | every row is labelled `"None"` and names `hyphenated(s)/key.npy` for some archive key, with the frame count of that key's last record |
| Ark2Libri.ManifestCoversRecords | preprocess/ark2libri.py:62-69 | every key of the archive has a row naming `hyphenated(s)/key.npy` |
| Ark2Libri.ManifestPathsDistinct | preprocess/ark2libri.py:66-69 | no two rows of a manifest name the same file |
| Ark2Libri.ManifestStable | preprocess/ark2libri.py:68-69 | rows of equal length keep the order in which their paths entered the dictionary |
| Ark2Libri.ExampleTiesKeepArchiveOrder | preprocess/ark2libri.py:62-69 | records `k1:5, k2:10, k3:5` give rows `k2`, `k1`, `k3`, with lengths 10, 5, 5 and label `"None"` |
| Ark2Libri.ExampleRepeatedKey | preprocess/ark2libri.py:62-69 | records `k1:3, k2:5, k1:5` give the two rows `k1:5`, `k2:5` |
| Ark2Libri.PartitionsWellFormed | preprocess/ark2libri.py:34 | every listed partition is a non-empty name with no `/` and no `-`, and no partition is listed twice |
| Ark2Libri.PartitionOutputsDistinct | preprocess/ark2libri.py:34 | two listed partitions never share an array directory name or a manifest file name |

## Left out

- The archive reader (`kaldiio.ReadHelper` and the `ark:` path built from
  `KALDI_ROOT`, `DATA_TYPE` and the partition): an archive is an input sequence of
  `(key, frames)` records. An archive that cannot be opened is a partition missing
  from the `archives` map given to `ConvertAll`.
- The feature arrays themselves, their `float32` cast and `np.save`: a foreign
  serialiser the model does not see. Only an array's frame count (`len(array)`)
  enters the model. `EntryPathUnderArrayDir` names `key.npy` inside `cur_dir`. That
  is the file `np.save` writes for a key that does not already end in `.npy`; the
  extension rule of `np.save` is not modelled.
- pandas and CSV formatting: the index column, the header, quoting and the file
  write. A manifest is its file name and its rows.
- The directory checks, `os.mkdir`, the warning and closing prints, `exit()` and the
  `tqdm` progress bar. These are I/O with no effect on the manifest's contents.
  The early exit when `KALDI_ROOT` is missing happens before any partition is
  processed.
- The hard-coded settings `DATA_TYPE`, `KALDI_ROOT`, `LIBRI_PATH` and `OUTPUT_DIR`:
  the output root is a parameter of the naming functions.
- `os.path.join` is modelled as POSIX joining of two components: an absolute second
  component replaces the first, and a `/` is added unless the first is empty or ends
  in one. Other platforms' path rules are not modelled.
- Hashing: the dictionary is an association list. A Python dictionary lookup finds
  the entry whose key is equal to the one looked up, as the search of the list
  does; key equality is string equality. Iteration over the list follows
  insertion order, as a Python dictionary's does.
- Ark2Libri.ManifestRowsFromRecords: stated for a partition name and keys that are
  not absolute paths. The same holds for Ark2Libri.ManifestCoversRecords. This is a
  choice of statement, not a limit of the model: both lemmas spell the path out
  as `hyphenated(s)/key.npy`, and for an absolute key `os.path.join` returns
  `key.npy` without the partition directory. Ark2Libri.ManifestRowCount,
  Ark2Libri.LastValueOfPath and Ark2Libri.PathsInFirstOccurrenceOrder only need
  distinct keys to give distinct paths. That holds for every key of a partition
  name, and for keys that are not absolute whatever the partition name.
