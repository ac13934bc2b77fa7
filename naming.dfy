/** The names the converter derives from a partition name and an utterance key:
    the partition's output directory, the manifest path of each array file and
    the manifest's own file name. Paths are joined the way POSIX `os.path.join`
    joins two components. */
module Naming {
  import opened Wrappers

  /** `s.replace('_', '-')`: the output name of a partition. It has the length
      of `s`, no underscore, and differs from `s` only where `s` has one. */
  function Hyphenated(s: string): (r: string)
    ensures |r| == |s| && '_' !in r
    ensures forall i :: 0 <= i < |s| ==> r[i] == (if s[i] == '_' then '-' else s[i])
  {
    if s == [] then []
    else [if s[0] == '_' then '-' else s[0]] + Hyphenated(s[1..])
  }

  /** Hyphenating is idempotent. */
  lemma HyphenatedIdempotent(s: string)
    ensures Hyphenated(Hyphenated(s)) == Hyphenated(s)
  {
  }

  /** A name is left unchanged exactly when it has no underscore. */
  lemma HyphenatedFixedPoint(s: string)
    ensures Hyphenated(s) == s <==> '_' !in s
  {
  }

  /** Names without hyphens keep apart once hyphenated; in general they need
      not, as `a_b` and `a-b` show. */
  lemma HyphenatedInjective(a: string, b: string)
    requires '-' !in a && '-' !in b
    ensures Hyphenated(a) == Hyphenated(b) <==> a == b
  {
  }

  /** Two distinct names that share an output name. */
  lemma HyphenatedCollision()
    ensures Hyphenated("a_b") == Hyphenated("a-b") && "a_b" != "a-b"
  {
  }

  /** A POSIX path is absolute when it starts with a slash. */
  predicate Absolute(p: string) {
    |p| > 0 && p[0] == '/'
  }

  /** `os.path.join(a, b)` on POSIX: an absolute `b` replaces `a`; otherwise a
      slash is put between the two unless `a` is empty or already ends in one. */
  function PathJoin(a: string, b: string): (r: string)
    ensures Absolute(b) ==> r == b
  {
    if Absolute(b) then b else a + Sep(a) + b
  }

  /** Joining a relative `b` gives `a`, then `b`, with one slash between them
      exactly when `a` is non-empty and does not already end in one. */
  lemma PathJoinParts(a: string, b: string)
    requires !Absolute(b)
    ensures var r := PathJoin(a, b);
            |r| == |a| + |b| + (if a == [] || a[|a| - 1] == '/' then 0 else 1) &&
            r[..|a|] == a && r[|r| - |b|..] == b &&
            (|r| > |a| + |b| ==> r[|a|] == '/')
  {
  }

  /** The separator `os.path.join` puts after `a` before a relative path. */
  function Sep(a: string): string {
    if a == [] || a[|a| - 1] == '/' then "" else "/"
  }

  /** Joining a relative path appends it to what joining the empty path gives:
      the first component followed by the separator it lacks, if any. */
  lemma PathJoinRelative(a: string, b: string)
    requires !Absolute(b)
    ensures PathJoin(a, b) == PathJoin(a, "") + b
  {
  }

  /** Joining is associative, so one path joined in two steps names the same
      file whichever pair is joined first. */
  lemma PathJoinAssociative(a: string, b: string, c: string)
    ensures PathJoin(a, PathJoin(b, c)) == PathJoin(PathJoin(a, b), c)
  {
  }

  /** A name fit to be a partition: non-empty and a single path component, as
      every entry of the fixed partition list is. */
  predicate PartitionName(s: string) {
    s != [] && '/' !in s
  }

  /** The directory the partition's arrays are saved in: `cur_dir`. */
  function ArrayDir(outputDir: string, s: string): (r: string)
    ensures PartitionName(s) ==> r == PathJoin(outputDir, "") + Hyphenated(s)
  {
    PathJoin(outputDir, Hyphenated(s))
  }

  /** The manifest's name for the array of utterance `key` in partition `s`:
      `os.path.join(s.replace('_', '-'), key + '.npy')`. */
  function EntryPath(s: string, key: string): (r: string)
    ensures !Absolute(key) ==> r == PathJoin(Hyphenated(s), "") + key + ".npy"
  {
    PathJoin(Hyphenated(s), key + ".npy")
  }

  /** For a partition name and a relative key the manifest path is the
      hyphenated partition, a slash, the key and `.npy`. */
  lemma EntryPathShape(s: string, key: string)
    requires PartitionName(s) && !Absolute(key)
    ensures EntryPath(s, key) == Hyphenated(s) + "/" + key + ".npy"
  {
  }

  /** Recovers the key from a manifest path of partition `s`, the partner of
      EntryPath. */
  function KeyOf(s: string, path: string): (r: Option<string>)
    ensures r.Some? && !Absolute(r.value) ==> EntryPath(s, r.value) == path
  {
    var prefix := PathJoin(Hyphenated(s), "");
    if |path| >= |prefix| + 4 && path[..|prefix|] == prefix && path[|path| - 4..] == ".npy"
    then
      ThreeSlices(path, |prefix|, |path| - 4);
      Some(path[|prefix|..|path| - 4])
    else None
  }

  lemma ThreeSlices(p: string, i: nat, j: nat)
    requires i <= j <= |p|
    ensures p == p[..i] + p[i..j] + p[j..]
  {
  }

  /** Every relative key is recovered from its manifest path. */
  lemma KeyOfEntryPath(s: string, key: string)
    requires !Absolute(key)
    ensures KeyOf(s, EntryPath(s, key)) == Some(key)
  {
  }

  /** Within one partition, distinct keys get distinct manifest paths: for
      every key when `s` is a partition name, and for relative keys whatever
      `s` is. */
  lemma EntryPathInjective(s: string, k1: string, k2: string)
    requires PartitionName(s) || (!Absolute(k1) && !Absolute(k2))
    ensures EntryPath(s, k1) == EntryPath(s, k2) <==> k1 == k2
  {
    if !Absolute(k1) && !Absolute(k2) {
      KeyOfEntryPath(s, k1);
      KeyOfEntryPath(s, k2);
    } else if Absolute(k1) && Absolute(k2) {
      assert EntryPath(s, k1)[..|k1|] == k1 && EntryPath(s, k2)[..|k2|] == k2;
    } else {
      var h := Hyphenated(s);
      assert h[0] != '/' by {
        assert s[0] in s;
      }
      assert EntryPath(s, k1)[0] != EntryPath(s, k2)[0];
    }
  }

  /** The manifest's file: `os.path.join(OUTPUT_DIR, s.replace('_', '-') + '.csv')`. */
  function ManifestFileName(s: string): (r: string)
    ensures |r| == |s| + 4 && r[|s|..] == ".csv"
    ensures r[..|s|] == Hyphenated(s)
  {
    Hyphenated(s) + ".csv"
  }

  /** Where the manifest is written: for a partition name, the output root
      with its separator, then the hyphenated partition and `.csv`. */
  function ManifestPath(outputDir: string, s: string): (r: string)
    ensures PartitionName(s) ==> r == PathJoin(outputDir, "") + Hyphenated(s) + ".csv"
  {
    assert PartitionName(s) ==> Hyphenated(s)[0] != '/' by {
      if PartitionName(s) {
        assert s[0] in s;
      }
    }
    PathJoin(outputDir, ManifestFileName(s))
  }

  /** The manifest lies next to the partition's array directory and bears its
      name with `.csv` appended. */
  lemma ManifestBesideArrayDir(outputDir: string, s: string)
    ensures ManifestPath(outputDir, s) == ArrayDir(outputDir, s) + ".csv"
  {
  }

  /** Resolved against the output root, a manifest path names the key's array
      file inside the partition's array directory. */
  lemma EntryPathUnderArrayDir(outputDir: string, s: string, key: string)
    ensures PathJoin(outputDir, EntryPath(s, key)) == PathJoin(ArrayDir(outputDir, s), key + ".npy")
  {
    PathJoinAssociative(outputDir, Hyphenated(s), key + ".npy");
  }
}
