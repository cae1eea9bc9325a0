/** The integrity agent: its scan into a path-keyed map, the full comparison
    against a baseline, the single-path verification used per file event, the
    consecutive-anomaly counter that fails closed, and the exit decision of
    the process. */
module IntegrityAgent {
  import opened IntegrityCommon
  import opened Walk

  // ---------------------------------------------------------------------
  // The path-keyed view of a baseline
  // ---------------------------------------------------------------------

  /** `entries.iter().map(|e| (e.path.clone(), e)).collect()`: inserts in list
      order, so a later entry with the same path replaces an earlier one. */
  function PathIndex(entries: seq<FileIntegrityEntry>): (m: map<string, FileIntegrityEntry>)
    ensures forall k :: k in m ==> m[k].path == k && m[k] in entries
  {
    if entries == [] then map[]
    else
      var last := entries[|entries| - 1];
      PathIndex(entries[..|entries| - 1])[last.path := last]
  }

  lemma PathIndexSnoc(entries: seq<FileIntegrityEntry>, e: FileIntegrityEntry)
    ensures PathIndex(entries + [e]) == PathIndex(entries)[e.path := e]
  {
    assert (entries + [e])[..|entries|] == entries;
  }

  /** The keys of the index are exactly the paths of the list. */
  lemma {:induction false} PathIndexKeys(entries: seq<FileIntegrityEntry>, k: string)
    ensures k in PathIndex(entries) <==> exists i :: 0 <= i < |entries| && entries[i].path == k
  {
    if entries != [] {
      var front := entries[..|entries| - 1];
      PathIndexKeys(front, k);
      if k in PathIndex(front) {
        var i :| 0 <= i < |front| && front[i].path == k;
        assert entries[i].path == k;
      }
      if exists i :: 0 <= i < |entries| && entries[i].path == k {
        var i :| 0 <= i < |entries| && entries[i].path == k;
        if i < |front| {
          assert front[i].path == k;
        }
      }
    }
  }

  /** The entry stored under a path is the last entry of the list with that path. */
  lemma {:induction false} PathIndexLastWins(entries: seq<FileIntegrityEntry>, i: nat)
    requires i < |entries|
    requires forall j :: i < j < |entries| ==> entries[j].path != entries[i].path
    ensures entries[i].path in PathIndex(entries)
    ensures PathIndex(entries)[entries[i].path] == entries[i]
  {
    if i < |entries| - 1 {
      var front := entries[..|entries| - 1];
      assert front[i] == entries[i];
      PathIndexLastWins(front, i);
    }
  }

  // ---------------------------------------------------------------------
  // scan_filesystem
  // ---------------------------------------------------------------------

  /** `scan_filesystem(root)`: the same walk as the collector's, inserting each
      record into a map under its relative path. The scan fails iff the filtered
      walker reports an error; otherwise the map is the collected list indexed by
      path, every key is non-empty and names its own entry, and every mode
      holds only permission bits. */
  method ScanFilesystem(root: string, raw: seq<WalkItem>)
    returns (r: Result<map<string, FileIntegrityEntry>>)
    ensures r.Err? <==> exists k :: Survives(raw, k) && raw[k].WalkFailure?
    ensures r.Err? ==> exists i :: FirstFailureAt(FilterEntry(raw), i)
                                   && r.error == Walkdir(FilterEntry(raw)[i].message)
    ensures r.Ok? ==> r.value == PathIndex(Collected(root, FilterEntry(raw)))
    ensures r.Ok? ==> forall k :: k in r.value ==>
      k != "" && r.value[k].path == k && r.value[k].mode < PERMISSION_MODULUS
  {
    var walk := FilterEntry(raw);
    var entries: map<string, FileIntegrityEntry> := map[];
    for i := 0 to |walk|
      invariant NoFailure(walk[..i])
      invariant entries == PathIndex(Collected(root, walk[..i]))
    {
      CollectedStep(root, walk, i);
      if walk[i].WalkFailure? {
        assert FirstFailureAt(walk, i);
        FailuresSurviveFilter(raw);
        return Err(Walkdir(walk[i].message));
      }
      NoFailureStep(walk, i);
      var entry := walk[i].entry;
      if entry.isDir {
        assert Collected(root, walk[..i + 1]) == Collected(root, walk[..i]);
        continue;
      }
      var relativePath := RelativePath(entry.path, root);
      if relativePath == "" {
        assert Collected(root, walk[..i + 1]) == Collected(root, walk[..i]);
        continue;
      }
      match entry.meta {
        case Some(metadata) =>
          match entry.hash {
            case Some(sha512) =>
              var fileEntry := FileIntegrityEntry(relativePath, sha512,
                metadata.mode % PERMISSION_MODULUS, metadata.uid, metadata.gid);
              assert EntryOf(root, entry) == Some(fileEntry);
              PathIndexSnoc(Collected(root, walk[..i]), fileEntry);
              entries := entries[relativePath := fileEntry];
            case None =>
              assert Collected(root, walk[..i + 1]) == Collected(root, walk[..i]);
          }
        case None =>
          assert Collected(root, walk[..i + 1]) == Collected(root, walk[..i]);
      }
    }
    assert walk[..|walk|] == walk;
    FailuresSurviveFilter(raw);
    r := Ok(entries);
  }

  /** A key of the scanned map is the relative path of some walked entry that
      yields a record, and every such relative path is a key. */
  lemma ScannedKeys(root: string, walk: seq<WalkItem>, k: string)
    ensures k in PathIndex(Collected(root, walk)) <==>
      exists i :: 0 <= i < |walk| && walk[i].Visit? && EntryOf(root, walk[i].entry).Some?
                  && RelativePath(walk[i].entry.path, root) == k
  {
    if k in PathIndex(Collected(root, walk)) {
      var i := ScannedKeyFrom(root, walk, k);
    } else if exists i :: 0 <= i < |walk| && walk[i].Visit? && EntryOf(root, walk[i].entry).Some?
                          && RelativePath(walk[i].entry.path, root) == k {
      var i :| 0 <= i < |walk| && walk[i].Visit? && EntryOf(root, walk[i].entry).Some?
               && RelativePath(walk[i].entry.path, root) == k;
      ScannedKeyOf(root, walk, i);
    }
  }

  /** The walked entry a key of the scanned map comes from. */
  lemma ScannedKeyFrom(root: string, walk: seq<WalkItem>, k: string) returns (i: nat)
    requires k in PathIndex(Collected(root, walk))
    ensures i < |walk| && walk[i].Visit? && EntryOf(root, walk[i].entry).Some?
            && RelativePath(walk[i].entry.path, root) == k
  {
    var c := Collected(root, walk);
    PathIndexKeys(c, k);
    var j :| 0 <= j < |c| && c[j].path == k;
    CollectedIff(root, walk, c[j]);
    i :| 0 <= i < |walk| && Yields(root, walk[i], c[j]);
    EntryOfIff(root, walk[i].entry);
  }

  /** A walked entry that yields a record puts its relative path in the scanned map. */
  lemma ScannedKeyOf(root: string, walk: seq<WalkItem>, i: nat)
    requires i < |walk| && walk[i].Visit? && EntryOf(root, walk[i].entry).Some?
    ensures RelativePath(walk[i].entry.path, root) in PathIndex(Collected(root, walk))
  {
    var c := Collected(root, walk);
    var x := EntryOf(root, walk[i].entry).value;
    CollectedIff(root, walk, x);
    assert Yields(root, walk[i], x);
    var j :| 0 <= j < |c| && c[j] == x;
    PathIndexKeys(c, x.path);
  }

  // ---------------------------------------------------------------------
  // Anomalies and compare_filesystems
  // ---------------------------------------------------------------------

  /** The anomaly reports, one constructor per message prefix; `expected` is
      the baseline's value and `actual` the value found on disk. */
  datatype Anomaly =
    | Modified(path: string, expectedHash: string, actualHash: string)
    | PermissionChanged(path: string, expected: u32, actual: u32)
    | UidChanged(path: string, expected: u32, actual: u32)
    | GidChanged(path: string, expected: u32, actual: u32)
    | Deleted(path: string)
    | Added(path: string)
    | ErrorHashing(path: string)

  /** Hash, mode, uid and gid agree (the path is not compared). */
  predicate SameFields(b: FileIntegrityEntry, c: FileIntegrityEntry) {
    b.sha512 == c.sha512 && b.mode == c.mode && b.uid == c.uid && b.gid == c.gid
  }

  /** The current state matches the baseline: the same paths, and equal hash,
      mode, uid and gid under every path. */
  predicate Matches(baseline: map<string, FileIntegrityEntry>, current: map<string, FileIntegrityEntry>) {
    && baseline.Keys == current.Keys
    && forall p :: p in baseline ==> SameFields(baseline[p], current[p])
  }

  /** The meaning of each report of the full comparison, independent of the
      order in which anything is visited. */
  predicate IsDiffAnomaly(a: Anomaly, baseline: map<string, FileIntegrityEntry>, current: map<string, FileIntegrityEntry>) {
    match a
    case Modified(p, e, c) =>
      p in baseline && p in current && e == baseline[p].sha512 && c == current[p].sha512 && e != c
    case PermissionChanged(p, e, c) =>
      p in baseline && p in current && e == baseline[p].mode && c == current[p].mode && e != c
    case UidChanged(p, e, c) =>
      p in baseline && p in current && e == baseline[p].uid && c == current[p].uid && e != c
    case GidChanged(p, e, c) =>
      p in baseline && p in current && e == baseline[p].gid && c == current[p].gid && e != c
    case Deleted(p) => p in baseline && p !in current
    case Added(p) => p in current && p !in baseline
    case ErrorHashing(_) => false
  }

  /** The reports for a path present in both, in the order they are pushed:
      hash, then mode, then uid, then gid, each independently of the others. */
  function FieldDiff(p: string, b: FileIntegrityEntry, c: FileIntegrityEntry): (r: seq<Anomaly>)
    ensures |r| <= 4
    ensures r == [] <==> SameFields(b, c)
  {
    HashDiff(p, b, c) + ModeDiff(p, b, c) + UidDiff(p, b, c) + GidDiff(p, b, c)
  }

  function HashDiff(p: string, b: FileIntegrityEntry, c: FileIntegrityEntry): seq<Anomaly> {
    if c.sha512 != b.sha512 then [Modified(p, b.sha512, c.sha512)] else []
  }

  function ModeDiff(p: string, b: FileIntegrityEntry, c: FileIntegrityEntry): seq<Anomaly> {
    if c.mode != b.mode then [PermissionChanged(p, b.mode, c.mode)] else []
  }

  function UidDiff(p: string, b: FileIntegrityEntry, c: FileIntegrityEntry): seq<Anomaly> {
    if c.uid != b.uid then [UidChanged(p, b.uid, c.uid)] else []
  }

  function GidDiff(p: string, b: FileIntegrityEntry, c: FileIntegrityEntry): seq<Anomaly> {
    if c.gid != b.gid then [GidChanged(p, b.gid, c.gid)] else []
  }

  /** The reports for one baseline path. */
  function PathDiff(p: string, baseline: map<string, FileIntegrityEntry>, current: map<string, FileIntegrityEntry>): seq<Anomaly>
  {
    if p !in baseline then []
    else if p in current then FieldDiff(p, baseline[p], current[p])
    else [Deleted(p)]
  }

  /** The reports of the first loop after visiting the baseline paths `order`. */
  function Blocks(order: seq<string>, baseline: map<string, FileIntegrityEntry>, current: map<string, FileIntegrityEntry>): seq<Anomaly>
  {
    if order == [] then []
    else Blocks(order[..|order| - 1], baseline, current) + PathDiff(order[|order| - 1], baseline, current)
  }

  /** The reports of the second loop after visiting the new paths `added`. */
  function AddedReports(added: seq<string>): (r: seq<Anomaly>)
    ensures |r| == |added| && forall i :: 0 <= i < |added| ==> r[i] == Added(added[i])
  {
    seq(|added|, i requires 0 <= i < |added| => Added(added[i]))
  }

  predicate NoDuplicates<T(==)>(s: seq<T>) {
    forall i, j :: 0 <= i < j < |s| ==> s[i] != s[j]
  }

  /** `order` lists the set `keys`, each once: one iteration order of a map. */
  ghost predicate Enumerates(order: seq<string>, keys: set<string>) {
    (forall k :: k in order <==> k in keys) && NoDuplicates(order)
  }

  /** The reports for a baseline path are exactly the comparison's reports
      that concern that path and are not additions. */
  lemma PathDiffMembers(p: string, baseline: map<string, FileIntegrityEntry>, current: map<string, FileIntegrityEntry>, a: Anomaly)
    requires p in baseline
    ensures a in PathDiff(p, baseline, current) <==> IsDiffAnomaly(a, baseline, current) && !a.Added? && a.path == p
    ensures NoDuplicates(PathDiff(p, baseline, current))
  {
    if p in current {
      var b, c := baseline[p], current[p];
      assert PathDiff(p, baseline, current) == HashDiff(p, b, c) + ModeDiff(p, b, c) + UidDiff(p, b, c) + GidDiff(p, b, c);
    }
  }

  lemma NoDuplicatesAppend<T>(s: seq<T>, t: seq<T>)
    requires NoDuplicates(s) && NoDuplicates(t)
    requires forall x :: x in t ==> x !in s
    ensures NoDuplicates(s + t)
  {
    forall i, j | 0 <= i < j < |s + t| ensures (s + t)[i] != (s + t)[j] {
      if j < |s| {
        assert (s + t)[i] == s[i] && (s + t)[j] == s[j];
      } else if i >= |s| {
        assert (s + t)[i] == t[i - |s|] && (s + t)[j] == t[j - |s|];
      } else {
        assert (s + t)[i] == s[i] && s[i] in s;
        assert (s + t)[j] == t[j - |s|] && t[j - |s|] in t;
      }
    }
  }

  /** One iteration of the first loop of the comparison keeps its invariant. */
  lemma FirstLoopStep(before: seq<Anomaly>, done: set<string>, order: seq<string>, path: string,
                      baseline: map<string, FileIntegrityEntry>, current: map<string, FileIntegrityEntry>)
    requires path in baseline && path !in done
    requires Enumerates(order, done)
    requires before == Blocks(order, baseline, current)
    requires forall a :: a in before <==> IsDiffAnomaly(a, baseline, current) && !a.Added? && a.path in done
    requires NoDuplicates(before)
    ensures Enumerates(order + [path], done + {path})
    ensures before + PathDiff(path, baseline, current) == Blocks(order + [path], baseline, current)
    ensures forall a :: a in before + PathDiff(path, baseline, current) <==>
      IsDiffAnomaly(a, baseline, current) && !a.Added? && a.path in done + {path}
    ensures NoDuplicates(before + PathDiff(path, baseline, current))
  {
    var block := PathDiff(path, baseline, current);
    forall a ensures a in block <==> IsDiffAnomaly(a, baseline, current) && !a.Added? && a.path == path {
      PathDiffMembers(path, baseline, current, a);
    }
    PathDiffMembers(path, baseline, current, Deleted(path));
    forall x | x in block ensures x !in before {
      assert x.path == path;
    }
    NoDuplicatesAppend(before, block);
    NoDuplicatesAppend(order, [path]);
    assert (order + [path])[..|order|] == order;
  }

  /** The four field checks of the comparison for a path present in both
      maps, each pushing its report when the field differs. */
  method PushFieldReports(anomalies: seq<Anomaly>, path: string, baselineEntry: FileIntegrityEntry,
                          currentEntry: FileIntegrityEntry)
    returns (r: seq<Anomaly>)
    ensures r == anomalies + FieldDiff(path, baselineEntry, currentEntry)
  {
    r := anomalies;
    if currentEntry.sha512 != baselineEntry.sha512 {
      r := r + [Modified(path, baselineEntry.sha512, currentEntry.sha512)];
    }
    assert r == anomalies + HashDiff(path, baselineEntry, currentEntry);
    if currentEntry.mode != baselineEntry.mode {
      r := r + [PermissionChanged(path, baselineEntry.mode, currentEntry.mode)];
    }
    assert r == anomalies + (HashDiff(path, baselineEntry, currentEntry)
                             + ModeDiff(path, baselineEntry, currentEntry));
    if currentEntry.uid != baselineEntry.uid {
      r := r + [UidChanged(path, baselineEntry.uid, currentEntry.uid)];
    }
    assert r == anomalies + (HashDiff(path, baselineEntry, currentEntry)
                             + ModeDiff(path, baselineEntry, currentEntry)
                             + UidDiff(path, baselineEntry, currentEntry));
    if currentEntry.gid != baselineEntry.gid {
      r := r + [GidChanged(path, baselineEntry.gid, currentEntry.gid)];
    }
  }

  /** Moving `path` from the paths still to visit to the visited ones keeps
      the two complementary within `keys`. */
  lemma VisitStep(keys: set<string>, todo: set<string>, done: set<string>, path: string)
    requires todo <= keys && done == keys - todo && path in todo
    ensures todo - {path} <= keys && done + {path} == keys - (todo - {path})
  {
  }

  /** The first loop of the comparison: every baseline path, in the map's
      iteration order `order`, with its reports. */
  method ReportBaselinePaths(baselineMap: map<string, FileIntegrityEntry>, current: map<string, FileIntegrityEntry>)
    returns (anomalies: seq<Anomaly>, ghost order: seq<string>)
    ensures Enumerates(order, baselineMap.Keys)
    ensures anomalies == Blocks(order, baselineMap, current)
    ensures forall a :: a in anomalies <==> IsDiffAnomaly(a, baselineMap, current) && !a.Added?
    ensures NoDuplicates(anomalies)
  {
    anomalies := [];
    order := [];
    ghost var done: set<string> := {};
    var todo := baselineMap.Keys;
    while todo != {}
      invariant todo <= baselineMap.Keys && done == baselineMap.Keys - todo
      invariant Enumerates(order, done)
      invariant anomalies == Blocks(order, baselineMap, current)
      invariant forall a :: a in anomalies <==> IsDiffAnomaly(a, baselineMap, current) && !a.Added? && a.path in done
      invariant NoDuplicates(anomalies)
      decreases todo
    {
      var path :| path in todo;
      var baselineEntry := baselineMap[path];
      ghost var before := anomalies;
      if path in current {
        var currentEntry := current[path];
        anomalies := PushFieldReports(anomalies, path, baselineEntry, currentEntry);
      } else {
        anomalies := anomalies + [Deleted(path)];
      }
      assert anomalies == before + PathDiff(path, baselineMap, current);
      FirstLoopStep(before, done, order, path, baselineMap, current);
      VisitStep(baselineMap.Keys, todo, done, path);
      order := order + [path];
      done := done + {path};
      todo := todo - {path};
    }
  }

  /** One iteration of the second loop of the comparison keeps its invariant. */
  lemma SecondLoopStep(before: seq<Anomaly>, added: seq<string>, seen: set<string>, path: string,
                       baseline: map<string, FileIntegrityEntry>, current: map<string, FileIntegrityEntry>)
    requires path in current && path !in baseline && path !in seen
    requires Enumerates(added, seen - baseline.Keys)
    ensures Enumerates(added + [path], (seen + {path}) - baseline.Keys)
    ensures AddedReports(added + [path]) == AddedReports(added) + [Added(path)]
  {
    NoDuplicatesAppend(added, [path]);
  }

  /** The second loop of the comparison: one ADDED, appended after `before`,
      for every current path the baseline lacks, in the map's iteration order
      `added`. */
  method ReportNewPaths(before: seq<Anomaly>, baselineMap: map<string, FileIntegrityEntry>,
                        current: map<string, FileIntegrityEntry>)
    returns (anomalies: seq<Anomaly>, ghost added: seq<string>)
    requires forall a :: a in before <==> IsDiffAnomaly(a, baselineMap, current) && !a.Added?
    requires NoDuplicates(before)
    ensures Enumerates(added, current.Keys - baselineMap.Keys)
    ensures anomalies == before + AddedReports(added)
    ensures forall a :: a in anomalies <==> IsDiffAnomaly(a, baselineMap, current)
    ensures NoDuplicates(anomalies)
  {
    anomalies := before;
    added := [];
    ghost var seen: set<string> := {};
    var rest := current.Keys;
    while rest != {}
      invariant rest <= current.Keys && seen == current.Keys - rest
      invariant Enumerates(added, seen - baselineMap.Keys)
      invariant anomalies == before + AddedReports(added)
      invariant forall a :: a in anomalies <==>
        IsDiffAnomaly(a, baselineMap, current) && (a.Added? ==> a.path in seen)
      invariant NoDuplicates(anomalies)
      decreases rest
    {
      var path :| path in rest;
      if path !in baselineMap {
        NoDuplicatesAppend(anomalies, [Added(path)]);
        SecondLoopStep(anomalies, added, seen, path, baselineMap, current);
        anomalies := anomalies + [Added(path)];
        added := added + [path];
      }
      seen := seen + {path};
      rest := rest - {path};
    }
  }

  /** `compare_filesystems(baseline, current)`. The two maps are visited in an
      unspecified order: `order` and `added` are the orders this run used.
      The result is the per-path reports of every baseline path followed by
      one ADDED per new path; the reports are exactly the differences between
      the two maps, each once. */
  method CompareFilesystems(baseline: Baseline, current: map<string, FileIntegrityEntry>)
    returns (anomalies: seq<Anomaly>, ghost order: seq<string>, ghost added: seq<string>)
    ensures Enumerates(order, PathIndex(baseline.entries).Keys)
    ensures Enumerates(added, current.Keys - PathIndex(baseline.entries).Keys)
    ensures anomalies == Blocks(order, PathIndex(baseline.entries), current) + AddedReports(added)
    ensures forall a :: a in anomalies <==> IsDiffAnomaly(a, PathIndex(baseline.entries), current)
    ensures NoDuplicates(anomalies)
  {
    var baselineMap := PathIndex(baseline.entries);
    var reports;
    reports, order := ReportBaselinePaths(baselineMap, current);
    anomalies, added := ReportNewPaths(reports, baselineMap, current);
  }

  /** The comparison reports nothing iff the current state matches the baseline. */
  lemma DiffEmptyIff(baseline: map<string, FileIntegrityEntry>, current: map<string, FileIntegrityEntry>)
    ensures (forall a :: !IsDiffAnomaly(a, baseline, current)) <==> Matches(baseline, current)
  {
    if !Matches(baseline, current) {
      if p :| p in baseline && p !in current {
        assert IsDiffAnomaly(Deleted(p), baseline, current);
      } else if p :| p in current && p !in baseline {
        assert IsDiffAnomaly(Added(p), baseline, current);
      } else {
        assert baseline.Keys == current.Keys;
        var p :| p in baseline && !SameFields(baseline[p], current[p]);
        var b, c := baseline[p], current[p];
        if b.sha512 != c.sha512 {
          assert IsDiffAnomaly(Modified(p, b.sha512, c.sha512), baseline, current);
        } else if b.mode != c.mode {
          assert IsDiffAnomaly(PermissionChanged(p, b.mode, c.mode), baseline, current);
        } else if b.uid != c.uid {
          assert IsDiffAnomaly(UidChanged(p, b.uid, c.uid), baseline, current);
        } else {
          assert IsDiffAnomaly(GidChanged(p, b.gid, c.gid), baseline, current);
        }
      }
    }
  }

  /** For a path present in both maps there is one report per differing field
      and no other; a baseline path missing from the current state gets
      exactly one DELETED, and a new path exactly one ADDED. */
  lemma DiffReportsPerPath(baseline: map<string, FileIntegrityEntry>, current: map<string, FileIntegrityEntry>, p: string)
    ensures p in baseline && p in current ==>
      forall a :: IsDiffAnomaly(a, baseline, current) && a.path == p <==> a in FieldDiff(p, baseline[p], current[p])
    ensures p in baseline && p !in current ==>
      forall a :: IsDiffAnomaly(a, baseline, current) && a.path == p <==> a == Deleted(p)
    ensures p !in baseline && p in current ==>
      forall a :: IsDiffAnomaly(a, baseline, current) && a.path == p <==> a == Added(p)
    ensures p !in baseline && p !in current ==>
      forall a :: !(IsDiffAnomaly(a, baseline, current) && a.path == p)
  {
  }

  /** A list without duplicates whose only member is `x` is `[x]`. */
  lemma OnlyMember<T>(s: seq<T>, x: T)
    requires NoDuplicates(s)
    requires forall a :: a in s <==> a == x
    ensures s == [x]
  {
    assert x in s;
    assert s[0] in s && s[|s| - 1] in s;
  }

  /** A baseline of one entry and a current state whose file under the same
      path hashes differently: the comparison reports exactly MODIFIED. */
  lemma ModifiedExample(b: FileIntegrityEntry, c: FileIntegrityEntry, anomalies: seq<Anomaly>)
    requires b.path == c.path && b.sha512 != c.sha512
    requires b.mode == c.mode && b.uid == c.uid && b.gid == c.gid
    requires NoDuplicates(anomalies)
    requires forall a :: a in anomalies <==> IsDiffAnomaly(a, PathIndex([b]), map[c.path := c])
    ensures anomalies == [Modified(b.path, b.sha512, c.sha512)]
  {
    assert PathIndex([b]) == map[b.path := b];
    OnlyMember(anomalies, Modified(b.path, b.sha512, c.sha512));
  }

  /** The same baseline and a current state without the file: exactly DELETED. */
  lemma DeletedExample(b: FileIntegrityEntry, anomalies: seq<Anomaly>)
    requires NoDuplicates(anomalies)
    requires forall a :: a in anomalies <==> IsDiffAnomaly(a, PathIndex([b]), map[])
    ensures anomalies == [Deleted(b.path)]
  {
    assert PathIndex([b]) == map[b.path := b];
    OnlyMember(anomalies, Deleted(b.path));
  }

  /** An empty baseline and a current state with one file: exactly ADDED. */
  lemma AddedExample(c: FileIntegrityEntry, anomalies: seq<Anomaly>)
    requires NoDuplicates(anomalies)
    requires forall a :: a in anomalies <==> IsDiffAnomaly(a, PathIndex([]), map[c.path := c])
    ensures anomalies == [Added(c.path)]
  {
    OnlyMember(anomalies, Added(c.path));
  }

  // ---------------------------------------------------------------------
  // verify_file
  // ---------------------------------------------------------------------

  /** What reading one file at event time returns: its metadata (following
      links) and the hash of its content. */
  datatype Probe = Probe(meta: Option<Metadata>, hash: Option<string>)

  /** `verify_file(path, baseline_map)`: the first mismatch, in this order:
      not in the baseline, unreadable metadata, mode, uid, gid, then the hash
      (or a failure to compute it). The baseline is looked up under the path
      with its leading "/" stripped. */
  function VerifyFile(path: string, baselineMap: map<string, FileIntegrityEntry>, probe: Probe): (r: Option<Anomaly>)
    ensures r.Some? ==> r.value.path == RelativePath(path, "/")
    ensures r.None? ==> RelativePath(path, "/") in baselineMap && probe.meta.Some? && probe.hash.Some?
  {
    var rel := RelativePath(path, "/");
    if rel !in baselineMap then Some(Added(rel))
    else
      var b := baselineMap[rel];
      match probe.meta
      case None => Some(Deleted(rel))
      case Some(m) =>
        if m.mode % PERMISSION_MODULUS != b.mode then Some(PermissionChanged(rel, b.mode, m.mode % PERMISSION_MODULUS))
        else if m.uid != b.uid then Some(UidChanged(rel, b.uid, m.uid))
        else if m.gid != b.gid then Some(GidChanged(rel, b.gid, m.gid))
        else match probe.hash
          case None => Some(ErrorHashing(rel))
          case Some(h) => if h != b.sha512 then Some(Modified(rel, b.sha512, h)) else None
  }

  /** The record built from a probed file the way the scan builds one, when
      both reads succeed. It matches the scan's own record only when the scan
      reads the same metadata and walks the file at all: the scan reads a
      symbolic link's own metadata, not its target's, and skips devices,
      fifos and sockets. */
  function ProbeEntry(rel: string, probe: Probe): Option<FileIntegrityEntry> {
    if probe.meta.Some? && probe.hash.Some? then
      Some(FileIntegrityEntry(rel, probe.hash.value, probe.meta.value.mode % PERMISSION_MODULUS,
                              probe.meta.value.uid, probe.meta.value.gid))
    else None
  }

  /** The current state restricted to the one probed path, as read by the probe. */
  function ScannedAt(rel: string, probe: Probe): map<string, FileIntegrityEntry> {
    match ProbeEntry(rel, probe)
    case Some(e) => map[rel := e]
    case None => map[]
  }

  /** A single file verifies clean iff it is in the baseline, both its
      metadata and its hash can be read, and hash, permission bits, uid and
      gid all equal the baseline's. */
  lemma VerifyFileCleanIff(path: string, baselineMap: map<string, FileIntegrityEntry>, probe: Probe)
    ensures VerifyFile(path, baselineMap, probe).None? <==>
      var rel := RelativePath(path, "/");
      && rel in baselineMap && ProbeEntry(rel, probe).Some?
      && SameFields(baselineMap[rel], ProbeEntry(rel, probe).value)
  {
  }

  /** A path missing from the baseline is reported ADDED whatever the file
      looks like, even when it cannot be read at all. */
  lemma VerifyFileNotInBaseline(path: string, baselineMap: map<string, FileIntegrityEntry>, probe: Probe)
    requires RelativePath(path, "/") !in baselineMap
    ensures VerifyFile(path, baselineMap, probe) == Some(Added(RelativePath(path, "/")))
  {
  }

  /** Metadata is checked before the content: when mode, uid or gid differ,
      the report names the first of them that differs, in that order, and
      does not depend on the hash. */
  lemma VerifyFileMetadataFirst(path: string, baselineMap: map<string, FileIntegrityEntry>, m: Metadata,
                                h1: Option<string>, h2: Option<string>)
    requires RelativePath(path, "/") in baselineMap
    requires var b := baselineMap[RelativePath(path, "/")];
      m.mode % PERMISSION_MODULUS != b.mode || m.uid != b.uid || m.gid != b.gid
    ensures VerifyFile(path, baselineMap, Probe(Some(m), h1)) == VerifyFile(path, baselineMap, Probe(Some(m), h2))
    ensures var r := VerifyFile(path, baselineMap, Probe(Some(m), h1));
      var b := baselineMap[RelativePath(path, "/")];
      && r.Some?
      && (r.value.PermissionChanged? <==> m.mode % PERMISSION_MODULUS != b.mode)
      && (r.value.UidChanged? <==> m.mode % PERMISSION_MODULUS == b.mode && m.uid != b.uid)
      && (r.value.GidChanged? <==> m.mode % PERMISSION_MODULUS == b.mode && m.uid == b.uid)
  {
  }

  /** The checks for a path in the baseline, step by step: unreadable
      metadata is DELETED; then the first of mode, uid and gid that differs
      is reported with the baseline's and the file's values; with all three
      equal, an unreadable hash is ERROR_HASHING and a different hash is
      MODIFIED. */
  lemma VerifyFilePrecedence(path: string, baselineMap: map<string, FileIntegrityEntry>, probe: Probe)
    requires RelativePath(path, "/") in baselineMap
    ensures var rel := RelativePath(path, "/");
      var b := baselineMap[rel];
      var r := VerifyFile(path, baselineMap, probe);
      && (probe.meta.None? ==> r == Some(Deleted(rel)))
      && (probe.meta.Some? ==>
            var m := probe.meta.value;
            && (m.mode % PERMISSION_MODULUS != b.mode ==>
                  r == Some(PermissionChanged(rel, b.mode, m.mode % PERMISSION_MODULUS)))
            && (m.mode % PERMISSION_MODULUS == b.mode && m.uid != b.uid ==>
                  r == Some(UidChanged(rel, b.uid, m.uid)))
            && (m.mode % PERMISSION_MODULUS == b.mode && m.uid == b.uid && m.gid != b.gid ==>
                  r == Some(GidChanged(rel, b.gid, m.gid)))
            && (m.mode % PERMISSION_MODULUS == b.mode && m.uid == b.uid && m.gid == b.gid ==>
                  && (probe.hash.None? ==> r == Some(ErrorHashing(rel)))
                  && (probe.hash.Some? && probe.hash.value != b.sha512 ==>
                        r == Some(Modified(rel, b.sha512, probe.hash.value)))))
  {
  }

  /** The single check never looks at the file's kind: a path the scan would
      skip as a device, fifo or socket is judged on its fields alone. */
  lemma VerifyFileIgnoresKind(path: string, baselineMap: map<string, FileIntegrityEntry>, m: Metadata,
                              kind: FileKind, hash: Option<string>)
    ensures VerifyFile(path, baselineMap, Probe(Some(m), hash)) ==
            VerifyFile(path, baselineMap, Probe(Some(m.(kind := kind)), hash))
  {
  }

  /** The single-path check agrees with a comparison against the state the
      probe itself reads for that path: it reports something iff that
      comparison reports something for the path, and whatever it reports is
      a report of the comparison, except where the two disagree by design.
      That state is the real scan's only for a file that is neither a
      symbolic link (the scan reads the link's own metadata, the probe its
      target's) nor a device, fifo or socket (the scan skips those). They disagree when the file's
      metadata is readable but its hash is not: the scan drops the file, so
      the comparison says DELETED, while the single check may say
      ERROR_HASHING or name a metadata field. They also disagree for a file
      that is neither in the baseline nor readable, which the single check
      reports ADDED and the comparison ignores. */
  lemma VerifyFileAgreesWithDiff(path: string, baselineMap: map<string, FileIntegrityEntry>, probe: Probe)
    requires RelativePath(path, "/") in baselineMap || ProbeEntry(RelativePath(path, "/"), probe).Some?
    ensures var rel := RelativePath(path, "/");
      VerifyFile(path, baselineMap, probe).Some? <==>
      exists a :: IsDiffAnomaly(a, baselineMap, ScannedAt(rel, probe)) && a.path == rel
    ensures var rel := RelativePath(path, "/");
      var r := VerifyFile(path, baselineMap, probe);
      r.Some? && (probe.meta.None? || probe.hash.Some?) ==> IsDiffAnomaly(r.value, baselineMap, ScannedAt(rel, probe))
  {
    var rel := RelativePath(path, "/");
    var current := ScannedAt(rel, probe);
    var r := VerifyFile(path, baselineMap, probe);
    if r.Some? {
      if rel !in baselineMap {
        assert IsDiffAnomaly(Added(rel), baselineMap, current);
      } else if ProbeEntry(rel, probe).None? {
        assert IsDiffAnomaly(Deleted(rel), baselineMap, current);
      } else {
        var b, c := baselineMap[rel], ProbeEntry(rel, probe).value;
        assert current[rel] == c;
        if b.sha512 != c.sha512 {
          assert IsDiffAnomaly(Modified(rel, b.sha512, c.sha512), baselineMap, current);
        } else if b.mode != c.mode {
          assert IsDiffAnomaly(PermissionChanged(rel, b.mode, c.mode), baselineMap, current);
        } else if b.uid != c.uid {
          assert IsDiffAnomaly(UidChanged(rel, b.uid, c.uid), baselineMap, current);
        } else {
          assert IsDiffAnomaly(GidChanged(rel, b.gid, c.gid), baselineMap, current);
        }
      }
    } else {
      VerifyFileCleanIff(path, baselineMap, probe);
      var c := ProbeEntry(rel, probe).value;
      assert current == map[rel := c];
      forall a | IsDiffAnomaly(a, baselineMap, current) ensures a.path != rel {
      }
    }
  }

  // ---------------------------------------------------------------------
  // The fail-closed counter of run_monitor_mode
  // ---------------------------------------------------------------------

  /** Consecutive anomalies at which the monitor fails closed. */
  const MAX_CONSECUTIVE_ANOMALIES: nat := 5

  /** A file event from the monitor: the path it names, and what reading that
      file returns when the event is handled. */
  datatype FileEvent = FileEvent(path: string, probe: Probe)

  /** How the monitor loop ends. */
  datatype MonitorExit =
    | FailClosed(eventIndex: nat)
    | ChannelClosed
    | MonitorFailed(error: IntegrityError)

  /** Whether verifying each event reports an anomaly. */
  function Outcomes(events: seq<FileEvent>, baselineMap: map<string, FileIntegrityEntry>): (flags: seq<bool>)
    ensures |flags| == |events|
    ensures forall i :: 0 <= i < |events| ==> flags[i] == VerifyFile(events[i].path, baselineMap, events[i].probe).Some?
  {
    seq(|events|, i requires 0 <= i < |events| => VerifyFile(events[i].path, baselineMap, events[i].probe).Some?)
  }

  /** The number of anomalies at the end of `flags` since the last clean result. */
  function Streak(flags: seq<bool>): nat {
    if flags == [] then 0
    else if flags[|flags| - 1] then Streak(flags[..|flags| - 1]) + 1
    else 0
  }

  /** The streak is at least `n` iff the last `n` outcomes are all anomalies. */
  lemma {:induction false} StreakIff(flags: seq<bool>, n: nat)
    ensures Streak(flags) >= n <==> n <= |flags| && forall j :: |flags| - n <= j < |flags| ==> flags[j]
  {
    if flags != [] && n > 0 {
      var front := flags[..|flags| - 1];
      StreakIff(front, n - 1);
      if flags[|flags| - 1] {
        assert forall j :: 0 <= j < |front| ==> front[j] == flags[j];
      }
    }
  }

  lemma StreakStep(flags: seq<bool>, i: nat)
    requires i < |flags|
    ensures Streak(flags[..i + 1]) == if flags[i] then Streak(flags[..i]) + 1 else 0
  {
    assert flags[..i + 1][..i] == flags[..i];
  }

  /** The outcomes hold `n` consecutive anomalies somewhere. */
  predicate HasRun(flags: seq<bool>, n: nat) {
    exists k :: 0 <= k && k + n <= |flags| && RunAt(flags, k, n)
  }

  predicate RunAt(flags: seq<bool>, k: nat, n: nat)
    requires k + n <= |flags|
  {
    forall j :: k <= j < k + n ==> flags[j]
  }

  /** A run of `n` anomalies exists iff some prefix ends with a streak of `n`. */
  lemma RunIffStreak(flags: seq<bool>, n: nat)
    ensures HasRun(flags, n) <==> exists i :: 0 <= i <= |flags| && Streak(flags[..i]) >= n
  {
    if HasRun(flags, n) {
      var k :| 0 <= k && k + n <= |flags| && RunAt(flags, k, n);
      var pre := flags[..k + n];
      StreakIff(pre, n);
      assert forall j :: k <= j < k + n ==> pre[j] == flags[j];
    }
    if i :| 0 <= i <= |flags| && Streak(flags[..i]) >= n {
      var pre := flags[..i];
      StreakIff(pre, n);
      assert forall j :: i - n <= j < i ==> pre[j] == flags[j];
      assert RunAt(flags, i - n, n);
    }
  }

  /** The counter stays below `n` up to and including after the first `i` outcomes. */
  predicate StaysBelow(flags: seq<bool>, i: nat, n: nat)
    requires i <= |flags|
  {
    forall j :: 0 <= j <= i ==> Streak(flags[..j]) < n
  }

  /** Reaching `n` for the first time at outcome `i` means a run of `n` exists. */
  lemma FirstReachRun(flags: seq<bool>, i: nat, n: nat)
    requires i < |flags| && StaysBelow(flags, i, n) && Streak(flags[..i + 1]) >= n
    ensures HasRun(flags, n)
  {
    RunIffStreak(flags, n);
  }

  /** A counter that never reaches `n` means no run of `n` exists. */
  lemma NeverReachNoRun(flags: seq<bool>, n: nat)
    requires StaysBelow(flags, |flags|, n)
    ensures !HasRun(flags, n)
  {
    RunIffStreak(flags, n);
    forall i | 0 <= i <= |flags| ensures Streak(flags[..i]) < n {
    }
  }

  /** The counter loop of `run_monitor_mode` over the events the monitor
      delivers, after the monitor has started (`startError` is its start
      failure, if any) and, when the channel closes, stopped (`stopError`).
      The counter counts the current streak of anomalies; the loop fails
      closed at the first event where it reaches five, which happens iff the
      outcomes hold five consecutive anomalies, and until then the counter
      stays below five. */
  method RunMonitorMode(baseline: Baseline, events: seq<FileEvent>, startError: Option<string>, stopError: Option<string>)
    returns (exit: MonitorExit)
    ensures startError.Some? ==> exit == MonitorFailed(Storage("Failed to start monitor: " + startError.value))
    ensures startError.None? ==>
      (exit.FailClosed? <==> HasRun(Outcomes(events, PathIndex(baseline.entries)), MAX_CONSECUTIVE_ANOMALIES))
    ensures exit.FailClosed? ==>
      var flags := Outcomes(events, PathIndex(baseline.entries));
      && exit.eventIndex < |events|
      && Streak(flags[..exit.eventIndex + 1]) == MAX_CONSECUTIVE_ANOMALIES
      && StaysBelow(flags, exit.eventIndex, MAX_CONSECUTIVE_ANOMALIES)
    ensures startError.None? && !exit.FailClosed? ==>
      exit == (if stopError.None? then ChannelClosed
               else MonitorFailed(Storage("Failed to stop monitor: " + stopError.value)))
  {
    if startError.Some? {
      return MonitorFailed(Storage("Failed to start monitor: " + startError.value));
    }
    var baselineMap := PathIndex(baseline.entries);
    ghost var flags := Outcomes(events, baselineMap);
    var consecutiveAnomalies: nat := 0;
    for i := 0 to |events|
      invariant consecutiveAnomalies == Streak(flags[..i])
      invariant StaysBelow(flags, i, MAX_CONSECUTIVE_ANOMALIES)
    {
      StreakStep(flags, i);
      if VerifyFile(events[i].path, baselineMap, events[i].probe).Some? {
        consecutiveAnomalies := consecutiveAnomalies + 1;
        if consecutiveAnomalies >= MAX_CONSECUTIVE_ANOMALIES {
          FirstReachRun(flags, i, MAX_CONSECUTIVE_ANOMALIES);
          return FailClosed(i);
        }
      } else {
        consecutiveAnomalies := 0;
      }
    }
    NeverReachNoRun(flags, MAX_CONSECUTIVE_ANOMALIES);
    if stopError.Some? {
      return MonitorFailed(Storage("Failed to stop monitor: " + stopError.value));
    }
    return ChannelClosed;
  }

  /** Five anomalies in a row fail closed, and a clean event in between
      prevents it: the counter resets rather than decrements. */
  lemma MonitorExamples()
    ensures HasRun([true, true, true, true, true], MAX_CONSECUTIVE_ANOMALIES)
    ensures !HasRun([true, true, true, true, false, true, true, true, true], MAX_CONSECUTIVE_ANOMALIES)
  {
    assert RunAt([true, true, true, true, true], 0, 5);
    var flags := [true, true, true, true, false, true, true, true, true];
    forall k | 0 <= k && k + 5 <= |flags| ensures !RunAt(flags, k, 5) {
      assert !flags[4];
    }
  }

  // ---------------------------------------------------------------------
  // main
  // ---------------------------------------------------------------------

  datatype RunMode = Scan | Monitor

  /** How the process ends: normally, through `process::exit(1)`, or by
      returning an error from `main`. */
  datatype AgentExit = Completed | ExitFailure | Failed(error: IntegrityError)

  /** `main` after argument parsing. `scanPathExists` is whether the scan path
      exists, `fetched` what fetching the baseline returned, `raw` the walk of
      the scan path, and `events`, `startError` and `stopError` what the
      monitor delivers. In scan mode `main` returns the walker's error iff the
      filtered walk reports one, and otherwise the process exits with failure
      iff the comparison reports anything, that is iff the scanned state does
      not match the baseline. */
  method RunAgent(mode: RunMode, scanPathExists: bool, fetched: Result<Baseline>, root: string,
                  raw: seq<WalkItem>, events: seq<FileEvent>, startError: Option<string>, stopError: Option<string>)
    returns (exit: AgentExit)
    ensures !scanPathExists ==> exit == Failed(Io("Scan path does not exist"))
    ensures scanPathExists && fetched.Err? ==> exit == Failed(fetched.error)
    ensures scanPathExists && fetched.Ok? && mode == Scan ==>
      && (exit.Failed? <==> exists k :: Survives(raw, k) && raw[k].WalkFailure?)
      && (exit.Failed? ==> exit.error.Walkdir?)
      && (exit == ExitFailure <==>
            && (forall k :: Survives(raw, k) ==> raw[k].Visit?)
            && !Matches(PathIndex(fetched.value.entries), PathIndex(Collected(root, FilterEntry(raw)))))
    ensures scanPathExists && fetched.Ok? && mode == Monitor ==>
      && (exit == ExitFailure <==>
            startError.None? && HasRun(Outcomes(events, PathIndex(fetched.value.entries)), MAX_CONSECUTIVE_ANOMALIES))
      && (exit == Completed <==>
            startError.None? && stopError.None? &&
            !HasRun(Outcomes(events, PathIndex(fetched.value.entries)), MAX_CONSECUTIVE_ANOMALIES))
  {
    if !scanPathExists {
      return Failed(Io("Scan path does not exist"));
    }
    if fetched.Err? {
      return Failed(fetched.error);
    }
    var baseline := fetched.value;
    match mode {
      case Scan =>
        var currentState := ScanFilesystem(root, raw);
        if currentState.Err? {
          return Failed(currentState.error);
        }
        var anomalies, order, added := CompareFilesystems(baseline, currentState.value);
        DiffEmptyIff(PathIndex(baseline.entries), currentState.value);
        if |anomalies| == 0 {
          return Completed;
        } else {
          assert anomalies[0] in anomalies;
          return ExitFailure;
        }
      case Monitor =>
        var monitorExit := RunMonitorMode(baseline, events, startError, stopError);
        match monitorExit {
          case FailClosed(_) => return ExitFailure;
          case ChannelClosed => return Completed;
          case MonitorFailed(e) => return Failed(e);
        }
    }
  }
}
