/** The baseline collector's scan: one pass over the filtered walk that pushes a
    record for every walked file it can read. */
module BaselineCollector {
  import opened IntegrityCommon
  import opened Walk

  /** `scan_filesystem(root, image_id)`. `raw` is the unfiltered preorder walk
      from `root`; `timestamp` is the clock reading taken when the walk ends.
      The scan fails iff the filtered walker reports an error (one that no
      rejected directory hides), with the first one;
      otherwise the baseline carries the requested image id and exactly the
      collected records, in walk order. */
  method ScanFilesystem(root: string, imageId: string, timestamp: string, raw: seq<WalkItem>)
    returns (r: Result<Baseline>)
    ensures r.Err? <==> exists k :: Survives(raw, k) && raw[k].WalkFailure?
    ensures r.Err? ==> exists i :: FirstFailureAt(FilterEntry(raw), i)
                                   && r.error == Walkdir(FilterEntry(raw)[i].message)
    ensures r.Ok? ==> r.value == Baseline(imageId, timestamp, Collected(root, FilterEntry(raw)))
    ensures r.Ok? ==> forall e :: e in r.value.entries ==> e.path != "" && e.mode < PERMISSION_MODULUS
  {
    var walk := FilterEntry(raw);
    var entries: seq<FileIntegrityEntry> := [];
    for i := 0 to |walk|
      invariant NoFailure(walk[..i])
      invariant entries == Collected(root, walk[..i])
    {
      CollectedStep(root, walk, i);
      if walk[i].WalkFailure? {
        assert FirstFailureAt(walk, i);
        FailuresSurviveFilter(raw);
        return Err(Walkdir(walk[i].message));
      }
      NoFailureStep(walk, i);
      var entry := walk[i].entry;
      if entry.isDir {
        continue;
      }
      var relativePath := RelativePath(entry.path, root);
      if relativePath == "" {
        continue;
      }
      match entry.meta {
        case Some(metadata) =>
          match entry.hash {
            case Some(sha512) =>
              var fileEntry := FileIntegrityEntry(relativePath, sha512,
                metadata.mode % PERMISSION_MODULUS, metadata.uid, metadata.gid);
              assert EntryOf(root, entry) == Some(fileEntry);
              entries := entries + [fileEntry];
            case None =>
          }
        case None =>
      }
    }
    assert walk[..|walk|] == walk;
    FailuresSurviveFilter(raw);
    r := Ok(Baseline(imageId, timestamp, entries));
  }
}
