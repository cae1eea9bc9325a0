/** The filesystem walk shared, line for line, by the collector and the agent:
    the exclusion rule handed to the walker, the walker's pruning of excluded
    directories, the root-relative path, and the entry recorded for each
    walked file. The filesystem itself is abstract: a walk is the sequence of
    items the walker would produce, each carrying what reading its metadata
    and hashing its content would return. */
module Walk {
  import opened IntegrityCommon

  datatype FileKind = Regular | Directory | Symlink | BlockDevice | CharDevice | Fifo | Socket

  /** What reading a file's metadata returns. */
  datatype Metadata = Metadata(kind: FileKind, mode: u32, uid: u32, gid: u32)

  /** One directory entry: its path as a string, whether the path is a
      directory (following links, as `is_dir` does), the result of reading its
      metadata, and the result of hashing its content (SHA-512 is opaque). */
  datatype DirEntry = DirEntry(
    path: string,
    isDir: bool,
    meta: Option<Metadata>,
    hash: Option<string>)

  /** One item of the walk: an entry, or an error the walker reports together
      with the path it concerns (for a directory that cannot be listed, that
      directory). */
  datatype WalkItem = Visit(entry: DirEntry) | WalkFailure(path: string, message: string)

  const EXCLUDED_DIRS: seq<string> := ["/proc", "/sys", "/dev", "/run", "/tmp", "/var/tmp", "/var/log"]

  /** The permission bits are `mode & 0o7777`, which for a non-negative mode
      is `mode % PERMISSION_MODULUS`: the modulus is 0o7777 + 1. */
  const PERMISSION_MODULUS: nat := 0x1000

  predicate IsPrefix(p: string, s: string) {
    |p| <= |s| && s[..|p|] == p
  }

  /** `dirs.iter().any(|d| s.starts_with(d))`. */
  function AnyPrefix(dirs: seq<string>, s: string): bool
  {
    if dirs == [] then false else IsPrefix(dirs[0], s) || AnyPrefix(dirs[1..], s)
  }

  lemma {:induction false} AnyPrefixIff(dirs: seq<string>, s: string)
    ensures AnyPrefix(dirs, s) <==> exists i :: 0 <= i < |dirs| && IsPrefix(dirs[i], s)
  {
    if dirs != [] {
      AnyPrefixIff(dirs[1..], s);
      if AnyPrefix(dirs[1..], s) {
        var i :| 0 <= i < |dirs[1..]| && IsPrefix(dirs[1..][i], s);
        assert IsPrefix(dirs[i + 1], s);
      }
      if exists i :: 0 <= i < |dirs| && IsPrefix(dirs[i], s) {
        var i :| 0 <= i < |dirs| && IsPrefix(dirs[i], s);
        if i > 0 {
          assert IsPrefix(dirs[1..][i - 1], s);
        }
      }
    }
  }

  predicate IsSpecial(kind: FileKind) {
    kind == BlockDevice || kind == CharDevice || kind == Fifo || kind == Socket
  }

  /** The filter handed to the walker. */
  function ShouldExclude(e: DirEntry): (r: bool)
    ensures r ==> e.isDir || e.meta.Some?
    ensures r && !e.isDir ==> e.meta.value.kind != Regular && e.meta.value.kind != Directory
  {
    if e.isDir then AnyPrefix(EXCLUDED_DIRS, e.path)
    else e.meta.Some? && IsSpecial(e.meta.value.kind)
  }

  /** A directory is excluded iff its path has one of the excluded directories
      as a plain string prefix; anything else is excluded iff its metadata is
      readable and says it is a block or character device, a fifo or a socket. */
  lemma ShouldExcludeIff(e: DirEntry)
    ensures e.isDir ==> (ShouldExclude(e) <==> exists d :: d in EXCLUDED_DIRS && IsPrefix(d, e.path))
    ensures !e.isDir ==> (ShouldExclude(e) <==> e.meta.Some? && e.meta.value.kind in {BlockDevice, CharDevice, Fifo, Socket})
  {
    AnyPrefixIff(EXCLUDED_DIRS, e.path);
    if exists d :: d in EXCLUDED_DIRS && IsPrefix(d, e.path) {
      var d :| d in EXCLUDED_DIRS && IsPrefix(d, e.path);
      var i :| 0 <= i < |EXCLUDED_DIRS| && EXCLUDED_DIRS[i] == d;
    }
  }

  /** The prefix test is on strings, not on path components: "/tmpx" is
      excluded like "/tmp", a directory "/etc" is not, and a regular file
      under "/tmp" is not excluded by the filter itself. */
  lemma ShouldExcludeExamples(m: Option<Metadata>, h: Option<string>)
    ensures ShouldExclude(DirEntry("/tmpx", true, m, h))
    ensures ShouldExclude(DirEntry("/var/log/journal", true, m, h))
    ensures !ShouldExclude(DirEntry("/etc", true, m, h))
    ensures !ShouldExclude(DirEntry("/tmp/f", false, Some(Metadata(Regular, 420, 0, 0)), h))
  {
    assert IsPrefix("/tmp", "/tmpx");
    assert IsPrefix("/var/log", "/var/log/journal");
    ShouldExcludeIff(DirEntry("/etc", true, m, h));
    forall d | d in EXCLUDED_DIRS ensures !IsPrefix(d, "/etc") {
      assert d[1] != 'e';
    }
  }

  // ---------------------------------------------------------------------
  // The walker's pruning
  // ---------------------------------------------------------------------

  /** `path` lies inside directory `dir`. */
  predicate Beneath(path: string, dir: string) {
    IsPrefix(dir + "/", path)
  }

  lemma BeneathTransitive(path: string, mid: string, dir: string)
    requires Beneath(mid, dir) && Beneath(path, mid)
    ensures Beneath(path, dir)
  {
    assert path[..|dir + "/"|] == mid[..|dir + "/"|];
  }

  /** Pruning directory `dir` hides `item`: an entry beneath it, or an error at
      it or beneath it. The walker never lists a pruned directory, so neither
      the error of listing it nor anything inside it is reported. */
  predicate HiddenBy(item: WalkItem, dir: string) {
    match item
    case Visit(e) => Beneath(e.path, dir)
    case WalkFailure(p, _) => p == dir || Beneath(p, dir)
  }

  predicate Hidden(item: WalkItem, dirs: seq<string>) {
    exists i :: 0 <= i < |dirs| && HiddenBy(item, dirs[i])
  }

  lemma HiddenSnoc(item: WalkItem, dirs: seq<string>, dir: string)
    ensures Hidden(item, dirs + [dir]) <==> Hidden(item, dirs) || HiddenBy(item, dir)
  {
    if Hidden(item, dirs + [dir]) {
      var i :| 0 <= i < |dirs + [dir]| && HiddenBy(item, (dirs + [dir])[i]);
      if i < |dirs| {
        assert (dirs + [dir])[i] == dirs[i];
      }
    }
    if Hidden(item, dirs) {
      var i :| 0 <= i < |dirs| && HiddenBy(item, dirs[i]);
      assert (dirs + [dir])[i] == dirs[i];
    }
    if HiddenBy(item, dir) {
      assert (dirs + [dir])[|dirs|] == dir;
    }
  }

  /** What a directory hides, every directory it lies in hides as well. */
  lemma HiddenByTransitive(item: WalkItem, dir: string, outer: string)
    requires HiddenBy(item, dir) && Beneath(dir, outer)
    ensures HiddenBy(item, outer)
  {
    match item
    case Visit(e) =>
      BeneathTransitive(e.path, dir, outer);
    case WalkFailure(p, _) =>
      if p != dir {
        BeneathTransitive(p, dir, outer);
      }
  }

  /** The walker, having pruned `pruned`, yields `item`: no pruned directory
      hides it, and the filter accepts it when it is an entry. Errors are not
      offered to the filter. */
  predicate Passes(item: WalkItem, pruned: seq<string>) {
    !Hidden(item, pruned) && (item.Visit? ==> !ShouldExclude(item.entry))
  }

  /** `item` is a directory the filter rejects. */
  predicate Prunes(item: WalkItem) {
    item.Visit? && item.entry.isDir && ShouldExclude(item.entry)
  }

  /** The pruned directories once `item` is walked: a rejected directory the
      walker reaches joins them. */
  function PrunedAfter(item: WalkItem, pruned: seq<string>): seq<string> {
    if Prunes(item) && !Hidden(item, pruned) then pruned + [item.entry.path] else pruned
  }

  /** The walker with an entry filter over the preorder walk `raw`, having
      pruned `pruned` so far: an entry the filter rejects is not yielded, and
      when it is a directory nothing beneath it is yielded either, neither
      entry nor error. */
  function FilterFrom(raw: seq<WalkItem>, pruned: seq<string>): (r: seq<WalkItem>)
    ensures |r| <= |raw|
    decreases |raw|
  {
    if raw == [] then []
    else (if Passes(raw[0], pruned) then [raw[0]] else []) + FilterFrom(raw[1..], PrunedAfter(raw[0], pruned))
  }

  /** Item `k` of `raw` reaches the caller of a walker that starts having pruned
      `pruned`: it passes, and no rejected directory walked before it hides it. */
  predicate SurvivesFrom(raw: seq<WalkItem>, pruned: seq<string>, k: int) {
    && 0 <= k < |raw|
    && Passes(raw[k], pruned)
    && forall j :: 0 <= j < k && Prunes(raw[j]) ==> !HiddenBy(raw[k], raw[j].entry.path)
  }

  /** Item `k` of `raw` reaches the caller of the filtered walker. */
  predicate Survives(raw: seq<WalkItem>, k: int) {
    SurvivesFrom(raw, [], k)
  }

  /** Dropping the first item of the walk, and pruning it if need be, keeps
      which later items survive. */
  lemma ShiftSurvives(raw: seq<WalkItem>, pruned: seq<string>, k: int)
    requires 0 < k < |raw|
    ensures SurvivesFrom(raw, pruned, k) <==> SurvivesFrom(raw[1..], PrunedAfter(raw[0], pruned), k - 1)
  {
    var tail, p' := raw[1..], PrunedAfter(raw[0], pruned);
    var item := raw[k];
    assert tail[k - 1] == item;
    if Prunes(raw[0]) && !Hidden(raw[0], pruned) {
      HiddenSnoc(item, pruned, raw[0].entry.path);
    } else if Prunes(raw[0]) {
      var i :| 0 <= i < |pruned| && HiddenBy(raw[0], pruned[i]);
      if HiddenBy(item, raw[0].entry.path) {
        HiddenByTransitive(item, raw[0].entry.path, pruned[i]);
      }
    }
    if SurvivesFrom(raw, pruned, k) {
      forall j | 0 <= j < k - 1 && Prunes(tail[j]) ensures !HiddenBy(item, tail[j].entry.path) {
        assert tail[j] == raw[j + 1];
      }
    }
    if SurvivesFrom(tail, p', k - 1) {
      forall j | 0 <= j < k && Prunes(raw[j]) ensures !HiddenBy(item, raw[j].entry.path) {
        if j > 0 {
          assert raw[j] == tail[j - 1];
        }
      }
    }
  }

  /** The walker yields exactly the items of the walk that survive. */
  lemma {:induction false} FilterFromIff(raw: seq<WalkItem>, pruned: seq<string>, x: WalkItem)
    ensures x in FilterFrom(raw, pruned) <==> exists k :: SurvivesFrom(raw, pruned, k) && raw[k] == x
    decreases |raw|
  {
    if raw != [] {
      var tail, p' := raw[1..], PrunedAfter(raw[0], pruned);
      FilterFromIff(tail, p', x);
      if Passes(raw[0], pruned) {
        assert SurvivesFrom(raw, pruned, 0);
      }
      if x in FilterFrom(tail, p') {
        var k :| SurvivesFrom(tail, p', k) && tail[k] == x;
        ShiftSurvives(raw, pruned, k + 1);
      }
      if exists k :: SurvivesFrom(raw, pruned, k) && raw[k] == x {
        var k :| SurvivesFrom(raw, pruned, k) && raw[k] == x;
        if k > 0 {
          ShiftSurvives(raw, pruned, k);
        }
      }
    }
  }

  /** Soundness: every yielded item occurs in the walk, no pruned directory
      hides it, and a yielded entry passes the filter. */
  lemma {:induction false} FilterFromSound(raw: seq<WalkItem>, pruned: seq<string>)
    ensures forall x :: x in FilterFrom(raw, pruned) ==> x in raw && Passes(x, pruned)
  {
    forall x | x in FilterFrom(raw, pruned) ensures x in raw && Passes(x, pruned) {
      FilterFromIff(raw, pruned, x);
    }
  }

  /** Completeness: an item no pruned directory hides, that the filter accepts
      when it is an entry, and that no rejected directory walked before it
      hides, is yielded. Errors are therefore reported unless they lie in a
      pruned directory. */
  lemma FilterFromComplete(raw: seq<WalkItem>, pruned: seq<string>, i: int)
    requires 0 <= i < |raw| && !Hidden(raw[i], pruned)
    requires raw[i].Visit? ==> !ShouldExclude(raw[i].entry)
    requires forall j :: 0 <= j < i && Prunes(raw[j]) ==> !HiddenBy(raw[i], raw[j].entry.path)
    ensures raw[i] in FilterFrom(raw, pruned)
  {
    FilterFromIff(raw, pruned, raw[i]);
  }

  /** `WalkDir::new(root).filter_entry(|e| !should_exclude(e))`: every item
      it yields occurs in the walk, and no yielded entry is rejected. */
  function FilterEntry(raw: seq<WalkItem>): (r: seq<WalkItem>)
    ensures forall x :: x in r ==> x in raw && (x.Visit? ==> !ShouldExclude(x.entry))
  {
    FilterFromSound(raw, []);
    FilterFrom(raw, [])
  }

  /** Once an excluded directory `d` is walked, nothing it hides is yielded
      afterwards: every yielded item beneath `d` (or, for an error, at `d`)
      was yielded before `d`. */
  lemma {:induction false} ExcludedDirPruned(pre: seq<WalkItem>, d: DirEntry, post: seq<WalkItem>, pruned: seq<string>)
    requires d.isDir && ShouldExclude(d)
    ensures forall x :: (x in FilterFrom(pre + [Visit(d)] + post, pruned) && HiddenBy(x, d.path)
      ==> x in FilterFrom(pre, pruned))
    decreases |pre|
  {
    var raw := pre + [Visit(d)] + post;
    if pre == [] {
      assert raw[0] == Visit(d) && raw[1..] == post;
      var p' := PrunedAfter(Visit(d), pruned);
      FilterFromSound(post, p');
      if Hidden(Visit(d), pruned) {
        var i :| 0 <= i < |pruned| && HiddenBy(Visit(d), pruned[i]);
        forall x | x in FilterFrom(post, p') ensures !HiddenBy(x, d.path) {
          if HiddenBy(x, d.path) {
            HiddenByTransitive(x, d.path, pruned[i]);
          }
        }
      } else {
        forall x | x in FilterFrom(post, p') ensures !HiddenBy(x, d.path) {
          HiddenSnoc(x, pruned, d.path);
        }
      }
    } else {
      assert raw[0] == pre[0] && raw[1..] == pre[1..] + [Visit(d)] + post;
      ExcludedDirPruned(pre[1..], d, post, PrunedAfter(pre[0], pruned));
    }
  }

  /** Listing "/proc" fails, but "/proc" is rejected by the filter, so the
      error is never reported and the walk yields only the root. */
  lemma PrunedListingErrorExample(m: Option<Metadata>)
    ensures var raw := [Visit(DirEntry("/", true, m, None)), Visit(DirEntry("/proc", true, m, None)),
                        WalkFailure("/proc", "Permission denied")];
            FilterEntry(raw) == [raw[0]]
  {
    var raw := [Visit(DirEntry("/", true, m, None)), Visit(DirEntry("/proc", true, m, None)),
                WalkFailure("/proc", "Permission denied")];
    assert !ShouldExclude(raw[0].entry);
    assert ShouldExclude(raw[1].entry) by {
      assert IsPrefix("/proc", "/proc");
    }
    assert Passes(raw[0], []) && PrunedAfter(raw[0], []) == [];
    assert PrunedAfter(raw[1], []) == ["/proc"];
    assert Hidden(raw[2], ["/proc"]) by {
      assert HiddenBy(raw[2], ["/proc"][0]);
    }
    assert raw[1..][1..] == [raw[2]];
    assert FilterFrom([raw[2]], ["/proc"]) == [];
    assert FilterFrom(raw[1..], []) == [];
  }

  // ---------------------------------------------------------------------
  // Relative paths and recorded entries
  // ---------------------------------------------------------------------

  /** `Path::strip_prefix` on normalised paths (no repeated or trailing
      separators): component-wise, so "/etcx" does not start with "/etc". */
  function StripPrefix(path: string, root: string): (r: Option<string>)
    ensures r.Some? ==> |r.value| <= |path| && r.value == path[|path| - |r.value|..]
  {
    if root == "" then Some(path)
    else if path == root then Some("")
    else if root[|root| - 1] == '/' && IsPrefix(root, path) then Some(path[|root|..])
    else if IsPrefix(root + "/", path) then Some(path[|root| + 1..])
    else None
  }

  /** `path.strip_prefix(root).unwrap_or(path)`. */
  function RelativePath(path: string, root: string): (r: string)
    ensures |r| <= |path| && r == path[|path| - |r|..]
  {
    match StripPrefix(path, root)
    case Some(rel) => rel
    case None => path
  }

  /** Stripping is undone by joining: a stripped path is the root followed by
      the rest, with a separator unless the root already ends in one; a path
      that does not lie under the root is kept whole. */
  lemma StripPrefixJoin(path: string, root: string)
    ensures StripPrefix(path, root).Some? ==>
      var rel := StripPrefix(path, root).value;
      path == root + rel || path == root + "/" + rel
    ensures StripPrefix(path, root).None? ==> RelativePath(path, root) == path && root != ""
  {
  }

  /** Conversely, a path the root is followed by, after a separator unless
      the root ends in one, strips to what follows the root. */
  lemma StripPrefixOfJoin(root: string, rest: string)
    requires root != ""
    ensures root[|root| - 1] != '/' ==> StripPrefix(root + "/" + rest, root) == Some(rest)
    ensures root[|root| - 1] == '/' ==> StripPrefix(root + rest, root) == Some(rest)
  {
    if root[|root| - 1] != '/' {
      var path := root + "/" + rest;
      assert path[..|root + "/"|] == root + "/";
      assert path[|root| + 1..] == rest;
    } else {
      var path := root + rest;
      assert path[..|root|] == root;
      assert path[|root|..] == rest;
    }
  }

  /** A path that merely continues the root's last component, as "/etcx" does
      "/etc", does not lie under the root. */
  lemma StripPrefixSibling(path: string, root: string)
    requires root != "" && root[|root| - 1] != '/'
    requires IsPrefix(root, path) && |path| > |root| && path[|root|] != '/'
    ensures StripPrefix(path, root) == None
    ensures RelativePath(path, root) == path
  {
    assert (root + "/")[|root|] == '/';
  }

  lemma RelativePathExamples()
    ensures RelativePath("/etc/passwd", "/") == "etc/passwd"
    ensures RelativePath("/srv/img/etc/passwd", "/srv/img") == "etc/passwd"
    ensures RelativePath("/srv/image", "/srv/img") == "/srv/image"
    ensures RelativePath("/", "/") == ""
  {
    assert IsPrefix("/", "/etc/passwd");
    assert IsPrefix("/srv/img" + "/", "/srv/img/etc/passwd");
    assert ("/srv/img" + "/")[8] != "/srv/image"[8];
  }

  /** The entry the scan loop records for one walked entry, if any: nothing
      for a directory, for an empty relative path, or when the metadata or the
      hash cannot be read. */
  function EntryOf(root: string, e: DirEntry): (r: Option<FileIntegrityEntry>)
    ensures r.Some? ==> !e.isDir && e.meta.Some? && e.hash.Some?
    ensures r.Some? ==> r.value.path != "" && r.value.mode < PERMISSION_MODULUS
  {
    if e.isDir then None
    else
      var rel := RelativePath(e.path, root);
      if rel == "" || e.meta.None? || e.hash.None? then None
      else Some(FileIntegrityEntry(rel, e.hash.value, e.meta.value.mode % PERMISSION_MODULUS,
                                   e.meta.value.uid, e.meta.value.gid))
  }

  /** A walked entry yields a record iff it is not a directory, its relative
      path is non-empty and both its metadata and its hash could be read; the
      record then holds the relative path, the hash, the low twelve mode bits,
      the uid and the gid. */
  lemma EntryOfIff(root: string, e: DirEntry)
    ensures EntryOf(root, e).Some? <==>
      !e.isDir && RelativePath(e.path, root) != "" && e.meta.Some? && e.hash.Some?
    ensures EntryOf(root, e).Some? ==>
      var r := EntryOf(root, e).value;
      && r.path == RelativePath(e.path, root) && r.path != ""
      && r.sha512 == e.hash.value
      && r.mode < PERMISSION_MODULUS && r.mode % PERMISSION_MODULUS == e.meta.value.mode % PERMISSION_MODULUS
      && r.uid == e.meta.value.uid && r.gid == e.meta.value.gid
  {
  }

  /** The records the scan loop produces from a walk, in walk order; errors
      contribute nothing here (the loop stops at the first one). */
  function Collected(root: string, walk: seq<WalkItem>): (r: seq<FileIntegrityEntry>)
    ensures |r| <= |walk|
    ensures forall x :: x in r ==> x.path != "" && x.mode < PERMISSION_MODULUS
  {
    if walk == [] then []
    else
      var last := walk[|walk| - 1];
      var front := Collected(root, walk[..|walk| - 1]);
      if last.Visit? && EntryOf(root, last.entry).Some? then front + [EntryOf(root, last.entry).value]
      else front
  }

  /** One more walked item adds its record, if it yields one, at the end. */
  lemma CollectedStep(root: string, walk: seq<WalkItem>, i: nat)
    requires i < |walk|
    ensures Collected(root, walk[..i + 1]) ==
      Collected(root, walk[..i]) + (if walk[i].Visit? && EntryOf(root, walk[i].entry).Some?
                                    then [EntryOf(root, walk[i].entry).value] else [])
  {
    assert walk[..i + 1][..i] == walk[..i];
  }

  /** Walk item `item` yields record `x`. */
  predicate Yields(root: string, item: WalkItem, x: FileIntegrityEntry) {
    item.Visit? && EntryOf(root, item.entry) == Some(x)
  }

  lemma CollectedSnoc(root: string, walk: seq<WalkItem>, x: FileIntegrityEntry)
    requires walk != []
    ensures x in Collected(root, walk) <==>
      x in Collected(root, walk[..|walk| - 1]) || Yields(root, walk[|walk| - 1], x)
  {
  }

  /** Some item of a walk extended by `last` yields `x` iff some item before
      it does or `last` does. */
  lemma YieldsSnoc(root: string, front: seq<WalkItem>, last: WalkItem, x: FileIntegrityEntry)
    ensures (exists i :: 0 <= i < |front + [last]| && Yields(root, (front + [last])[i], x)) <==>
      (exists i :: 0 <= i < |front| && Yields(root, front[i], x)) || Yields(root, last, x)
  {
    var walk := front + [last];
    if exists i :: 0 <= i < |walk| && Yields(root, walk[i], x) {
      var i :| 0 <= i < |walk| && Yields(root, walk[i], x);
      if i < |front| {
        assert front[i] == walk[i];
      }
    }
    if exists i :: 0 <= i < |front| && Yields(root, front[i], x) {
      var i :| 0 <= i < |front| && Yields(root, front[i], x);
      assert walk[i] == front[i];
    }
    assert walk[|front|] == last;
  }

  /** A record is collected iff some walked entry yields it. */
  lemma {:induction false} CollectedIff(root: string, walk: seq<WalkItem>, x: FileIntegrityEntry)
    ensures x in Collected(root, walk) <==> exists i :: 0 <= i < |walk| && Yields(root, walk[i], x)
    decreases |walk|
  {
    if walk != [] {
      var front, last := walk[..|walk| - 1], walk[|walk| - 1];
      assert walk == front + [last];
      CollectedIff(root, front, x);
      CollectedSnoc(root, walk, x);
      YieldsSnoc(root, front, last, x);
    }
  }

  /** Collection preserves walk order: the records of a concatenation are the
      records of the first part followed by those of the second. */
  lemma {:induction false} CollectedAppend(root: string, a: seq<WalkItem>, b: seq<WalkItem>)
    ensures Collected(root, a + b) == Collected(root, a) + Collected(root, b)
    decreases |b|
  {
    if b == [] {
      assert a + b == a;
    } else {
      var b' := b[..|b| - 1];
      CollectedAppend(root, a, b');
      assert (a + b)[..|a + b| - 1] == a + b';
      assert (a + b)[|a + b| - 1] == b[|b| - 1];
    }
  }

  /** The filtered walk holds a walker error iff the raw walk holds one that
      survives: an error in listing a rejected directory, or anywhere inside
      one, is never reported. */
  lemma FailuresSurviveFilter(raw: seq<WalkItem>)
    ensures (exists i :: 0 <= i < |FilterEntry(raw)| && FilterEntry(raw)[i].WalkFailure?)
        <==> (exists k :: Survives(raw, k) && raw[k].WalkFailure?)
  {
    var walk := FilterEntry(raw);
    if exists i :: 0 <= i < |walk| && walk[i].WalkFailure? {
      var i :| 0 <= i < |walk| && walk[i].WalkFailure?;
      FilterFromIff(raw, [], walk[i]);
      var k :| SurvivesFrom(raw, [], k) && raw[k] == walk[i];
      assert Survives(raw, k);
    }
    if exists k :: Survives(raw, k) && raw[k].WalkFailure? {
      var k :| Survives(raw, k) && raw[k].WalkFailure?;
      FilterFromIff(raw, [], raw[k]);
      var i :| 0 <= i < |walk| && walk[i] == raw[k];
    }
  }

  /** A record is collected from the filtered walk iff a surviving entry of
      the raw walk yields it: in particular, a surviving entry that yields a
      record has it collected. */
  lemma CollectedFromRaw(root: string, raw: seq<WalkItem>, x: FileIntegrityEntry)
    ensures x in Collected(root, FilterEntry(raw)) <==> exists k :: Survives(raw, k) && Yields(root, raw[k], x)
  {
    var walk := FilterEntry(raw);
    CollectedIff(root, walk, x);
    if x in Collected(root, walk) {
      var i :| 0 <= i < |walk| && Yields(root, walk[i], x);
      FilterFromIff(raw, [], walk[i]);
      var k :| SurvivesFrom(raw, [], k) && raw[k] == walk[i];
      assert Survives(raw, k) && Yields(root, raw[k], x);
    }
    if exists k :: Survives(raw, k) && Yields(root, raw[k], x) {
      var k :| Survives(raw, k) && Yields(root, raw[k], x);
      FilterFromIff(raw, [], raw[k]);
      var i :| 0 <= i < |walk| && walk[i] == raw[k];
      assert Yields(root, walk[i], x);
    }
  }

  predicate NoFailure(walk: seq<WalkItem>) {
    forall i :: 0 <= i < |walk| ==> walk[i].Visit?
  }

  lemma NoFailureStep(walk: seq<WalkItem>, i: nat)
    requires i < |walk| && NoFailure(walk[..i]) && walk[i].Visit?
    ensures NoFailure(walk[..i + 1])
  {
    assert forall k :: 0 <= k < i ==> walk[..i + 1][k] == walk[..i][k];
  }

  /** The walker's first error is at `i`. */
  predicate FirstFailureAt(walk: seq<WalkItem>, i: int) {
    0 <= i < |walk| && walk[i].WalkFailure? && NoFailure(walk[..i])
  }
}
