/**
 * `FileProcessor`: the stability wait, the per-file workflow
 * (skip-existing, wait, make the destination directory, then move or
 * compress, remove the source, prune its directory) and the batch tally.
 * Each step is a function on the filesystem map, and the class's methods
 * perform the same steps on a `FileSystem` object.
 */
module Processing {
  import opened Wrappers
  import opened PathOps
  import opened Fs
  import opened Compression
  import opened Configuration

  // ---------------------------------------------------------------------
  // The stability wait.

  /** What one poll of the file observed: it was gone, it had a size, or
      reading the size failed. */
  datatype Poll = Missing | Sized(size: nat) | Unreadable

  /** The wait loop from a given previous size: a poll that finds the file
      gone or unreadable ends it with `false`; a positive size equal to the
      previous one ends it with `true`; running out of polls (the timeout)
      is `false`. */
  function WaitFrom(polls: seq<Poll>, last: int): bool
    decreases |polls|
  {
    if polls == [] then false
    else match polls[0]
      case Missing => false
      case Unreadable => false
      case Sized(n) => if n == last && n > 0 then true else WaitFrom(polls[1..], n)
  }

  /** `wait_for_file_ready` over the polls that fit in its timeout; the
      previous size starts at -1. */
  function Settles(polls: seq<Poll>): bool {
    WaitFrom(polls, -1)
  }

  /** Poll `i` repeats the positive size of poll `i - 1`, and every poll up
      to it read a size. */
  predicate StableAt(polls: seq<Poll>, i: int) {
    1 <= i < |polls| &&
    (forall j :: 0 <= j <= i ==> polls[j].Sized?) &&
    polls[i].size > 0 && polls[i].size == polls[i - 1].size
  }

  /** `StableAt` with poll -1 standing for the size `last`. */
  predicate StableFrom(polls: seq<Poll>, last: int, i: int) {
    0 <= i < |polls| &&
    (forall j :: 0 <= j <= i ==> polls[j].Sized?) &&
    polls[i].size > 0 && polls[i].size == (if i == 0 then last else polls[i - 1].size)
  }

  lemma {:induction false} WaitFromIff(polls: seq<Poll>, last: int)
    ensures WaitFrom(polls, last) <==> exists i :: StableFrom(polls, last, i)
    decreases |polls|
  {
    if polls != [] && polls[0].Sized? {
      var n := polls[0].size;
      if !(n == last && n > 0) {
        var rest := polls[1..];
        WaitFromIff(rest, n);
        if WaitFrom(rest, n) {
          var i :| StableFrom(rest, n, i);
          assert StableFrom(polls, last, i + 1) by {
            forall j | 0 <= j <= i + 1 ensures polls[j].Sized? {
              if j > 0 { assert polls[j] == rest[j - 1]; }
            }
          }
        } else {
          forall i | 0 <= i < |polls| ensures !StableFrom(polls, last, i) {
            if i > 0 && StableFrom(polls, last, i) {
              assert StableFrom(rest, n, i - 1) by {
                forall j | 0 <= j <= i - 1 ensures rest[j].Sized? {
                  assert rest[j] == polls[j + 1];
                }
              }
            }
          }
        }
      } else {
        assert StableFrom(polls, last, 0);
      }
    } else if polls != [] {
      assert forall i :: StableFrom(polls, last, i) ==> polls[0].Sized?;
    }
  }

  /** The file counts as ready exactly when, before any poll failed, two
      consecutive polls read the same positive size. */
  lemma SettlesIff(polls: seq<Poll>)
    ensures Settles(polls) <==> exists i :: StableAt(polls, i)
  {
    WaitFromIff(polls, -1);
    if Settles(polls) {
      var i :| StableFrom(polls, -1, i);
      assert StableAt(polls, i);
    }
    if exists i :: StableAt(polls, i) {
      var i :| StableAt(polls, i);
      assert StableFrom(polls, -1, i);
    }
  }

  /** The first poll can never succeed: readiness takes two polls. */
  lemma FirstPollNeverReady(polls: seq<Poll>)
    ensures Settles(polls) ==> |polls| >= 2
    ensures |polls| == 1 ==> !Settles(polls)
  {
    SettlesIff(polls);
  }

  /** Two polls reading the same positive size make the file ready at the
      second poll, whatever follows. */
  lemma SteadySizeIsReady(n: nat, rest: seq<Poll>)
    requires n > 0
    ensures Settles([Sized(n), Sized(n)] + rest)
  {
    var p := [Sized(n), Sized(n)] + rest;
    assert p[1..] == [Sized(n)] + rest;
  }

  /** An empty file never counts as ready. */
  lemma EmptyFileNeverReady(polls: seq<Poll>)
    requires forall j :: 0 <= j < |polls| ==> polls[j] == Sized(0)
    ensures !Settles(polls)
  {
    SettlesIff(polls);
  }

  /** A failed poll before the size has settled ends the wait with `false`. */
  lemma FailedPollEndsWait(polls: seq<Poll>, f: int)
    requires 0 <= f < |polls| && !polls[f].Sized?
    requires forall i :: 1 <= i < f ==> !StableAt(polls, i)
    ensures !Settles(polls)
  {
    SettlesIff(polls);
  }

  // ---------------------------------------------------------------------
  // Pruning the source's directory.

  /** `_cleanup_empty_directory(file)`: remove the file's directory when it
      is an existing, empty directory other than the watched root (compared
      after `normpath`); every error is swallowed. */
  function CleanupParentOp(m: Tree, file: string, root: string): Tree {
    var parent := Dirname(file);
    if NormPath(parent) == NormPath(root) then m
    else if Present(m, parent) && ListdirOp(m, parent) == Some({}) then RmdirOp(m, parent).GetOr(m)
    else m
  }

  /** The prune removes the file's directory or nothing; it removes the
      directory exactly when that is an empty directory that is not the
      root. */
  lemma CleanupParentRemovesOnlyParent(m: Tree, file: string, root: string)
    ensures var parent := Dirname(file);
      var r := CleanupParentOp(m, file, root);
      && (r == m || r == m - {parent})
      && (parent !in r && parent in m <==>
            NormPath(parent) != NormPath(root) && DirAt(m, parent) && Children(m, parent) == {})
  {
    var parent := Dirname(file);
    if DirAt(m, parent) {
      ListdirEmpty(m, parent);
    }
  }

  /** The watched root is never pruned, however it is spelled. */
  lemma CleanupParentKeepsRoot(m: Tree, file: string, root: string)
    requires NormPath(Dirname(file)) == NormPath(root)
    ensures CleanupParentOp(m, file, root) == m
  {
  }

  // ---------------------------------------------------------------------
  // The per-file workflow.

  /** The filesystem and compressor cache after one step, and its verdict. */
  datatype ProcessStep = ProcessStep(ok: bool, fs: Tree, cache: set<(string, string)>)

  /** Create the destination directory when it does not exist. */
  function PrepareDirOp(m: Tree, dest: string, now: int): (bool, Tree) {
    if Present(m, Dirname(dest)) then (true, m) else MakedirsOp(m, Dirname(dest), true, now)
  }

  /** Everything after the destination directory is ready: move a WebP
      source; compress and then remove a compressible one; move anything
      else; then prune the source's directory. Any error is `false`. */
  function ActOp(cfg: Config, m: Tree, cache: set<(string, string)>, source: string, dest: string,
                 codec: CodecResult, now: int): ProcessStep
  {
    if EndsWith(Lower(source), ".webp") then
      match RenameOp(m, source, dest)
      case None => ProcessStep(false, m, cache)
      case Some(m') => ProcessStep(true, m', cache)
    else if ShouldCompress(m, source, cfg.minFileSizeKb) then
      var c := CompressOp(m, cache, source, dest, codec, now);
      if !c.ok then ProcessStep(false, c.fs, c.cache)
      else if !Present(c.fs, source) then ProcessStep(true, CleanupParentOp(c.fs, source, cfg.uncompressedPath), c.cache)
      else match RemoveOp(c.fs, source)
        case None => ProcessStep(false, c.fs, c.cache)
        case Some(m') => ProcessStep(true, CleanupParentOp(m', source, cfg.uncompressedPath), c.cache)
    else if SizeOf(m, source).None? then ProcessStep(false, m, cache)
    else match RenameOp(m, source, dest)
      case None => ProcessStep(false, m, cache)
      case Some(m') => ProcessStep(true, CleanupParentOp(m', source, cfg.uncompressedPath), cache)
  }

  /** The destination, or its `.webp` variant, already exists. */
  predicate DestinationTaken(m: Tree, dest: string) {
    Present(m, dest) || Present(m, EnsureWebpExtension(dest))
  }

  /** `process_file(source, dest)` with the stability polls and the
      encoder's verdict given. */
  function ProcessFileOp(cfg: Config, m: Tree, cache: set<(string, string)>, source: string, dest: string,
                         polls: seq<Poll>, codec: CodecResult, now: int): ProcessStep
  {
    if !Present(m, source) || DirAt(m, source) then ProcessStep(false, m, cache)
    else if cfg.skipExistingFiles && DestinationTaken(m, dest) then
      if Present(m, source) then
        match RemoveOp(m, source)
        case None => ProcessStep(false, m, cache)
        case Some(m') => ProcessStep(true, m', cache)
      else ProcessStep(true, m, cache)
    else if !Settles(polls) then ProcessStep(false, m, cache)
    else
      var prep := PrepareDirOp(m, dest, now);
      if !prep.0 then ProcessStep(false, prep.1, cache)
      else ActOp(cfg, prep.1, cache, source, dest, codec, now)
  }

  /** A missing source or a directory is refused with no change. */
  lemma MissingOrDirectoryRefused(cfg: Config, m: Tree, cache: set<(string, string)>, source: string, dest: string,
                                  polls: seq<Poll>, codec: CodecResult, now: int)
    requires !FileAt(m, source)
    ensures ProcessFileOp(cfg, m, cache, source, dest, polls, codec, now) == ProcessStep(false, m, cache)
  {
  }

  /** With skip-existing on and the destination taken, the source is
      deleted and the call succeeds, before any wait or encoding: the polls
      and the encoder's verdict make no difference. */
  lemma SkipExistingDeletesSource(cfg: Config, m: Tree, cache: set<(string, string)>, source: string, dest: string,
                                  polls: seq<Poll>, codec: CodecResult, now: int,
                                  polls2: seq<Poll>, codec2: CodecResult, now2: int)
    requires FileAt(m, source) && cfg.skipExistingFiles && DestinationTaken(m, dest)
    ensures ProcessFileOp(cfg, m, cache, source, dest, polls, codec, now) == ProcessStep(true, m - {source}, cache)
    ensures ProcessFileOp(cfg, m, cache, source, dest, polls2, codec2, now2) == ProcessStep(true, m - {source}, cache)
  {
  }

  /** A file that does not settle is left alone. */
  lemma NotReadyLeftAlone(cfg: Config, m: Tree, cache: set<(string, string)>, source: string, dest: string,
                          polls: seq<Poll>, codec: CodecResult, now: int)
    requires FileAt(m, source) && !(cfg.skipExistingFiles && DestinationTaken(m, dest))
    requires !Settles(polls)
    ensures ProcessFileOp(cfg, m, cache, source, dest, polls, codec, now) == ProcessStep(false, m, cache)
  {
  }

  /** The stages a ready file goes through. */
  predicate ReachesAct(cfg: Config, m: Tree, source: string, dest: string, polls: seq<Poll>, now: int) {
    FileAt(m, source) && !(cfg.skipExistingFiles && DestinationTaken(m, dest)) && Settles(polls) &&
    PrepareDirOp(m, dest, now).0
  }

  /** The tree once the destination directory is made. */
  function Prepared(m: Tree, dest: string, now: int): Tree {
    PrepareDirOp(m, dest, now).1
  }

  /** Making the destination directory only adds directories, and only
      ones that are prefixes of it. */
  lemma PrepareDirGrows(m: Tree, dest: string, now: int)
    ensures Grows(m, Prepared(m, dest, now))
    ensures forall k :: k in Prepared(m, dest, now) && k !in m ==> IsPrefix(k, Dirname(dest))
  {
    if !Present(m, Dirname(dest)) {
      forall k | k in Prepared(m, dest, now) && k !in m ensures IsPrefix(k, Dirname(dest)) {
        MakedirsAddsAncestors(m, Dirname(dest), true, now, k);
      }
    }
  }

  /** A source whose name ends in `.webp`, in any case, is renamed to the
      destination as it is, and its directory is not pruned: nothing but
      the source and the destination changes. */
  lemma WebpIsMoved(cfg: Config, m: Tree, cache: set<(string, string)>, source: string, dest: string,
                    polls: seq<Poll>, codec: CodecResult, now: int)
    requires ReachesAct(cfg, m, source, dest, polls, now) && EndsWith(Lower(source), ".webp")
    ensures var r := ProcessFileOp(cfg, m, cache, source, dest, polls, codec, now);
      var p := Prepared(m, dest, now);
      && r.cache == cache
      && (r.ok <==> RenameOp(p, source, dest).Some?)
      && (!r.ok ==> r.fs == p)
      && (r.ok ==> dest in r.fs && r.fs[dest] == m[source])
      && (r.ok && source != dest ==> source !in r.fs)
      && (r.ok ==> forall k :: k in p && k != source && k != dest ==> k in r.fs && r.fs[k] == p[k])
  {
    PrepareDirGrows(m, dest, now);
    var p := Prepared(m, dest, now);
    if RenameOp(p, source, dest).Some? && source != dest {
      RenameMoves(p, source, dest);
    }
  }

  /** A compressible source: when the encoder succeeds the source is gone
      and the call succeeds; when it fails the source is kept, nothing is
      written, and the call fails. */
  lemma CompressionDecidesSource(cfg: Config, m: Tree, cache: set<(string, string)>, source: string, dest: string,
                                 polls: seq<Poll>, codec: CodecResult, now: int)
    requires ReachesAct(cfg, m, source, dest, polls, now) && !EndsWith(Lower(source), ".webp")
    requires ShouldCompress(Prepared(m, dest, now), source, cfg.minFileSizeKb)
    ensures var r := ProcessFileOp(cfg, m, cache, source, dest, polls, codec, now);
      var c := CompressOp(Prepared(m, dest, now), cache, source, dest, codec, now);
      && r.cache == cache + {(source, dest)}
      && (r.ok <==> c.ok)
      && (r.ok ==> source !in r.fs)
      && (!r.ok ==> r.fs == Prepared(m, dest, now) && r.fs[source] == m[source])
  {
    PrepareDirGrows(m, dest, now);
    var p := Prepared(m, dest, now);
    assert ProcessFileOp(cfg, m, cache, source, dest, polls, codec, now) == ActOp(cfg, p, cache, source, dest, codec, now);
    ActCompressDecides(cfg, p, cache, source, dest, codec, now);
  }

  /** The compress branch of the action step, on the prepared tree. */
  lemma ActCompressDecides(cfg: Config, p: Tree, cache: set<(string, string)>, source: string, dest: string,
                           codec: CodecResult, now: int)
    requires !EndsWith(Lower(source), ".webp") && ShouldCompress(p, source, cfg.minFileSizeKb)
    ensures var r := ActOp(cfg, p, cache, source, dest, codec, now);
      var c := CompressOp(p, cache, source, dest, codec, now);
      && r.cache == cache + {(source, dest)}
      && (r.ok <==> c.ok)
      && (r.ok ==> source !in r.fs)
      && (!r.ok ==> r.fs == p)
  {
    var c := CompressOp(p, cache, source, dest, codec, now);
    CompressRecordsKey(p, cache, source, dest, codec, now);
    if c.ok && Present(c.fs, source) {
      assert FileAt(c.fs, source) by {
        if (source, dest) !in cache && c.fs != p {
          assert c.fs == p[EnsureWebpExtension(dest) := File(codec.size, now)];
        }
      }
      var removed := RemoveOp(c.fs, source).value;
      assert source !in removed;
      CleanupParentRemovesOnlyParent(removed, source, cfg.uncompressedPath);
    } else if c.ok {
      CleanupParentRemovesOnlyParent(c.fs, source, cfg.uncompressedPath);
    }
  }

  /** A source that is neither WebP nor compressible is renamed to the
      destination, and its directory is pruned afterwards. */
  lemma OtherFileIsMoved(cfg: Config, m: Tree, cache: set<(string, string)>, source: string, dest: string,
                         polls: seq<Poll>, codec: CodecResult, now: int)
    requires ReachesAct(cfg, m, source, dest, polls, now) && !EndsWith(Lower(source), ".webp")
    requires !ShouldCompress(Prepared(m, dest, now), source, cfg.minFileSizeKb)
    ensures var r := ProcessFileOp(cfg, m, cache, source, dest, polls, codec, now);
      var p := Prepared(m, dest, now);
      && r.cache == cache
      && (r.ok <==> RenameOp(p, source, dest).Some?)
      && (!r.ok ==> r.fs == p)
      && (r.ok ==> r.fs == CleanupParentOp(RenameOp(p, source, dest).value, source, cfg.uncompressedPath))
      && (r.ok ==> dest in r.fs && r.fs[dest] == m[source])
      && (r.ok && source != dest ==> source !in r.fs)
  {
    PrepareDirGrows(m, dest, now);
    var p := Prepared(m, dest, now);
    assert ProcessFileOp(cfg, m, cache, source, dest, polls, codec, now) == ActOp(cfg, p, cache, source, dest, codec, now);
    if RenameOp(p, source, dest).Some? {
      var moved := RenameOp(p, source, dest).value;
      if source != dest {
        RenameMoves(p, source, dest);
      } else {
        CleanupParentRemovesOnlyParent(moved, source, cfg.uncompressedPath);
      }
      CleanupParentRemovesOnlyParent(moved, source, cfg.uncompressedPath);
      CleanupKeeps(moved, source, cfg.uncompressedPath, dest);
    }
  }

  /** A pair already in the compressor's cache, for instance from an
      earlier failed attempt, makes the compress step report success
      without encoding: the source is deleted and no WebP file appears. */
  lemma CachedPairLosesSource(cfg: Config, m: Tree, cache: set<(string, string)>, source: string, dest: string,
                              polls: seq<Poll>, codec: CodecResult, now: int)
    requires ReachesAct(cfg, m, source, dest, polls, now) && !EndsWith(Lower(source), ".webp")
    requires ShouldCompress(Prepared(m, dest, now), source, cfg.minFileSizeKb)
    requires (source, dest) in cache
    requires !Present(m, EnsureWebpExtension(dest)) && !IsPrefix(EnsureWebpExtension(dest), Dirname(dest))
    ensures var r := ProcessFileOp(cfg, m, cache, source, dest, polls, codec, now);
      r.ok && source !in r.fs && !Present(r.fs, EnsureWebpExtension(dest))
  {
    PrepareDirGrows(m, dest, now);
    var p := Prepared(m, dest, now);
    var w := EnsureWebpExtension(dest);
    assert !Present(p, w);
    CleanupParentRemovesOnlyParent(p - {source}, source, cfg.uncompressedPath);
  }

  /** The prune keeps every entry but the file's directory, and every
      regular file. */
  lemma CleanupKeeps(m: Tree, file: string, root: string, k: string)
    requires k in m && (k != Dirname(file) || m[k].File?)
    ensures k in CleanupParentOp(m, file, root) && CleanupParentOp(m, file, root)[k] == m[k]
  {
    CleanupParentRemovesOnlyParent(m, file, root);
  }

  lemma ActFrameCompress(cfg: Config, m: Tree, cache: set<(string, string)>, source: string, dest: string,
                         codec: CodecResult, now: int, k: string)
    requires k in m && k != source && k != Dirname(source)
    requires !EndsWith(Lower(source), ".webp") && ShouldCompress(m, source, cfg.minFileSizeKb)
    ensures k in ActOp(cfg, m, cache, source, dest, codec, now).fs
    ensures k != EnsureWebpExtension(dest) ==> ActOp(cfg, m, cache, source, dest, codec, now).fs[k] == m[k]
  {
    var c := CompressOp(m, cache, source, dest, codec, now);
    CompressOnlyWritesWebp(m, cache, source, dest, codec, now);
    assert k in c.fs && (k != EnsureWebpExtension(dest) ==> c.fs[k] == m[k]);
    if c.ok && !Present(c.fs, source) {
      CleanupKeeps(c.fs, source, cfg.uncompressedPath, k);
    } else if c.ok && RemoveOp(c.fs, source).Some? {
      var removed := RemoveOp(c.fs, source).value;
      assert k in removed && removed[k] == c.fs[k];
      CleanupKeeps(removed, source, cfg.uncompressedPath, k);
    }
  }

  lemma ActFrameMove(cfg: Config, m: Tree, cache: set<(string, string)>, source: string, dest: string,
                     codec: CodecResult, now: int, k: string)
    requires k in m && k != source && k != Dirname(source)
    requires !EndsWith(Lower(source), ".webp") && !ShouldCompress(m, source, cfg.minFileSizeKb)
    requires RenameOp(m, source, dest).Some?
    ensures k in ActOp(cfg, m, cache, source, dest, codec, now).fs
    ensures k != dest ==> ActOp(cfg, m, cache, source, dest, codec, now).fs[k] == m[k]
  {
    var moved := RenameOp(m, source, dest).value;
    assert k in moved && (k != dest ==> moved[k] == m[k]);
    CleanupKeeps(moved, source, cfg.uncompressedPath, k);
  }

  /** The action step keeps every entry other than the source, its
      directory, the destination and the WebP destination, and deletes no
      entry but the source and its directory. */
  lemma ActFrame(cfg: Config, m: Tree, cache: set<(string, string)>, source: string, dest: string,
                 codec: CodecResult, now: int, k: string)
    requires k in m && k != source && k != Dirname(source)
    ensures k in ActOp(cfg, m, cache, source, dest, codec, now).fs
    ensures k != dest && k != EnsureWebpExtension(dest) ==>
              ActOp(cfg, m, cache, source, dest, codec, now).fs[k] == m[k]
  {
    if EndsWith(Lower(source), ".webp") {
    } else if ShouldCompress(m, source, cfg.minFileSizeKb) {
      ActFrameCompress(cfg, m, cache, source, dest, codec, now, k);
    } else if RenameOp(m, source, dest).Some? {
      ActFrameMove(cfg, m, cache, source, dest, codec, now, k);
    }
  }

  /** Processing a file deletes at most the source and its directory, and
      changes no entry other than those, the destination and the WebP
      destination. */
  lemma ProcessFrame(cfg: Config, m: Tree, cache: set<(string, string)>, source: string, dest: string,
                     polls: seq<Poll>, codec: CodecResult, now: int, k: string)
    requires k in m && k != source && k != Dirname(source)
    ensures k in ProcessFileOp(cfg, m, cache, source, dest, polls, codec, now).fs
    ensures k != dest && k != EnsureWebpExtension(dest) ==>
              ProcessFileOp(cfg, m, cache, source, dest, polls, codec, now).fs[k] == m[k]
  {
    if FileAt(m, source) && !(cfg.skipExistingFiles && DestinationTaken(m, dest)) && Settles(polls) {
      PrepareDirGrows(m, dest, now);
      if PrepareDirOp(m, dest, now).0 {
        ActFrame(cfg, Prepared(m, dest, now), cache, source, dest, codec, now, k);
      }
    }
  }

  // ---------------------------------------------------------------------
  // Batches.

  /** What the environment does for one file of a batch. */
  datatype Observation = Observation(polls: seq<Poll>, codec: CodecResult)

  datatype BatchState = BatchState(results: seq<bool>, fs: Tree, cache: set<(string, string)>)

  /** The files of a batch processed one after another. */
  function BatchOp(cfg: Config, m: Tree, cache: set<(string, string)>, pairs: seq<(string, string)>,
                   obs: seq<Observation>, now: int): (r: BatchState)
    requires |obs| == |pairs|
    ensures |r.results| == |pairs|
    decreases |pairs|
  {
    if pairs == [] then BatchState([], m, cache)
    else
      var n := |pairs| - 1;
      var prev := BatchOp(cfg, m, cache, pairs[..n], obs[..n], now);
      var s := ProcessFileOp(cfg, prev.fs, prev.cache, pairs[n].0, pairs[n].1, obs[n].polls, obs[n].codec, now);
      BatchState(prev.results + [s.ok], s.fs, s.cache)
  }

  /** One more pair of the batch is one more `process_file`. */
  lemma BatchStep(cfg: Config, m: Tree, cache: set<(string, string)>, pairs: seq<(string, string)>,
                  obs: seq<Observation>, i: int, now: int, prev: BatchState)
    requires |obs| == |pairs| && 0 <= i < |pairs|
    requires prev == BatchOp(cfg, m, cache, pairs[..i], obs[..i], now)
    ensures var s := ProcessFileOp(cfg, prev.fs, prev.cache, pairs[i].0, pairs[i].1, obs[i].polls, obs[i].codec, now);
      BatchOp(cfg, m, cache, pairs[..i + 1], obs[..i + 1], now) == BatchState(prev.results + [s.ok], s.fs, s.cache)
  {
    assert pairs[..i + 1][..i] == pairs[..i] && obs[..i + 1][..i] == obs[..i];
  }

  /** The number of `true` results. */
  function CountTrue(results: seq<bool>): (n: nat)
    ensures n <= |results|
  {
    if results == [] then 0 else CountTrue(results[..|results| - 1]) + (if results[|results| - 1] then 1 else 0)
  }

  /** `process_batch`'s summary: successes are the results that are
      exactly `true`, failures are all the others. */
  function Tally(results: seq<bool>): (t: (nat, nat))
    ensures t.0 + t.1 == |results|
  {
    (CountTrue(results), |results| - CountTrue(results))
  }

  lemma {:induction false} CountTrueBounds(results: seq<bool>)
    ensures CountTrue(results) == |results| <==> forall i :: 0 <= i < |results| ==> results[i]
    ensures CountTrue(results) == 0 <==> forall i :: 0 <= i < |results| ==> !results[i]
  {
    if results != [] {
      var init := results[..|results| - 1];
      CountTrueBounds(init);
      assert forall i :: 0 <= i < |init| ==> init[i] == results[i];
    }
  }

  /** An empty batch tallies `{0, 0}`; success and failure counts always
      add up to the batch size; all-true results are all successes and
      all-false results are all failures. */
  lemma TallyFacts(results: seq<bool>)
    ensures results == [] ==> Tally(results) == (0, 0)
    ensures Tally(results).0 + Tally(results).1 == |results|
    ensures Tally(results).1 == 0 <==> forall i :: 0 <= i < |results| ==> results[i]
    ensures Tally(results).0 == 0 <==> forall i :: 0 <= i < |results| ==> !results[i]
  {
    CountTrueBounds(results);
  }

  /** One more result adds to exactly one of the two counts. */
  lemma TallyAppend(results: seq<bool>, b: bool)
    ensures Tally(results + [b]) == if b then (Tally(results).0 + 1, Tally(results).1)
                                    else (Tally(results).0, Tally(results).1 + 1)
  {
    assert (results + [b])[..|results|] == results;
  }

  // ---------------------------------------------------------------------
  // The object.

  class FileProcessor {
    const config: Config
    const compressor: ImageCompressor

    constructor (config: Config, compressor: ImageCompressor)
      ensures this.config == config && this.compressor == compressor
    {
      this.config := config;
      this.compressor := compressor;
    }

    /** `wait_for_file_ready`: poll until two consecutive polls read the
        same positive size, the file is gone or unreadable, or the polls
        (the timeout) run out. */
    method WaitForFileReady(polls: seq<Poll>) returns (ready: bool)
      ensures ready == Settles(polls)
    {
      var lastSize := -1;
      var i := 0;
      while i < |polls|
        invariant 0 <= i <= |polls|
        invariant Settles(polls) == WaitFrom(polls[i..], lastSize)
        decreases |polls| - i
      {
        assert polls[i..][1..] == polls[i + 1..];
        match polls[i]
        case Missing =>
          return false;
        case Unreadable =>
          return false;
        case Sized(currentSize) =>
          if currentSize == lastSize && currentSize > 0 {
            return true;
          }
          lastSize := currentSize;
        i := i + 1;
      }
      return false;
    }

    /** `_cleanup_empty_directory(file)` */
    method CleanupEmptyDirectory(fs: FileSystem, filePath: string)
      modifies fs
      ensures fs.entries == CleanupParentOp(old(fs.entries), filePath, config.uncompressedPath)
    {
      var parentDir := Dirname(filePath);
      if NormPath(parentDir) == NormPath(config.uncompressedPath) {
        return;
      }
      if fs.Exists(parentDir) && fs.Listdir(parentDir) == Some({}) {
        var _ := fs.Rmdir(parentDir);
      }
    }

    /** `process_file(source, dest)` */
    method ProcessFile(fs: FileSystem, source: string, dest: string, polls: seq<Poll>, codec: CodecResult, now: int)
      returns (ok: bool)
      modifies fs, compressor
      ensures ProcessStep(ok, fs.entries, compressor.cache) ==
              ProcessFileOp(config, old(fs.entries), old(compressor.cache), source, dest, polls, codec, now)
    {
      if !fs.Exists(source) {
        return false;
      }
      if fs.IsDir(source) {
        return false;
      }
      if config.skipExistingFiles {
        var destWebp := EnsureWebpExtension(dest);
        if fs.Exists(dest) || fs.Exists(destWebp) {
          if fs.Exists(source) {
            ok := fs.Remove(source);
            return;
          }
          return true;
        }
      }
      var ready := WaitForFileReady(polls);
      if !ready {
        return false;
      }
      var destDir := Dirname(dest);
      if !fs.Exists(destDir) {
        ok := fs.Makedirs(destDir, true, now);
        if !ok {
          return;
        }
      }
      ok := Act(fs, source, dest, codec, now);
    }

    /** The part of `process_file` after the destination directory is
        ready. */
    method Act(fs: FileSystem, source: string, dest: string, codec: CodecResult, now: int) returns (ok: bool)
      modifies fs, compressor
      ensures ProcessStep(ok, fs.entries, compressor.cache) ==
              ActOp(config, old(fs.entries), old(compressor.cache), source, dest, codec, now)
    {
      if EndsWith(Lower(source), ".webp") {
        ok := fs.Rename(source, dest);
        return;
      }
      if ShouldCompress(fs.entries, source, config.minFileSizeKb) {
        var success := compressor.Compress(fs, source, dest, codec, now);
        if success {
          if fs.Exists(source) {
            var removed := fs.Remove(source);
            if !removed {
              return false;
            }
          }
        } else {
          return false;
        }
      } else {
        var size := fs.GetSize(source);
        if size.None? {
          return false;
        }
        var moved := fs.Rename(source, dest);
        if !moved {
          return false;
        }
      }
      CleanupEmptyDirectory(fs, source);
      return true;
    }

    /** `process_batch(pairs)`, one file after another, returning the
        success and failure counts. */
    method ProcessBatch(fs: FileSystem, pairs: seq<(string, string)>, obs: seq<Observation>, now: int)
      returns (success: nat, failed: nat)
      requires |obs| == |pairs|
      modifies fs, compressor
      ensures var b := BatchOp(config, old(fs.entries), old(compressor.cache), pairs, obs, now);
        && (success, failed) == Tally(b.results)
        && fs.entries == b.fs && compressor.cache == b.cache
    {
      if pairs == [] {
        return 0, 0;
      }
      ghost var m0 := fs.entries;
      ghost var c0 := compressor.cache;
      var results: seq<bool> := [];
      var i := 0;
      while i < |pairs|
        invariant 0 <= i <= |pairs|
        invariant BatchOp(config, m0, c0, pairs[..i], obs[..i], now) == BatchState(results, fs.entries, compressor.cache)
        decreases |pairs| - i
      {
        ghost var prev := BatchState(results, fs.entries, compressor.cache);
        var r := ProcessFile(fs, pairs[i].0, pairs[i].1, obs[i].polls, obs[i].codec, now);
        results := results + [r];
        BatchStep(config, m0, c0, pairs, obs, i, now, prev);
        i := i + 1;
      }
      assert pairs[..i] == pairs && obs[..i] == obs;
      success := CountTrue(results);
      failed := |results| - success;
    }
  }
}
