/**
 * The older event handler and per-file workflow (`legacy/file_handler.py`):
 * a duplicate cache shared by every handler, an event filter without a
 * directory test, a stability wait that accepts an empty file, and a
 * `handle_file` that checks `.webp`, then the size, then the image
 * extension, all case-sensitively, and swallows every error.
 */
module LegacyHandling {
  import opened Wrappers
  import opened PathOps
  import opened Fs
  import opened Jobs
  import opened Configuration
  import opened Compression
  import opened Processing
  import opened Walks
  import opened Watching

  // ---------------------------------------------------------------------
  // Events.

  /** The legacy handler's destination: a regular file directly in the
      root goes to its month bucket, anything else is mirrored by replacing
      every occurrence of the root. */
  function LegacyDestination(m: Tree, dirPath: string, newDirPath: string, path: string): string {
    if dirPath == Dirname(path) && FileAt(m, path)
    then MonthDest(newDirPath, m[path].mtime, Basename(path))
    else ReplaceAll(path, dirPath, newDirPath)
  }

  /** It resolves every path as the current watcher does. */
  lemma LegacyDestinationAgrees(m: Tree, dirPath: string, newDirPath: string, path: string)
    ensures LegacyDestination(m, dirPath, newDirPath, path) == ResolveDestination(m, dirPath, newDirPath, path)
  {
  }

  /** `FileChangeHandler.on_modified`: a repeated `(second, path)` key is
      dropped; anything else, directories included, is recorded and queued
      with its destination. */
  function LegacyOnModifiedOp(m: Tree, dirPath: string, newDirPath: string, s: HandlerState,
                              path: string, now: int): HandlerState {
    if (now, path) in s.cache then s
    else HandlerState(s.cache + {(now, path)}, s.queue + [(path, LegacyDestination(m, dirPath, newDirPath, path))])
  }

  /** A repeat changes nothing and a new key queues exactly one job, even
      for a directory event, which the current watcher ignores. */
  lemma LegacyOnModifiedQueuesAtMostOne(m: Tree, dirPath: string, newDirPath: string, s: HandlerState,
                                        path: string, now: int)
    ensures var r := LegacyOnModifiedOp(m, dirPath, newDirPath, s, path, now);
      && ((now, path) in s.cache ==> r == s)
      && ((now, path) !in s.cache ==>
            r.cache == s.cache + {(now, path)} &&
            r.queue == s.queue + [(path, ResolveDestination(m, dirPath, newDirPath, path))])
      && r == OnModifiedOp(m, dirPath, newDirPath, s, false, path, now)
      && ((now, path) !in s.cache ==> r != OnModifiedOp(m, dirPath, newDirPath, s, true, path, now))
  {
  }

  /** The class attribute `cache`: one duplicate cache for every handler.
      Its time-to-live is modelled by explicit expiry. */
  class LegacyEventCache {
    var keys: set<(int, string)>

    constructor ()
      ensures keys == {}
    {
      keys := {};
    }

    method Expire(expired: set<(int, string)>)
      modifies this
      ensures keys == old(keys) - expired
    {
      keys := keys - expired;
    }
  }

  class FileChangeHandler {
    const dirPath: string
    const newDirPath: string
    const queue: JobQueue
    const cache: LegacyEventCache

    /** A new handler shares the cache it is given instead of making one. */
    constructor (dirPath: string, newDirPath: string, queue: JobQueue, cache: LegacyEventCache)
      ensures this.dirPath == dirPath && this.newDirPath == newDirPath
      ensures this.queue == queue && this.cache == cache
    {
      this.dirPath := dirPath;
      this.newDirPath := newDirPath;
      this.queue := queue;
      this.cache := cache;
    }

    method OnModified(fs: FileSystem, path: string, now: int)
      modifies cache, queue
      ensures HandlerState(cache.keys, queue.items)
              == LegacyOnModifiedOp(fs.entries, dirPath, newDirPath, HandlerState(old(cache.keys), old(queue.items)), path, now)
    {
      var key := (now, path);
      if key in cache.keys {
        return;
      }
      cache.keys := cache.keys + {key};
      var dest: string;
      if dirPath == Dirname(path) && fs.IsFile(path) {
        dest := MonthDest(newDirPath, fs.entries[path].mtime, Basename(path));
      } else {
        dest := ReplaceAll(path, dirPath, newDirPath);
      }
      queue.PutNowait((path, dest));
    }
  }

  /** Because the cache is shared, an event one handler has queued is
      dropped by every other handler in the same second. */
  method SharedCacheAcrossHandlers(fs: FileSystem, first: FileChangeHandler, second: FileChangeHandler,
                                   path: string, now: int)
    requires first.cache == second.cache && first.queue != second.queue
    requires (now, path) !in first.cache.keys
    modifies first.cache, first.queue, second.queue
    ensures |first.queue.items| == |old(first.queue.items)| + 1
    ensures second.queue.items == old(second.queue.items)
  {
    first.OnModified(fs, path, now);
    second.OnModified(fs, path, now);
  }

  // ---------------------------------------------------------------------
  // The legacy stability wait.

  /** How the legacy wait ends: ready, not ready (gone or timed out), or
      with the exception `getsize` raised. */
  datatype WaitOutcome = Ready | NotReady | Raised

  /** The legacy loop from a given previous size: no positive-size guard,
      and a failed size read is not caught. */
  function LegacyWaitFrom(polls: seq<Poll>, last: int): WaitOutcome
    decreases |polls|
  {
    if polls == [] then NotReady
    else match polls[0]
      case Missing => NotReady
      case Unreadable => Raised
      case Sized(n) => if n == last then Ready else LegacyWaitFrom(polls[1..], n)
  }

  /** Legacy `wait_for_file_ready`; the previous size starts at -1. */
  function LegacyWait(polls: seq<Poll>): WaitOutcome {
    LegacyWaitFrom(polls, -1)
  }

  /** Poll `i` repeats the size of the poll before it (`last` for poll 0),
      every poll up to it read a size. */
  predicate SameFrom(polls: seq<Poll>, last: int, i: int) {
    0 <= i < |polls| &&
    (forall j :: 0 <= j <= i ==> polls[j].Sized?) &&
    polls[i].size == (if i == 0 then last else polls[i - 1].size)
  }

  /** Every size read up to and including poll `i`. */
  predicate SizedUpTo(polls: seq<Poll>, i: int) {
    i < |polls| && forall j :: 0 <= j <= i ==> polls[j].Sized?
  }

  lemma {:induction false} LegacyWaitFromIff(polls: seq<Poll>, last: int)
    ensures LegacyWaitFrom(polls, last) == Ready <==> exists i :: SameFrom(polls, last, i)
    decreases |polls|
  {
    if polls != [] && polls[0].Sized? {
      var n := polls[0].size;
      if n != last {
        var rest := polls[1..];
        LegacyWaitFromIff(rest, n);
        if LegacyWaitFrom(rest, n) == Ready {
          var i :| SameFrom(rest, n, i);
          assert SameFrom(polls, last, i + 1) by {
            forall j | 0 <= j <= i + 1 ensures polls[j].Sized? {
              if j > 0 { assert polls[j] == rest[j - 1]; }
            }
          }
        } else {
          forall i | 0 <= i < |polls| ensures !SameFrom(polls, last, i) {
            if i > 0 && SameFrom(polls, last, i) {
              assert SameFrom(rest, n, i - 1) by {
                forall j | 0 <= j <= i - 1 ensures rest[j].Sized? {
                  assert rest[j] == polls[j + 1];
                }
              }
            }
          }
        }
      } else {
        assert SameFrom(polls, last, 0);
      }
    } else if polls != [] {
      assert forall i :: SameFrom(polls, last, i) ==> polls[0].Sized?;
    }
  }

  /** The legacy wait is ready exactly when, before any poll failed, two
      consecutive polls read the same size, zero included. */
  lemma LegacyWaitIff(polls: seq<Poll>)
    ensures LegacyWait(polls) == Ready <==>
            exists i :: 1 <= i < |polls| && SizedUpTo(polls, i) && polls[i].size == polls[i - 1].size
  {
    LegacyWaitFromIff(polls, -1);
    if LegacyWait(polls) == Ready {
      var i :| SameFrom(polls, -1, i);
      assert 1 <= i < |polls| && SizedUpTo(polls, i) && polls[i].size == polls[i - 1].size;
    }
    if exists i :: 1 <= i < |polls| && SizedUpTo(polls, i) && polls[i].size == polls[i - 1].size {
      var i :| 1 <= i < |polls| && SizedUpTo(polls, i) && polls[i].size == polls[i - 1].size;
      assert SameFrom(polls, -1, i);
    }
  }

  /** Whatever the current wait accepts the legacy wait accepts too, and it
      also accepts an empty file, which the current wait never does. */
  lemma LegacyWaitIsLaxer(polls: seq<Poll>)
    ensures Settles(polls) ==> LegacyWait(polls) == Ready
    ensures LegacyWait([Sized(0), Sized(0)]) == Ready && !Settles([Sized(0), Sized(0)])
  {
    SettlesIff(polls);
    LegacyWaitIff(polls);
    if Settles(polls) {
      var i :| StableAt(polls, i);
      assert 1 <= i < |polls| && SizedUpTo(polls, i) && polls[i].size == polls[i - 1].size;
    }
    var z := [Sized(0), Sized(0)];
    assert z[1..] == [Sized(0)];
    assert LegacyWaitFrom(z[1..], 0) == Ready;
  }

  /** The wait loop, returning how it ended. */
  method LegacyWaitForFileReady(polls: seq<Poll>) returns (outcome: WaitOutcome)
    ensures outcome == LegacyWait(polls)
  {
    var lastSize := -1;
    var i := 0;
    while i < |polls|
      invariant 0 <= i <= |polls|
      invariant LegacyWait(polls) == LegacyWaitFrom(polls[i..], lastSize)
      decreases |polls| - i
    {
      assert polls[i..][1..] == polls[i + 1..];
      match polls[i]
      case Missing =>
        return NotReady;
      case Unreadable =>
        return Raised;
      case Sized(currentSize) =>
        if currentSize == lastSize {
          return Ready;
        }
        lastSize := currentSize;
      i := i + 1;
    }
    return NotReady;
  }

  // ---------------------------------------------------------------------
  // handle_file.

  /** What the legacy encoder call does: it raises, or it returns, having
      written a WebP file or not as the verdict says. */
  datatype LegacyCall = CallRaised | CallReturned(codec: CodecResult)

  /** The check that decided the file's fate. */
  datatype Route =
    | BadConfig      // `Config.from_env()` raised
    | NoSource       // the source does not exist
    | Directory      // the source is a directory
    | Unsettled      // the wait did not report ready
    | NoDestDir      // `makedirs` raised
    | AsWebp         // the name ends in `.webp`
    | NoSize         // `getsize` raised
    | TooSmall       // below the size threshold
    | NotImage       // no `.jpg`, `.jpeg` or `.png` ending
    | Compress       // handed to the encoder

  /** The route taken and the filesystem afterwards. */
  datatype LegacyStep = LegacyStep(route: Route, fs: Tree)

  /** The case-sensitive image test `endswith(('.jpg', '.jpeg', '.png'))`. */
  predicate LegacyImageName(p: string) {
    EndsWith(p, ".jpg") || EndsWith(p, ".jpeg") || EndsWith(p, ".png")
  }

  /** The legacy prune: list the file's directory (an error ends it), and
      remove it when the listing is empty and it is not the root after
      `normpath`. */
  function LegacyPruneOp(m: Tree, file: string, root: string): Tree {
    var parent := Dirname(file);
    match ListdirOp(m, parent)
    case None => m
    case Some(names) =>
      if names == {} && NormPath(parent) != NormPath(root) then RmdirOp(m, parent).GetOr(m) else m
  }

  /** It prunes exactly as the current `_cleanup_empty_directory` does. */
  lemma LegacyPruneAgrees(m: Tree, file: string, root: string)
    ensures LegacyPruneOp(m, file, root) == CleanupParentOp(m, file, root)
  {
  }

  /** The destination directory, made with `makedirs` (no `exist_ok`) when
      it does not exist. */
  function LegacyPrepareOp(m: Tree, dest: string, now: int): (bool, Tree) {
    if Present(m, Dirname(dest)) then (true, m) else MakedirsOp(m, Dirname(dest), false, now)
  }

  /** Everything after the destination directory is ready. */
  function LegacyActOp(cfg: Config, m: Tree, source: string, dest: string, call: LegacyCall, now: int): LegacyStep {
    if EndsWith(source, ".webp") then LegacyStep(AsWebp, RenameOp(m, source, dest).GetOr(m))
    else match SizeOf(m, source)
      case None => LegacyStep(NoSize, m)
      case Some(size) =>
        if size < cfg.minFileSizeKb * 1024 then LegacyStep(TooSmall, RenameOp(m, source, dest).GetOr(m))
        else if !LegacyImageName(source) then
          match RenameOp(m, source, dest)
          case None => LegacyStep(NotImage, m)
          case Some(m') => LegacyStep(NotImage, LegacyPruneOp(m', source, cfg.uncompressedPath))
        else match call
          case CallRaised => LegacyStep(Compress, m)
          case CallReturned(codec) =>
            var w := EncodeOp(m, source, EnsureWebpExtension(dest), codec, now).1;
            match RemoveOp(w, source)
            case None => LegacyStep(Compress, w)
            case Some(w') => LegacyStep(Compress, LegacyPruneOp(w', source, cfg.uncompressedPath))
  }

  /** `handle_file(source, dest)` with the environment, the polls and the
      encoder call given: the configuration is loaded first, and an error
      loading it ends the call. */
  function HandleFileOp(env: Env, m: Tree, source: string, dest: string, polls: seq<Poll>,
                        call: LegacyCall, now: int): LegacyStep
  {
    match FromEnv(env)
    case Err(_) => LegacyStep(BadConfig, m)
    case Ok(cfg) => HandleConfiguredOp(cfg, m, source, dest, polls, call, now)
  }

  /** The rest of `handle_file` once the configuration is loaded. */
  function HandleConfiguredOp(cfg: Config, m: Tree, source: string, dest: string, polls: seq<Poll>,
                              call: LegacyCall, now: int): LegacyStep
  {
    if !Present(m, source) then LegacyStep(NoSource, m)
    else if DirAt(m, source) then LegacyStep(Directory, m)
    else if LegacyWait(polls) != Ready then LegacyStep(Unsettled, m)
    else
      var prep := LegacyPrepareOp(m, dest, now);
      if !prep.0 then LegacyStep(NoDestDir, prep.1)
      else LegacyActOp(cfg, prep.1, source, dest, call, now)
  }

  /** A configuration that fails to load ends the call with no change;
      otherwise the loaded configuration decides the rest. */
  lemma HandleFileLoadsConfig(env: Env, m: Tree, source: string, dest: string, polls: seq<Poll>,
                              call: LegacyCall, now: int)
    ensures var r := HandleFileOp(env, m, source, dest, polls, call, now);
      && (r.route == BadConfig <==> FromEnv(env).Err?)
      && (FromEnv(env).Err? ==> r.fs == m)
      && (FromEnv(env).Ok? ==> r == HandleConfiguredOp(FromEnv(env).value, m, source, dest, polls, call, now))
  {
    if FromEnv(env).Ok? {
      ConfiguredNeverBadConfig(FromEnv(env).value, m, source, dest, polls, call, now);
    }
  }

  lemma ConfiguredNeverBadConfig(cfg: Config, m: Tree, source: string, dest: string, polls: seq<Poll>,
                                 call: LegacyCall, now: int)
    ensures HandleConfiguredOp(cfg, m, source, dest, polls, call, now).route != BadConfig
  {
    if FileAt(m, source) && LegacyWait(polls) == Ready && LegacyPrepareOp(m, dest, now).0 {
      ActRoutes(cfg, LegacyPrepareOp(m, dest, now).1, source, dest, call, now);
    }
  }

  /** The source is a regular file, it settled, and the destination
      directory is there. */
  predicate LegacyReachesAct(m: Tree, source: string, dest: string, polls: seq<Poll>, now: int) {
    FileAt(m, source) && LegacyWait(polls) == Ready && LegacyPrepareOp(m, dest, now).0
  }

  /** The tree once the destination directory is made. */
  function LegacyPrepared(m: Tree, dest: string, now: int): Tree {
    LegacyPrepareOp(m, dest, now).1
  }

  /** Making the destination directory keeps every entry, the source
      included. */
  lemma LegacyPrepareKeepsSource(m: Tree, source: string, dest: string, now: int)
    ensures Grows(m, LegacyPrepared(m, dest, now))
    ensures FileAt(m, source) ==> FileAt(LegacyPrepared(m, dest, now), source) &&
                                  LegacyPrepared(m, dest, now)[source] == m[source]
  {
  }

  /** The checks before the destination directory come in this order:
      existence, directory, readiness; the early exits change nothing, and
      a failed `makedirs` keeps only the directories it made. */
  lemma HandleFileEarlyExits(cfg: Config, m: Tree, source: string, dest: string, polls: seq<Poll>,
                             call: LegacyCall, now: int)
    ensures var r := HandleConfiguredOp(cfg, m, source, dest, polls, call, now);
      && (r.route == NoSource <==> !Present(m, source))
      && (Present(m, source) ==> (r.route == Directory <==> DirAt(m, source)))
      && (FileAt(m, source) ==> (r.route == Unsettled <==> LegacyWait(polls) != Ready))
      && (FileAt(m, source) && LegacyWait(polls) == Ready ==> (r.route == NoDestDir <==> !LegacyPrepareOp(m, dest, now).0))
      && (r.route in {NoSource, Directory, Unsettled} ==> r.fs == m)
      && (r.route == NoDestDir ==> Grows(m, r.fs) && r.fs[source] == m[source])
      && (LegacyReachesAct(m, source, dest, polls, now) ==>
            r == LegacyActOp(cfg, LegacyPrepared(m, dest, now), source, dest, call, now))
  {
    if LegacyReachesAct(m, source, dest, polls, now) {
      ActRoutes(cfg, LegacyPrepared(m, dest, now), source, dest, call, now);
    }
  }

  /** After the destination directory, `.webp` is checked before the size
      and the size before the image name, all case-sensitively. */
  lemma ActRoutes(cfg: Config, p: Tree, source: string, dest: string, call: LegacyCall, now: int)
    ensures var r := LegacyActOp(cfg, p, source, dest, call, now);
      && r.route in {AsWebp, NoSize, TooSmall, NotImage, Compress}
      && (FileAt(p, source) ==>
            var min := cfg.minFileSizeKb * 1024;
            && (r.route == AsWebp <==> EndsWith(source, ".webp"))
            && (r.route == TooSmall <==> !EndsWith(source, ".webp") && p[source].size < min)
            && (r.route == NotImage <==> !EndsWith(source, ".webp") && p[source].size >= min && !LegacyImageName(source))
            && (r.route == Compress <==> !EndsWith(source, ".webp") && p[source].size >= min && LegacyImageName(source)))
  {
  }

  /** A file whose name ends in upper-case `.JPG` is neither moved as WebP
      nor compressed: being large enough, it is moved as a non-image. */
  lemma UpperCaseNamesAreNotImages(cfg: Config, p: Tree, dest: string, call: LegacyCall, now: int)
    requires FileAt(p, "A.JPG") && p["A.JPG"].size >= cfg.minFileSizeKb * 1024
    ensures LegacyActOp(cfg, p, "A.JPG", dest, call, now).route == NotImage
  {
    ActRoutes(cfg, p, "A.JPG", dest, call, now);
    var s := "A.JPG";
    assert !EndsWith(s, ".webp") by { assert s[|s| - 5..] == s; }
    assert !EndsWith(s, ".jpg") by { assert s[|s| - 4..][1] == 'J'; }
    assert !EndsWith(s, ".jpeg") by { assert s[|s| - 5..] == s; }
    assert !EndsWith(s, ".png") by { assert s[|s| - 4..][1] == 'J'; }
  }

  /** A `.webp` source and a too-small one are renamed and nothing else
      happens: their directory is not pruned. */
  lemma EarlyMovesSkipPrune(cfg: Config, p: Tree, source: string, dest: string, call: LegacyCall, now: int)
    ensures var r := LegacyActOp(cfg, p, source, dest, call, now);
      r.route in {AsWebp, TooSmall} ==> r.fs == RenameOp(p, source, dest).GetOr(p)
  {
  }

  /** A non-image is renamed and then its directory is pruned; when the
      rename fails nothing changes. */
  lemma NotImageMovedThenPruned(cfg: Config, p: Tree, source: string, dest: string, call: LegacyCall, now: int)
    ensures var r := LegacyActOp(cfg, p, source, dest, call, now);
      r.route == NotImage ==>
        r.fs == (match RenameOp(p, source, dest)
                 case None => p
                 case Some(moved) => CleanupParentOp(moved, source, cfg.uncompressedPath))
  {
    if RenameOp(p, source, dest).Some? {
      LegacyPruneAgrees(RenameOp(p, source, dest).value, source, cfg.uncompressedPath);
    }
  }

  /** Names with an image ending cannot be WebP names. */
  lemma ImageNameIsNotWebp(p: string, w: string)
    requires LegacyImageName(p) && EndsWith(w, ".webp")
    ensures p != w
  {
    assert p[|p| - 1] == 'g';
    assert w[|w| - 1] == 'p';
  }

  /** On the compress route the source is removed whenever the encoder
      call returns, whether or not it wrote anything, and kept when it
      raises. */
  lemma CompressRemovesSourceUnlessRaised(cfg: Config, p: Tree, source: string, dest: string, call: LegacyCall, now: int)
    requires FileAt(p, source)
    ensures var r := LegacyActOp(cfg, p, source, dest, call, now);
      r.route == Compress ==>
        && (call.CallRaised? ==> r.fs == p)
        && (call.CallReturned? ==> source !in r.fs)
  {
    var r := LegacyActOp(cfg, p, source, dest, call, now);
    if r.route == Compress && call.CallReturned? {
      ActRoutes(cfg, p, source, dest, call, now);
      var webp := EnsureWebpExtension(dest);
      var w := EncodeOp(p, source, webp, call.codec, now).1;
      ImageNameIsNotWebp(source, webp);
      assert FileAt(w, source);
      var w' := RemoveOp(w, source).value;
      assert source !in w';
      CleanupParentRemovesOnlyParent(w', source, cfg.uncompressedPath);
      LegacyPruneAgrees(w', source, cfg.uncompressedPath);
    }
  }

  /** The source's directory survives when it is the root, spelled in any
      way `normpath` equates. */
  lemma HandleFileKeepsRoot(cfg: Config, p: Tree, source: string, dest: string, call: LegacyCall, now: int)
    requires NormPath(Dirname(source)) == NormPath(cfg.uncompressedPath)
    requires DirAt(p, Dirname(source))
    ensures DirAt(LegacyActOp(cfg, p, source, dest, call, now).fs, Dirname(source))
  {
    var d := Dirname(source);
    var root := cfg.uncompressedPath;
    var moved := RenameOp(p, source, dest).GetOr(p);
    OperationsKeepDir(p, source, dest, d);
    LegacyPruneAgrees(moved, source, root);
    CleanupParentKeepsRoot(moved, source, root);
    if call.CallReturned? {
      var w := EncodeOp(p, source, EnsureWebpExtension(dest), call.codec, now).1;
      EncodeKeepsDir(p, source, EnsureWebpExtension(dest), call.codec, now, d);
      OperationsKeepDir(w, source, dest, d);
      var w' := RemoveOp(w, source).GetOr(w);
      LegacyPruneAgrees(w', source, root);
      CleanupParentKeepsRoot(w', source, root);
    }
  }

  /** A rename or a removal keeps every directory. */
  lemma OperationsKeepDir(m: Tree, source: string, dest: string, d: string)
    requires DirAt(m, d)
    ensures DirAt(RenameOp(m, source, dest).GetOr(m), d)
    ensures DirAt(RemoveOp(m, source).GetOr(m), d)
  {
  }

  /** The encoder's write keeps every directory. */
  lemma EncodeKeepsDir(m: Tree, source: string, destWebp: string, codec: CodecResult, now: int, d: string)
    requires DirAt(m, d)
    ensures DirAt(EncodeOp(m, source, destWebp, codec, now).1, d)
  {
  }

  // ---------------------------------------------------------------------
  // The imperative workflow.

  /** The encoder's write, as the legacy call performs it. */
  method Encode(fs: FileSystem, source: string, destWebp: string, codec: CodecResult, now: int)
    modifies fs
    ensures fs.entries == EncodeOp(old(fs.entries), source, destWebp, codec, now).1
  {
    if !fs.Exists(source) {
      return;
    }
    match codec
    case CodecFailed =>
    case Encoded(size) =>
      if destWebp != [] && !fs.IsDir(destWebp) && ParentReady(fs.entries, destWebp) {
        var _ := fs.WriteFile(destWebp, size, now);
      }
  }

  /** The legacy prune on the filesystem object. */
  method LegacyPrune(fs: FileSystem, file: string, root: string)
    modifies fs
    ensures fs.entries == LegacyPruneOp(old(fs.entries), file, root)
  {
    var parentDir := Dirname(file);
    var names := fs.Listdir(parentDir);
    if names.Some? && names.value == {} && NormPath(parentDir) != NormPath(root) {
      var _ := fs.Rmdir(parentDir);
    }
  }

  /** `handle_file(source, dest)`; every error ends the call quietly. */
  method HandleFile(fs: FileSystem, env: Env, source: string, dest: string, polls: seq<Poll>,
                    call: LegacyCall, now: int)
    modifies fs
    ensures fs.entries == HandleFileOp(env, old(fs.entries), source, dest, polls, call, now).fs
  {
    var loaded := FromEnv(env);
    if loaded.Err? {
      return;
    }
    HandleConfigured(fs, loaded.value, source, dest, polls, call, now);
  }

  /** `handle_file` after `Config.from_env()` returned. */
  method HandleConfigured(fs: FileSystem, config: Config, source: string, dest: string, polls: seq<Poll>,
                          call: LegacyCall, now: int)
    modifies fs
    ensures fs.entries == HandleConfiguredOp(config, old(fs.entries), source, dest, polls, call, now).fs
  {
    if !fs.Exists(source) {
      return;
    }
    if fs.IsDir(source) {
      return;
    }
    var ready := LegacyWaitForFileReady(polls);
    if ready != Ready {
      return;
    }
    var destDir := Dirname(dest);
    if !fs.Exists(destDir) {
      var made := fs.Makedirs(destDir, false, now);
      if !made {
        return;
      }
    }
    HandleReadyFile(fs, config, source, dest, call, now);
  }

  /** The part of `handle_file` after the destination directory is ready. */
  method HandleReadyFile(fs: FileSystem, config: Config, source: string, dest: string, call: LegacyCall, now: int)
    modifies fs
    ensures fs.entries == LegacyActOp(config, old(fs.entries), source, dest, call, now).fs
  {
    if EndsWith(source, ".webp") {
      var _ := fs.Rename(source, dest);
      return;
    }
    var size := fs.GetSize(source);
    if size.None? {
      return;
    }
    if size.value < config.minFileSizeKb * 1024 {
      var _ := fs.Rename(source, dest);
      return;
    }
    if !LegacyImageName(source) {
      var moved := fs.Rename(source, dest);
      if !moved {
        return;
      }
    } else {
      match call
      case CallRaised =>
        return;
      case CallReturned(codec) =>
        Encode(fs, source, EnsureWebpExtension(dest), codec, now);
        var removed := fs.Remove(source);
        if !removed {
          return;
        }
    }
    LegacyPrune(fs, source, config.uncompressedPath);
  }
}
